/** Filtering a fixed allow-list of file names by what the existence check says
    of each, keeping the allow-list's order. */
module Listing {
  import opened FileSystem

  /** The entries of `names`, in order, whose existence check under `dir` gives `want`. */
  function Select(fs: FileSystem, dir: Path, names: seq<string>, want: Lookup): seq<string>
    decreases |names|
  {
    if names == [] then []
    else
      var last := names[|names| - 1];
      Select(fs, dir, names[..|names| - 1], want) + (if Exists(fs, dir, last) == want then [last] else [])
  }

  /** One more step of a scan over `names`: the next entry is kept or not. */
  lemma SelectSnoc(fs: FileSystem, dir: Path, names: seq<string>, i: int, want: Lookup)
    requires 0 <= i < |names|
    ensures Select(fs, dir, names[..i + 1], want) ==
      Select(fs, dir, names[..i], want) + (if Exists(fs, dir, names[i]) == want then [names[i]] else [])
  {
    assert names[..i + 1][..i] == names[..i];
  }

  /** One more step of a scan over `names`: a failure so far, or at the next entry. */
  lemma RaisesSnoc(fs: FileSystem, dir: Path, names: seq<string>, i: int)
    requires 0 <= i < |names|
    ensures LookupRaises(fs, dir, names[..i + 1]) <==> LookupRaises(fs, dir, names[..i]) || Exists(fs, dir, names[i]) == Raised
    ensures ReadRaises(fs, dir, names[..i + 1]) <==> ReadRaises(fs, dir, names[..i]) || (Exists(fs, dir, names[i]) == Present && Read(fs, dir, names[i]) == ReadFailed)
  {
    assert forall k | 0 <= k < i :: names[..i + 1][k] == names[..i][k];
    assert names[..i + 1][i] == names[i];
  }

  /** Some existence check over `names` raises. */
  predicate LookupRaises(fs: FileSystem, dir: Path, names: seq<string>) {
    exists k | 0 <= k < |names| :: Exists(fs, dir, names[k]) == Raised
  }

  /** Some file of `names` exists but cannot be read. */
  predicate ReadRaises(fs: FileSystem, dir: Path, names: seq<string>) {
    exists k | 0 <= k < |names| :: Exists(fs, dir, names[k]) == Present && Read(fs, dir, names[k]) == ReadFailed
  }

  /** Every entry of `names` exists under `dir`. */
  predicate AllPresent(fs: FileSystem, dir: Path, names: seq<string>) {
    forall k | 0 <= k < |names| :: Exists(fs, dir, names[k]) == Present
  }

  /** The positions in `names` of the entries `Select` keeps. */
  ghost function Positions(fs: FileSystem, dir: Path, names: seq<string>, want: Lookup): seq<int>
    decreases |names|
  {
    if names == [] then []
    else
      Positions(fs, dir, names[..|names| - 1], want)
        + (if Exists(fs, dir, names[|names| - 1]) == want then [|names| - 1] else [])
  }

  /** The positions are in range, strictly increasing, and are exactly those whose
      entry's lookup gives `want`. */
  lemma {:induction false} PositionsRule(fs: FileSystem, dir: Path, names: seq<string>, want: Lookup)
    ensures forall j | 0 <= j < |Positions(fs, dir, names, want)| ::
      0 <= Positions(fs, dir, names, want)[j] < |names|
    ensures forall j, j' | 0 <= j < j' < |Positions(fs, dir, names, want)| ::
      Positions(fs, dir, names, want)[j] < Positions(fs, dir, names, want)[j']
    ensures forall k | 0 <= k < |names| ::
      k in Positions(fs, dir, names, want) <==> Exists(fs, dir, names[k]) == want
    decreases |names|
  {
    if names != [] {
      var n := |names|;
      var init := names[..n - 1];
      PositionsRule(fs, dir, init, want);
      var p0, p := Positions(fs, dir, init, want), Positions(fs, dir, names, want);
      assert p[..|p0|] == p0;
      forall k | 0 <= k < n
        ensures k in p <==> Exists(fs, dir, names[k]) == want
      {
        if k < n - 1 {
          assert init[k] == names[k];
          assert k in p <==> k in p0;
        } else {
          assert n - 1 !in p0;
        }
      }
    }
  }

  /** Entry j of the selection is the entry of `names` at the j-th position. */
  lemma {:induction false} SelectAtPositions(fs: FileSystem, dir: Path, names: seq<string>, want: Lookup)
    ensures |Positions(fs, dir, names, want)| == |Select(fs, dir, names, want)|
    ensures forall j | 0 <= j < |Select(fs, dir, names, want)| ::
      0 <= Positions(fs, dir, names, want)[j] < |names| &&
      Select(fs, dir, names, want)[j] == names[Positions(fs, dir, names, want)[j]]
    decreases |names|
  {
    if names != [] {
      var n := |names|;
      var init := names[..n - 1];
      SelectAtPositions(fs, dir, init, want);
      var p0, s0 := Positions(fs, dir, init, want), Select(fs, dir, init, want);
      var p, s := Positions(fs, dir, names, want), Select(fs, dir, names, want);
      assert p[..|p0|] == p0 && s[..|s0|] == s0;
      forall j | 0 <= j < |s0|
        ensures 0 <= p[j] < n && s[j] == names[p[j]]
      {
        assert p[j] == p0[j] && s[j] == s0[j];
        assert init[p0[j]] == names[p0[j]];
      }
    }
  }

  /** `Select` keeps exactly the entries whose lookup gives `want`, each once, in
      the order of `names`: it reads `names` at strictly increasing positions, and a
      position is read exactly when its entry's lookup gives `want`. */
  lemma SelectIsOrderedSubsequence(fs: FileSystem, dir: Path, names: seq<string>, want: Lookup)
    ensures |Positions(fs, dir, names, want)| == |Select(fs, dir, names, want)|
    ensures forall j | 0 <= j < |Select(fs, dir, names, want)| ::
      0 <= Positions(fs, dir, names, want)[j] < |names| &&
      Select(fs, dir, names, want)[j] == names[Positions(fs, dir, names, want)[j]]
    ensures forall j, j' | 0 <= j < j' < |Positions(fs, dir, names, want)| ::
      Positions(fs, dir, names, want)[j] < Positions(fs, dir, names, want)[j']
    ensures forall k | 0 <= k < |names| ::
      k in Positions(fs, dir, names, want) <==> Exists(fs, dir, names[k]) == want
  {
    PositionsRule(fs, dir, names, want);
    SelectAtPositions(fs, dir, names, want);
  }

  /** A name is selected exactly when it is in the list and its lookup gives `want`. */
  lemma SelectMembers(fs: FileSystem, dir: Path, names: seq<string>, want: Lookup, x: string)
    ensures x in Select(fs, dir, names, want) <==> x in names && Exists(fs, dir, x) == want
  {
    SelectIsOrderedSubsequence(fs, dir, names, want);
    var p, s := Positions(fs, dir, names, want), Select(fs, dir, names, want);
    if x in s {
      var j :| 0 <= j < |s| && s[j] == x;
      assert p[j] in p;
    }
    if x in names && Exists(fs, dir, x) == want {
      var k :| 0 <= k < |names| && names[k] == x;
      assert k in p;
      var j :| 0 <= j < |p| && p[j] == k;
      assert s[j] == x;
    }
  }

  /** Selection distributes over concatenation: the result keeps the list's order. */
  lemma {:induction false} SelectAppend(fs: FileSystem, dir: Path, a: seq<string>, b: seq<string>, want: Lookup)
    ensures Select(fs, dir, a + b, want) == Select(fs, dir, a, want) + Select(fs, dir, b, want)
    decreases |b|
  {
    if b == [] {
      assert a + b == a;
    } else {
      var ab := a + b;
      assert ab[..|ab| - 1] == a + b[..|b| - 1];
      assert ab[|ab| - 1] == b[|b| - 1];
      SelectAppend(fs, dir, a, b[..|b| - 1], want);
    }
  }

  /** When no lookup raises, the present and the absent entries split the list:
      together they hold each entry exactly as often as the list does. */
  lemma {:induction false} SelectPartition(fs: FileSystem, dir: Path, names: seq<string>)
    requires !LookupRaises(fs, dir, names)
    ensures multiset(Select(fs, dir, names, Present)) + multiset(Select(fs, dir, names, Absent)) == multiset(names)
    decreases |names|
  {
    if names != [] {
      var n := |names|;
      var init, x := names[..n - 1], names[n - 1];
      assert forall k | 0 <= k < n - 1 :: init[k] == names[k];
      assert Exists(fs, dir, x) != Raised;
      SelectPartition(fs, dir, init);
      var p, a := Select(fs, dir, init, Present), Select(fs, dir, init, Absent);
      assert names == init + [x];
      var p', a' := Select(fs, dir, names, Present), Select(fs, dir, names, Absent);
      if Exists(fs, dir, x) == Present {
        assert p' == p + [x] && a' == a;
      } else {
        assert p' == p && a' == a + [x];
      }
      AddOneToEither(p, a, init, x, p', a');
    }
  }

  /** Adding one element to one side of a split adds it to the whole. */
  lemma AddOneToEither<T>(p: seq<T>, a: seq<T>, whole: seq<T>, x: T, p': seq<T>, a': seq<T>)
    requires multiset(p) + multiset(a) == multiset(whole)
    requires (p' == p + [x] && a' == a) || (p' == p && a' == a + [x])
    ensures multiset(p') + multiset(a') == multiset(whole + [x])
  {
  }

  /** When no lookup raises, every entry is either present or absent. */
  lemma SelectPartitionCount(fs: FileSystem, dir: Path, names: seq<string>)
    requires !LookupRaises(fs, dir, names)
    ensures |Select(fs, dir, names, Present)| + |Select(fs, dir, names, Absent)| == |names|
  {
    SelectPartition(fs, dir, names);
    var p, a := Select(fs, dir, names, Present), Select(fs, dir, names, Absent);
    assert |multiset(p) + multiset(a)| == |multiset(names)|;
  }

  /** Nothing is selected exactly when no entry's lookup gives `want`. */
  lemma SelectEmptyIff(fs: FileSystem, dir: Path, names: seq<string>, want: Lookup)
    ensures Select(fs, dir, names, want) == [] <==> forall k | 0 <= k < |names| :: Exists(fs, dir, names[k]) != want
  {
    if Select(fs, dir, names, want) != [] {
      var x := Select(fs, dir, names, want)[0];
      SelectMembers(fs, dir, names, want, x);
    }
    if exists k | 0 <= k < |names| :: Exists(fs, dir, names[k]) == want {
      var k :| 0 <= k < |names| && Exists(fs, dir, names[k]) == want;
      SelectMembers(fs, dir, names, want, names[k]);
    }
  }

  /** When every entry's lookup gives `want`, all of the list is selected. */
  lemma {:induction false} SelectAll(fs: FileSystem, dir: Path, names: seq<string>, want: Lookup)
    requires forall k | 0 <= k < |names| :: Exists(fs, dir, names[k]) == want
    ensures Select(fs, dir, names, want) == names
    decreases |names|
  {
    if names != [] {
      var n := |names|;
      assert forall k | 0 <= k < n - 1 :: names[..n - 1][k] == names[k];
      SelectAll(fs, dir, names[..n - 1], want);
      assert names[..n - 1] + [names[n - 1]] == names;
    }
  }

  /** Selection depends on nothing but the lookups of the listed names. */
  lemma {:induction false} SelectCongruent(fs: FileSystem, dir: Path, fs': FileSystem, dir': Path, names: seq<string>, want: Lookup)
    requires forall k | 0 <= k < |names| :: Exists(fs, dir, names[k]) == Exists(fs', dir', names[k])
    ensures Select(fs, dir, names, want) == Select(fs', dir', names, want)
    decreases |names|
  {
    if names != [] {
      var n := |names|;
      assert forall k | 0 <= k < n - 1 :: names[..n - 1][k] == names[k];
      SelectCongruent(fs, dir, fs', dir', names[..n - 1], want);
    }
  }

  /** The selection from a list, split around one of its positions. */
  lemma SelectSplitAt(fs: FileSystem, dir: Path, names: seq<string>, j: int, want: Lookup)
    requires 0 <= j < |names|
    ensures Select(fs, dir, names, want) ==
      Select(fs, dir, names[..j], want) + Select(fs, dir, [names[j]], want) + Select(fs, dir, names[j + 1..], want)
  {
    assert names == names[..j] + [names[j]] + names[j + 1..];
    SelectAppend(fs, dir, names[..j] + [names[j]], names[j + 1..], want);
    SelectAppend(fs, dir, names[..j], [names[j]], want);
  }

  /** Deleting a file that is not in the list leaves the selection as it was. */
  lemma SelectIgnoresOtherRemoval(fs: FileSystem, dir: Path, names: seq<string>, x: string, want: Lookup)
    requires x !in names
    ensures Select(RemoveFile(fs, dir, x), dir, names, want) == Select(fs, dir, names, want)
  {
    var fs' := RemoveFile(fs, dir, x);
    forall k | 0 <= k < |names|
      ensures Exists(fs, dir, names[k]) == Exists(fs', dir, names[k])
    {
      assert names[k] != x;
    }
    SelectCongruent(fs, dir, fs', dir, names, want);
  }

  /** Deleting one present file whose name appears once in the list removes exactly
      that name from the selection, at the position counted by the present names
      before it, and keeps the rest in order. */
  lemma SelectAfterRemoval(fs: FileSystem, dir: Path, names: seq<string>, j: int)
    requires 0 <= j < |names| && Exists(fs, dir, names[j]) == Present
    requires forall k | 0 <= k < |names| && k != j :: names[k] != names[j]
    ensures
      var selected := Select(fs, dir, names, Present);
      var k := |Select(fs, dir, names[..j], Present)|;
      k < |selected| && selected[k] == names[j] &&
      Select(RemoveFile(fs, dir, names[j]), dir, names, Present) == selected[..k] + selected[k + 1..]
  {
    var x := names[j];
    var fs' := RemoveFile(fs, dir, x);
    var before, after := names[..j], names[j + 1..];
    assert x !in before by {
      assert forall k | 0 <= k < |before| :: before[k] == names[k];
    }
    assert x !in after by {
      assert forall k | 0 <= k < |after| :: after[k] == names[j + 1 + k];
    }
    SelectIgnoresOtherRemoval(fs, dir, before, x, Present);
    SelectIgnoresOtherRemoval(fs, dir, after, x, Present);
    SelectSplitAt(fs, dir, names, j, Present);
    SelectSplitAt(fs', dir, names, j, Present);
    assert [x][..0] == [];
    var a, b := Select(fs, dir, before, Present), Select(fs, dir, after, Present);
    assert Select(fs, dir, names, Present) == a + [x] + b;
    assert Select(fs', dir, names, Present) == a + b;
    assert (a + [x] + b)[..|a|] == a && (a + [x] + b)[|a| + 1..] == b;
  }
}
