/** Python's `str.replace` and `str.title`, restricted to ASCII casing. */
module Text {

  predicate IsUpper(c: char) { 'A' <= c <= 'Z' }
  predicate IsLower(c: char) { 'a' <= c <= 'z' }

  /** The cased characters: in ASCII, exactly the letters. */
  predicate IsLetter(c: char) { IsUpper(c) || IsLower(c) }

  function ToUpper(c: char): char {
    if IsLower(c) then (c as int - 32) as char else c
  }

  function ToLower(c: char): char {
    if IsUpper(c) then (c as int + 32) as char else c
  }

  // ---------------------------------------------------------------------------
  // str.replace(pat, rep): every non-overlapping occurrence, scanned left to right

  /** `s.replace(pat, rep)`. An empty pattern matches before every character and at
      the end, as in Python (`"ab".replace("", "-") == "-a-b-"`). */
  function Replace(s: string, pat: string, rep: string): string
    decreases |s|
  {
    if pat == [] then
      if s == [] then rep else rep + [s[0]] + Replace(s[1..], pat, rep)
    else if |s| < |pat| then s
    else if s[..|pat|] == pat then rep + Replace(s[|pat|..], pat, rep)
    else [s[0]] + Replace(s[1..], pat, rep)
  }

  /** Replacing one character by one character works character by character. */
  lemma {:induction false} ReplaceCharRule(s: string, a: char, b: char)
    ensures |Replace(s, [a], [b])| == |s|
    ensures forall i | 0 <= i < |s| :: Replace(s, [a], [b])[i] == if s[i] == a then b else s[i]
    decreases |s|
  {
    if s != [] {
      ReplaceCharRule(s[1..], a, b);
      assert s[..1] == [s[0]];
      var r := Replace(s, [a], [b]);
      assert r == (if s[0] == a then [b] else [s[0]]) + Replace(s[1..], [a], [b]);
      forall i | 1 <= i < |s|
        ensures r[i] == if s[i] == a then b else s[i]
      {
        assert r[i] == Replace(s[1..], [a], [b])[i - 1];
        assert s[1..][i - 1] == s[i];
      }
    }
  }

  /** After replacing a character by another, the first no longer occurs. */
  lemma ReplacedCharGone(s: string, a: char, b: char)
    requires a != b
    ensures a !in Replace(s, [a], [b])
  {
    ReplaceCharRule(s, a, b);
    var r := Replace(s, [a], [b]);
    forall i | 0 <= i < |r| ensures r[i] != a {
    }
  }

  /** A pattern whose first character does not occur in `s` leaves `s` unchanged. */
  lemma {:induction false} ReplaceAbsent(s: string, pat: string, rep: string)
    requires pat != [] && pat[0] !in s
    ensures Replace(s, pat, rep) == s
    decreases |s|
  {
    if |s| >= |pat| {
      assert s[..|pat|][0] == s[0];
      assert s[0] in s;
      assert s[1..] + [] == s[1..];
      assert forall c | c in s[1..] :: c in s;
      ReplaceAbsent(s[1..], pat, rep);
      assert [s[0]] + s[1..] == s;
    }
  }

  /** `pat` occurs in `s` starting at position `i`. */
  predicate MatchAt(s: string, pat: string, i: int) {
    0 <= i && i + |pat| <= |s| && s[i..i + |pat|] == pat
  }

  /** A non-empty pattern that occurs nowhere in `s` leaves `s` unchanged. */
  lemma {:induction false} ReplaceNowhere(s: string, pat: string, rep: string)
    requires pat != []
    requires forall i | 0 <= i <= |s| - |pat| :: !MatchAt(s, pat, i)
    ensures Replace(s, pat, rep) == s
    decreases |s|
  {
    if |s| >= |pat| {
      assert !MatchAt(s, pat, 0);
      forall i | 0 <= i <= |s[1..]| - |pat|
        ensures !MatchAt(s[1..], pat, i)
      {
        assert s[1..][i..i + |pat|] == s[i + 1..i + 1 + |pat|];
        assert !MatchAt(s, pat, i + 1);
      }
      ReplaceNowhere(s[1..], pat, rep);
      assert [s[0]] + s[1..] == s;
    }
  }

  /** Removing a pattern from a word followed by that pattern leaves the word,
      provided the word does not contain the pattern's first character. */
  lemma {:induction false} RemoveTrailing(w: string, pat: string)
    requires pat != [] && pat[0] !in w
    ensures Replace(w + pat, pat, "") == w
    decreases |w|
  {
    if w == [] {
      assert w + pat == pat;
      assert pat[|pat|..] == [];
    } else {
      var s := w + pat;
      assert s[0] == w[0];
      assert s[..|pat|][0] == w[0];
      assert w[0] in w;
      assert forall c | c in w[1..] :: c in w;
      assert s[1..] == w[1..] + pat;
      RemoveTrailing(w[1..], pat);
      assert [w[0]] + w[1..] == w;
    }
  }

  /** A one-character pattern can be replaced piecewise. */
  lemma {:induction false} ReplaceCharAppend(a: string, b: string, c: char, rep: string)
    ensures Replace(a + b, [c], rep) == Replace(a, [c], rep) + Replace(b, [c], rep)
    decreases |a|
  {
    if a == [] {
      assert a + b == b;
    } else {
      var s := a + b;
      assert s[..1] == [a[0]] && a[..1] == [a[0]];
      assert s[1..] == a[1..] + b;
      ReplaceCharAppend(a[1..], b, c, rep);
    }
  }

  // ---------------------------------------------------------------------------
  // str.title(): a cased character is upper-cased when the character before it
  // is uncased (or it starts the string), and lower-cased otherwise

  /** How `str.title()` writes `c`, given whether the previous character is cased. */
  function TitleChar(c: char, afterLetter: bool): char {
    if !IsLetter(c) then c else if afterLetter then ToLower(c) else ToUpper(c)
  }

  function TitleFrom(s: string, afterLetter: bool): string
    decreases |s|
  {
    if s == [] then [] else [TitleChar(s[0], afterLetter)] + TitleFrom(s[1..], IsLetter(s[0]))
  }

  /** `s.title()` */
  function Title(s: string): string {
    TitleFrom(s, false)
  }

  lemma {:induction false} TitleFromLength(s: string, afterLetter: bool)
    ensures |TitleFrom(s, afterLetter)| == |s|
    decreases |s|
  {
    if s != [] {
      TitleFromLength(s[1..], IsLetter(s[0]));
    }
  }

  lemma {:induction false} TitleFromAt(s: string, afterLetter: bool, i: nat)
    requires i < |s|
    ensures |TitleFrom(s, afterLetter)| == |s|
    ensures TitleFrom(s, afterLetter)[i] == TitleChar(s[i], if i == 0 then afterLetter else IsLetter(s[i - 1]))
    decreases i
  {
    TitleFromLength(s, afterLetter);
    if i > 0 {
      TitleFromAt(s[1..], IsLetter(s[0]), i - 1);
      assert s[1..][i - 1] == s[i];
      if i > 1 {
        assert s[1..][i - 2] == s[i - 1];
      }
    }
  }

  /** The ASCII title-casing rule, character by character: uncased characters stay,
      a letter after a letter is lower-cased, any other letter is upper-cased. */
  lemma TitleRule(s: string)
    ensures |Title(s)| == |s|
    ensures forall i | 0 <= i < |s| && !IsLetter(s[i]) :: Title(s)[i] == s[i]
    ensures forall i | 0 < i < |s| && IsLetter(s[i]) && IsLetter(s[i - 1]) ::
      Title(s)[i] == ToLower(s[i])
    ensures forall i | 0 <= i < |s| && IsLetter(s[i]) && (i == 0 || !IsLetter(s[i - 1])) ::
      Title(s)[i] == ToUpper(s[i])
  {
    TitleFromLength(s, false);
    forall i | 0 <= i < |s|
      ensures !IsLetter(s[i]) ==> Title(s)[i] == s[i]
      ensures i > 0 && IsLetter(s[i]) && IsLetter(s[i - 1]) ==> Title(s)[i] == ToLower(s[i])
      ensures IsLetter(s[i]) && (i == 0 || !IsLetter(s[i - 1])) ==> Title(s)[i] == ToUpper(s[i])
    {
      TitleFromAt(s, false, i);
    }
  }

  /** Title casing keeps letters letters and everything else in place. */
  lemma TitleKeepsKinds(s: string)
    ensures |Title(s)| == |s|
    ensures forall i | 0 <= i < |s| :: IsLetter(Title(s)[i]) == IsLetter(s[i])
    ensures forall i | 0 <= i < |s| :: !IsLetter(s[i]) ==> Title(s)[i] == s[i]
  {
    TitleRule(s);
    forall i | 0 <= i < |s|
      ensures IsLetter(Title(s)[i]) == IsLetter(s[i])
      ensures !IsLetter(s[i]) ==> Title(s)[i] == s[i]
    {
      assert Title(s)[i] == TitleChar(s[i], i > 0 && IsLetter(s[i - 1]));
    }
  }

  /** An uncased character occurs in the title-cased string exactly when it occurs
      in the original. */
  lemma TitleKeepsUncased(s: string, c: char)
    requires !IsLetter(c)
    ensures c in Title(s) <==> c in s
  {
    TitleKeepsKinds(s);
    var t := Title(s);
    if c in t {
      var i :| 0 <= i < |t| && t[i] == c;
      assert s[i] == c;
    }
    if c in s {
      var i :| 0 <= i < |s| && s[i] == c;
      assert t[i] == c;
    }
  }

  /** Title casing twice is title casing once. */
  lemma TitleIdempotent(s: string)
    ensures Title(Title(s)) == Title(s)
  {
    var t := Title(s);
    TitleRule(s);
    TitleKeepsKinds(s);
    TitleRule(t);
    forall i | 0 <= i < |s|
      ensures Title(t)[i] == t[i]
    {
      var before := i > 0 && IsLetter(s[i - 1]);
      assert t[i] == TitleChar(s[i], before);
      assert i > 0 ==> IsLetter(t[i - 1]) == IsLetter(s[i - 1]);
      assert Title(t)[i] == TitleChar(t[i], before);
    }
  }

  /** Title casing a concatenation: the second half continues from the last
      character of the first. */
  lemma {:induction false} TitleFromAppend(a: string, b: string, afterLetter: bool)
    ensures TitleFrom(a + b, afterLetter) ==
      TitleFrom(a, afterLetter) + TitleFrom(b, if a == [] then afterLetter else IsLetter(a[|a| - 1]))
    decreases |a|
  {
    if a == [] {
      assert a + b == b;
    } else {
      assert (a + b)[1..] == a[1..] + b;
      TitleFromAppend(a[1..], b, IsLetter(a[0]));
    }
  }
}
