/** The title a chart or picture is shown under: its file name with every
    occurrence of the extension removed, underscores turned into spaces and the
    result title-cased. */
module DisplayNames {
  import opened Text
  import opened Spelling

  /** `file.replace(ext, '').replace('_', ' ').title()` */
  function DisplayName(file: string, ext: string): string {
    Title(Replace(Replace(file, ext, ""), "_", " "))
  }

  /** No underscore survives into a display name, whatever the extension. */
  lemma DisplayNameHasNoUnderscore(file: string, ext: string)
    ensures '_' !in DisplayName(file, ext)
  {
    var spaced := Replace(Replace(file, ext, ""), "_", " ");
    ReplacedCharGone(Replace(file, ext, ""), '_', ' ');
    TitleKeepsUncased(spaced, '_');
  }

  /** A display name is already in title case. */
  lemma DisplayNameIsTitleCased(file: string, ext: string)
    ensures Title(DisplayName(file, ext)) == DisplayName(file, ext)
  {
    TitleIdempotent(Replace(Replace(file, ext, ""), "_", " "));
  }

  /** The display name character by character, against the file name with every
      occurrence of its extension removed: an underscore becomes a space, any other uncased
      character stays, a letter that follows a letter is lower-cased and every
      other letter is upper-cased. */
  lemma DisplayNameRule(file: string, ext: string)
    ensures var stem := Replace(file, ext, ""); |DisplayName(file, ext)| == |stem|
    ensures var stem := Replace(file, ext, "");
      forall i | 0 <= i < |stem| && stem[i] == '_' :: DisplayName(file, ext)[i] == ' '
    ensures var stem := Replace(file, ext, "");
      forall i | 0 <= i < |stem| && stem[i] != '_' && !IsLetter(stem[i]) :: DisplayName(file, ext)[i] == stem[i]
    ensures var stem := Replace(file, ext, "");
      forall i | 0 < i < |stem| && IsLetter(stem[i]) && IsLetter(stem[i - 1]) ::
        DisplayName(file, ext)[i] == ToLower(stem[i])
    ensures var stem := Replace(file, ext, "");
      forall i | 0 <= i < |stem| && IsLetter(stem[i]) && (i == 0 || !IsLetter(stem[i - 1])) ::
        DisplayName(file, ext)[i] == ToUpper(stem[i])
  {
    var stem := Replace(file, ext, "");
    var spaced := Replace(stem, "_", " ");
    assert "_" == ['_'] && " " == [' '];
    ReplaceCharRule(stem, '_', ' ');
    TitleRule(spaced);
    forall i | 0 <= i < |stem|
      ensures IsLetter(spaced[i]) == IsLetter(stem[i])
    {
    }
  }

  /** Deriving the display name again from a display name changes nothing, for
      an extension that starts with an uncased character followed by a lower-case
      letter (such as ".html" and ".jpg"): in a title-cased string a letter after
      an uncased character is upper-case, so the extension cannot occur. */
  lemma DisplayNameIdempotent(file: string, ext: string)
    requires |ext| >= 2 && !IsLetter(ext[0]) && IsLower(ext[1])
    ensures DisplayName(DisplayName(file, ext), ext) == DisplayName(file, ext)
  {
    var spaced := Replace(Replace(file, ext, ""), "_", " ");
    var d := DisplayName(file, ext);
    TitleRule(spaced);
    TitleKeepsKinds(spaced);
    forall i | 0 <= i <= |d| - |ext|
      ensures !MatchAt(d, ext, i)
    {
      var w := d[i..i + |ext|];
      assert w[0] == d[i] && w[1] == d[i + 1];
      if !IsLetter(spaced[i]) && IsLetter(spaced[i + 1]) {
        assert d[i + 1] == ToUpper(spaced[i + 1]);
      }
    }
    ReplaceNowhere(d, ext, "");
    DisplayNameHasNoUnderscore(file, ext);
    ReplaceAbsent(d, "_", " ");
    DisplayNameIsTitleCased(file, ext);
  }

  /** The page's two extensions meet the condition above. */
  lemma PageDisplayNamesIdempotent(file: string)
    ensures DisplayName(DisplayName(file, ".html"), ".html") == DisplayName(file, ".html")
    ensures DisplayName(DisplayName(file, ".jpg"), ".jpg") == DisplayName(file, ".jpg")
  {
    DisplayNameIdempotent(file, ".html");
    DisplayNameIdempotent(file, ".jpg");
  }

  // ---------------------------------------------------------------------------
  // Evaluating display names word by word

  /** The file name without its extension, spaced and title-cased. */
  function Spaced(stem: string): string {
    Title(Replace(stem, "_", " "))
  }

  /** For a bare name that does not contain the extension's first character, the
      display name of the bare name followed by the extension is the bare name
      with underscores turned into spaces, title-cased. */
  lemma DisplayNameOfStem(stem: string, ext: string)
    requires ext != [] && ext[0] !in stem
    ensures DisplayName(stem + ext, ext) == Spaced(stem)
  {
    RemoveTrailing(stem, ext);
  }

  lemma SpacedWord(w: string)
    requires '_' !in w
    ensures Spaced(w) == Title(w)
  {
    ReplaceAbsent(w, "_", " ");
  }

  /** Replacing underscores in a word, an underscore and the rest. */
  lemma ReplaceUnderscoreCons(w: string, rest: string)
    requires '_' !in w
    ensures Replace(w + "_" + rest, "_", " ") == w + " " + Replace(rest, "_", " ")
  {
    ReplaceCharAppend(w + "_", rest, '_', " ");
    ReplaceCharAppend(w, "_", '_', " ");
    ReplaceAbsent(w, "_", " ");
    assert Replace("_", "_", " ") == " ";
  }

  /** A word, an underscore and the rest: the word is title-cased on its own and
      the rest starts a new word after the space. */
  lemma SpacedCons(w: string, rest: string)
    requires '_' !in w
    ensures Spaced(w + "_" + rest) == Title(w) + " " + Spaced(rest)
  {
    var r := Replace(rest, "_", " ");
    ReplaceUnderscoreCons(w, rest);
    assert w + " " + r == w + (" " + r);
    TitleFromAppend(w, " " + r, false);
    var t := " " + r;
    assert t[0] == ' ' && t[1..] == r;
    assert TitleFrom(t, w != [] && IsLetter(w[|w| - 1])) == " " + Title(r);
  }

  // ---------------------------------------------------------------------------
  // The titles of the allow-listed files

  lemma TitleExpense()
    ensures Title("expense") == "Expense"
  {
  }

  lemma TitleFlow()
    ensures Title("flow") == "Flow"
  {
  }

  lemma TitleSankey()
    ensures Title("sankey") == "Sankey"
  {
  }

  /** `expense_flow_sankey.html` is shown as "Expense Flow Sankey". */
  lemma ExpenseFlowSankeyName()
    ensures DisplayName("expense_flow_sankey.html", ".html") == "Expense Flow Sankey"
  {
    ExpenseFlowSankeySpelling0();
    ExpenseFlowSankeySpelling1();
    ExpenseFlowSankeySpelling2();
    ExpenseFlowSankeySpelling3();
    ExpenseFlowSankeySpelling4();
    ExpenseFlowSankeySpelling5();
    TitleExpense();
    TitleFlow();
    TitleSankey();
    DisplayNameOfStem("expense_flow_sankey", ".html");
    SpacedCons("expense", "flow_sankey");
    SpacedCons("flow", "sankey");
    SpacedWord("sankey");
  }

  lemma TitleVendor()
    ensures Title("vendor") == "Vendor"
  {
  }

  lemma TitleComparison()
    ensures Title("comparison") == "Comparison"
  {
  }

  lemma TitleChart()
    ensures Title("chart") == "Chart"
  {
  }

  /** `vendor_comparison_chart.html` is shown as "Vendor Comparison Chart". */
  lemma VendorComparisonChartName()
    ensures DisplayName("vendor_comparison_chart.html", ".html") == "Vendor Comparison Chart"
  {
    VendorComparisonChartSpelling0();
    VendorComparisonChartSpelling1();
    VendorComparisonChartSpelling2();
    VendorComparisonChartSpelling3();
    VendorComparisonChartSpelling4();
    VendorComparisonChartSpelling5();
    TitleVendor();
    TitleComparison();
    TitleChart();
    DisplayNameOfStem("vendor_comparison_chart", ".html");
    SpacedCons("vendor", "comparison_chart");
    SpacedCons("comparison", "chart");
    SpacedWord("chart");
  }

  lemma TitleRepetition()
    ensures Title("repetition") == "Repetition"
  {
  }

  lemma TitleRate()
    ensures Title("rate") == "Rate"
  {
  }

  /** `vendor_repetition_rate_comparison.html` is shown as "Vendor Repetition Rate Comparison". */
  lemma VendorRepetitionRateComparisonName()
    ensures DisplayName("vendor_repetition_rate_comparison.html", ".html") == "Vendor Repetition Rate Comparison"
  {
    VendorRepetitionRateComparisonSpelling0();
    VendorRepetitionRateComparisonSpelling1();
    VendorRepetitionRateComparisonSpelling2();
    VendorRepetitionRateComparisonSpelling3();
    VendorRepetitionRateComparisonSpelling4();
    VendorRepetitionRateComparisonSpelling5();
    VendorRepetitionRateComparisonSpelling6();
    TitleVendor();
    TitleComparison();
    TitleRepetition();
    TitleRate();
    DisplayNameOfStem("vendor_repetition_rate_comparison", ".html");
    SpacedCons("vendor", "repetition_rate_comparison");
    SpacedCons("repetition", "rate_comparison");
    SpacedCons("rate", "comparison");
    SpacedWord("comparison");
  }

  lemma TitleMetrics()
    ensures Title("metrics") == "Metrics"
  {
  }

  lemma TitleDashboard()
    ensures Title("dashboard") == "Dashboard"
  {
  }

  /** `vendor_metrics_dashboard.html` is shown as "Vendor Metrics Dashboard". */
  lemma VendorMetricsDashboardName()
    ensures DisplayName("vendor_metrics_dashboard.html", ".html") == "Vendor Metrics Dashboard"
  {
    VendorMetricsDashboardSpelling0();
    VendorMetricsDashboardSpelling1();
    VendorMetricsDashboardSpelling2();
    VendorMetricsDashboardSpelling3();
    VendorMetricsDashboardSpelling4();
    VendorMetricsDashboardSpelling5();
    TitleVendor();
    TitleMetrics();
    TitleDashboard();
    DisplayNameOfStem("vendor_metrics_dashboard", ".html");
    SpacedCons("vendor", "metrics_dashboard");
    SpacedCons("metrics", "dashboard");
    SpacedWord("dashboard");
  }

  lemma TitleAnomoly()
    ensures Title("Anomoly") == "Anomoly"
  {
  }

  lemma TitleDetection()
    ensures Title("Detection") == "Detection"
  {
  }

  lemma TitleHeatmap()
    ensures Title("Heatmap") == "Heatmap"
  {
  }

  /** `Anomoly_Detection_Heatmap.jpg` is shown as "Anomoly Detection Heatmap". */
  lemma AnomolyDetectionHeatmapName()
    ensures DisplayName("Anomoly_Detection_Heatmap.jpg", ".jpg") == "Anomoly Detection Heatmap"
  {
    AnomolyDetectionHeatmapSpelling0();
    AnomolyDetectionHeatmapSpelling1();
    AnomolyDetectionHeatmapSpelling2();
    AnomolyDetectionHeatmapSpelling3();
    AnomolyDetectionHeatmapSpelling4();
    AnomolyDetectionHeatmapSpelling5();
    TitleAnomoly();
    TitleDetection();
    TitleHeatmap();
    DisplayNameOfStem("Anomoly_Detection_Heatmap", ".jpg");
    SpacedCons("Anomoly", "Detection_Heatmap");
    SpacedCons("Detection", "Heatmap");
    SpacedWord("Heatmap");
  }

  lemma TitleCorrelation()
    ensures Title("Correlation") == "Correlation"
  {
    assert "Correlation" == "Corre" + "lation";
    TitleFromAppend("Corre", "lation", false);
    assert TitleFrom("Corre", false) == "Corre";
    assert TitleFrom("lation", true) == "lation";
  }

  lemma TitleMatrix()
    ensures Title("Matrix") == "Matrix"
  {
  }

  /** `Correlation_Matrix.jpg` is shown as "Correlation Matrix". */
  lemma CorrelationMatrixName()
    ensures DisplayName("Correlation_Matrix.jpg", ".jpg") == "Correlation Matrix"
  {
    CorrelationMatrixSpelling0();
    CorrelationMatrixSpelling1();
    CorrelationMatrixSpelling2();
    CorrelationMatrixSpelling3();
    CorrelationMatrixSpelling4();
    TitleCorrelation();
    TitleMatrix();
    DisplayNameOfStem("Correlation_Matrix", ".jpg");
    SpacedCons("Correlation", "Matrix");
    SpacedWord("Matrix");
  }

  lemma TitlePayment()
    ensures Title("Payment") == "Payment"
  {
  }

  lemma TitleTrend()
    ensures Title("Trend") == "Trend"
  {
  }

  /** `Payment_Trend.jpg` is shown as "Payment Trend". */
  lemma PaymentTrendName()
    ensures DisplayName("Payment_Trend.jpg", ".jpg") == "Payment Trend"
  {
    PaymentTrendSpelling0();
    PaymentTrendSpelling1();
    PaymentTrendSpelling2();
    PaymentTrendSpelling3();
    PaymentTrendSpelling4();
    TitlePayment();
    TitleTrend();
    DisplayNameOfStem("Payment_Trend", ".jpg");
    SpacedCons("Payment", "Trend");
    SpacedWord("Trend");
  }

  lemma TitleTop()
    ensures Title("Top") == "Top"
  {
  }

  lemma TitleVendors()
    ensures Title("Vendors") == "Vendors"
  {
    assert "Vendors" == "Vend" + "ors";
    TitleFromAppend("Vend", "ors", false);
    assert TitleFrom("Vend", false) == "Vend";
    assert TitleFrom("ors", true) == "ors";
  }

  lemma TitleBy()
    ensures Title("By") == "By"
  {
  }

  lemma TitleAnomolyInLowerCase()
    ensures Title("anomoly") == "Anomoly"
  {
  }

  /** `Top_Vendors_By_anomoly.jpg` is shown as "Top Vendors By Anomoly". */
  lemma TopVendorsByAnomolyName()
    ensures DisplayName("Top_Vendors_By_anomoly.jpg", ".jpg") == "Top Vendors By Anomoly"
  {
    TopVendorsByAnomolySpelling0();
    TopVendorsByAnomolySpelling1();
    TopVendorsByAnomolySpelling2();
    TopVendorsByAnomolySpelling3();
    TopVendorsByAnomolySpelling4();
    TopVendorsByAnomolySpelling5();
    TopVendorsByAnomolySpelling6();
    TitleTop();
    TitleVendors();
    TitleBy();
    TitleAnomolyInLowerCase();
    DisplayNameOfStem("Top_Vendors_By_anomoly", ".jpg");
    SpacedCons("Top", "Vendors_By_anomoly");
    SpacedCons("Vendors", "By_anomoly");
    SpacedCons("By", "anomoly");
    SpacedWord("anomoly");
  }
}
