/** How the allow-listed file names and their titles are spelled, piece by piece:
    plain facts about string literals, kept apart from the string functions.
    They exist only because the solver's cost on long string literals grows
    quickly: one small fact per lemma keeps each proof of a title cheap. */
module Spelling {

  lemma ExpenseFlowSankeySpelling0()
    ensures "expense_flow_sankey.html" == "expense_flow_sankey" + ".html"
  {
  }

  lemma ExpenseFlowSankeySpelling1()
    ensures "expense_flow_sankey" == "expense" + "_" + "flow_sankey"
  {
  }

  lemma ExpenseFlowSankeySpelling2()
    ensures "flow_sankey" == "flow" + "_" + "sankey"
  {
  }

  lemma ExpenseFlowSankeySpelling3()
    ensures "Expense Flow Sankey" == "Expense" + " " + ("Flow" + " " + "Sankey")
  {
  }

  lemma ExpenseFlowSankeySpelling4()
    ensures '.' !in "expense_flow_sankey"
  {
  }

  lemma ExpenseFlowSankeySpelling5()
    ensures '_' !in "expense" && '_' !in "flow" && '_' !in "sankey"
  {
  }

  lemma VendorComparisonChartSpelling0()
    ensures "vendor_comparison_chart.html" == "vendor_comparison_chart" + ".html"
  {
  }

  lemma VendorComparisonChartSpelling1()
    ensures "vendor_comparison_chart" == "vendor" + "_" + "comparison_chart"
  {
  }

  lemma VendorComparisonChartSpelling2()
    ensures "comparison_chart" == "comparison" + "_" + "chart"
  {
  }

  lemma VendorComparisonChartSpelling3()
    ensures "Vendor Comparison Chart" == "Vendor" + " " + ("Comparison" + " " + "Chart")
  {
  }

  lemma VendorComparisonChartSpelling4()
    ensures '.' !in "vendor_comparison_chart"
  {
  }

  lemma VendorComparisonChartSpelling5()
    ensures '_' !in "vendor" && '_' !in "comparison" && '_' !in "chart"
  {
  }

  lemma VendorRepetitionRateComparisonSpelling0()
    ensures "vendor_repetition_rate_comparison.html" == "vendor_repetition_rate_comparison" + ".html"
  {
  }

  lemma VendorRepetitionRateComparisonSpelling1()
    ensures "vendor_repetition_rate_comparison" == "vendor" + "_" + "repetition_rate_comparison"
  {
  }

  lemma VendorRepetitionRateComparisonSpelling2()
    ensures "repetition_rate_comparison" == "repetition" + "_" + "rate_comparison"
  {
  }

  lemma VendorRepetitionRateComparisonSpelling3()
    ensures "rate_comparison" == "rate" + "_" + "comparison"
  {
  }

  lemma VendorRepetitionRateComparisonSpelling4()
    ensures "Vendor Repetition Rate Comparison" == "Vendor" + " " + ("Repetition" + " " + ("Rate" + " " + "Comparison"))
  {
  }

  lemma VendorRepetitionRateComparisonSpelling5()
    ensures '.' !in "vendor_repetition_rate_comparison"
  {
  }

  lemma VendorRepetitionRateComparisonSpelling6()
    ensures '_' !in "vendor" && '_' !in "repetition" && '_' !in "rate" && '_' !in "comparison"
  {
  }

  lemma VendorMetricsDashboardSpelling0()
    ensures "vendor_metrics_dashboard.html" == "vendor_metrics_dashboard" + ".html"
  {
  }

  lemma VendorMetricsDashboardSpelling1()
    ensures "vendor_metrics_dashboard" == "vendor" + "_" + "metrics_dashboard"
  {
  }

  lemma VendorMetricsDashboardSpelling2()
    ensures "metrics_dashboard" == "metrics" + "_" + "dashboard"
  {
  }

  lemma VendorMetricsDashboardSpelling3()
    ensures "Vendor Metrics Dashboard" == "Vendor" + " " + ("Metrics" + " " + "Dashboard")
  {
  }

  lemma VendorMetricsDashboardSpelling4()
    ensures '.' !in "vendor_metrics_dashboard"
  {
  }

  lemma VendorMetricsDashboardSpelling5()
    ensures '_' !in "vendor" && '_' !in "metrics" && '_' !in "dashboard"
  {
  }

  lemma AnomolyDetectionHeatmapSpelling0()
    ensures "Anomoly_Detection_Heatmap.jpg" == "Anomoly_Detection_Heatmap" + ".jpg"
  {
  }

  lemma AnomolyDetectionHeatmapSpelling1()
    ensures "Anomoly_Detection_Heatmap" == "Anomoly" + "_" + "Detection_Heatmap"
  {
  }

  lemma AnomolyDetectionHeatmapSpelling2()
    ensures "Detection_Heatmap" == "Detection" + "_" + "Heatmap"
  {
  }

  lemma AnomolyDetectionHeatmapSpelling3()
    ensures "Anomoly Detection Heatmap" == "Anomoly" + " " + ("Detection" + " " + "Heatmap")
  {
  }

  lemma AnomolyDetectionHeatmapSpelling4()
    ensures '.' !in "Anomoly_Detection_Heatmap"
  {
  }

  lemma AnomolyDetectionHeatmapSpelling5()
    ensures '_' !in "Anomoly" && '_' !in "Detection" && '_' !in "Heatmap"
  {
  }

  lemma CorrelationMatrixSpelling0()
    ensures "Correlation_Matrix.jpg" == "Correlation_Matrix" + ".jpg"
  {
  }

  lemma CorrelationMatrixSpelling1()
    ensures "Correlation_Matrix" == "Correlation" + "_" + "Matrix"
  {
  }

  lemma CorrelationMatrixSpelling2()
    ensures "Correlation Matrix" == "Correlation" + " " + "Matrix"
  {
  }

  lemma CorrelationMatrixSpelling3()
    ensures '.' !in "Correlation_Matrix"
  {
  }

  lemma CorrelationMatrixSpelling4()
    ensures '_' !in "Correlation" && '_' !in "Matrix"
  {
  }

  lemma PaymentTrendSpelling0()
    ensures "Payment_Trend.jpg" == "Payment_Trend" + ".jpg"
  {
  }

  lemma PaymentTrendSpelling1()
    ensures "Payment_Trend" == "Payment" + "_" + "Trend"
  {
  }

  lemma PaymentTrendSpelling2()
    ensures "Payment Trend" == "Payment" + " " + "Trend"
  {
  }

  lemma PaymentTrendSpelling3()
    ensures '.' !in "Payment_Trend"
  {
  }

  lemma PaymentTrendSpelling4()
    ensures '_' !in "Payment" && '_' !in "Trend"
  {
  }

  lemma TopVendorsByAnomolySpelling0()
    ensures "Top_Vendors_By_anomoly.jpg" == "Top_Vendors_By_anomoly" + ".jpg"
  {
  }

  lemma TopVendorsByAnomolySpelling1()
    ensures "Top_Vendors_By_anomoly" == "Top" + "_" + "Vendors_By_anomoly"
  {
  }

  lemma TopVendorsByAnomolySpelling2()
    ensures "Vendors_By_anomoly" == "Vendors" + "_" + "By_anomoly"
  {
  }

  lemma TopVendorsByAnomolySpelling3()
    ensures "By_anomoly" == "By" + "_" + "anomoly"
  {
  }

  lemma TopVendorsByAnomolySpelling4()
    ensures "Top Vendors By Anomoly" == "Top" + " " + ("Vendors" + " " + ("By" + " " + "Anomoly"))
  {
  }

  lemma TopVendorsByAnomolySpelling5()
    ensures '.' !in "Top_Vendors_By_anomoly"
  {
  }

  lemma TopVendorsByAnomolySpelling6()
    ensures '_' !in "Top" && '_' !in "Vendors" && '_' !in "By" && '_' !in "anomoly"
  {
  }
}
