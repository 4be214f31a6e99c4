# Phoenix Dashboard: the file checks and loaders

This project models the core of the Phoenix expense dashboard, a one-page Flask site. The page shows:

- four pre-built Plotly charts, stored as HTML fragments under `static/graphs`;
- four pictures, stored as JPEG files under `static/images`.

Both sets are fixed allow-lists (`GRAPH_FILES`, `IMAGE_FILES`). The core has three operations:

- `verify_files`, run once at start-up. It creates both directories, then lists the allow-listed files that are missing, in order. It returns success exactly when nothing is missing. Any exception turns its result into failure.
- `get_plotly_graphs`. For every allow-listed chart that exists, it reads the file's text and pairs it with a display name. If any step raises, it gives an empty list.
- `get_images`. For every allow-listed picture that exists, it pairs the file name with a display name. It reads no file. If any step raises, it gives an empty list.

A display name is the file name with every occurrence of its extension removed, underscores turned into spaces, and the result title-cased (`str.title`).

The operating system is a value, `FileSystem.FileSystem`. It records:

- the existing directories;
- the files each directory holds and what reading each one yields;
- which directory creations raise;
- which existence checks raise.

The three operations are methods with the source's loops and early returns. Each is proved equal to a specification function: `Verification`, `LoadedGraphs` and `IndexedImages`. The lemmas in `DashboardProperties` prove what the page relies on about those functions.

Modules:

- `Wrappers`: `Option`.
- `Text`: Python's `str.replace` (including the empty pattern) and `str.title`, for ASCII.
- `FileSystem`: the file system value, and `os.path.exists`, `open(...).read()` and `os.makedirs(..., exist_ok=True)` on it. It also has two edits, deleting a file and rewriting one, which the properties use.
- `Listing`: `Select`, the order-keeping filter of an allow-list by what the existence check says, which both scans compute.
- `DisplayNames` and `Spelling`: the display-name expression, its general rules, and the title of every allow-listed file. `Spelling` holds the literal string facts those proofs are built from.
- `Dashboard`: the allow-lists, the entry records, the three operations and their specification functions.
- `DashboardProperties`: the properties of the start-up verification and the loaders.

## Model

| member | source | states |
|---|---|---|
| Dashboard.VerifyFiles | app.py:26-63 | The flag, the two printed missing lists and the file system afterwards equal `Verification`. That function covers four outcomes: either directory creation raises, so the result is False with nothing reported; an existence check raises, so False; otherwise it reports the absent files and succeeds iff none is absent. |
| Dashboard.GetPlotlyGraphs | app.py:65-84 | The list returned equals `LoadedGraphs`: if an existence check or a read raises, it is empty. Otherwise it has one (display name, text read) entry per existing allow-listed chart, in allow-list order. |
| Dashboard.GetImages | app.py:86-103 | The list returned equals `IndexedImages`: if an existence check raises, it is empty. Otherwise it has one (file, display name) entry per existing allow-listed picture, in allow-list order. |
| Dashboard.GraphsStep | app.py:71-79 | One iteration of the chart loop. The failure flags move on by this file's lookup and read. The entries grow by this file's entry exactly when the file exists. |
| Dashboard.ImagesStep | app.py:92-98 | One iteration of the picture loop. The failure flag moves on by this file's lookup. The entries grow by this file's entry exactly when the file exists. |
| FileSystem.MakeDirs | app.py:32-33 | Creating a directory raises exactly when it does not exist and cannot be created. Otherwise the directory exists afterwards (empty if it is new), every other directory is unchanged, and so is every lookup and read. |
| FileSystem.RemoveFile | app.py:92-98 | A change made outside the program, which the removal property of the picture loop needs; the program itself deletes nothing. After a file is deleted, its lookup says absent (unless it raises). Every other lookup and read is unchanged. |
| FileSystem.Rewrite | app.py:92-98 | A change made outside the program, which the no-read property of the picture loop needs; the program itself writes nothing. Rewriting a file keeps every lookup. The rewritten file, if it exists, reads back the new content. Every other read is unchanged. |
| DashboardProperties.DirsCreated | app.py:32-33 | When neither creation raises, both directories exist afterwards, and the file contents and lookups are as before. |
| DashboardProperties.MissingListsExact | app.py:36-50 | When nothing raises, the missing lists are exactly the absent allow-listed files, in allow-list order. Verification succeeds iff both lists are empty. Both directories exist afterwards, and every file is as it was. |
| DashboardProperties.VerifyFailsWhenAStepRaises | app.py:61-63 | If a directory creation or an existence check raises, verification fails and reports nothing missing. |
| DashboardProperties.VerifiedIffAllPresent | app.py:50-59 | Verification succeeds exactly when every allow-listed chart and picture exists, and a successful verification changes nothing. |
| DashboardProperties.GraphEntriesAreTheFilesRead | app.py:70-82 | If an existence check or a read raises, no chart is loaded. Otherwise there is one entry per existing chart, whose name is its display name and whose content is exactly the text its file holds. |
| DashboardProperties.ImageEntriesAreExistingFiles | app.py:91-101 | If an existence check raises, no picture is listed. Otherwise entry j is (file, display name) of the allow-listed picture at the j-th position whose file exists: the positions increase strictly, and every existing picture's position is among them. |
| DashboardProperties.AbsentGraphsDirAllMissing | app.py:30-40 | When no directory creation and no existence check raises, and the chart directory does not exist, verification creates it and reports every allow-listed chart missing, so it fails. |
| DashboardProperties.AbsentImagesDirAllMissing | app.py:31-47 | When no directory creation and no existence check raises, and the picture directory does not exist, verification creates it and reports every allow-listed picture missing, so it fails. |
| DashboardProperties.ImageListedIffPresent | app.py:92-98 | When no picture's existence check raises, a file is listed among the pictures iff it is allow-listed and exists. |
| DashboardProperties.ImagesReadNoContent | app.py:92-98 | The pictures listed depend only on the existence checks: two file systems that agree on those give the same list. |
| DashboardProperties.ImagesIgnoreRewrite | app.py:92-98 | Rewriting any file's content never changes the pictures listed. |
| DashboardProperties.GraphsDependOnTheirDirectory | app.py:67-79 | The charts depend only on the existence checks and reads of the allow-listed charts. |
| DashboardProperties.RemovingAnImageDropsOnlyItsEntry | app.py:92-98 | When no picture's existence check raises, deleting one existing picture removes exactly its entry, at its position, keeps the others in order and leaves the charts unchanged. |
| DashboardProperties.ImageEntriesWithout | app.py:95-98 | Dropping one file from a list of pictures drops exactly its entry. |
| DashboardProperties.LoadedAndMissingPartition | app.py:36-47 | When no directory creation or existence check raises and no chart read fails, loaded charts plus missing charts number four, and so do loaded plus missing pictures. |
| DashboardProperties.GraphTitlesOfAllowList | app.py:12-17 | The four charts are shown as "Expense Flow Sankey", "Vendor Comparison Chart", "Vendor Repetition Rate Comparison" and "Vendor Metrics Dashboard". |
| DashboardProperties.ImageTitlesOfAllowList | app.py:19-24 | The four pictures are shown as "Anomoly Detection Heatmap", "Correlation Matrix", "Payment Trend" and "Top Vendors By Anomoly". |
| DashboardProperties.ImageFilesDistinct | app.py:19-24 | The picture allow-list has no duplicates. |
| DashboardProperties.VerifiedLoadsEverything | app.py:113-115 | After a successful verification the file system is unchanged. Every picture is listed and, when no read fails, every chart is loaded, in allow-list order. |
| DashboardProperties.VerifiedPageHasAllImages | app.py:105-109 | After a successful verification the page gets all four pictures, in order, under their titles. |
| DashboardProperties.VerifiedPageHasAllGraphs | app.py:105-109 | After a successful verification with no failing read, the page gets all four charts, in order, under their titles, with their files' text. |
| DisplayNames.DisplayNameHasNoUnderscore | app.py:75 | No display name contains an underscore, for any file name and extension. |
| DisplayNames.DisplayNameIsTitleCased | app.py:94 | Title-casing a display name again leaves it unchanged. |
| DisplayNames.DisplayNameIdempotent | app.py:75 | Deriving the display name from a display name gives it back unchanged, for any extension that starts with an uncased character followed by a lower-case letter. |
| DisplayNames.PageDisplayNamesIdempotent | app.py:94 | For the page's extensions ".html" (line 75) and ".jpg" (line 94), deriving the display name twice is deriving it once. |
| DisplayNames.DisplayNameRule | app.py:75 | Character by character, against the name with every occurrence of its extension removed: an underscore becomes a space; other uncased characters stay; a letter after a letter is lower-cased; any other letter is upper-cased. |
| DisplayNames.DisplayNameOfStem | app.py:75 | For a bare name that does not contain the extension's first character, the display name of bare name plus extension is the bare name with underscores turned into spaces, title-cased. |
| DisplayNames.SpacedWord | app.py:75 | A word without underscores is only title-cased. |
| DisplayNames.ReplaceUnderscoreCons | app.py:75 | Replacing underscores in word, `_`, rest gives word, space, the replaced rest. |
| DisplayNames.SpacedCons | app.py:75 | In word, `_`, rest, the word is title-cased on its own and the rest starts a new word. |
| DisplayNames.ExpenseFlowSankeyName | app.py:13 | `expense_flow_sankey.html` is shown as "Expense Flow Sankey". |
| DisplayNames.VendorComparisonChartName | app.py:14 | `vendor_comparison_chart.html` is shown as "Vendor Comparison Chart". |
| DisplayNames.VendorRepetitionRateComparisonName | app.py:15 | `vendor_repetition_rate_comparison.html` is shown as "Vendor Repetition Rate Comparison". |
| DisplayNames.VendorMetricsDashboardName | app.py:16 | `vendor_metrics_dashboard.html` is shown as "Vendor Metrics Dashboard". |
| DisplayNames.AnomolyDetectionHeatmapName | app.py:20 | `Anomoly_Detection_Heatmap.jpg` is shown as "Anomoly Detection Heatmap". |
| DisplayNames.CorrelationMatrixName | app.py:21 | `Correlation_Matrix.jpg` is shown as "Correlation Matrix". |
| DisplayNames.PaymentTrendName | app.py:22 | `Payment_Trend.jpg` is shown as "Payment Trend". |
| DisplayNames.TopVendorsByAnomolyName | app.py:23 | `Top_Vendors_By_anomoly.jpg` is shown as "Top Vendors By Anomoly": the lower-case last word is capitalised. |
| Listing.RaisesSnoc | app.py:70-82 | One more loop step: a prefix raises iff the shorter prefix raises or the next lookup or read does. |
| Listing.SelectIsOrderedSubsequence | app.py:36-47 | The filtered list is the allow-list's entries at strictly increasing positions. A position is taken exactly when its lookup gives the wanted answer. |
| Listing.PositionsRule | app.py:37-40 | The positions the scan keeps are in range, strictly increasing, and are exactly those whose lookup gives the wanted answer. |
| Listing.SelectAtPositions | app.py:37-40 | Entry j of the filtered list is the allow-list's entry at the j-th kept position. |
| Listing.SelectMembers | app.py:37-40 | A name is in the filtered list iff it is allow-listed and its lookup gives the wanted answer. |
| Listing.SelectAppend | app.py:37-40 | Filtering a concatenation is concatenating the filtered parts. |
| Listing.SelectPartition | app.py:36-47 | When no lookup raises, the present names and the absent names together make up the allow-list, as multisets. |
| Listing.SelectPartitionCount | app.py:36-47 | When no lookup raises, the present and absent counts add up to the allow-list's length. |
| Listing.SelectEmptyIff | app.py:50 | Nothing is selected iff no lookup gives the wanted answer. |
| Listing.SelectAll | app.py:71-79 | When every lookup gives the wanted answer, the whole allow-list is taken, in order. |
| Listing.SelectCongruent | app.py:37-40 | The filtered list depends only on the lookups of the listed names. |
| Listing.SelectSplitAt | app.py:92-98 | Filtering a list is filtering the part before a position, the entry there and the part after, in turn. |
| Listing.SelectIgnoresOtherRemoval | app.py:92-98 | Deleting a file that is not listed leaves the filtered list unchanged. |
| Listing.SelectAfterRemoval | app.py:92-98 | Deleting a present file listed once removes exactly that name, at its position, and keeps the rest in order. |
| Text.ReplaceCharRule | app.py:75 | Replacing one character by another keeps the length and changes exactly the occurrences. |
| Text.ReplacedCharGone | app.py:75 | After replacing a character by a different one, it no longer occurs. |
| Text.ReplaceAbsent | app.py:75 | A pattern whose first character does not occur leaves the string unchanged. |
| Text.ReplaceNowhere | app.py:75 | A non-empty pattern that occurs at no position leaves the string unchanged. |
| Text.RemoveTrailing | app.py:75 | For a bare name without the extension's first character, removing the extension from the bare name followed by it gives back the bare name. |
| Text.ReplaceCharAppend | app.py:75 | Replacing a one-character pattern distributes over concatenation. |
| Text.TitleFromLength | app.py:75 | Title-casing keeps the length. |
| Text.TitleFromAt | app.py:75 | Each title-cased character depends only on itself and on whether the character before it is a letter. |
| Text.TitleRule | app.py:75 | ASCII `str.title`: uncased characters stay, a letter after a letter is lower-cased, and every other letter is upper-cased. |
| Text.TitleKeepsKinds | app.py:94 | Title-casing keeps letters letters and leaves every other character in place. |
| Text.TitleKeepsUncased | app.py:94 | An uncased character occurs in the title-cased string iff it occurs in the original. |
| Text.TitleIdempotent | app.py:94 | Title-casing twice is the same as title-casing once. |
| Text.TitleFromAppend | app.py:75 | Title-casing a concatenation: the second part continues from the last character of the first. |

## Left out

- The Flask application, the `/` route and `render_template` (app.py:1, 6, 105-109). The lemmas `VerifiedPageHasAllImages` and `VerifiedPageHasAllGraphs` state what the route would pass to the template, but no template is rendered.
- The start-up script (app.py:111-117) and `app.run`. The server is not modelled. Only the "a successful verification means the loaders find everything" consequence is proved.
- Every `print` (app.py:51-58, 62, 81, 100). The missing lists verification prints become out-parameters of `VerifyFiles`. The error messages are dropped.
- Real I/O. The file system is a value given to each operation. Opening and reading a file, including UTF-8 decoding, is one lookup whose outcome is either the text or `ReadFailed`. Bytes and encodings are not modelled.
- The causes of exceptions. A raising `os.makedirs`, existence check or read is a fault recorded in the file system value, whatever the cause. CPython's `os.path.exists` returns False rather than raising on most errors. The model still lets it raise, because the `try` block around it treats any exception the same way.
- `os.makedirs` beyond "the directory exists afterwards". Parent directories, permissions, and a non-directory already in the way (other than as a creation fault) are not modelled. `os.path.join` is represented as a (directory, name) pair.
- Full Unicode casing in `str.title`. Only ASCII letters are cased. Every other character counts as uncased, which is exact for the allow-listed names.
- The unused `BASE_DIR`, `glob` and `shutil` (app.py:3-4, 9).
- Concurrency. Files changing between the start-up verification and a page load are covered only through the properties that relate two file systems.
