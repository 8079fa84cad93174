# Donation-ledger scoring pipeline, modelled in Dafny

The system turns an agency's weekly donation ledger (a `;`-separated export)
into a formatted report. It has four steps.

- **Scoring.** Each donation gets a score from the donor's age, payment
  interval and yearly amount.
- **Bonus rule.** Each fundraiser is judged eligible for a bonus when at
  least 70% of the donations with a counted status are approved.
- **Normaliser.** Summary rows and rows without a reference id are
  dropped. Header columns are forward-filled, ids are zero-padded and a
  numeric week key is read off each week label.
- **Report assembler.** For every calendar week and every fundraiser name
  in it, the report holds the detail rows followed by one `Total: …`
  subtotal row.

The pipeline exists twice: as the script `csv_formatter.py` and as the
methods of `CSVFormatterApp` in `csv_formatter_gui.py`. Two renderers read
the formatted file back and produce one report per fundraiser:
`html_generator.py`, one HTML form each, and `pdf_generator.py`, one PDF
each. Each renderer computes a month, week sections, per-week totals, a
per-week bonus and a file name.

## Modules

| file | module | what it holds |
|---|---|---|
| wrappers.dfy | `Wrappers` | `Option` for a missing pandas value, `Result` for a raised exception |
| text.dfy | `Text` | the `str` operations used, over `seq<char>`: lower-casing, substring test, literal replace, `zfill`, `strip`, digit runs, `int()`/`float()` on plain literals, `split`/`join`, code-point string order |
| ordering.dfy | `Ordering` | `sorted(set(...))`, `unique()` in first-occurrence order, and a stable sort, each with its specification |
| points.dfy | `Points` | `calculate_points`, with scores counted in half-points (1 means 0.5 points) |
| eligibility.dfy | `Eligibility` | `calculate_bonus_eligibility`; the test `approved / total >= 0.7` is stated as `10 * approved >= 7 * total` |
| ledger.dfy | `Ledger` | the normaliser: filters, forward fill, id padding, week key, scoring |
| report.dfy | `Report` | the assembler: bonus dictionary, sort, week selection, blocks, the nested loops that build the output rows |
| formatter_app.dfy | `FormatterApp` | the copy of the pipeline on `CSVFormatterApp` as imperative methods, each proved equal to the script's definition; the cells written per row and the returned row count |
| formatted_csv.dfy | `FormattedCsv` | how a renderer reads a written line back; the row filter both renderers apply before grouping by (id, name) |
| calendar.dfy | `Calendar` | the shared week-to-month table, its lookup loop with the "Mai" default, and week numbers of labels |
| html_generator.dfy | `HtmlGenerator` | the HTML report's month, week groups, week total, week bonus, points display and file name |
| pdf_generator.dfy | `PdfGenerator` | the PDF report's id guard, month, week order, week total, week bonus and file name, including how `pd.to_numeric` reads its columns |

Scores are half-point naturals, so every sum is exact. Amounts and parsed
points are `real`. A missing cell (NaN) is `None`; a missing status is the
empty string, and every comparison in the source treats both alike. A
point where the source raises an exception (`int()` of a bad label,
`re.findall(...)[0]` on a label without digits, a division by zero) is an
`Err` result. How `str()` spells a float is a parameter (`Spelling`, and
`spell: real -> string` in the HTML display). The positional form appears
only where a round trip needs it (`FormatterApp.FloatScore`).

The renderers do not agree with the formatter, or with each other. This is
modelled as written, and lemmas exhibit each difference:

- The HTML total excludes status `cancelled`, yet the formatter writes
  `cancellation`.
- The HTML bonus counts `conditionally-approved` with a hyphen, yet the
  formatter writes it with a space.
- The PDF takes its month from the first `/` label; the HTML takes it from
  the least week number.
- The PDF approves only a lowercased exact `approved`.
- The PDF sorts week labels as strings.

Two error cases are kept as the code has them:

- An id that is missing even after the forward fill is printed by
  `astype(str)` as "nan" and padded to "00nan". The model does the same and
  does not reject the ledger.
- The PDF week bonus divides by the number of valid rows, and raises when
  there are none. The model returns an `Err`.

## Model

| member | source | states |
|---|---|---|
| Points.CalculatePoints | csv_formatter.py:5-61 | every score is a multiple of 0.5 between 0.5 and 6 points (1..12 half-points) |
| Points.PointsFollowTable | csv_formatter.py:25-61 | from age 30 the score is the bracket/column table entry (below 120: 1 point in every column), plus 1 point from age 40 |
| Points.UnderTwentyFive | csv_formatter.py:17-18 | under 25 the score is always 0.5 |
| Points.UnderThirty | csv_formatter.py:21-22 | from 25 to 29 the score is 0.5 exactly when the lowercased interval is "monthly", and 1.0 otherwise |
| Points.FortyPlusAddsOnePoint | csv_formatter.py:58-59 | from 40 the score is the age-30 score plus exactly 1 point |
| Points.MonotoneInAmount | csv_formatter.py:25-55 | a larger yearly amount never lowers the score |
| Points.MonotoneInAge | csv_formatter.py:17-61 | an older donor never scores less for the same interval and amount |
| Points.RegressionVectors | test_build.py:44-51 | (25, "Monthly", 360) gives 0.5, (35, "Monthly", 360) gives 3.0, (45, "Monthly", 360) gives 4.0 |
| Points.ColumnOf | csv_formatter.py:27-31 | the interval picks one of the three table columns |
| Points.BracketOf | csv_formatter.py:26-47 | an amount picks one of the four brackets, or none below 120 |
| Points.YearlyLabel | csv_formatter.py:27 | "Yearly" matches the yearly column, since lowercasing comes before the exact test |
| Points.HalfLabel | csv_formatter.py:29 | any interval containing "Half" or "half" takes the half-yearly column |
| Points.HalfColumn | csv_formatter.py:29 | "half" anywhere in the lowercased interval selects the half-yearly column |
| Points.MonthlyLabel | csv_formatter.py:31 | "monthly" takes the fall-through column |
| Points.GermanYearlyLabel | csv_formatter.py:31 | "jährlich" is not recognised as yearly and takes the monthly column |
| Points.NoHalf | csv_formatter.py:29-31 | an interval that is neither "yearly" nor contains "half" takes the monthly column |
| Points.NoLetterF | csv_formatter.py:29-31 | a lower-cased label without the letter 'f' does not contain "half" |
| Eligibility.CalculateBonusEligibility | csv_formatter.py:63-83 | `calculate_bonus_eligibility`; its contract is stated by SeventyPercentBoundary, NoRelevantRowsNotEligible, IgnoresOtherStatuses, ApprovedNeverHurts and CancellationNeverHelps |
| Eligibility.Relevant | csv_formatter.py:69-71 | only the five counted statuses are kept |
| Eligibility.Approved | csv_formatter.py:75-77 | only "approved" and "conditionally approved" are kept |
| Eligibility.ApprovedAtMostAll | csv_formatter.py:73-77 | the approved count never exceeds the relevant count |
| Eligibility.NoRelevantRowsNotEligible | csv_formatter.py:79-80 | with no counted status the result is not-eligible |
| Eligibility.IgnoresOtherStatuses | csv_formatter.py:69-71 | a row with any other status never changes the result |
| Eligibility.ApprovedNeverHurts | csv_formatter.py:82-83 | adding an approved row keeps an eligible fundraiser eligible |
| Eligibility.CancellationNeverHelps | csv_formatter.py:82-83 | adding a cancellation keeps a not-eligible fundraiser not-eligible |
| Eligibility.SeventyPercentBoundary | csv_formatter.py:82-83 | out of 10 counted rows, 7 approved is eligible and 6 is not |
| Eligibility.RelevantSplit | csv_formatter.py:69-71 | the status filter distributes over concatenation |
| Eligibility.ApprovedSplit | csv_formatter.py:75-77 | the approval filter distributes over concatenation |
| Ledger.IsSummaryRow | csv_formatter.py:96 | `str.contains` of "Subtotal" or "Total" on the name, ignoring case, and false for a missing name; see SummaryRowIffTotal and NormaliseHasNoSummaryNames |
| Ledger.SummaryRowIffTotal | csv_formatter.py:96 | a row is a summary row exactly when its lowercased name contains "total", which also covers "subtotal" |
| Ledger.DropSummaryRows | csv_formatter.py:96 | a row value is kept exactly when it is no summary row, and a missing name is kept; order and multiplicity are stated by DropSummaryRowsSplit |
| Ledger.DropMissingRefIds | csv_formatter.py:99-100 | a row value is kept exactly when its reference id is present and not empty; order and multiplicity are stated by DropMissingRefIdsSplit |
| Ledger.Surviving | csv_formatter.py:96-100 | the surviving row values are exactly the raw rows that pass both filters; order and multiplicity are stated by SurvivingSplit and SurvivingOne |
| Ledger.DropSummaryRowsSplit | csv_formatter.py:96 | the summary filter distributes over concatenation, so survivors keep their order and multiplicity |
| Ledger.DropMissingRefIdsSplit | csv_formatter.py:99-100 | the reference-id filter distributes over concatenation, so survivors keep their order and multiplicity |
| Ledger.SurvivingSplit | csv_formatter.py:96-100 | the rows the forward fill sees are the survivors of each part of the file, in file order |
| Ledger.SurvivingOne | csv_formatter.py:96-100 | a single row survives, once, exactly when it is no summary row and has a reference id |
| Ledger.FillForward | csv_formatter.py:103-106 | the forward fill keeps the column length |
| Ledger.FillForwardAt | csv_formatter.py:103-106 | each filled cell is the nearest present value at or above it |
| Ledger.NearestAboveSpec | csv_formatter.py:103-106 | the nearest value above is present exactly when some cell at or above is, and then it is the last such cell |
| Ledger.NearestAbovePrefix | csv_formatter.py:103-106 | the fill of a row depends only on the rows above it |
| Ledger.FillForwardIdempotent | csv_formatter.py:103-106 | filling twice is filling once |
| Ledger.NearestAboveOfFilled | csv_formatter.py:103-106 | the nearest value above is the same in the filled and the unfilled column |
| Ledger.FillForwardFromColumn | csv_formatter.py:103-106 | every filled value comes from the column itself |
| Ledger.FillRestoresSparseColumn | csv_formatter.py:103-106 | a column written only on each group's first row is restored to the full column |
| Ledger.SparseNearest | csv_formatter.py:103-106 | in such a column, the nearest value above each row is that row's group value |
| Ledger.ForwardFillRows | csv_formatter.py:103-106 | id, name, week and billing group become the nearest values above; the other columns are untouched |
| Ledger.PadId | csv_formatter.py:109 | a padded id has at least 5 characters |
| Ledger.PadIdWithoutDot | csv_formatter.py:109 | an id without '.' is only zero-filled to 5 |
| Ledger.PadIdExamples | csv_formatter.py:109 | "4.0" becomes "00004"; a missing id becomes "00nan" |
| Ledger.PadIdLongIds | csv_formatter.py:109 | an id without '.' that already has 5 or more characters is unchanged |
| Ledger.FirstDigitRunOf | csv_formatter.py:112 | the first digit run of a label is the digits after its digit-free prefix |
| Ledger.WeekKey | csv_formatter.py:112 | the `KW_num` sort key: `int()` of the first digit run, 0 without one; see WeekKeyOfLabel and WeekKeyWithoutDigits |
| Ledger.WeekKeyOfLabel | csv_formatter.py:112 | a label with a digit-free prefix and the number n has week key n |
| Ledger.WeekKeyWithoutDigits | csv_formatter.py:112 | a label without digits, or a missing label, has week key 0 |
| Ledger.Normalise | csv_formatter.py:96-117 | one record per surviving row |
| Ledger.NormaliseAt | csv_formatter.py:103-117 | record i is built from the forward-filled surviving row i and its score |
| Ledger.NormaliseSpec | csv_formatter.py:96-117 | record i has surviving row i's reference id (not empty), padded filled id, filled name, week and group, the week key of its label, its status, and the score of its age, interval and amount |
| Ledger.NormaliseHasNoSummaryNames | csv_formatter.py:96 | no normalised record has a name containing "total" or "subtotal", in any case |
| Report.FundraiserBonus | csv_formatter.py:121-124 | the eligibility rule over all statuses of one fundraiser id, every week included; see BuildBonusMap and BlockFacts |
| Report.BuildBonusMap | csv_formatter.py:120-127 | the dictionary has an entry exactly for each fundraiser id present, holding the rule over all that id's records |
| Report.RecordLtIsStrictWeakOrder | csv_formatter.py:130 | the order on (week key, name, billing group), with NaN last, is a strict weak order |
| Report.RecordNotLt | csv_formatter.py:130 | two records are unordered exactly when their three keys agree |
| Report.RecordLtFacts | csv_formatter.py:130 | the record order is irreflexive and transitive, and so is being unordered |
| Report.OptionLessFacts | csv_formatter.py:130 | the order on optional texts, NaN last, is a strict total order |
| Report.SortedRecords | csv_formatter.py:130 | `sort_values` by week key, name and billing group; see SortedRecordsSpec and SortedRecordsMember |
| Report.SortedRecordsSpec | csv_formatter.py:130 | the sorted records are a permutation of the records, ordered by the three keys |
| Report.SortedRecordsMember | csv_formatter.py:130 | sorting neither loses nor adds a record |
| Report.NatLtIsStrictTotalOrder | csv_formatter.py:143 | week keys are sorted by a strict total order |
| Report.StringLessIsStrictTotalOrder | csv_formatter.py:159 | names are sorted by a strict total order |
| Report.Weeks | csv_formatter.py:143 | the distinct week keys in ascending order; see WeekNumsMember and Ordering.SortedUniqueSpec |
| Report.WeekNumsMember | csv_formatter.py:143 | every record's week key is among the weeks walked |
| Report.InWeek | csv_formatter.py:147-157 | the week selection: substring "KW<n>" or "<n>/2025" up to week 12, else the exact label "<n>/2025"; see KW10AlsoListedUnderWeek1, KW18NotSelected and Label11Of2025SelectedForWeek1 |
| Report.WeekRows | csv_formatter.py:147-157 | the sorted records a week selects, in sorted order; see WeekRowsMember |
| Report.WeekRowsMember | csv_formatter.py:147-157 | a week's rows are exactly the sorted records its label test selects |
| Report.NamesIn | csv_formatter.py:159 | the sorted distinct names of a week's rows; see PresentNamesHas, PresentNamesFrom and NameRowsNonEmpty |
| Report.PresentNamesHas | csv_formatter.py:159 | every named row's name is among the week's names |
| Report.PresentNamesFrom | csv_formatter.py:159 | every listed name comes from a row of that week |
| Report.NameRows | csv_formatter.py:160 | the week rows of one name, in order; see NameRowsMember and NameRowsNonEmpty |
| Report.NameRowsMember | csv_formatter.py:160 | a name's rows are exactly that week's rows with that name |
| Report.NameRowsNonEmpty | csv_formatter.py:159-160 | every listed name has at least one row |
| Report.PointsTotal | csv_formatter.py:173-174 | the points of the rows not marked `cancellation`; see PointsTotalSplit, RowContribution and PointsTotalBound |
| Report.PointsTotalSplit | csv_formatter.py:173-174 | the subtotal distributes over concatenation |
| Report.RowContribution | csv_formatter.py:173-174 | a cancellation row adds nothing to the subtotal; any other row adds its score |
| Report.PointsTotalBound | csv_formatter.py:174 | a subtotal is at most 6 points per row |
| Report.NameBlocks | csv_formatter.py:159-189 | one block per listed name |
| Report.NameBlocksAt | csv_formatter.py:159-189 | block k is the block of the k-th name |
| Report.Assemble | csv_formatter.py:140-189 | the rows `format_csv` writes, as blocks flattened in week and name order; FormatRows computes it, BlocksAreOrdered, BlockShape and ReportedDetailsAreNamedRecords state its properties |
| Report.FormatRows | csv_formatter.py:140-189 | the method builds exactly the assembled row list, dictionary included |
| Report.AppendWeeks | csv_formatter.py:143-189 | the outer loop appends, for every non-zero week in ascending order, that week's blocks |
| Report.WeekBlocksStep | csv_formatter.py:143-157 | week key 0 adds nothing; any other week adds the blocks of its names |
| Report.AppendWeek | csv_formatter.py:159-189 | the name loop appends the blocks of the week's names in ascending order |
| Report.AppendName | csv_formatter.py:160-189 | one name step appends that name's details and its subtotal |
| Report.FirstRowInLedger | csv_formatter.py:175 | the first row of a name's block is a record of the ledger, so its fundraiser has a dictionary entry |
| Report.NameBlocksStep | csv_formatter.py:159-189 | the next name's block is its details followed by one subtotal holding the non-cancelled sum and the first row's bonus |
| Report.AppendBlock | csv_formatter.py:163-189 | the innermost loop appends the detail rows, then the subtotal |
| Report.WeekBlocksMember | csv_formatter.py:143-159 | every block is for a walked non-zero week and a name of that week |
| Report.BlockFacts | csv_formatter.py:159-189 | a block has a non-zero week and at least one row; its rows are ledger records with its name and week; its total is their non-cancelled sum; its bonus is the first row's fundraiser-wide result |
| Report.WeekBlocksOrdered | csv_formatter.py:143-159 | ascending weeks give blocks ordered by (week, name) |
| Report.NameBlocksOrdered | csv_formatter.py:159 | ascending names give blocks of one week ordered by name |
| Report.OrderedAppend | csv_formatter.py:143-159 | a later week's blocks come after every earlier week's |
| Report.BlocksAreOrdered | csv_formatter.py:143-159 | the report is ordered by week, then by name |
| Report.NameBlocksHave | csv_formatter.py:159 | every listed name gets its block |
| Report.WeekBlocksHave | csv_formatter.py:143 | every block of a walked week is in the report |
| Report.ListedUnderWeek | csv_formatter.py:143-160 | a named record that week n selects appears in a block of week n |
| Report.NamedRecordsAreReported | csv_formatter.py:143-160 | a named record with a non-zero key, whose own week selects it, is reported under its name and key |
| Report.KW10AlsoListedUnderWeek1 | csv_formatter.py:148-154 | a "KW10" record appears under week 1 as well as under week 10 |
| Report.KW18NotSelected | csv_formatter.py:155-157 | from week 13 only "n/2025" is matched, so a "KW18" record is in no block of week 18 |
| Report.Label11Of2025SelectedForWeek1 | csv_formatter.py:148-154 | "11/2025" is selected by week 1 and by week 11 |
| Report.CountSubtotalsSplit | csv_formatter.py:169-189 | subtotal rows count additively |
| Report.DetailsHaveNoSubtotal | csv_formatter.py:163-169 | detail rows hold no subtotal |
| Report.BlockShape | csv_formatter.py:162-189 | a block's rows are its details, in order, then exactly one subtotal |
| Report.FlattenCounts | csv_formatter.py:162-189 | the report has one subtotal per block, and its length is the details plus the blocks |
| Report.FlattenAppend | csv_formatter.py:169-189 | appending blocks appends their rows |
| Report.FlattenDetailsFrom | csv_formatter.py:163-169 | every detail row in the output belongs to some block's rows |
| Report.ReportedDetailsAreNamedRecords | csv_formatter.py:143-169 | every detail row is a named ledger record, selected by some non-zero week |
| FormatterApp.CalculatePoints | csv_formatter_gui.py:232-277 | the method gives the script's score for every input |
| FormatterApp.CalculateBonusEligibility | csv_formatter_gui.py:279-295 | the method gives the script's result, and not-eligible when no status is counted |
| FormatterApp.Normalise | csv_formatter_gui.py:322-343 | the method's filters, fill, padding, week key and scoring give the script's records |
| FormatterApp.BuildBonusMap | csv_formatter_gui.py:346-353 | the dictionary has an entry exactly for each id present, holding the script's rule over that id's records |
| FormatterApp.FormatCsv | csv_formatter_gui.py:319-457 | the rows are the script's assembled rows; each written line joins that row's cells with ';'; the returned count is the number of rows |
| FormatterApp.RowCountIsDetailsPlusBlocks | csv_formatter_gui.py:415 | the row count is the detail rows plus one subtotal per (week, name) block |
| FormatterApp.CellsOfRow | csv_formatter_gui.py:436-445 | a detail line has its record's fields, the score with '.' turned into ',' and an empty bonus; a subtotal line has 8 empty cells, "Total: " plus the sum unchanged, and the bonus label |
| FormatterApp.RowValues | csv_formatter_gui.py:434-444 | the column loop builds exactly the cells of the row |
| FormatterApp.WriteRows | csv_formatter_gui.py:433-445 | one line per row, each the row's cells joined by ';' |
| FormatterApp.LineSplitsIntoCells | csv_formatter_gui.py:445 | a line whose cells hold no ';' splits back into its ten cells |
| FormatterApp.CommaScore | csv_formatter_gui.py:442 | the score's float spelling with '.' turned into ','; see CommaScoreShape and CommaScoreBack |
| FormatterApp.CommaScoreShape | csv_formatter_gui.py:441-442 | a score written from its float is its integer part, then ",0" or ",5"; it holds neither '.' nor ';' |
| FormatterApp.CommaScoreBack | csv_formatter_gui.py:442 | turning the ',' back into '.' restores the float spelling |
| FormatterApp.FloatScoreParses | csv_formatter_gui.py:442 | `float()` of the float spelling is the score in points |
| FormatterApp.FloatScoreValue | csv_formatter_gui.py:442 | the integer and fraction digits of the spelling denote the score |
| FormattedCsv.ReadBackCells | html_generator.py:231 | reading a written line returns the cells written, when none holds ';' |
| FormattedCsv.ReadBackDetail | html_generator.py:231 | a detail line reads back with its record's id, name, week, reference id, status and comma score |
| FormattedCsv.ParsePoints | html_generator.py:85 | `float(str(p).replace(',', '.'))`, none when it raises or the cell is missing; see CommaScoreParses and HtmlGenerator.RowShare |
| FormattedCsv.CommaScoreParses | html_generator.py:85 | a written score, read with ',' as '.', is the score's value |
| FormattedCsv.KeepRows | html_generator.py:237-239 | the renderers' filter on the reference id; see KeepRowsMember and FilterKeepsDetailLines |
| FormattedCsv.KeepRowsMember | html_generator.py:237-239 | the filter keeps exactly the rows with a present, non-empty reference id without "Total:" |
| FormattedCsv.FilterKeepsDetailLines | pdf_generator.py:276-280 | the filter keeps a written line exactly when it is a detail line whose reference id has no "Total:"; every subtotal line is dropped |
| FormattedCsv.FundraiserRowsMember | html_generator.py:242-247 | a fundraiser's group is exactly the rows with its id and name; rows missing either belong to none |
| Calendar.ReportMonth | html_generator.py:53-58 | the month for the first week, "Mai" for none or week 0; see MonthLookup, TableAgreesWithMonthOfWeek and DefaultMonthIsAmbiguous |
| Calendar.MonthLookup | html_generator.py:53-58 | the loop gives the month whose range holds the week, and "Mai" for no week, week 0 or no range |
| Calendar.TableAgreesWithMonthOfWeek | html_generator.py:55-57 | the range the loop stops at names the month of the week |
| Calendar.TableCovers | html_generator.py:28-41 | some range holds the week exactly when the week is in 1..52 |
| Calendar.TableIsPartition | html_generator.py:28-41 | the ranges run from 1 to 52 without a gap or an overlap |
| Calendar.RangesAscend | html_generator.py:28-41 | later ranges lie above earlier ones |
| Calendar.DefaultMonthIsAmbiguous | html_generator.py:53-54 | week 0 or a week outside 1..52 gives "Mai", like a missing week and like week 20 |
| Calendar.DigitsAfterPrefix | html_generator.py:49 | the first digit run after a digit-free prefix is the digits |
| Calendar.BeforeSlash | html_generator.py:47 | the part before the first '/' is the text up to it |
| Calendar.LabelWeek | html_generator.py:46-49 | the week of one label: `int()` before a '/', else the first digit run; see KwLabel, SlashLabel, KwSlashLabel and NoDigitsLabel |
| Calendar.KwLabel | html_generator.py:49 | "KW<n>" is week n |
| Calendar.SlashLabel | html_generator.py:47 | "<n>/<year>" is week n |
| Calendar.KwSlashLabel | html_generator.py:47 | "KW<n>/<year>" raises, since `int("KW<n>")` fails |
| Calendar.LetterFirstIsNotInt | html_generator.py:47 | "KW" followed by digits is no integer |
| Calendar.NoDigitsLabel | html_generator.py:49 | a label without '/' and without digits raises |
| HtmlGenerator.MinWeek | html_generator.py:44-51 | the smallest week of the labels, failing as soon as one label fails; see MinWeekSpec and FailurePersists |
| HtmlGenerator.MinWeekSpec | html_generator.py:44-51 | the loop fails exactly when some label fails; gives none exactly for no labels; otherwise gives a week of the labels that is at most every week |
| HtmlGenerator.LabelWeeksOfTwo | html_generator.py:46-49 | the weeks of two labels, in order |
| HtmlGenerator.MinWeekOfTwo | html_generator.py:50-51 | two weeks give the lesser |
| HtmlGenerator.FailurePersists | html_generator.py:45-49 | once a label raises, the loop result is that failure |
| HtmlGenerator.FirstWeek | html_generator.py:44-51 | the accumulator loop computes the least week number, or fails |
| HtmlGenerator.Month | html_generator.py:24-58 | the month fails exactly when the week loop raises, and is otherwise the table's month of the least week |
| HtmlGenerator.GroupByWeek | html_generator.py:67-73 | groups exist exactly for the labels in first-occurrence order; each holds, in input order, the rows with that label and a present reference id |
| HtmlGenerator.WeekGroupMember | html_generator.py:69-73 | a group holds exactly the rows with its label and a present reference id |
| HtmlGenerator.GroupedWeeksMember | html_generator.py:71-72 | a label gets a key exactly when its group is not empty |
| HtmlGenerator.GroupStep | html_generator.py:68-73 | one row appends itself to its label's group, and its label to the key list |
| HtmlGenerator.WeekTotalOf | html_generator.py:80-88 | the reference week total: parsed points of rows not marked `cancelled`; see RowShare, WeekTotalSplit and FormatterScoresTotal |
| HtmlGenerator.WeekTotal | html_generator.py:80-88 | the loop sums the parsed points of the rows not marked `cancelled` |
| HtmlGenerator.WeekTotalSplit | html_generator.py:81-88 | the total distributes over concatenation |
| HtmlGenerator.RowShare | html_generator.py:82-88 | a `cancelled` row or unparsable points add nothing; any other row adds its parsed points |
| HtmlGenerator.FormatterScoresTotal | html_generator.py:80-88 | over formatter-written scores, the total is the sum of the scores of rows not marked `cancelled` |
| HtmlGenerator.CancellationIsCounted | html_generator.py:83 | a `cancellation` row's score is counted, since the source tests for `cancelled` |
| HtmlGenerator.SingleRowBonus | html_generator.py:91-93 | one row gives "ja" exactly when it is approved |
| HtmlGenerator.WeekBonus | html_generator.py:91-93 | the week's "ja"/"nein"; see WeekBonusIsShare, SingleRowBonus and ApprovalNeverHurts |
| HtmlGenerator.WeekBonusIsShare | html_generator.py:91-93 | "ja" exactly when some row has a counted status and the approved share of those is at least 0.7 |
| HtmlGenerator.ShareAtLeast | html_generator.py:93 | the ratio test equals its cross-multiplied form |
| HtmlGenerator.CountsSplit | html_generator.py:91-92 | both counts distribute over concatenation |
| HtmlGenerator.ApprovedAtMostCounted | html_generator.py:91-92 | the approved count never exceeds the counted count |
| HtmlGenerator.OtherStatusIgnored | html_generator.py:91-93 | a row with another status never changes the bonus |
| HtmlGenerator.ApprovalNeverHurts | html_generator.py:91-93 | adding an approved row keeps "ja" |
| HtmlGenerator.NothingCountedNoBonus | html_generator.py:93 | with no counted status the bonus is "nein" |
| HtmlGenerator.BonusIgnoresCoreSpelling | html_generator.py:91 | a row with the formatter's "conditionally approved" gives "nein", although the formatter's rule finds it eligible |
| HtmlGenerator.BonusIgnoresActive | html_generator.py:92 | "approved" plus "active" gives "ja", although the formatter's rule finds it not eligible |
| HtmlGenerator.DisplayHasNoPeriod | html_generator.py:99-103 | the displayed points never hold '.' |
| HtmlGenerator.PointsDisplay | html_generator.py:99-103 | a row's points in German spelling, "0,0" when unparsable; see DisplayHasNoPeriod and DisplayRoundTrip |
| HtmlGenerator.DisplayRoundTrip | html_generator.py:99-101 | a formatter-written score is displayed as it was written |
| HtmlGenerator.KeepNameChars | html_generator.py:202 | only word characters, white space and '-' remain |
| HtmlGenerator.WordCharFacts | html_generator.py:202-205 | a word character is no space, no separator and no reserved character |
| HtmlGenerator.StripKeepsChars | html_generator.py:202 | `strip()` keeps only characters of its input |
| HtmlGenerator.CollapseSeparators | html_generator.py:203 | `re.sub(r'[-\s]+', '_', s)`; see CollapseGivesWordChars, CollapseOfWords, CollapseAfterWords and CollapseAfterRun |
| HtmlGenerator.RemoveReserved | html_generator.py:205 | removal of the nine characters Windows refuses in file names; see RemoveReservedOfWords |
| HtmlGenerator.CollapseGivesWordChars | html_generator.py:203 | collapsing runs of separators into '_' leaves only word characters |
| HtmlGenerator.RemoveReservedOfWords | html_generator.py:205 | word characters hold no reserved character |
| HtmlGenerator.SafeNameChars | html_generator.py:202-205 | the safe name holds only word characters: no white space, no '-', none of `<>:"/\|?*` |
| HtmlGenerator.KeepOfWords | html_generator.py:202 | the first substitution keeps word characters |
| HtmlGenerator.CollapseOfWords | html_generator.py:203 | the second substitution keeps word characters |
| HtmlGenerator.SafeName | html_generator.py:202-205 | the Windows-safe name; see SafeNameChars, SafeNameIdempotent, SafeNameJoins and SafeNameIsPlain |
| HtmlGenerator.SafeNameIdempotent | html_generator.py:202-205 | sanitising a safe name changes nothing |
| HtmlGenerator.KeepSplit | html_generator.py:202 | the first substitution works character by character |
| HtmlGenerator.CollapseAfterWords | html_generator.py:203 | a run of word characters passes through the second substitution |
| HtmlGenerator.CollapseAfterRun | html_generator.py:203 | a run of spaces and '-' becomes one '_' |
| HtmlGenerator.SafeNameJoins | html_generator.py:202-205 | two words joined by any run of spaces and '-' become "word_word" |
| HtmlGenerator.KeepJoined | html_generator.py:202 | such a joined name passes the first substitution unchanged |
| HtmlGenerator.StripJoined | html_generator.py:202 | such a joined name has nothing to strip |
| HtmlGenerator.CollapseJoined | html_generator.py:203 | the separator run collapses to one '_' |
| HtmlGenerator.JoinedWords | html_generator.py:203 | "word_word" is word characters only |
| HtmlGenerator.KeepSeparators | html_generator.py:202 | spaces and '-' pass the first substitution |
| HtmlGenerator.SafeNameIsPlain | html_generator.py:202-205 | the safe name holds no '/' and no '\' |
| HtmlGenerator.SuffixIsPlain | html_generator.py:206 | the file name suffix holds no path separator |
| HtmlGenerator.HtmlFilename | html_generator.py:206 | `{id}_{safe_name}_Realisierungsdaten.html`; see HtmlFilenameIsPlain |
| HtmlGenerator.HtmlFilenameIsPlain | html_generator.py:202-206 | for an id without path separators, the file name has none |
| PdfGenerator.PadIdGuarded | pdf_generator.py:27-28 | the id zero-filled only when it passes the `isdigit()` guard; see GuardedPadAgrees, DigitIdsPassGuard, FloatIdIsPadded and UnguardedIdsKept |
| PdfGenerator.GuardedPadAgrees | pdf_generator.py:25-28 | when the guard holds, the id is padded as the formatter pads it, to at least 5 characters |
| PdfGenerator.DigitIdsPassGuard | pdf_generator.py:27 | an id of digits and dots with a digit other than '0' passes the guard |
| PdfGenerator.FloatIdIsPadded | pdf_generator.py:25-28 | "<digits>" and "<digits>.0" are both zero-filled to 5 |
| PdfGenerator.NoDotInDigits | pdf_generator.py:28 | digits hold no ".0" |
| PdfGenerator.DropFloatSuffix | pdf_generator.py:28 | removing ".0" from "<digits>.0" leaves the digits |
| PdfGenerator.UnguardedIdsKept | pdf_generator.py:27 | an id of only '0' and '.', or with a character other than a digit or '.', is left as it is |
| PdfGenerator.FirstSlash | pdf_generator.py:52-57 | the week of the first label with a '/'; see FirstSlashSpec, FirstSlashNone and FirstSlashAt |
| PdfGenerator.FirstSlashSpec | pdf_generator.py:52-57 | no week exactly when no label has '/'; otherwise the first such label's week, or its failure |
| PdfGenerator.FirstSlashNone | pdf_generator.py:52-57 | no week exactly when no label has '/' |
| PdfGenerator.FirstSlashAt | pdf_generator.py:52-57 | the first label with '/' decides |
| PdfGenerator.FirstSlashWeek | pdf_generator.py:52-57 | the search loop with `break` computes the first '/' label's week |
| PdfGenerator.Month | pdf_generator.py:32-64 | the month fails exactly when that label's prefix is no integer, and is otherwise the table's month of its week |
| PdfGenerator.MonthsDisagree | pdf_generator.py:52-57 | for "a/y" before "b/y" with a > b, the PDF takes week a where the HTML takes week b |
| PdfGenerator.FirstSlashOfTwo | pdf_generator.py:52-57 | a first label "a/y" gives week a, whatever follows |
| PdfGenerator.MinOfTwoLabels | html_generator.py:44-51 | the HTML gives the lesser of two "n/y" weeks |
| PdfGenerator.MayAgainstFebruary | pdf_generator.py:59-64 | labels of a May week then a February week: the PDF says "Mai" and the HTML "Februar" |
| PdfGenerator.MayAndFebruary | pdf_generator.py:59-64 | weeks 18..22 are "Mai" and weeks 5..8 are "Februar" |
| PdfGenerator.ToNumeric | pdf_generator.py:286 | `pd.to_numeric(errors='coerce')` of one cell, none for NaN; see CommaScoreIsLost, LetterIdsFail and ValidRowsMember |
| PdfGenerator.PreprocessAsWritten | pdf_generator.py:283-286 | the row conversion as written, `to_numeric` on the refId and on the points; see CommaScoreIsLost and AsWrittenTotalIsZero |
| PdfGenerator.Preprocess | pdf_generator.py:283-286 | the intended conversion with ',' read as the decimal mark; see CommaScoreIsLost, PreprocessKeepsWeeks and FormatterScoresTotal |
| PdfGenerator.CommaScoreIsLost | pdf_generator.py:283-286 | a comma score becomes NaN as written; with ',' read as the decimal mark it is the score |
| PdfGenerator.PreprocessKeepsWeeks | pdf_generator.py:32 | conversion keeps every week label |
| PdfGenerator.WeekRowsOfMember | pdf_generator.py:150 | a week's rows are exactly the rows with that label |
| PdfGenerator.PresentWeekHasRows | pdf_generator.py:151 | every present label has rows, so `week_data.empty` never skips a week |
| PdfGenerator.SortedWeeksFacts | pdf_generator.py:148-152 | the sections are the present labels, strictly ascending as strings, each with rows |
| PdfGenerator.GroupWeeks | pdf_generator.py:147-152 | the loop gives sections exactly for the sorted labels, each holding the rows with that label |
| PdfGenerator.SectionsInStringOrder | pdf_generator.py:148 | "10/2025" comes before "9/2025" |
| PdfGenerator.ValidRowsMember | pdf_generator.py:175 | the valid rows are exactly those whose converted reference id is a number |
| PdfGenerator.PdfTotal | pdf_generator.py:192 | `fillna(0).sum()` of the valid rows' points; see NoPointsSumToZero, FormatterScoresTotal, CancelledRowCounts and SingleRow |
| PdfGenerator.NoPointsSumToZero | pdf_generator.py:192 | missing points count as 0 |
| PdfGenerator.FormatterScoresTotal | pdf_generator.py:192 | the total is the sum of the valid rows' scores, cancellations included |
| PdfGenerator.SingleRow | pdf_generator.py:192-194 | one valid row's total is its points (0 if missing), and its bonus is whether it is approved |
| PdfGenerator.SingleConvertedRow | pdf_generator.py:192-194 | one row with a numeric reference id gives its converted points and its approval |
| PdfGenerator.SingleAsWrittenRow | pdf_generator.py:192 | one such row, converted as written, gives its points, or 0 |
| PdfGenerator.AsWrittenTotalIsZero | pdf_generator.py:192 | as written, a week with one positive comma score totals 0; corrected, it totals the score |
| PdfGenerator.CancelledRowCounts | pdf_generator.py:192 | a `cancelled` row counts in the PDF total but not in the HTML total |
| PdfGenerator.PdfBonus | pdf_generator.py:193-227 | the 70% test over the valid rows, failing without one; see PdfBonusFails, SingleRow and CapitalisedApprovalCounts |
| PdfGenerator.PdfBonusFails | pdf_generator.py:193-227 | the bonus raises (division by zero) exactly when no row is valid |
| PdfGenerator.LetterIdsFail | pdf_generator.py:283-286 | reference ids with letters all become NaN, so the bonus raises |
| PdfGenerator.NotApprovedByLength | pdf_generator.py:194 | a status of another length never lowercases to "approved" |
| PdfGenerator.LowerApproved | pdf_generator.py:194 | "Approved" lowercases to "approved" |
| PdfGenerator.CapitalisedApprovalCounts | pdf_generator.py:194 | "Approved" earns the PDF bonus but not the HTML one |
| PdfGenerator.ConditionalApprovalIgnored | pdf_generator.py:194 | "conditionally-approved" earns the HTML bonus but not the PDF one |
| PdfGenerator.WeekFooters | pdf_generator.py:155-227 | the week loop fails exactly when some week's bonus raises; otherwise one footer per section, in order, with that week's total and bonus |
| PdfGenerator.KeepAddsNothing | pdf_generator.py:67 | the substitution adds no character |
| PdfGenerator.PdfSafeName | pdf_generator.py:67 | `replace(' ', '_')` then `[^\w\s-]` removal; see PdfSafeNameChars, KeepAddsNothing and HyphenSurvives |
| PdfGenerator.PdfSafeNameChars | pdf_generator.py:67 | the safe name has no space, and only word characters, white space other than ' ' and '-' |
| PdfGenerator.HyphenSurvives | pdf_generator.py:67 | "a-b" stays "a-b" in the PDF name but is "a_b" in the HTML name |
| PdfGenerator.SuffixIsPlain | pdf_generator.py:68 | the file name suffix holds no path separator |
| PdfGenerator.PdfFilename | pdf_generator.py:67-68 | `{id}_{safe_name}_Realisierungsdaten.pdf`; see PdfSafeNameChars, HyphenSurvives and PdfFilenameIsPlain |
| PdfGenerator.PdfFilenameIsPlain | pdf_generator.py:67-68 | for an id without path separators, the file name has none |
| Text.Lower | csv_formatter.py:22 | `lower()` maps each character by itself |
| Text.ZFill | csv_formatter.py:109 | `zfill()` pads with '0' to the width after a leading sign, and never shortens |
| Text.FirstDigitRun | csv_formatter.py:112 | the first digit run is empty exactly when there is no digit |
| Text.ParseInt | html_generator.py:47 | `int()` of a digit string is its value |
| Text.Split | html_generator.py:47 | `split()` gives at least one piece |
| Text.SplitJoin | csv_formatter_gui.py:445 | splitting a join whose cells hold no separator gives the cells back |
| Text.Contains | csv_formatter.py:96 | `p in s`; see ContainsAt, ContainsWitness, ContainsChar and ContainedChars |
| Text.ContainsAt | csv_formatter.py:96 | a slice equal to the pattern at any position means the pattern is contained |
| Text.ContainsWitness | csv_formatter.py:96 | a contained pattern occurs as a slice at some position |
| Text.ContainsChar | csv_formatter.py:96 | a one-character pattern is contained exactly when the character occurs |
| Text.ContainedChars | csv_formatter.py:96 | every character of a contained pattern occurs in the text |
| Text.ReplaceAll | csv_formatter.py:109 | `str.replace(pat, rep)`, left to right without overlap; see ReplaceAllAbsent and PdfGenerator.DropFloatSuffix |
| Text.ReplaceAllAbsent | csv_formatter.py:109 | replacing an absent pattern changes nothing |
| Text.ParseDecimal | html_generator.py:85 | `float()` on plain decimal literals, none where it raises; see DecimalLiteral, UnsignedDecimalLiteral and ParseDecimalRejects |
| Text.DecimalLiteral | html_generator.py:85 | "<digits>.<digits>" reads as its decimal value |
| Text.UnsignedDecimalLiteral | html_generator.py:85 | the unsigned part of that reading gives the same value |
| Text.ParseDecimalRejects | pdf_generator.py:286 | a text holding a character other than a digit, '.', a sign or white space does not parse |
| Text.Less | csv_formatter.py:159 | Python's code-point order on strings; see LessIrreflexive, LessTransitive and LessTotal |
| Text.LessIrreflexive | csv_formatter.py:159 | no string sorts before itself |
| Text.LessTransitive | csv_formatter.py:159 | the string order is transitive |
| Text.LessTotal | csv_formatter.py:159 | of two different strings, one sorts before the other |
| Text.ReplaceChar | html_generator.py:85 | a character replacement works position by position |
| Text.Strip | html_generator.py:202 | `strip()` leaves no white space at either end |
| Ordering.SortStableSpec | csv_formatter.py:130 | the stable sort gives an ordered permutation |
| Ordering.SortedUniqueSpec | csv_formatter.py:143 | `sorted(unique(...))` is strictly ascending and holds exactly the input's values |
| Ordering.UniqueSpec | html_generator.py:24 | `unique()` is without repeats, holds exactly the input's values and keeps the first one first |
| Ordering.UniqueFirstOccurrenceOrder | html_generator.py:24 | `unique()` lists the values in the order of their first occurrence in the input |
| Ordering.FirstIndexSnoc | html_generator.py:24 | appending a value leaves the first occurrence of every value already present where it was |

## Left out

- The Tkinter window, file dialogs, status widgets and the worker thread are left out. They are user interface and concurrency.
- File I/O is left out: the encoding fallback, `read_csv` and `skiprows`, the dated header lines, directory creation and file writing. The model starts from the rows as pandas holds them and ends at the lines' text.
- pandas' type inference on reading is left out. Which columns become floats (ids as "4.0"), when read-back cells are numbers and how NaN prints are fixed in the row datatypes instead.
- Ages and amounts are taken as already converted. `int(age)` or `float(amount)` raising on a bad cell is not modelled.
- Points.CalculatePoints: the interval is always a string and the amount always a number, so two cases of a missing cell are not modelled. A missing `Interval` is NaN in the source; from age 25 on `interval.lower()` raises `AttributeError` (csv_formatter.py:22,27; csv_formatter_gui.py:240,244), where the model returns a score. A missing `Amount Yearly` is NaN in the source; `float(nan)` succeeds, every amount test fails and the row scores the minimum of its age band, and the cell is written empty (csv_formatter.py:14,55,218-219), where the model writes the amount as a number.
- `float()` and `pd.to_numeric` are modelled on plain decimal literals only, as `Text.ParseDecimal`. Exponents, "inf", "nan", underscores and thousands separators are read as unparsable.
- `int()` is modelled as `Text.ParseInt`: surrounding white space, an optional sign and ASCII digits. Python also accepts underscores between digits ("1_0" is 10); the model reads such a label as unparsable.
- A missing points cell reads as NaN in the source. On the HTML side `float("nan")` succeeds, so the week total would become NaN. The model has no NaN and skips such a cell (`FormattedCsv.ParsePoints`). The cell's display differs too: `HtmlGenerator.PointsDisplay` shows "0,0" for it, where the source shows "nan".
- IEEE floats are left out. Scores are exact half-points and parsed values are reals, so float rounding in sums and the float 0.7 comparison are not modelled; the 70% tests use cross-multiplication.
- The `str()` spelling of a float ("3.0", "1e+16") is a parameter of the model. Only the positional spelling is spelled out (`FormatterApp.FloatScore`).
- Report.SortedRecords: pandas' default sort is not guaranteed stable. The model uses a stable insertion sort, so rows with equal keys keep file order.
- The order in which `groupby` visits fundraisers is left out. Each fundraiser's report is modelled on its own rows (`FormattedCsv.FundraiserRows`).
- The id's ".0" removal is a literal replace, as in pandas 2. The regex reading of older pandas is left out.
- Character classes are modelled as follows. `\s` and `str.isspace` (`Text.IsSpace`) are Python's full set. `\w` (`Text.IsWordChar`) and `str.isdigit` (`Text.IsStrDigit`, '0'..'9', '¹', '²', '³') agree with Python up to U+017F; beyond it the model misses the letters and digits of other scripts. `\d` (`Text.IsDigit`) and `int()` are '0'..'9' only; Python also accepts the decimal digits of other scripts, such as the Arabic-Indic ones.
- Text.Lower: maps only 'A'..'Z'. Python's `str.lower` also lowercases other capitals; none of them lowers to a letter of the words compared against ("monthly", "yearly", "half", "total", "subtotal", "approved").
- HTML template surgery is left out: placeholder replacement, removal of the button and `<script>`, CSS injection and the HTML rows. It works against a template that is not part of this model.
- The reportlab document, the PDF table cells (`fillna(0).astype(int)`) and their styling are left out. Only the footer values are modelled.
- The per-fundraiser `try`/`except` that prints errors in both renderers is left out. A failure is kept as an `Err` result and not printed.
- Build and packaging scripts are left out, and so are the environment probes of test_build.py.

## Findings

| source | as written | input that shows it | evidently intended | confidence | as-written member | corrected member |
|---|---|---|---|---|---|---|
| pdf_generator.py:283-286 | `pd.to_numeric` is applied to the 'points' column. The formatter writes scores with a decimal comma ("3,0"), so every score becomes NaN and each week's "Punkte gesamt" is 0. | one valid row with reference id "123" and points "3,0": its week's total is 0 | read ',' as the decimal mark, as the HTML report does | not executed | PdfGenerator.PreprocessAsWritten, with PdfGenerator.CommaScoreIsLost and PdfGenerator.AsWrittenTotalIsZero | PdfGenerator.Preprocess, with PdfGenerator.CommaScoreIsLost and PdfGenerator.AsWrittenTotalIsZero |
