# Employee payout report — a Dafny model

This project models the core of a small command-line tool. The tool reads
employee data from one or more CSV files and prints a report. The only
report type is "payout": employees are grouped by department, each with
hours, rate and payout (hours × rate), and the report ends with subtotals
and grand totals.

The model follows `main.py`:

- `Strings` (strings.dfy) models the Python string operations the tool uses.
  It has `strip`, `split` on one character, `join`, format padding and
  code-point string order.
- `Numbers` (numbers.dfy) models `float(text)` as a decimal parser that
  returns `None` where Python raises `ValueError`. The blanks `float`
  skips are not the blanks `strip()` removes: CPython maps non-ASCII
  Unicode spaces to ' ' and then skips only ASCII " \t\n\v\f\r". So the
  separator controls U+001C-U+001F, which `strip()` removes, make `float`
  fail (`Numbers.SeparatorControlNotFloatSpace`). The module also models
  the `.0f` rendering: round half to even, with a '-' for a negative
  amount. Amounts are exact reals, so there is no negative zero (see
  "## Left out").
- `Csv` (csv.dfy) models `read_csv` and `parse_csv_to_dicts` on the text of
  one file. This covers header normalisation, skipping rows of the wrong
  width, numeric cells with a fallback to 0, and the later of two
  same-named columns winning.
- `Payout` (payout.dfy) models `generate_payout_report` as a list of line
  values:
  - grouping in first-arrival order (the `departments` dict);
  - the `sorted` pass over the departments;
  - employee, subtotal and total lines.
- `PayoutProperties` (payout_props.dfy) holds the report-level properties:
  - an independent definition of the report by department filter;
  - the line count;
  - the totals;
  - the department order;
  - the worked example from `test_main.py`.
- `Render` (render.dfy) turns the lines into text with the source's format
  widths and `"\n".join`. It proves the column layout of each row and how
  the printed text splits into rows.
- `Reports` (reports.dfy) models three parts of `main`:
  - the report registry (`get_report_generator`);
  - the merge of all files (`all_employees.extend`);
  - the exit code and printed output.

  A file is given as its path plus `Some(text)` when it exists, so
  `os.path.isfile` and `open` become data.

`Wrappers` (wrappers.dfy) holds the `Option` and `Result` types.

Where the code and its tests disagree, the model follows the code. There
are two such places:

- **Empty file.** `read_csv` on an empty file returns `headers == [""]`.
  Stripping and splitting always leave one piece, so the
  `if not content` branch (main.py:41-42) is never taken. The test at
  test_main.py:45 expects `[]`. Either way the file yields no records
  (`Csv.ReadTableBlank`).
- **Payout field width.** main.py:124 formats the payout as
  `${payout:9.0f}`, so John's row shows `$     8000`
  (`Render.ExampleEmployeeRow`). The assertion at test_main.py:106-108
  looks for `$8000`. The report text does not contain that string.

## Model

| member | source | states |
|---|---|---|
| Strings.Strip | main.py:39 | `strip()` leaves the text between two blank margins, with non-blank ends, and gives "" exactly for all-blank text |
| Strings.StripIdempotent | main.py:39 | stripping twice is stripping once |
| Strings.JoinSplit | main.py:39 | joining the pieces of a split with the separator gives back the text |
| Strings.SplitJoin | main.py:136 | splitting a join at the separator gives back the pieces when none holds the separator |
| Strings.LessTotal | main.py:113 | two different department names are always ordered one way or the other |
| Strings.LessTransitive | main.py:113 | the string order `sorted` uses is transitive |
| Numbers.Trim | main.py:83 | the text `float` reads is the cell without margins of the blanks `float` skips (ASCII " \t\n\v\f\r" and non-ASCII Unicode spaces), with non-blank ends, and empty exactly when the cell is all such blanks |
| Numbers.SeparatorControlNotFloatSpace | main.py:82-85 | "\x1c5" strips to "5" under `str.strip()`, but `float` fails on it, so the cell becomes 0 |
| Numbers.ParseFloatRejects | main.py:82-85 | `float` fails on text holding a letter or other foreign character, so the cell becomes 0 |
| Numbers.ParseFloatBlank | main.py:82-85 | `float` fails on text that is blank in the sense of `str.isspace()`, including text holding a separator control it does not skip |
| Numbers.ParseFloatDigits | main.py:83 | `float` reads a non-empty digit string as its decimal value |
| Numbers.ParseFloatNegated | main.py:83 | `float` reads "-" followed by digits as the negated value |
| Numbers.RoundHalfEven | main.py:124 | the `.0f` integer is within 0.5 of the amount, an exact tie goes to the even neighbour, and it is non-negative for a non-negative amount |
| Numbers.Fixed0RoundTrip | main.py:124 | every `.0f` rendering reads back through `float`, within 0.5 of the amount |
| Csv.NormalizeHeader | main.py:66-71 | a column becomes "hourly_rate" exactly when it is spelled "hourly_rate", "rate" or "salary"; any other column keeps its name |
| Csv.NormalizeIdempotent | main.py:66-71 | normalising an already normalised name changes nothing |
| Csv.DataRows | main.py:45 | there are no data rows exactly when every line after the header is empty |
| Csv.ReadTableBlank | main.py:38-63 | empty or blank text gives headers [""] and no rows, so no records |
| Csv.ParseRecordsHeaderOnly | main.py:39-63 | text whose stripped form has no line break yields no records |
| Csv.Cell | main.py:81-87 | a numeric column holds the number `float` reads, or 0 when it fails; any other column holds the raw text |
| Csv.BuildRecordCells | main.py:78-88 | each key holds the cell of the last column with that name |
| Csv.BuildRecordWellFormed | main.py:78-88 | a record holds numbers under the numeric columns and text everywhere else |
| Csv.ParseRecordsByLine | main.py:73-90 | a line yields a record exactly when it is non-empty and has as many fields as the header; records come in file order and are built from their own line |
| Csv.ParseRecordsShape | main.py:66-88 | every record's keys are exactly the normalised header names, "rate" and "salary" are never keys, and cells have their column's kind |
| Payout.GroupByDeptFacts | main.py:99-104 | grouping gives one group per department that occurs, with no department twice, and each group holds exactly that department's records in arrival order |
| Payout.SortGroupsFacts | main.py:113 | sorting lists the same departments in strictly ascending order and keeps each department's members |
| Payout.GroupByDeptReport | main.py:99-113 | the report's groups are in ascending department order, cover exactly the departments that occur, and hold each department's records in arrival order |
| Payout.PayoutReport | main.py:95-96 | the report is the "no data" sentence exactly when there are no records |
| Render.GeneratePayoutReportEmpty | main.py:95-96 | with no records the report text is "No data available for report." |
| PayoutProperties.PayoutReportSpec | main.py:99-134 | the report is the header; then, for each department in ascending order, its name, one line per record of that department in arrival order and its subtotal; then the two totals over all records |
| PayoutProperties.PayoutReportLength | main.py:107-134 | a report on N records in D departments has 3 + 2·D + N lines and starts with the header |
| PayoutProperties.PayoutReportTotals | main.py:126-134 | the grand totals are the sums over all records and equal the sums of the department subtotals |
| PayoutProperties.PayoutReportDepartments | main.py:113-114 | the department lines are strictly ascending and name exactly the departments that occur |
| PayoutProperties.ReportGroupsPartition | main.py:99-104 | every record falls into the group of its own department and into no other |
| PayoutProperties.PayoutReportEmployees | main.py:118-124 | every employee line shows payout = hours × rate |
| PayoutProperties.ExampleReport | test_main.py:91-110 | on John, Jane (IT) and Bob (HR), HR comes first with 6800; IT has John (8000) then Jane (9000); the totals are 480 hours and 23800 |
| Render.EmployeeRowLayout | main.py:124 | an employee row is 64 characters: the name left-aligned at column 15; the `.0f` hours and rate, each right-aligned (blank-padded on the left) in width 8; then " $" and the `.0f` payout right-aligned in width 9; each number reads back as its amount |
| Render.ExampleEmployeeRow | main.py:124 | John's row shows "John Doe" padded to 20, "     160", "      50", " $" and "     8000" at their columns |
| Render.SubtotalRowLayout | main.py:129 | a subtotal row is 73 characters: 46 blanks; the `.0f` hours right-aligned in width 8; blanks; then " $" and the `.0f` payout right-aligned in width 8; both read back |
| Render.TotalRowsLayout | main.py:133-134 | the total rows are a line break, "Total hours: " and the `.0f` hours, then "Total payout: $" and the `.0f` payout; both read back |
| Render.PrintedRows | main.py:136 | cutting the joined report at its line breaks gives back the rows, with an empty row before the hours total |
| Render.PrintedReportRows | main.py:107-136 | the printed report on N records in D departments has 4 + 2·D + N rows |
| Reports.GetReportGenerator | main.py:139-149 | the lookup succeeds exactly for a registered name; otherwise it fails with "Unknown report type: " followed by the name |
| Reports.GetReportGeneratorPayout | main.py:141-147 | "payout" is the only report type, and it selects the payout report |
| Reports.MergeRecordsAppend | main.py:163-165 | merging two runs of files gives the first run's records, then the second's |
| Reports.MergeRecordsMembers | main.py:163-165 | a record is merged exactly when it is a record of one of the files |
| Reports.Main | main.py:152-178 | the exit code is 0 or 1 and the output ends with a line break |
| Reports.MainMissingFile | main.py:157-160 | the first missing file stops the program with exit code 1 and "Error: File not found: " followed by its path, whatever the report type |
| Reports.MainUnknownReport | main.py:167-178 | with every file present, an unknown report type gives exit code 1 and "Error: Unknown report type: " followed by its name |
| Reports.MainPayout | main.py:163-175 | with every file present, "payout" prints the payout report of all files' records in file order and exits with 0 |
| Reports.MainNoData | main.py:163-173 | when no file has an accepted data line, the program prints only "No data available for report." |
| Reports.MainPayoutRows | main.py:163-173 | with data, the printed output has 4 + 2·D + N rows before the final line break |

## Left out

- Argument parsing (`parse_arguments`, argparse) is not modelled. The file list and report type are parameters of `Reports.Main`.
- File-system access is modelled as data. `os.path.isfile` and `open(...).read()` become an input's `Option<string>` text. Encoding errors and I/O failures are not modelled.
- `float` covers plain decimal notation only: an optional sign, digits, an optional '.', and surrounding blanks that `float` skips (`Numbers.FloatSpace`). Exponents, "inf"/"nan", '_' separators and non-ASCII digits are treated as failures, which become 0.
- Amounts are exact reals. IEEE double rounding is not modelled, and neither is the int/float distinction of a fallback 0.
- Signed zero is not modelled. In Python a "-0" cell reads as -0.0, and so does a zero amount times a negative one (main.py:122). `.0f` shows -0.0 as "-0" in the employee row of main.py:124. Exact reals have no -0.0, so the model reads "-0" as 0 and shows "0". Subtotals and totals start from the integer 0, and `0 + -0.0` is 0.0, so they agree with the model.
- `.0f` is modelled for exact values. Rounding of values that are not exactly representable as doubles is not modelled.
- Payout.PayoutReport: requires well-formed records: a number under "hours_worked" and "hourly_rate" (or no such key), and text under every other key. The parser always produces such records (`Csv.ParseRecordsShape`), and the program only reports parsed records. Two kinds of hand-built record are excluded:
  - A record with text under a numeric column. Python raises `TypeError` on some of these, e.g. text times text at main.py:122. On others it raises `ValueError` at the `.0f` format of main.py:124, e.g. `'160' * 0` gives `''`. Neither error is modelled.
  - A record with a number under a text column, such as an integer "id". Python reports it without error. The model's `Value` keeps numbers and text apart by column, so it does not cover this case.
- Render.EmployeeRowLayout: requires the name and numbers to fit their field widths. Wider values push the later columns right, as Python does, and the layout for that case is not stated.
- Render.SubtotalRowLayout: requires the subtotals to fit width 8, for the same reason.
- Render.PrintedReportRows: requires text cells without line breaks. The parser guarantees this (`Csv.ParseRecordsBreakless`).
- `print` is modelled as appending its text and "\n" to the program's single output.
