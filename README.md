# top2csv in Dafny

`top2csv` turns the text dump of the Unix `top` command (`top -b`) into a CSV
table. A dump is a series of snapshots. Each snapshot starts with a header line
`top - HH:MM:SS ...`, followed by one status line per process. The user names
the processes to watch and picks one metric: virtual memory (VIRT, token 4 of
a status line) or CPU percentage (%CPU, token 8). The process name is token 11.
For every snapshot the program writes one CSV row. The row holds the clock and,
for each watched process, the sum of the metric over that snapshot's status
lines naming it.

This project models the parser `parse_and_print` in full. It also models two
pieces of `main`: choosing the metric, and building the watch-list from a
preset and the named processes.

- `Header`: recognises a header line and reads its clock. The pattern is
  anchored at the start of the line. The first hour digit is 0-2, and the
  first minute and second digits are 0-5.
- `Tokenizer`: splits a status line into maximal runs of characters that are
  neither a space nor a tab.
- `Numbers`: holds the metric and total values as exact reals.
  - `ParseNum` reads a token the way `std::stof` reads plain decimal text.
    `None` stands for the `std::invalid_argument` that `stof` throws.
  - `Contribution` multiplies by 1024 when the token ends in `m`.
  - `FormatFixed` prints in fixed notation with a given number of decimals. It
    rounds half to even on the exact value.
- `Aggregator`: the parsing state machine.
  - `Step`, `Tally` and `Run` form the reference semantics over values.
  - `SnapshotLog` is the list of rows, which the parser updates in place.
  - `ScanFields` is the token loop.
- `Emitter`: the CSV output. The header row is `Hour,Minute,Second` followed
  by the names. Then comes one row per snapshot, with totals printed with 0
  decimals for VIRT and 1 for %CPU.
- `TopToCsv`: the whole function.
  - Standard input is modelled as a sequence of lines and standard output as
    the sequence of lines written.
  - `ParseAndPrint` is the imperative parser, proved equal to the reference
    `Semantics`.
  - An outcome is either an exit code with the output, or the exception
    `stof` throws on a metric token that holds no number.
- `Options`: metric selection and the watch-list merge from `main`.

Two consequences of the code are kept as they are:

- A real clock hour only runs to 23, but the header pattern admits hours 00
  to 29, and so does the model.
- A status line only counts when it has at least 12 tokens, with the name at
  token 11. Lines shorter than that are ignored, whatever their content.

## Model

| member | source | states |
|---|---|---|
| Header.MatchHeaderExactly | top2csv.cpp:41-51 | A line matches the header pattern with clock `c` exactly when it starts with `top - ` and the two-digit rendering of `c`'s hour, minute and second, and `c` is expressible by the pattern. Both directions are proved. |
| Header.HeaderWithAnyTail | top2csv.cpp:41-45 | Whatever follows the 14 header characters, the line is still a header for the same clock. |
| Tokenizer.Tokens | top2csv.cpp:43-64 | Every token is non-empty and holds no space or tab. There are never more tokens than characters. `TokensOfJoinWith` pins down which tokens they are. |
| Tokenizer.TokensOfJoinWith | top2csv.cpp:43-73 | Tokenizing undoes any column layout. Tokens may be separated by any non-empty runs of spaces and tabs, with any such runs before and after. The count and each token are recovered exactly, in order. |
| Text.IndexOf | top2csv.cpp:76-78 | The position `std::find` returns: the first occurrence of the name, or the length of the list exactly when the name is absent. |
| Text.NatToStringRoundTrip | top2csv.cpp:98 | The decimal text written for a clock field reads back as that integer, with no leading zero. |
| Numbers.ParseNatPrefix | top2csv.cpp:80 | A whole number in decimal, followed by anything that cannot continue a plain decimal (a digit or a point), parses as that number. |
| Numbers.MegaSuffix | top2csv.cpp:80-81 | A token `Nm` contributes N * 1024. A token `N` contributes N. |
| Numbers.Contribution | top2csv.cpp:80-81 | A metric token contributes a value exactly when `stof` finds a number in it. |
| Numbers.SignedValue | top2csv.cpp:80 | A number that starts with a digit parses as its value. With a `-` before it, it parses as the negation. |
| Numbers.FormatFixed | top2csv.cpp:91-99 | A printed total is never empty, and it starts with `-` exactly when the total is negative. |
| Numbers.FormatFixedShape | top2csv.cpp:91-99 | A printed total contains only digits, a point and a sign. It has no point at precision 0, and exactly `precision` digits after the point otherwise. |
| Numbers.FormatWholeAtZero | top2csv.cpp:91-93 | At precision 0, a whole total prints as its plain decimal digits. |
| Numbers.FormatWholeAtOne | top2csv.cpp:91-95 | At precision 1, a whole total `n` prints as `n.0`. |
| Numbers.FormatFixedValue | top2csv.cpp:91-99 | The digits after the sign read back as the total's magnitude, scaled by `10^precision` and rounded, then divided back. |
| Numbers.ScaledNear | top2csv.cpp:91-95 | That rounded magnitude is within half a unit of the last printed digit of `|v|`. |
| Numbers.FormatFixedReadsBack | top2csv.cpp:80-99 | A printed total read back with `stof` is within `0.5 / 10^precision` of the total. The digits read back as `|v|` within that bound, and the sign is `-` exactly when `v < 0`. |
| Aggregator.Metric.Column | top2csv.cpp:21-22 | The metric's token index lies before the name's index 11, so a line long enough to carry a name also carries the metric. |
| Aggregator.NewRow | top2csv.cpp:48-51 | A new row carries the header's clock and one zero total per watched process. |
| Aggregator.Credit | top2csv.cpp:82 | Adding to a cell changes only that cell of the last row. Every other cell and every earlier row is kept. |
| Aggregator.Tally | top2csv.cpp:61-84 | A status line keeps the number of rows, their clocks and their width. The only error it can raise is an invalid number. |
| Aggregator.Step | top2csv.cpp:41-85 | A header appends a row with zero totals. Any other line keeps the row count. The result is `MalformedLog` exactly when no row exists and the line is not a header. |
| Aggregator.Run | top2csv.cpp:39-86 | Reading more lines never removes a row, and every row keeps one total per process. |
| Aggregator.HeaderOpensRow | top2csv.cpp:45-52 | A line starting with the header text of `c` appends a fresh row with clock `c`. |
| Aggregator.OnlyHeadersOpenRows | top2csv.cpp:45-52 | A line that adds a row starts with the header text of that row's clock. |
| Aggregator.IgnoredStatusLine | top2csv.cpp:74-78 | A status line with at most 11 tokens, or naming an unwatched process, changes nothing. |
| Aggregator.WatchedStatusLine | top2csv.cpp:74-83 | A status line naming a watched process adds its metric's contribution to that process's cell in the last row. The cell is the name's first occurrence in the watch-list. Nothing else changes. |
| Aggregator.UnparsableMetric | top2csv.cpp:80 | A watched status line whose metric token holds no number fails with that token. |
| Aggregator.StatusLineTwice | top2csv.cpp:82 | Totals accumulate: the same watched line read twice in one snapshot adds twice its contribution. |
| Aggregator.ConsecutiveHeaders | top2csv.cpp:45-52 | A header directly followed by another header leaves a row with that clock and all totals zero. |
| Aggregator.OpenLogNeverMalformed | top2csv.cpp:56-60 | Once a row exists, the rest of the input can never be malformed. |
| Aggregator.MalformedExactly | top2csv.cpp:56-60 | Parsing is malformed exactly when the first line is not a header. |
| Aggregator.RunClocks | top2csv.cpp:45-52 | The row clocks are the clocks of the header lines, in input order. |
| Aggregator.StatusLineAdds | top2csv.cpp:61-84 | A status line read without error adds, to each total of the last row, what that line contributes to that process. Every earlier row is kept. |
| Aggregator.RunTotals | top2csv.cpp:39-86 | Reading lines on top of some rows keeps every row but the last. The status lines before the first header add into the last row. Each new row holds, for each process, the sum of the status lines after its header. |
| Aggregator.RowTotals | top2csv.cpp:39-86 | In a successful parse, the `k`-th row's totals are exactly the sums taken straight from the input: for each watched process, what the status lines between the `k`-th header and the next one contribute to it. |
| Aggregator.ScanFields | top2csv.cpp:65-73 | The token loop counts all tokens. It keeps the one at the metric's column and the one at index 11, or empty text when the line is shorter. |
| Aggregator.SnapshotLog.constructor | top2csv.cpp:37 | The parser starts with no rows. |
| Aggregator.SnapshotLog.Open | top2csv.cpp:48-52 | Appends a fresh row and keeps every row one total per process wide. |
| Aggregator.SnapshotLog.Add | top2csv.cpp:82 | Updates the rows in place to exactly `Credit` of the old rows. |
| Emitter.HeaderReadsBack | top2csv.cpp:88-90 | Split at commas, the header row gives `Hour`, `Minute`, `Second` and then the process names, in order, when no name contains a comma. |
| Emitter.RowCellsHaveNoComma | top2csv.cpp:98-99 | No cell of a data row contains a comma. |
| Emitter.RowReadsBack | top2csv.cpp:96-101 | Split at commas, a data row has 3 + width fields. The first three are the clock in decimal, and each later field is the printed total with the metric's number of decimals. |
| Emitter.TotalReadsBack | top2csv.cpp:91-95 | A printed total reads back within 0.5 for VIRT (no decimals) and within 0.05 for %CPU (one decimal). |
| Emitter.WriteHeader | top2csv.cpp:88-90 | The header loop writes exactly the comma-joined time columns and names. |
| Emitter.WriteRow | top2csv.cpp:98-100 | The row loop writes exactly the comma-joined clock cells and printed totals. |
| Emitter.Print | top2csv.cpp:88-101 | The output is the header row followed by one line per row, in order. |
| TopToCsv.MalformedExitsOne | top2csv.cpp:56-103 | The function returns 1 with no output exactly when the first line is not a header. Any return with output is a return of 0. |
| TopToCsv.EmptyInput | top2csv.cpp:88-90 | With no input, the output is the header row alone. |
| TopToCsv.SuccessOutput | top2csv.cpp:88-103 | On success, the output is the header row, then one line per input header line, in order. Each line holds that header's clock, then one total per watched process with the metric's decimals. Each total is the sum of what the status lines up to the next header contribute to that process. |
| TopToCsv.TallyLine | top2csv.cpp:61-84 | A status line updates the log in place to exactly what `Tally` computes, or reports its failure. |
| TopToCsv.ReadLine | top2csv.cpp:41-85 | One pass of the read loop updates the log to exactly what `Step` computes, or reports its failure. |
| TopToCsv.ParseAndPrint | top2csv.cpp:35-104 | The imperative parser's outcome equals the reference `Semantics`: exit 0 with the CSV, exit 1 on a malformed log, or the `stof` exception. |
| Options.SelectMetric | top2csv.cpp:166-174 | The choice is accepted exactly when one of `--cpu` and `--mem` is given. `--cpu` selects %CPU and `--mem` selects VIRT. |
| Options.MergeStep | top2csv.cpp:238-242 | Considering one more named process keeps the merge invariant. It holds whether the name is appended or skipped. |
| Options.AddNamed | top2csv.cpp:236-243 | The preset stays a prefix in its order. The result holds exactly the preset's names and the named ones. Appended names are new, in the order first named. No duplicates are introduced. |
| Options.WatchList | top2csv.cpp:236-249 | With names given, the preset is kept as a prefix, extended by the new names. The new names are not in the preset and appear in the order first named, which is the CSV column order. No duplicates are introduced. Without names, the result is the preset alone, or an error when it is empty. |

## Left out

- Standard input and output are sequences of lines. Stream buffering, `flush`, and the line terminators are not modelled.
- The diagnostic written to standard error on a malformed log is not modelled. Only the return value 1 and the empty standard output are.
- Totals are exact reals, not `float`. The rounding of each `stof` result, of `val *= 1024.0`, and of each `+=` is not modelled.
- `ParseNum` covers optional white space, a sign, digits and an optional fraction. The exponent, hexadecimal, `inf` and `nan` forms of `stof`, and its `std::out_of_range` exception, are not modelled.
- `FormatFixed` rounds the exact real half to even. The output of `printf` for a binary `float` is not modelled beyond that.
- Numbers.FormatFixedReadsBack: states the read-back of the digits after the sign, and the sign itself, rather than applying `ParseNum` to the signed text in one step. Numbers.SignedValue supplies the missing step for any digit string.
- Emitter.TotalReadsBack: like Numbers.FormatFixedReadsBack, reads back the digits after the sign.
- `top_column` is any `int` in `parse_and_print`. The model restricts it to the two values `main` passes, VIRT (4) and %CPU (8).
- The regular expressions are restated as `MatchHeader` and `Tokens`. The regex engine itself is not modelled.
- `main` beyond metric selection and the watch-list merge is not modelled:
  - Boost option parsing, unknown options and `--help`;
  - the preset name tables and the unknown-preset error (lines 177-235);
  - the `--find` file-system search and the input and output file redirection (lines 253 onward).
- Options.WatchList takes the preset's names as given. Choosing them from a preset name is not modelled.
