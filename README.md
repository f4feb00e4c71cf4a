# DRAGEN single-cell ATAC metrics, modelled in Dafny

This project models the MultiQC DRAGEN sub-module that reads single-cell ATAC metric
files (`*.scATAC.metrics.csv`) and reports them, and proves properties of the model.
It covers four parts:

* **The metric catalogue** (`Catalogue`). This is the fixed, ordered list of six metric names
  and the descriptor built from each name. A descriptor's title comes from a token-wise rule:
  a whitespace token that is entirely lower case (Python `islower()`) is passed through
  `str.title()`, and every other token is kept as is.
* **The per-file parser** (`SampleNames`, `Parser`). The sample name comes from the file name,
  found by `re.search(r"(.*).scATAC.metrics.csv", ...)`. This is hand-modelled: the search is
  leftmost, `.*` is greedy and backtracks, and both `.` and `.*` stop at a newline. Each line
  of the text is split on `,` and must have 4 or 5 tokens. The 4th token becomes a number when
  `float()` accepts it and otherwise stays text. The result is keyed by the 3rd token, and a
  later line with the same key wins. The `LogFile` class is the file record: the parser writes
  the sample name into it, as the source does with `f["s_name"]`.
* **The merge over files** (`ScAtacMetrics`). Each file's metrics are stored under its sample
  name, and a later file of the same sample replaces the earlier one whole. Ignored samples are
  then dropped. The method returns the empty set when nothing survives, otherwise the
  surviving names.
* **The table projection**. Every surviving sample keeps only its catalogue metrics, each
  converted with `int()`.

Supporting modules:

* `Results`: `Option`, `Result` and the error kinds.
* `PyStr`: the Python string operations the code relies on (`split(",")`, `splitlines()`,
  `split()`, `" ".join`). Only `split()` is restricted to ASCII whitespace; `splitlines()` knows
  all of Python's line boundaries, including U+0085, U+2028 and U+2029.
* `Values`: a metric value, `Num(real) | Text(string)`, the `float()` coercion and `int()`.

Where the obvious intent and the code differ, the model follows the code:

* A blank line is one token, so it raises; blank lines are not skipped.
* A file that fails to parse, or whose name the pattern does not match, ends the whole call
  with that error. The file is not skipped.
* The dots of the file-name pattern are wildcards, so `S1_scATAC-metrics_csv` yields the sample
  `S1`. The match is greedy, so the name runs up to the last place the pattern matches.

The parse loop and the merge loop are methods: `Parser.ReadLines` (called by
`Parser.ParseScAtacMetricsFile`, which also writes the sample name into the file record) and
`ScAtacMetrics.ReadFiles` (called by `ScAtacMetrics.AddScAtacMetrics`). Each is proved against
a function of the inputs (`Parser.ParseLines`, `ScAtacMetrics.ReadAll` and
`ScAtacMetrics.AddSpec`), and the properties the source promises are proved about those
functions.

## Model

| member | source | states |
|---|---|---|
| Catalogue.Metrics | multiqc/modules/dragen/sc_atac_metrics.py:18-28 | one descriptor per name, in the same order; id and descr are the name, both inclusion flags are `#`, precision is 0, title is the title rule applied to the name |
| Catalogue.Title | multiqc/modules/dragen/sc_atac_metrics.py:21 | the title rule on a whole name: split on whitespace, put each token through the token rule, join with single spaces; its contract is stated by `Catalogue.TitleKeepsTokens`, `Catalogue.TitleSplit` and `Catalogue.TitleIdempotent` |
| Catalogue.TitleToken | multiqc/modules/dragen/sc_atac_metrics.py:21 | the token rule `w.title() if w.islower() else w`; its contract is stated by `Catalogue.TitleTokenFacts` and `Catalogue.TitleOfCapitalised` |
| Catalogue.TitleWord | multiqc/modules/dragen/sc_atac_metrics.py:21 | `str.title()` of one token; its contract is stated by `Catalogue.TitleWordNotLower` and `Catalogue.TitleOfHyphenated` |
| Catalogue.TitleFrom | multiqc/modules/dragen/sc_atac_metrics.py:21 | `str.title()` from a given previous-character state, as CPython scans it; its contract is stated by `Catalogue.TitleFromCase`, `Catalogue.TitleFromHasUpper` and `Catalogue.TitleFromConcat` |
| Catalogue.IsLowerWord | multiqc/modules/dragen/sc_atac_metrics.py:21 | `str.islower()`: at least one lower-case letter and no upper-case one; what it decides is stated by `Catalogue.TitleWordNotLower`, `Catalogue.TitleOfCapitalised` and `Catalogue.TitleTokenFacts` |
| Catalogue.TitleKeepsTokens | multiqc/modules/dragen/sc_atac_metrics.py:21 | the title has as many whitespace tokens as the name; a token that is not all lower case is kept verbatim; every token keeps its length and changes only in letter case |
| Catalogue.TitleSplit | multiqc/modules/dragen/sc_atac_metrics.py:21 | splitting the title on whitespace gives the name's tokens, each put through the token rule |
| Catalogue.TitleIdempotent | multiqc/modules/dragen/sc_atac_metrics.py:21 | applying the title rule to a title changes nothing |
| Catalogue.TitleTokenFacts | multiqc/modules/dragen/sc_atac_metrics.py:21 | the token rule keeps tokens, length and letters up to case, keeps a token that is not all lower case, and is idempotent |
| Catalogue.TitleWordNotLower | multiqc/modules/dragen/sc_atac_metrics.py:21 | `str.title()` of an all-lower-case word is no longer all lower case |
| Catalogue.TitleFromCase | multiqc/modules/dragen/sc_atac_metrics.py:21 | `str.title()` keeps the length and every non-letter, and changes letters only in case |
| Catalogue.TitleFromHasUpper | multiqc/modules/dragen/sc_atac_metrics.py:21 | `str.title()` of a word with a letter has an upper-case letter |
| Catalogue.TitleFromConcat | multiqc/modules/dragen/sc_atac_metrics.py:21 | `str.title()` works run by run: each letter's case depends only on whether the previous character is a letter |
| Catalogue.TitleOfHyphenated | multiqc/modules/dragen/sc_atac_metrics.py:21 | a hyphenated lower-case token gets both parts capitalised |
| Catalogue.TitleOfCapitalised | multiqc/modules/dragen/sc_atac_metrics.py:21 | a token starting with a capital letter is kept |
| Catalogue.TitleOfName | multiqc/modules/dragen/sc_atac_metrics.py:21 | a name made of tokens has as title the join of the tokens' titles |
| Catalogue.CatalogueTitles | multiqc/modules/dragen/sc_atac_metrics.py:10-28 | the six titles are "Unique Cell-Barcodes", "Fragment Threshold For Passing Cells", "Passing Cells", "Median Fragments Per Cell", "Median Peaks Per Cell" and "Total Peaks Detected" |
| Catalogue.UniqueCellBarcodesTitle | multiqc/modules/dragen/sc_atac_metrics.py:11 | the title of "Unique cell-barcodes" is "Unique Cell-Barcodes" |
| PyStr.Split | multiqc/modules/dragen/sc_atac_metrics.py:85 | `split(",")` gives one more piece than there are commas, and no piece holds a comma |
| PyStr.Join | multiqc/modules/dragen/sc_atac_metrics.py:21 | `sep.join(ts)`; its contract is stated by `PyStr.SplitJoin`, `PyStr.JoinSplit` and `PyStr.WsSplitJoin`, which make it the inverse of the splits |
| PyStr.SplitJoin | multiqc/modules/dragen/sc_atac_metrics.py:85 | splitting a comma join of comma-free pieces gives the pieces back |
| PyStr.JoinSplit | multiqc/modules/dragen/sc_atac_metrics.py:85 | joining the pieces of a split with the separator gives the text back |
| PyStr.WsSplit | multiqc/modules/dragen/sc_atac_metrics.py:21 | `split()` yields only non-empty tokens without whitespace |
| PyStr.WsSplitJoin | multiqc/modules/dragen/sc_atac_metrics.py:21 | `split()` of a space join of tokens gives the tokens back |
| PyStr.SplitLines | multiqc/modules/dragen/sc_atac_metrics.py:84 | `splitlines()` yields lines without line-break characters |
| PyStr.SplitLinesTerminated | multiqc/modules/dragen/sc_atac_metrics.py:84 | `splitlines()` of lines each ended by a newline gives the lines back, with no trailing empty line |
| Values.ParseNumber | multiqc/modules/dragen/sc_atac_metrics.py:95 | `float()` on plain signed decimals, yielding the value or nothing; its contract is stated by `Values.Coerce`, `Values.CoerceDigits`, `Values.CoerceFraction`, `Values.CoerceNegative` and `Values.CoerceNonNumeric` |
| Values.Coerce | multiqc/modules/dragen/sc_atac_metrics.py:94-98 | the stat is a number exactly when the number parser accepts it, and then it is the number the parser reads; otherwise it is the original string, unchanged |
| Values.CoerceDigits | multiqc/modules/dragen/sc_atac_metrics.py:95 | a string of decimal digits becomes the number it denotes |
| Values.CoerceFraction | multiqc/modules/dragen/sc_atac_metrics.py:95 | a decimal `whole.frac` is stored as the exact decimal value (not the nearest float), whole plus fraction over the power of ten |
| Values.CoerceNegative | multiqc/modules/dragen/sc_atac_metrics.py:95 | a leading `-` stores the negation of the number the rest denotes |
| Values.FractionExample | multiqc/modules/dragen/sc_atac_metrics.py:60-95 | the stat `2.5` is stored as 2.5 and its table cell is 2 |
| Values.CoerceDecimal | multiqc/modules/dragen/sc_atac_metrics.py:95 | the decimal text of a natural number coerces back to that number |
| Values.DecimalValue | multiqc/modules/dragen/sc_atac_metrics.py:95 | the decimal text of a number denotes that number |
| Values.CoerceNonNumeric | multiqc/modules/dragen/sc_atac_metrics.py:96-97 | a stat with a character other than a digit, `+`, `-` or `.` stays text, without error (within the decimal grammar of the `Values.Coerce` line under "## Left out") |
| Values.ToInt | multiqc/modules/dragen/sc_atac_metrics.py:60 | `int()` succeeds exactly on numbers and truncates toward zero |
| Values.Trunc | multiqc/modules/dragen/sc_atac_metrics.py:60 | truncation toward zero is within 1 of the number, on the side of zero |
| SampleNames.SampleName | multiqc/modules/dragen/sc_atac_metrics.py:81 | `re.search(r"(.*).scATAC.metrics.csv", fn).group(1)`, or nothing when the search fails; its contract is stated by `SampleNames.SampleNameDefined`, `SampleNames.SampleNameIsPrefix` and `SampleNames.SampleNameAtEnd` |
| SampleNames.LineEndStops | multiqc/modules/dragen/sc_atac_metrics.py:81 | `.*` runs over no newline and stops only at a newline or at the end of the file name |
| SampleNames.BacktrackFindsLast | multiqc/modules/dragen/sc_atac_metrics.py:81 | greedy `.*` backtracking finds the last position, within the line, where the pattern matches, and finds none exactly when there is none |
| SampleNames.SearchFromMatches | multiqc/modules/dragen/sc_atac_metrics.py:81 | a match found from a start position is a piece of the file name that is followed by the pattern |
| SampleNames.SearchFindsMatch | multiqc/modules/dragen/sc_atac_metrics.py:81 | when the pattern matches at or after a start position, the search from there succeeds |
| SampleNames.SampleNameDefined | multiqc/modules/dragen/sc_atac_metrics.py:81 | a sample name is found exactly when the pattern matches somewhere in the file name |
| SampleNames.SampleNameIsPrefix | multiqc/modules/dragen/sc_atac_metrics.py:81 | in a one-line file name, the sample name is the prefix before the last match of the pattern |
| SampleNames.SampleNameAtEnd | multiqc/modules/dragen/sc_atac_metrics.py:81 | in a one-line file name that ends with the pattern, the sample name is everything before it |
| SampleNames.SampleNameOfFileName | multiqc/modules/dragen/sc_atac_metrics.py:81 | a file named `<name>.scATAC.metrics.csv`, with no newline in the name, belongs to the sample `<name>` |
| SampleNames.SampleNameExample | multiqc/modules/dragen/sc_atac_metrics.py:81 | `X.scATAC.metrics.csv` gives the sample `X` |
| SampleNames.SampleNameWildcards | multiqc/modules/dragen/sc_atac_metrics.py:81 | the pattern's dots match any character: `S1_scATAC-metrics_csv` gives `S1` |
| SampleNames.SampleNameGreedy | multiqc/modules/dragen/sc_atac_metrics.py:81 | the greedy match keeps an earlier copy of the suffix inside the sample name: `<name>.scATAC.metrics.csv.scATAC.metrics.csv` belongs to `<name>.scATAC.metrics.csv` |
| Parser.ParseLine | multiqc/modules/dragen/sc_atac_metrics.py:85-98 | a line is accepted exactly when it has 3 or 4 commas; otherwise the error carries the line |
| Parser.ParseLineFields | multiqc/modules/dragen/sc_atac_metrics.py:86-98 | for 4 or 5 tokens, the result is the metric with the coerced stat; section, placeholder and percentage do not matter |
| Parser.ParseLineEmpty | multiqc/modules/dragen/sc_atac_metrics.py:91-92 | an empty line raises |
| Parser.ParseLineSixTokens | multiqc/modules/dragen/sc_atac_metrics.py:91-92 | a line of six tokens raises, carrying the line |
| Parser.ParseLineTextExample | multiqc/modules/dragen/sc_atac_metrics.py:94-98 | a non-numeric stat is stored as the original text |
| Parser.ParseLines | multiqc/modules/dragen/sc_atac_metrics.py:83-100 | the loop over a file's lines as a function: the metrics map, or the error of the first rejected line; its contract is stated by `Parser.ParseLinesOk`, `Parser.ParseLinesKeys`, `Parser.ParseLinesLastWins` and `Parser.ParseLinesFirstError` |
| Parser.ParseLinesRejectAt | multiqc/modules/dragen/sc_atac_metrics.py:91-92 | the first line without 4 or 5 tokens is the error of the whole file |
| Parser.ParseLinesErrPersists | multiqc/modules/dragen/sc_atac_metrics.py:84-92 | once a line raises, later lines do not change the outcome |
| Parser.ParseLinesOk | multiqc/modules/dragen/sc_atac_metrics.py:84-92 | a file's lines parse exactly when every line is accepted |
| Parser.ParseLinesFirstError | multiqc/modules/dragen/sc_atac_metrics.py:84-92 | the error raised is the one of the first bad line |
| Parser.ParseLinesKeys | multiqc/modules/dragen/sc_atac_metrics.py:83-100 | the keys of a file's data are exactly the 3rd tokens of its lines |
| Parser.ParseLinesLastWins | multiqc/modules/dragen/sc_atac_metrics.py:98 | a key holds the coerced stat of the last line with that key |
| Parser.ParseLinesEmptyFile | multiqc/modules/dragen/sc_atac_metrics.py:83-100 | an empty file gives empty data |
| Parser.ParseFile | multiqc/modules/dragen/sc_atac_metrics.py:71-100 | `parse_scatac_metrics_file` as a function of the file name and contents: the sample name and the data, or the error; its contract is stated by `Parser.ParseFileName`, `Parser.ParseFileOneLine` and `Parser.ParseFileExample` |
| Parser.ParseFileName | multiqc/modules/dragen/sc_atac_metrics.py:81 | a file that parses belongs to the sample its file name yields |
| Parser.ParseFileOneLine | multiqc/modules/dragen/sc_atac_metrics.py:81-100 | a file of one accepted line gives its sample name and one metric |
| Parser.CountExample | multiqc/modules/dragen/sc_atac_metrics.py:95 | the stat `12345` becomes the number 12345 |
| Parser.ParseFileExample | multiqc/modules/dragen/sc_atac_metrics.py:73-100 | a concrete file gives sample `X` with the metric `Unique cell-barcodes` at 12345 |
| Parser.LogFile.constructor | multiqc/modules/dragen/sc_atac_metrics.py:71-81 | the file record `f`: its file name `fn` and contents `f` are fixed, and its `s_name` starts as given |
| Parser.ParseScAtacMetricsFile | multiqc/modules/dragen/sc_atac_metrics.py:71-100 | with no sample name the call fails and the record is untouched; otherwise the name is written into the record and the result is the parse of all lines |
| Parser.ReadLines | multiqc/modules/dragen/sc_atac_metrics.py:84-100 | the loop over the lines returns exactly the parse of the lines: the metrics map, or the error of the first rejected line |
| ScAtacMetrics.Collect | multiqc/modules/dragen/sc_atac_metrics.py:35-36 | the loop over parse results that stops at the first raised error; its contract is stated by `ScAtacMetrics.CollectStep`, `ScAtacMetrics.CollectOk`, `ScAtacMetrics.CollectErrPersists` and `ScAtacMetrics.CollectFirstError` |
| ScAtacMetrics.FileResultsAt | multiqc/modules/dragen/sc_atac_metrics.py:35-36 | there is one parse result per file, in order, each the parse of that file |
| ScAtacMetrics.CollectStep | multiqc/modules/dragen/sc_atac_metrics.py:35-36 | one more file either appends its result to those so far or ends the loop with its error |
| ScAtacMetrics.CollectOk | multiqc/modules/dragen/sc_atac_metrics.py:35-36 | reading all files succeeds exactly when each file does, and keeps each file's result in order |
| ScAtacMetrics.CollectErrPersists | multiqc/modules/dragen/sc_atac_metrics.py:35-36 | once a file raises, later files do not change the outcome |
| ScAtacMetrics.CollectFirstError | multiqc/modules/dragen/sc_atac_metrics.py:35-36 | the call fails with the first failing file's error |
| ScAtacMetrics.ParsedNames | multiqc/modules/dragen/sc_atac_metrics.py:36 | every file read carries the sample name its file name yields |
| ScAtacMetrics.MergeSamples | multiqc/modules/dragen/sc_atac_metrics.py:37-40 | `data_by_sample[f["s_name"]] = data` over the files in order; its contract is stated by `ScAtacMetrics.MergeKeys`, `ScAtacMetrics.MergeLastWins` and `ScAtacMetrics.MergeDuplicate` |
| ScAtacMetrics.ReadAll | multiqc/modules/dragen/sc_atac_metrics.py:33-40 | the file loop as a function: the merged data of all files, or the first failing file's error; its contract is stated by `ScAtacMetrics.CollectOk`, `ScAtacMetrics.AddSpecFileError`, `ScAtacMetrics.MergeKeys` and `ScAtacMetrics.ReadFiles` |
| ScAtacMetrics.MergeKeys | multiqc/modules/dragen/sc_atac_metrics.py:37-40 | the merged sample names are exactly the files' sample names |
| ScAtacMetrics.MergeLastWins | multiqc/modules/dragen/sc_atac_metrics.py:37-40 | a sample holds the whole data of the last file of that sample |
| ScAtacMetrics.MergeDuplicate | multiqc/modules/dragen/sc_atac_metrics.py:37-40 | of two files of one sample, the second one's data replace the first one's; there is no per-metric merge |
| ScAtacMetrics.Filter | multiqc/modules/dragen/sc_atac_metrics.py:43 | a sample survives exactly when it is not ignored, and keeps its data |
| ScAtacMetrics.KeptKeys | multiqc/modules/dragen/sc_atac_metrics.py:37-43 | the kept samples are the files' sample names that are not ignored |
| ScAtacMetrics.TableData | multiqc/modules/dragen/sc_atac_metrics.py:59-63 | the table succeeds exactly when every catalogue value is numeric; it has every sample, only catalogue metrics, each `int()` of the value |
| ScAtacMetrics.AddSpec | multiqc/modules/dragen/sc_atac_metrics.py:32-68 | `add_sc_atac_metrics` as a function: read and merge, filter, then `set()` or the report with the table; its contract is stated by `ScAtacMetrics.AddSpecSamples`, `ScAtacMetrics.AddSpecNothingKept`, `ScAtacMetrics.AddSpecFileError`, `ScAtacMetrics.AddSpecTable` and `ScAtacMetrics.AddSpecNoFiles` |
| ScAtacMetrics.AddSpecNoFiles | multiqc/modules/dragen/sc_atac_metrics.py:33-46 | no files: nothing reported, no error |
| ScAtacMetrics.NamesAgree | multiqc/modules/dragen/sc_atac_metrics.py:36-43 | the kept names read off the parsed files are the kept names read off the file names |
| ScAtacMetrics.AddSpecSamples | multiqc/modules/dragen/sc_atac_metrics.py:43-68 | on success the result is exactly the non-ignored sample names of the files |
| ScAtacMetrics.AddSpecNothingKept | multiqc/modules/dragen/sc_atac_metrics.py:45-46 | nothing is reported exactly when every file's sample is ignored |
| ScAtacMetrics.AddSpecFileError | multiqc/modules/dragen/sc_atac_metrics.py:35-36 | a failing file makes the whole call fail with its error, unless an earlier file failed |
| ScAtacMetrics.AddSpecTable | multiqc/modules/dragen/sc_atac_metrics.py:50-63 | a report has a nonempty set of samples; the table and the general statistics have exactly those samples; table cells are numeric catalogue metrics |
| ScAtacMetrics.ReadFiles | multiqc/modules/dragen/sc_atac_metrics.py:33-40 | the loop over the files gives exactly the merge of their parses, or the first failing file's error; on success every file record holds the sample name of its file name, and on failure every record either is unchanged or holds the sample name of its file name |
| ScAtacMetrics.AddScAtacMetrics | multiqc/modules/dragen/sc_atac_metrics.py:32-68 | the file loop, filter and table give exactly the specified result; on success every file record holds the sample name of its file name, and on failure every record either is unchanged or holds that name |

## Left out

- File discovery (`find_log_files`) is left out: the method takes the discovered file records as a sequence, in discovery order.
- `add_data_source`, `general_stats_addcols`, `add_section`, `table.plot` and the debug log of a duplicate sample are left out. They are rendering and logging whose code is not part of this model. The report records the data that they would receive.
- `make_headers` and the `Metric` class come from `multiqc/modules/dragen/utils`, which is not part of this model. `Catalogue.Metric` carries the fields line 19-26 passes, and the header projection is not modelled.
- `ignore_samples` is a glob filter of the base module, which is not part of this model. It is a parameter here: a predicate saying whether a sample name is ignored.
- Values.Coerce: `float()` is modelled only for plain decimals: an optional sign, then digits with at most one `.` and at least one digit. Exponents, `inf`/`nan`, underscores and surrounding whitespace are not modelled, and such stats stay text. A catalogue stat of that kind (` 7`, say) therefore makes the table fail with the non-numeric error, where the program would show its number. A stat that is stored as a number keeps its exact decimal value, not the nearest binary float: the stat `0.99999999999999999` is 1.0 to `float()` and so gives the cell 1, while the model stores 0.99999999999999999 and `Values.Trunc` gives 0.
- Values.CoerceNonNumeric: it is stated for the decimal grammar of `Values.Coerce` only. Python's `float()` also accepts `e`, `inf`, `nan`, `_` and surrounding whitespace, so such a stat is not always text there.
- Values.ToInt: numbers are exact reals, not binary floating point, so rounding and the `int()` error on infinities and NaN are not modelled.
- Catalogue.Title: letter case and whitespace are ASCII only. Unicode casing and Unicode whitespace are not modelled.
- PyStr.WsSplit: only ASCII whitespace separates tokens.
- General regular expressions are not modelled, only the one pattern the file-name search uses.
- Error messages are modelled as error kinds that carry the offending line or file name, not as message strings.
