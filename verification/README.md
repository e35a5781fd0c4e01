# anydata, modelled in Dafny

This project models the core of `anydata`. That is a TypeScript library that reads CSV, JSON, XML, YAML and TOML text into a common `StructuredData` value. The model covers these parts:

- **CSV reader** (`src/csv.ts`, module `Csv`).
  - `parse` is a one-pass scanner with one quote-state flag. It runs over the trimmed text and fails on blank text and on an unterminated quote.
  - `finalize` projects rows onto a header row, building records by assigning keys in column order.
  - `from` runs `parse` and then `finalize`.
- **Format detector** (`src/utils/detectFormat.ts`, module `DetectFormat`). It is an ordered chain of json, xml, csv and yaml checks over the trimmed text. Each regular expression is written out as an explicit predicate. A scanner is proved to decide it.
- **Fallback parser `any.from`** (`src/any.ts`, module `Any`).
  - It tries the predicted format first, then json, xml, csv and yaml in that order, skipping the predicted one.
  - The first success wins.
  - On total failure it returns `null`, or throws an error whose message embeds `JSON.stringify` of the collected errors. Module `JsonText` models that stringify and a reader that recovers the record from it.
  - The per-format parsers are a parameter. `Any.Library` plugs in the modelled CSV reader and an XML parser that always throws "Function not implemented.", as `src/xml.ts` does. JSON and YAML are supplied by the caller.
- **`autoParser`** (`src/utils/autoParser.ts`, module `AutoParser`). It is the same chain written as four guarded steps with no suppression path. It is proved equal to `any.from` with `suppressErrors` false. Its private `detectFormat` is textually the function of `src/utils/detectFormat.ts`, so the model reuses `DetectFormat.Detect`.
- **`replaceHTMLEntities`** (`src/utils/common.ts`, module `HtmlEntities`).
  - It is one left-to-right pass of a global, case-insensitive regex replace, modelled on UTF-16 code units (module `Utf16`).
  - The numeric references of section 4.1 of XML 1.0 are decoded with `String.fromCharCode`, so values are taken modulo 2^16.
  - Named references are looked up case-sensitively in the 36-entry table.
- **`compareArrays`** (`src/utils/common.ts`, module `ArrayCompare`). It checks the lengths, sorts both arrays with the default `sort`, then compares them element by element. The default `sort` orders strings by UTF-16 code units. It is modelled as insertion into a sorted sequence and proved to be the unique sorted permutation.
- **TOML pre-processing** (`src/toml.ts`, module `Toml`).
  - `removeComments` is a regex replace that keeps quoted strings and deletes a `#` comment, then trims.
  - `parseToml` cleans every line, drops blank lines, logs the rest and returns an empty record.

`Text` holds the JavaScript string operations the core relies on:

- `trim`, using the ECMAScript whitespace set;
- line terminators;
- `split` and `join` on one character;
- decimal digits of `field${idx}`.

`Wrappers` holds `Option` and `Result`. A thrown error is a `Failure` carrying its message. `Formats` holds the format tags and the `Structured` result value.

Strings are `seq<char>` except in `HtmlEntities` and `ArrayCompare`. Those two depend on UTF-16 code units: `fromCharCode` can produce a lone surrogate, and the default sort compares code units. Every character that the CSV, detector and TOML code compares against is in the Basic Multilingual Plane and is not a surrogate. So for those modules, working on code points instead of code units changes nothing for text made of valid characters.

Some notes on the source, where the code and its own tests or comments disagree:

- **Dead guard in `parse`.** The guard at `src/csv.ts:82` tests `n === 0`, but line 13 has already thrown on empty trimmed text. The guard never fires, so the final row is always pushed (`Csv.Parse`).
- **Prose is read as CSV.** `test/any.test.ts:44-53` expects `any.from` to throw, or to return `null`, on a line of plain prose. But `csv.from` accepts every non-blank text with an even number of `"`, so the chain parses that line as a one-cell CSV table whatever the JSON and YAML parsers do (`Any.ProseExample`, `Any.LibraryFailsOnlyOnBlankOrOpenQuote`). The code is modelled as written.

## Model

| member | source | states |
|---|---|---|
| Text.Trim | src/csv.ts:11 | `trim` returns the input minus a whitespace run at each end (a slice `s[a..b]` with only whitespace before `a` and after `b`), leaves no whitespace at either end, and is empty exactly when the text is all whitespace |
| Text.TrimIdempotent | src/utils/detectFormat.ts:3 | trimming twice is trimming once |
| Text.TrimIsInfix | src/toml.ts:36 | the trimmed line is one contiguous slice of the line, so every character of it comes from the line |
| Text.JoinSplit | src/toml.ts:12-16 | joining the pieces of `split(sep)` with `sep` restores the text |
| Text.SplitJoin | src/toml.ts:12-16 | splitting a join of separator-free pieces gives back the pieces |
| Text.DecimalRoundTrip | src/csv.ts:97 | the digits written for a column index read back as that index |
| Text.DecimalDigitsInjective | src/csv.ts:97 | distinct column indexes get distinct `field<idx>` keys |
| Csv.Step | src/csv.ts:22-75 | one loop iteration consumes at most two characters, and two exactly for `""` inside quotes and for an unquoted CRLF |
| Csv.Parse | src/csv.ts:11-13 | parse fails with "Data cannot be empty" exactly when the trimmed text is empty; any other failure is the open-quote error |
| Csv.ScanQuoteParity | src/csv.ts:22-79 | the scan fails, with "Unexpected EOF while inside quoted field", exactly when it ends inside quotes |
| Csv.ParseOutcome | src/csv.ts:11-85 | parse succeeds iff the trimmed text is non-empty with an even number of `"`; the open-quote error iff the number is odd |
| Csv.ParseShape | src/csv.ts:55-84 | on success: rows = 1 + line breaks outside quotes (CRLF once), total fields = rows + commas outside quotes, and no row is empty |
| Csv.ParseContent | src/csv.ts:25-75 | the fields concatenated are the trimmed text minus quote syntax and unquoted separators: `""` inside quotes gives one `"`, quoted `,` CR LF are kept, an unquoted `"` never becomes content |
| Csv.ParseRender | src/csv.ts:22-85 | for trimmed text without `"` or CR, joining the fields with "," and the rows with "\n" gives the trimmed text back |
| Csv.ParseEncode | src/csv.ts:25-53 | any non-empty table of non-empty rows, written with every field quoted and `"` doubled, parses back to the same table |
| Csv.ColumnKey | src/csv.ts:97 | the key of a column is its header cell, or `field` followed by the column index when the cell is empty |
| Csv.RecordSpec | src/csv.ts:94-101 | a record has exactly the column keys as keys (bar `__proto__`, which a string assignment cannot create); each holds the cell of the last column with that key, "" when the row is short |
| Csv.Finalize | src/csv.ts:88-103 | no rows give no rows; without a header the rows pass unchanged; with one, one record per later row built against the first |
| Csv.From | src/csv.ts:114-118 | `from` fails exactly when parse does, with its message, and otherwise finalizes the rows |
| Csv.FromRecordCount | src/csv.ts:94 | with a header, the number of records is the number of line breaks outside quotes in the trimmed text |
| DetectFormat.Detect | src/utils/detectFormat.ts:2-25 | the answer is json, xml, csv, yaml or null exactly when the corresponding check is the first of the chain to hold on the trimmed text (the private copy at `src/utils/autoParser.ts:11-36` is the same chain) |
| DetectFormat.CloseAheadSpec | src/utils/detectFormat.ts:13 | the scan finds a `>` after position k exactly when one follows with no `<` or `>` before it |
| DetectFormat.TagAtSpec | src/utils/detectFormat.ts:13 | the tag scanner at a position agrees with the regex: `<`, optional `/`, ASCII letter, a run free of `<>`, then `>` |
| DetectFormat.TagFromSpec | src/utils/detectFormat.ts:13 | the scanner finds a tag from position i exactly when the regex matches at or after i |
| DetectFormat.KeyLineAtSpec | src/utils/detectFormat.ts:21 | the key-line scanner agrees with `[a-zA-Z0-9_-]+:\s` at a position |
| DetectFormat.ListLineAtSpec | src/utils/detectFormat.ts:21 | the list-line scanner agrees with `\s*-\s+[a-zA-Z0-9_-]+` at a position |
| DetectFormat.YamlLineAtSpec | src/utils/detectFormat.ts:21 | a YAML line starts at p exactly when p is a multiline `^` position and one of the two patterns matches there |
| DetectFormat.YamlFromSpec | src/utils/detectFormat.ts:21 | the line-by-line scan finds a YAML line exactly when one exists |
| DetectFormat.DetectBlank | src/utils/detectFormat.ts:3-24 | blank text has no format (null) |
| DetectFormat.DetectTrimmed | src/utils/detectFormat.ts:3 | the answer depends only on the trimmed text |
| JsonText.Stringify | src/any.ts:65 | `JSON.stringify` of the error record is braces around its members |
| JsonText.ReadEscaped | src/any.ts:65 | every string escaped as `JSON.stringify` does reads back as itself up to the closing quote |
| JsonText.ReadMembersOf | src/any.ts:65 | the members of a non-empty record, as written, read back as the record |
| JsonText.ReadStringify | src/any.ts:65 | reading the stringified record recovers every format name and message, in order |
| Any.Remaining | src/any.ts:32-62 | the fallback list holds exactly the formats other than the prediction, each once |
| Any.RemainingOrder | src/any.ts:32-62 | the fallback list is json, xml, csv, yaml with the predicted one removed |
| Any.TryInOrder | src/any.ts:32-62 | the loop tries a prefix of its list; no winner iff every parser in the list failed; the winner is the last one tried and its value; each error belongs to the parser tried at that position |
| Any.Fallback | src/any.ts:30-65 | the parsers that run are a prefix of prediction-then-list and none runs twice; `null` exactly when nothing parsed and errors are suppressed; a throw carries the message built from the errors |
| Any.Settle | src/any.ts:64-65 | after the loop: the winner is returned, else `null` when suppressing, else the error with the collected messages |
| Any.FallbackFirstSuccessWins | src/any.ts:32-62 | when the fallback parses, the last parser tried succeeded and gave the value, and every earlier one failed |
| Any.FallbackSkipsPredicted | src/any.ts:27-62 | the predicted parser's failure never appears among the recorded errors |
| Any.FallbackTotalFailure | src/any.ts:30-62 | on total failure every parser failed and there is one error per remaining format, in order, holding that parser's message |
| Any.Chain | src/any.ts:12-65 | the prediction runs first and alone when it succeeds; the outcome is a parsed value exactly when some parser succeeds |
| Any.From | src/any.ts:10-66 | the detected format's parser runs first, alone when it succeeds; a value exactly when some parser accepts the text, and it is what the last parser tried returned; `null` exactly when errors are suppressed and every parser failed; otherwise a throw carrying the collected errors |
| Any.FromDefault | src/any.ts:10 | without `suppressErrors` the result is never `null`: a value or a throw |
| Any.ThrownMessageReadable | src/any.ts:65 | the thrown message is the fixed prefix followed by JSON from which each tried format and its message can be read back |
| Any.CsvValue | src/any.ts:48-54 | the CSV step succeeds exactly when `csv.from(text)` does, with its data |
| Any.LibraryCsv | src/any.ts:48-54 | with the library's parsers, the CSV parser succeeds exactly when `csv.from` does |
| Any.LibraryFailsOnlyOnBlankOrOpenQuote | src/any.ts:48-54 | whatever JSON and YAML do, the chain fails as a whole only on blank text or text with an odd number of `"` |
| Any.ProseParses | src/any.ts:48-54 | non-blank text without `"` always parses (as CSV), whichever the flag |
| Any.ProseExample | test/any.test.ts:44-53 | the prose of these tests parses, so neither the expected throw nor the expected `null` can occur |
| AutoParser.Step | src/utils/autoParser.ts:59-77 | a guarded step is skipped for the prediction and after a success; otherwise it records the parser's success or its error |
| AutoParser.Parse | src/utils/autoParser.ts:39-80 | `parse` never yields `null` and runs the predicted parser first |
| AutoParser.StepAllTries | src/utils/autoParser.ts:59-77 | the guarded steps over a list are the fallback loop over the list without the prediction |
| AutoParser.StepsAreTheLoop | src/utils/autoParser.ts:59-77 | the four written-out steps are the loop of `any.from` over the remaining formats |
| AutoParser.ParseAgreesWithAny | src/utils/autoParser.ts:39-80 | `autoParser.parse` equals `any.from` with `suppressErrors` false |
| AutoParser.ParseString | src/utils/autoParser.ts:87-89 | `parseString` never yields `null` and parses exactly when some parser succeeds |
| HtmlEntities.RunEnd | src/utils/common.ts:43 | the greedy `+`: the run from i ends at the first character outside the class |
| HtmlEntities.MatchAt | src/utils/common.ts:43 | a match starts with `&`, is at least two units long, and a named match's name is the letters right after the `&` |
| HtmlEntities.Lookup | src/utils/common.ts:49 | `hasOwnProperty` lookup: found exactly when the name is a key, case-sensitive, with its value |
| HtmlEntities.ReplaceHtmlEntities | src/utils/common.ts:2-52 | decoding never lengthens the text and leaves text without `&` unchanged |
| HtmlEntities.NoReferenceUnchanged | src/utils/common.ts:43 | under either name syntax and any table, text without `&` is unchanged |
| HtmlEntities.DecodeEscape | src/utils/common.ts:43-51 | decoding undoes escaping every `&` as `&amp;`, under either name syntax |
| HtmlEntities.DecimalReference | src/utils/common.ts:44-47 | `&#digits` with optional `;` becomes the single code unit of the value modulo 2^16 |
| HtmlEntities.HexReference | src/utils/common.ts:44-47 | `&#x` or `&#X` with hex digits and optional `;` becomes the code unit of the value modulo 2^16 |
| HtmlEntities.NamedReference | src/utils/common.ts:43-49 | `&name` with optional `;` becomes the table's character when the name is a key; otherwise it is copied verbatim with its `;` |
| HtmlEntities.LettersKeyDecodes | src/utils/common.ts:3-49 | every all-letter key of the table, written `&key;`, decodes to its character |
| HtmlEntities.SinglePass | src/utils/common.ts:43 | `&amp;lt;` decodes to `&lt;`: replacements are not rescanned |
| HtmlEntities.TableKeysAreNames | src/utils/common.ts:3-41 | every key is a lower-case letter followed by letters and digits |
| HtmlEntities.SupOneNotDecoded | src/utils/common.ts:31-49 | as written, `&sup1;` is left unchanged although `sup1` is a key |
| HtmlEntities.ReplaceHtmlEntitiesFixed | src/utils/common.ts:43-51 | the corrected decoder never lengthens the text and leaves text without `&` unchanged |
| HtmlEntities.FixedDecodesEveryKey | src/utils/common.ts:3-49 | with the corrected name syntax, every key of the table written `&key;` decodes to its character |
| HtmlEntities.SupOneFixed | src/utils/common.ts:31-49 | with the corrected name syntax, `&sup1;` decodes to `¹` |
| ArrayCompare.BelowTotal | src/utils/common.ts:59-60 | the code-unit order of `sort` relates any two different strings one way or the other |
| ArrayCompare.BelowTransitive | src/utils/common.ts:59-60 | the code-unit order is transitive |
| ArrayCompare.BelowAsymmetric | src/utils/common.ts:59-60 | the code-unit order is asymmetric |
| ArrayCompare.Sort | src/utils/common.ts:59-60 | the sorted array is ordered and a permutation of the original |
| ArrayCompare.SortedUnique | src/utils/common.ts:59-60 | two sorted permutations of the same contents are equal, so any correct sort gives `Sort`'s result |
| ArrayCompare.SameElementsSameSort | src/utils/common.ts:56-67 | two arrays sort to the same array exactly when they hold the same strings equally often |
| ArrayCompare.Pairwise | src/utils/common.ts:63-67 | the loop answers true exactly when the two arrays are equal |
| ArrayCompare.CompareArrays | src/utils/common.ts:55-68 | true exactly when the arrays are permutations of each other; arrays of different lengths are left untouched, equal-length ones end sorted |
| Toml.QuoteEnd | src/toml.ts:27 | a quoted alternative that matches ends just after a closing quote of the same kind, and what lies between is a body of ordinary characters and backslash escapes (`(?:[^"\\]|\\.)*`) |
| Toml.QuoteEndSpec | src/toml.ts:27 | the quoted alternative closes at `e` if and only if the text between is such an escaped body followed by the quote, so an escaped quote never closes it and it fails exactly when no such body exists |
| Toml.QuoteBody | src/toml.ts:27 | an escaped body followed by the quote is matched up to that quote |
| Toml.EscapedQuoteSegment | src/toml.ts:27 | the string `"x\"#y"`, with an escaped quote and a `#` inside, is a closed quoted string |
| Toml.LineEnd | src/toml.ts:27 | `.*` stops at the first line terminator |
| Toml.Cut | src/toml.ts:27-35 | as written, the kept text is a prefix of the line, cut only at a `#` |
| Toml.CutAtFinalComment | src/toml.ts:27 | as written, a `#` is cut only when no line terminator follows it |
| Toml.RemoveComments | src/toml.ts:22-37 | the result has no whitespace at either end and is never longer than the line |
| Toml.NoHashOnlyTrims | src/toml.ts:27-36 | a line without `#` is only trimmed, in both versions |
| Toml.CommentRemoved | src/toml.ts:27-36 | any mix of code and closed quoted strings, backslash escapes included (such as `a = "x\"#y"`), then `#` and a comment, gives the trimmed code with the strings intact, in both versions |
| Toml.QuotedHashKept | src/toml.ts:27-34 | a line of code and closed quoted strings (backslash escapes included) in any order loses only its surrounding whitespace: a `#` inside a string is kept, in both versions |
| Toml.SegmentsAt | src/toml.ts:27-34 | both scans pass over code and closed quoted strings without stopping, and the corrected one copies them unchanged |
| Toml.TerminatedLineKeepsComments | src/toml.ts:12-14 | as written, a line ending in a line terminator (a CRLF line) is only trimmed: its comment stays |
| Toml.CrlfCommentKept | src/toml.ts:27 | as written, `code#note` loses its comment but `code#note\r` keeps it (code being any mix of plain code and closed strings) |
| Toml.RemoveCommentsFixed | src/toml.ts:22-37 | the corrected cleaner's result has no whitespace at either end and is never longer than the line |
| Toml.FixedIgnoresCarriageReturn | src/toml.ts:27 | the corrected cleaner gives the same line with or without a trailing CR |
| Toml.FixedAgreesOnPlainLines | src/toml.ts:27-36 | on lines without a line terminator, the corrected cleaner and the code agree |
| Toml.CleanLines | src/toml.ts:14-15 | the kept lines are cleaned input lines, none of them blank, and every input line whose cleaned form is not blank is kept |
| Toml.CleanLinesAppend | src/toml.ts:14-15 | the filter keeps line order: cleaning two parts of a file and putting the results together is cleaning the whole |
| Toml.ParseToml | src/toml.ts:9-20 | the record is empty; a single line is logged as `removeComments` leaves it, or nothing is logged when that is blank |
| Toml.ParseTomlLogsKeptLines | src/toml.ts:12-17 | splitting the logged text at `\n` gives exactly the kept lines, each cleaned by `removeComments` |
| Toml.ParseTomlFixed | src/toml.ts:9-20 | the corrected pipeline: empty record; a single line is logged as the corrected cleaner leaves it, or nothing when that is blank |
| Toml.ParseTomlFixedLogsKeptLines | src/toml.ts:12-17 | the same split-back property for the corrected pipeline |
| Toml.ParseTomlAgrees | src/toml.ts:12-17 | on text whose only line terminator is `\n`, the code and the corrected pipeline log the same text |
| Toml.From | src/toml.ts:45-48 | `toml.from` gives the empty record marked as TOML |
| Toml.RecordIgnoresText | src/toml.ts:9-19 | the record does not depend on the text |

## Left out

- Every `loadFile` and `autoParser.parseFile`: file I/O. `any.loadFile`'s suppression of read errors goes with them.
- `json.from` is `JSON.parse`, a foreign function. The YAML parser's code is not part of this model. Both are parameters of the chain, and `Any.Library` takes them as arguments.
- `xml.from`: it only throws "Function not implemented.", which is modelled as the XML parser always failing with that message.
- `StructuredData`: its constructor takes no arguments (`src/StructuredData.ts:2`), so the object built by `new StructuredData(rows, "csv")` keeps neither the data nor the format. The model returns a tagged value `Structured(origin, payload)` so that what each parser produced can be stated. The class's methods all throw and are not part of the core.
- `src/parse.ts`, `src/index.ts` and the type declarations: wiring only.
- The `console.log` in `parseToml`: modelled as the `logged` output of `ParseToml`, not as I/O.
- Thrown values that are not `Error`s: every parser in the chain throws an `Error`, so an error is modelled by its message.
- Property order of the CSV records and of the error record's keys: records are maps. The error record's entries are a sequence in insertion order, so the order that `JSON.stringify` uses is modelled.
- `compareArrays` on non-string elements. The default `sort` first converts elements to strings; only arrays of strings are modelled. The in-place sorting is modelled by returning the sorted arrays with the answer.
- Text holding a lone surrogate: a Dafny `char` is a Unicode scalar value, so such JavaScript strings cannot be given to `Csv`, `DetectFormat` or `Toml` at all, and what those functions do with them is not modelled.
- Csv.ParseShape: counts fields over all rows together (fields = rows + commas outside quotes), not row by row.
- HtmlEntities.DecimalReference: the value is exact. JavaScript's `parseInt` rounds values above 2^53, and a digit run long enough to overflow to `Infinity` gives code unit 0. Neither is modelled.
- HtmlEntities.HexReference: the same limit on very long hex runs as for decimal references.
- Toml.ParseToml: its ensures covers single-line text only. `Toml.ParseTomlLogsKeptLines` states the multi-line case.
- Toml.ParseTomlFixed: the same, with `Toml.ParseTomlFixedLogsKeptLines` for the multi-line case.

## Findings

| source | as written | input that shows it | evidently intended | confidence | as-written member | corrected member |
|---|---|---|---|---|---|---|
| src/utils/common.ts:43 | the name alternative `[a-z]+` cannot include digits, so the lookup sees `sup` and the table keys `sup1`, `sup2`, `sup3`, `frac14`, `frac12`, `frac34` can never be reached | `&sup1;` stays `&sup1;` | every key of the table decodes, e.g. `&sup1;` becomes `¹` (a letter followed by letters and digits) | high; not executed | HtmlEntities.SupOneNotDecoded | HtmlEntities.FixedDecodesEveryKey |
| src/toml.ts:27 | `#.*$` has no `m` flag, so `$` is the end of the line string. `.` does not match CR, and lines are split at `\n` only. A comment on a CRLF line is not removed | the line `a = 1 # note\r` (from `a = 1 # note\r\n`) keeps ` # note` | comments are removed whatever the line ending | high; not executed | Toml.CrlfCommentKept | Toml.FixedIgnoresCarriageReturn |

`HtmlEntities.ReplaceHtmlEntitiesFixed` is the corrected decoder. `Toml.RemoveCommentsFixed` is the corrected line cleaner, and `Toml.ParseTomlFixed` is `parseToml` built on it. `Toml.ParseToml` keeps the cleaner as written, so it logs what the code logs. The two cleaners agree on every line without a line terminator (`Toml.FixedAgreesOnPlainLines`), and the two pipelines agree on text without CR, U+2028 or U+2029 (`Toml.ParseTomlAgrees`).
