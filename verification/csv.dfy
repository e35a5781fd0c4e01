/** The CSV reader of src/csv.ts: a one-pass scanner with a single quote-state
    flag over the trimmed text (`parse`), the header projection that turns
    rows into records (`finalize`), and the entry point `from`. */
module Csv {
  import opened Wrappers
  import opened Text

  type Row = seq<string>

  const EmptyDataMessage := "Data cannot be empty"
  const OpenQuoteMessage := "Unexpected EOF while inside quoted field"

  // ---------------------------------------------------------------------------
  // parse

  /** The loop variables of `parse`: the quote-state flag, the field being
      read, the fields of the current row, and the completed rows. */
  datatype ScanState = ScanState(inQuotes: bool, field: string, row: Row, rows: seq<Row>)

  const Start := ScanState(false, [], [], [])

  /** One iteration of the loop of `parse`: how many characters it consumes
      (two for an escaped `""` inside quotes and for an unquoted CRLF, one
      otherwise) and the state it leaves. */
  function Step(s: string, st: ScanState): (r: (nat, ScanState))
    requires s != []
    ensures 1 <= r.0 <= |s|
    ensures r.0 == 2 <==> |s| > 1 && ((st.inQuotes && s[0] == '"' && s[1] == '"') || (!st.inQuotes && s[0] == '\r' && s[1] == '\n'))
    ensures r.0 <= 2
  {
    if st.inQuotes then
      if s[0] == '"' then
        if |s| > 1 && s[1] == '"' then (2, st.(field := st.field + ['"']))
        else (1, st.(inQuotes := false))
      else (1, st.(field := st.field + [s[0]]))
    else if s[0] == '"' then (1, st.(inQuotes := true))
    else if s[0] == ',' then (1, st.(field := [], row := st.row + [st.field]))
    else if s[0] == '\r' || s[0] == '\n' then
      (if s[0] == '\r' && |s| > 1 && s[1] == '\n' then 2 else 1,
       ScanState(false, [], [], st.rows + [st.row + [st.field]]))
    else (1, st.(field := st.field + [s[0]]))
  }

  /** Runs the loop over the rest of the text `s`, then pushes the last field
      and row, or fails when the text ends inside quotes. */
  function Scan(s: string, st: ScanState): Result<seq<Row>, string>
    decreases |s|
  {
    if s == [] then
      if st.inQuotes then Failure(OpenQuoteMessage)
      else Success(st.rows + [st.row + [st.field]])
    else
      var (n, next) := Step(s, st);
      Scan(s[n..], next)
  }

  /** `parse`: rejects text that is blank after trimming, then scans the
      trimmed text. The source also guards against pushing an empty final
      row (csv.ts:82), but that guard needs the trimmed text to be empty,
      which line 13 has already ruled out, so the final row is always
      pushed. */
  function Parse(text: string): (r: Result<seq<Row>, string>)
    ensures r == Failure(EmptyDataMessage) <==> Trim(text) == []
    ensures r.Failure? ==> r.error == EmptyDataMessage || r.error == OpenQuoteMessage
  {
    var t := Trim(text);
    if t == [] then Failure(EmptyDataMessage)
    else
      ScanQuoteParity(t, Start);
      Scan(t, Start)
  }

  // ---------------------------------------------------------------------------
  // Failure: an open quote at the end

  /** Whether the scan of `s` from `st` ends inside quotes: every `"` flips
      the quote state (an escaped `""` flips it twice), so this is the
      starting state combined with the parity of the quote characters. */
  predicate EndsQuoted(s: string, st: ScanState) {
    st.inQuotes != (Count(s, '"') % 2 == 1)
  }

  lemma StepKeepsQuoteParity(s: string, st: ScanState)
    requires s != []
    ensures EndsQuoted(s, st) == EndsQuoted(s[Step(s, st).0..], Step(s, st).1)
  {
    var (n, next) := Step(s, st);
    assert Count(s, '"') == (if s[0] == '"' then 1 else 0) + Count(s[1..], '"');
    if n == 2 {
      assert s[1..][1..] == s[2..];
      assert Count(s[1..], '"') == (if s[1] == '"' then 1 else 0) + Count(s[2..], '"');
    }
  }

  lemma {:induction false} ScanQuoteParity(s: string, st: ScanState)
    ensures Scan(s, st).Failure? <==> EndsQuoted(s, st)
    ensures Scan(s, st).Failure? ==> Scan(s, st).error == OpenQuoteMessage
    decreases |s|
  {
    if s != [] {
      var (n, next) := Step(s, st);
      StepKeepsQuoteParity(s, st);
      ScanQuoteParity(s[n..], next);
    }
  }

  /** `parse` fails with the empty-data error exactly on blank text, with the
      open-quote error exactly when the trimmed text holds an odd number of
      `"` characters, and succeeds otherwise. */
  lemma ParseOutcome(text: string)
    ensures Parse(text) == Failure(EmptyDataMessage) <==> Trim(text) == []
    ensures Parse(text) == Failure(OpenQuoteMessage) <==> Trim(text) != [] && Count(Trim(text), '"') % 2 == 1
    ensures Parse(text).Success? <==> Trim(text) != [] && Count(Trim(text), '"') % 2 == 0
  {
    var t := Trim(text);
    if t != [] {
      ScanQuoteParity(t, Start);
    }
  }

  // ---------------------------------------------------------------------------
  // Shape of a successful parse

  /** Commas outside quotes, where every `"` flips the quote state. An
      escaped `""` inside quotes flips it twice, so this agrees with the
      scanner's notion of "outside quotes" without modelling escapes. */
  function Commas(s: string, inQuotes: bool): nat {
    if s == [] then 0
    else (if !inQuotes && s[0] == ',' then 1 else 0) + Commas(s[1..], if s[0] == '"' then !inQuotes else inQuotes)
  }

  /** Line breaks outside quotes, a CRLF pair counting once. */
  function Breaks(s: string, inQuotes: bool): nat {
    if s == [] then 0
    else if !inQuotes && s[0] == '\r' && |s| > 1 && s[1] == '\n' then 1 + Breaks(s[2..], inQuotes)
    else (if !inQuotes && (s[0] == '\r' || s[0] == '\n') then 1 else 0) + Breaks(s[1..], if s[0] == '"' then !inQuotes else inQuotes)
  }

  /** The number of fields over all rows. */
  function FieldTotal(rows: seq<Row>): nat {
    if rows == [] then 0 else FieldTotal(rows[..|rows| - 1]) + |rows[|rows| - 1]|
  }

  lemma FieldTotalAppend(rows: seq<Row>, row: Row)
    ensures FieldTotal(rows + [row]) == FieldTotal(rows) + |row|
  {
    assert (rows + [row])[..|rows|] == rows;
  }

  /** The rows the scan will have produced when it finishes. */
  function RowsAhead(s: string, st: ScanState): nat {
    |st.rows| + 1 + Breaks(s, st.inQuotes)
  }

  /** The fields the scan will have produced when it finishes. */
  function FieldsAhead(s: string, st: ScanState): nat {
    FieldTotal(st.rows) + |st.row| + 1 + Breaks(s, st.inQuotes) + Commas(s, st.inQuotes)
  }

  predicate NoEmptyRow(rows: seq<Row>) {
    forall row <- rows :: |row| >= 1
  }

  lemma StepKeepsCounts(s: string, st: ScanState)
    requires s != []
    ensures var (n, next) := Step(s, st);
      && RowsAhead(s, st) == RowsAhead(s[n..], next)
      && FieldsAhead(s, st) == FieldsAhead(s[n..], next)
      && next.rows[..|st.rows|] == st.rows
      && (NoEmptyRow(st.rows) ==> NoEmptyRow(next.rows))
  {
    var (n, next) := Step(s, st);
    var q := st.inQuotes;
    if q && s[0] == '"' && |s| > 1 && s[1] == '"' {
      assert s[1..][1..] == s[2..];
      assert Commas(s, q) == Commas(s[1..], false) == Commas(s[2..], true);
      assert Breaks(s, q) == Breaks(s[1..], false) == Breaks(s[2..], true);
    } else if !q && (s[0] == '\r' || s[0] == '\n') {
      FieldTotalAppend(st.rows, st.row + [st.field]);
      assert Commas(s, false) == Commas(s[1..], false);
      if n == 2 {
        assert s[1..][1..] == s[2..];
        assert Commas(s[1..], false) == Commas(s[2..], false);
        assert Breaks(s, false) == 1 + Breaks(s[2..], false);
      } else {
        assert Breaks(s, false) == 1 + Breaks(s[1..], false);
      }
    } else {
      assert n == 1;
      assert Breaks(s, q) == Breaks(s[1..], next.inQuotes);
      assert Commas(s, q) == (if s[0] == ',' && !q then 1 else 0) + Commas(s[1..], next.inQuotes);
    }
  }

  lemma {:induction false} ScanCounts(s: string, st: ScanState)
    requires Scan(s, st).Success?
    ensures var out := Scan(s, st).value;
      && |out| == RowsAhead(s, st)
      && FieldTotal(out) == FieldsAhead(s, st)
      && out[..|st.rows|] == st.rows
      && (NoEmptyRow(st.rows) ==> NoEmptyRow(out))
    decreases |s|
  {
    if s == [] {
      FieldTotalAppend(st.rows, st.row + [st.field]);
    } else {
      var (n, next) := Step(s, st);
      assert Scan(s, st) == Scan(s[n..], next);
      StepKeepsCounts(s, st);
      ScanCounts(s[n..], next);
      PrefixOfPrefix(Scan(s, st).value, next.rows, st.rows);
    }
  }

  lemma PrefixOfPrefix<T>(out: seq<T>, mid: seq<T>, pre: seq<T>)
    requires |pre| <= |mid| <= |out| && out[..|mid|] == mid && mid[..|pre|] == pre
    ensures out[..|pre|] == pre
  {
    assert out[..|pre|] == out[..|mid|][..|pre|];
  }

  /** A successful parse has one row more than the line breaks outside
      quotes (a CRLF counting once), none of them empty, and as many fields
      in all as rows plus commas outside quotes. */
  lemma ParseShape(text: string)
    requires Parse(text).Success?
    ensures var rows := Parse(text).value;
      && |rows| == 1 + Breaks(Trim(text), false)
      && FieldTotal(rows) == |rows| + Commas(Trim(text), false)
      && NoEmptyRow(rows)
  {
    ScanCounts(Trim(text), Start);
  }

  // ---------------------------------------------------------------------------
  // Field contents

  /** The characters that end up inside fields, with the row and field
      structure forgotten: a `""` inside quotes stands for one `"`, a lone
      `"` only flips the quote state, and `,`, CR and LF are content inside
      quotes and structure outside them. */
  function Content(s: string, inQuotes: bool): string {
    if s == [] then []
    else if s[0] == '"' then
      if inQuotes && |s| > 1 && s[1] == '"' then ['"'] + Content(s[2..], inQuotes)
      else Content(s[1..], !inQuotes)
    else if !inQuotes && (s[0] == ',' || s[0] == '\r' || s[0] == '\n') then Content(s[1..], inQuotes)
    else [s[0]] + Content(s[1..], inQuotes)
  }

  /** All fields of one row, concatenated. */
  function Glue(row: Row): string {
    if row == [] then [] else Glue(row[..|row| - 1]) + row[|row| - 1]
  }

  /** All fields of all rows, concatenated. */
  function GlueRows(rows: seq<Row>): string {
    if rows == [] then [] else GlueRows(rows[..|rows| - 1]) + Glue(rows[|rows| - 1])
  }

  lemma GlueAppend(row: Row, field: string)
    ensures Glue(row + [field]) == Glue(row) + field
  {
    assert (row + [field])[..|row|] == row;
  }

  lemma GlueRowsAppend(rows: seq<Row>, row: Row)
    ensures GlueRows(rows + [row]) == GlueRows(rows) + Glue(row)
  {
    assert (rows + [row])[..|rows|] == rows;
  }

  /** Everything the scan will have put into fields when it finishes. */
  function TextAhead(s: string, st: ScanState): string {
    GlueRows(st.rows) + Glue(st.row) + st.field + Content(s, st.inQuotes)
  }

  lemma StepKeepsContent(s: string, st: ScanState)
    requires s != []
    ensures TextAhead(s, st) == TextAhead(s[Step(s, st).0..], Step(s, st).1)
  {
    var (n, next) := Step(s, st);
    var q := st.inQuotes;
    if q && s[0] == '"' && |s| > 1 && s[1] == '"' {
      StepEscapedQuote(s, st);
    } else if !q && s[0] == ',' {
      StepComma(s, st);
    } else if !q && (s[0] == '\r' || s[0] == '\n') {
      StepBreak(s, st);
    } else if s[0] != '"' {
      StepPlain(s, st);
    }
  }

  lemma StepEscapedQuote(s: string, st: ScanState)
    requires st.inQuotes && |s| > 1 && s[0] == '"' && s[1] == '"'
    ensures TextAhead(s, st) == TextAhead(s[2..], st.(field := st.field + ['"']))
  {
    var head := GlueRows(st.rows) + Glue(st.row);
    assert Content(s, true) == ['"'] + Content(s[2..], true);
    assert head + st.field + (['"'] + Content(s[2..], true)) == head + (st.field + ['"']) + Content(s[2..], true);
  }

  lemma StepComma(s: string, st: ScanState)
    requires !st.inQuotes && s != [] && s[0] == ','
    ensures TextAhead(s, st) == TextAhead(s[1..], st.(field := [], row := st.row + [st.field]))
  {
    GlueAppend(st.row, st.field);
    assert Content(s, false) == Content(s[1..], false);
    assert GlueRows(st.rows) + Glue(st.row) + st.field == GlueRows(st.rows) + Glue(st.row + [st.field]);
  }

  lemma StepBreak(s: string, st: ScanState)
    requires !st.inQuotes && s != [] && (s[0] == '\r' || s[0] == '\n')
    ensures TextAhead(s, st) == TextAhead(s[Step(s, st).0..], Step(s, st).1)
  {
    var next := ScanState(false, [], [], st.rows + [st.row + [st.field]]);
    var n := if s[0] == '\r' && |s| > 1 && s[1] == '\n' then 2 else 1;
    assert Step(s, st) == (n, next);
    assert GlueRows(next.rows) == GlueRows(st.rows) + Glue(st.row) + st.field by {
      GlueRowsAppend(st.rows, st.row + [st.field]);
      GlueAppend(st.row, st.field);
    }
    assert Content(s, false) == Content(s[n..], false) by {
      assert Content(s, false) == Content(s[1..], false);
      if n == 2 {
        assert s[1..][1..] == s[2..];
        assert Content(s[1..], false) == Content(s[2..], false);
      }
    }
  }

  lemma StepPlain(s: string, st: ScanState)
    requires s != [] && s[0] != '"'
    requires st.inQuotes || (s[0] != ',' && s[0] != '\r' && s[0] != '\n')
    ensures TextAhead(s, st) == TextAhead(s[1..], st.(field := st.field + [s[0]]))
  {
    var head := GlueRows(st.rows) + Glue(st.row);
    assert Content(s, st.inQuotes) == [s[0]] + Content(s[1..], st.inQuotes);
    assert head + st.field + ([s[0]] + Content(s[1..], st.inQuotes)) == head + (st.field + [s[0]]) + Content(s[1..], st.inQuotes);
  }

  lemma {:induction false} ScanContent(s: string, st: ScanState)
    requires Scan(s, st).Success?
    ensures GlueRows(Scan(s, st).value) == TextAhead(s, st)
    decreases |s|
  {
    if s == [] {
      GlueRowsAppend(st.rows, st.row + [st.field]);
      GlueAppend(st.row, st.field);
    } else {
      StepKeepsContent(s, st);
      ScanContent(s[Step(s, st).0..], Step(s, st).1);
    }
  }

  /** The fields of a successful parse, read in order, spell out exactly the
      content characters of the trimmed text. */
  lemma ParseContent(text: string)
    requires Parse(text).Success?
    ensures GlueRows(Parse(text).value) == Content(Trim(text), false)
  {
    var t := Trim(text);
    ScanContent(t, Start);
    TextAheadStart(t);
  }

  lemma TextAheadStart(s: string)
    ensures TextAhead(s, Start) == Content(s, false)
  {
    assert GlueRows(Start.rows) + Glue(Start.row) + Start.field == [];
  }

  // ---------------------------------------------------------------------------
  // Round trip for text without quotes or carriage returns

  /** Each row's fields joined by ",". */
  function Lines(rows: seq<Row>): (lines: seq<string>)
    ensures |lines| == |rows|
  {
    if rows == [] then [] else [Join(rows[0], ',')] + Lines(rows[1..])
  }

  /** Fields joined by "," and rows by "\n": the writer that the scan inverts
      on text free of `"` and CR. */
  function Render(rows: seq<Row>): string {
    Join(Lines(rows), '\n')
  }

  lemma {:induction false} LinesSnoc(rows: seq<Row>, row: Row)
    ensures Lines(rows + [row]) == Lines(rows) + [Join(row, ',')]
  {
    if rows != [] {
      LinesSnoc(rows[1..], row);
      assert (rows + [row])[1..] == rows[1..] + [row];
    } else {
      assert rows + [row] == [row];
    }
  }

  /** The text already read, re-rendered, followed by the text still to read. */
  function RenderAhead(s: string, st: ScanState): string {
    Render(st.rows + [st.row + [st.field]]) + s
  }

  lemma StepKeepsRender(s: string, st: ScanState)
    requires s != [] && !st.inQuotes && s[0] != '"' && s[0] != '\r'
    ensures RenderAhead(s, st) == RenderAhead(s[1..], Step(s, st).1)
  {
    var next := Step(s, st).1;
    var cur := st.row + [st.field];
    var done := Render(st.rows + [cur]);
    assert s == [s[0]] + s[1..];
    if s[0] == ',' {
      var emptyField: string := [];
      assert next.row + [next.field] == cur + [emptyField];
      JoinSnoc(cur, emptyField, ',');
      assert Join(cur + [emptyField], ',') == Join(cur, ',') + [','];
      LinesSnoc(st.rows, cur + [emptyField]);
      LinesSnoc(st.rows, cur);
      JoinExtendLast(Lines(st.rows), Join(cur, ','), [','], '\n');
      assert Render(next.rows + [next.row + [next.field]]) == done + [','];
    } else if s[0] == '\n' {
      var emptyRow: Row := [[]];
      assert next.rows == st.rows + [cur];
      assert next.row == [] && next.field == [];
      assert next.row + [next.field] == emptyRow;
      LinesSnoc(next.rows, emptyRow);
      assert Join(emptyRow, ',') == [];
      JoinSnoc(Lines(next.rows), [], '\n');
      assert Render(next.rows + [emptyRow]) == done + ['\n'];
    } else {
      assert next.row + [next.field] == st.row + [st.field + [s[0]]];
      JoinExtendLast(st.row, st.field, [s[0]], ',');
      LinesSnoc(st.rows, st.row + [st.field + [s[0]]]);
      LinesSnoc(st.rows, cur);
      JoinExtendLast(Lines(st.rows), Join(cur, ','), [s[0]], '\n');
      assert Render(next.rows + [next.row + [next.field]]) == done + [s[0]];
    }
  }

  lemma {:induction false} ScanRender(s: string, st: ScanState)
    requires !st.inQuotes && '"' !in s && '\r' !in s
    ensures Scan(s, st).Success? && Render(Scan(s, st).value) == RenderAhead(s, st)
    decreases |s|
  {
    if s != [] {
      StepKeepsRender(s, st);
      ScanRender(s[1..], Step(s, st).1);
    }
  }

  /** On text whose trimmed form has no `"` and no CR, parsing succeeds and
      joining the fields with "," and the rows with "\n" gives the trimmed
      text back. */
  lemma ParseRender(text: string)
    requires Trim(text) != [] && '"' !in Trim(text) && '\r' !in Trim(text)
    ensures Parse(text).Success? && Render(Parse(text).value) == Trim(text)
  {
    var t := Trim(text);
    ScanRender(t, Start);
    StartRendersNothing(t);
    assert Parse(text) == Scan(t, Start);
  }

  /** Nothing has been scanned yet: only the text ahead is rendered. */
  lemma StartRendersNothing(s: string)
    ensures RenderAhead(s, Start) == s
  {
    var emptyRow: Row := [[]];
    assert Start.rows == [] && Start.row == [] && Start.field == [];
    assert Start.row + [Start.field] == emptyRow;
    assert Start.rows + [Start.row + [Start.field]] == [emptyRow];
    assert Lines([emptyRow]) == [[]];
  }

  // ---------------------------------------------------------------------------
  // Round trip for fully quoted text

  /** The field content a writer puts between quotes: every `"` doubled. */
  function DoubleQuotes(x: string): string {
    if x == [] then [] else (if x[0] == '"' then ['"', '"'] else [x[0]]) + DoubleQuotes(x[1..])
  }

  function Quote(x: string): (q: string)
    ensures |q| >= 2 && q[0] == '"' && q[|q| - 1] == '"'
  {
    ['"'] + DoubleQuotes(x) + ['"']
  }

  function QuoteAll(row: Row): (r: seq<string>)
    ensures |r| == |row| && forall i :: 0 <= i < |row| ==> r[i] == Quote(row[i])
  {
    if row == [] then [] else [Quote(row[0])] + QuoteAll(row[1..])
  }

  /** A row with every field quoted, joined by ",". */
  function EncodeRow(row: Row): string {
    Join(QuoteAll(row), ',')
  }

  function EncodeLines(rows: seq<Row>): (r: seq<string>)
    ensures |r| == |rows| && forall i :: 0 <= i < |rows| ==> r[i] == EncodeRow(rows[i])
  {
    if rows == [] then [] else [EncodeRow(rows[0])] + EncodeLines(rows[1..])
  }

  /** Every field quoted, rows joined by "\n". */
  function Encode(rows: seq<Row>): string {
    Join(EncodeLines(rows), '\n')
  }

  /** Inside quotes, the doubled form of any `x` followed by a closing quote
      reads back as exactly `x`, commas, CR, LF and quotes included. */
  lemma {:induction false} ScanQuotedRun(x: string, rest: string, st: ScanState)
    requires st.inQuotes
    requires rest == [] || rest[0] != '"'
    ensures Scan(DoubleQuotes(x) + ['"'] + rest, st) == Scan(rest, st.(inQuotes := false, field := st.field + x))
  {
    var s := DoubleQuotes(x) + ['"'] + rest;
    if x == [] {
      assert s == ['"'] + rest;
      assert s[1..] == rest;
      assert st.field + x == st.field;
    } else {
      var st' := if x[0] == '"' then st.(field := st.field + ['"']) else st.(field := st.field + [x[0]]);
      var n := if x[0] == '"' then 2 else 1;
      assert s == (if x[0] == '"' then ['"', '"'] else [x[0]]) + (DoubleQuotes(x[1..]) + ['"'] + rest);
      assert Step(s, st) == (n, st');
      assert s[n..] == DoubleQuotes(x[1..]) + ['"'] + rest;
      ScanQuotedRun(x[1..], rest, st');
      assert st'.field + x[1..] == st.field + x;
    }
  }

  /** A quoted field read from outside quotes. */
  lemma ScanQuotedField(x: string, tail: string, st: ScanState)
    requires !st.inQuotes && st.field == []
    requires tail == [] || tail[0] != '"'
    ensures Scan(Quote(x) + tail, st) == Scan(tail, st.(field := x))
  {
    var s := Quote(x) + tail;
    assert s[0] == '"';
    assert s[1..] == DoubleQuotes(x) + ['"'] + tail;
    ScanQuotedRun(x, tail, st.(inQuotes := true));
    assert [] + x == x;
  }

  lemma ScanComma(more: string, st: ScanState)
    requires !st.inQuotes
    ensures Scan([','] + more, st) == Scan(more, st.(field := [], row := st.row + [st.field]))
  {
    assert ([','] + more)[1..] == more;
  }

  lemma EncodeRowUnfold(row: Row)
    requires |row| > 1
    ensures EncodeRow(row) == Quote(row[0]) + [','] + EncodeRow(row[1..])
  {
    assert QuoteAll(row)[1..] == QuoteAll(row[1..]);
  }

  lemma {:induction false} ScanEncodedRow(row: Row, rest: string, st: ScanState)
    requires |row| >= 1 && !st.inQuotes && st.field == []
    requires rest == [] || rest[0] == '\n'
    ensures Scan(EncodeRow(row) + rest, st) == Scan(rest, st.(field := row[|row| - 1], row := st.row + row[..|row| - 1]))
  {
    if |row| == 1 {
      ScanSingleField(row, rest, st);
    } else {
      var st1 := st.(row := st.row + [row[0]]);
      ScanRowHead(row, rest, st);
      ScanEncodedRow(row[1..], rest, st1);
      RowSplitsAtHead(row, st);
    }
  }

  lemma ScanSingleField(row: Row, rest: string, st: ScanState)
    requires |row| == 1 && !st.inQuotes && st.field == []
    requires rest == [] || rest[0] == '\n'
    ensures Scan(EncodeRow(row) + rest, st) == Scan(rest, st.(field := row[0], row := st.row + row[..0]))
  {
    assert EncodeRow(row) == Quote(row[0]);
    ScanQuotedField(row[0], rest, st);
    assert st.row + row[..0] == st.row;
  }

  /** The first quoted field of a row and its comma. */
  lemma ScanRowHead(row: Row, rest: string, st: ScanState)
    requires |row| > 1 && !st.inQuotes && st.field == []
    ensures Scan(EncodeRow(row) + rest, st) == Scan(EncodeRow(row[1..]) + rest, st.(row := st.row + [row[0]]))
  {
    var more := EncodeRow(row[1..]) + rest;
    var tail := [','] + more;
    var st1 := st.(field := row[0]);
    assert EncodeRow(row) + rest == Quote(row[0]) + tail by {
      EncodeRowUnfold(row);
    }
    assert Scan(Quote(row[0]) + tail, st) == Scan(tail, st1) by {
      assert tail[0] == ',';
      ScanQuotedField(row[0], tail, st);
    }
    assert Scan(tail, st1) == Scan(more, st.(row := st.row + [row[0]])) by {
      ScanComma(more, st1);
      assert st1.(field := [], row := st1.row + [st1.field]) == st.(row := st.row + [row[0]]);
    }
  }

  lemma RowSplitsAtHead(row: Row, st: ScanState)
    requires |row| > 1
    ensures var st1 := st.(row := st.row + [row[0]]);
      st1.(field := row[1..][|row| - 2], row := st1.row + row[1..][..|row| - 2])
      == st.(field := row[|row| - 1], row := st.row + row[..|row| - 1])
  {
    assert row[1..][..|row| - 2] == row[1..|row| - 1];
    assert st.row + [row[0]] + row[1..|row| - 1] == st.row + row[..|row| - 1] by {
      assert [row[0]] + row[1..|row| - 1] == row[..|row| - 1];
    }
  }

  lemma ScanNewline(more: string, st: ScanState)
    requires !st.inQuotes
    ensures Scan(['\n'] + more, st) == Scan(more, ScanState(false, [], [], st.rows + [st.row + [st.field]]))
  {
    assert (['\n'] + more)[1..] == more;
  }

  /** The fields before the last, followed by the last, are the row. */
  lemma RowRejoins(row: Row)
    requires |row| >= 1
    ensures row[..|row| - 1] + [row[|row| - 1]] == row
  {
  }

  lemma EncodeUnfold(rows: seq<Row>)
    requires |rows| > 1
    ensures Encode(rows) == EncodeRow(rows[0]) + (['\n'] + Encode(rows[1..]))
  {
    assert EncodeLines(rows)[1..] == EncodeLines(rows[1..]);
  }

  /** The first encoded row of several is read as a completed row. */
  lemma ScanEncodedHead(rows: seq<Row>, done: seq<Row>)
    requires |rows| > 1 && |rows[0]| >= 1
    ensures Scan(Encode(rows), ScanState(false, [], [], done))
         == Scan(Encode(rows[1..]), ScanState(false, [], [], done + [rows[0]]))
  {
    var row := rows[0];
    var st := ScanState(false, [], [], done);
    var more := Encode(rows[1..]);
    RowRejoins(row);
    EncodeUnfold(rows);
    ScanEncodedRow(row, ['\n'] + more, st);
    assert st.row + row[..|row| - 1] == row[..|row| - 1];
    var mid := st.(field := row[|row| - 1], row := row[..|row| - 1]);
    ScanNewline(more, mid);
    assert mid.rows + [mid.row + [mid.field]] == done + [row];
  }

  /** A single encoded row is read as the last row. */
  lemma ScanEncodedLast(row: Row, done: seq<Row>)
    requires |row| >= 1
    ensures Scan(Encode([row]), ScanState(false, [], [], done)) == Success(done + [row])
  {
    var st := ScanState(false, [], [], done);
    RowRejoins(row);
    assert Encode([row]) == EncodeRow(row) + [];
    ScanEncodedRow(row, [], st);
    assert st.row + row[..|row| - 1] == row[..|row| - 1];
  }

  lemma SeqHeadTail(rows: seq<Row>, done: seq<Row>)
    requires |rows| >= 1 && NoEmptyRow(rows)
    ensures |rows| == 1 ==> rows == [rows[0]]
    ensures done + [rows[0]] + rows[1..] == done + rows
    ensures NoEmptyRow(rows[1..])
  {
    assert rows == [rows[0]] + rows[1..];
  }

  lemma {:induction false} ScanEncoded(rows: seq<Row>, done: seq<Row>)
    requires |rows| >= 1 && NoEmptyRow(rows)
    ensures Scan(Encode(rows), ScanState(false, [], [], done)) == Success(done + rows)
  {
    SeqHeadTail(rows, done);
    if |rows| == 1 {
      ScanEncodedLast(rows[0], done);
    } else {
      ScanEncodedHead(rows, done);
      ScanEncoded(rows[1..], done + [rows[0]]);
    }
  }

  lemma EncodeTrimmed(rows: seq<Row>)
    requires |rows| >= 1 && NoEmptyRow(rows)
    ensures Trimmed(Encode(rows)) && Encode(rows) != []
  {
    var lines := EncodeLines(rows);
    forall i | 0 <= i < |lines|
      ensures Quoted(lines[i])
    {
      EncodeRowEnds(rows[i]);
    }
    JoinQuoted(lines, '\n');
  }

  /** Starts and ends with a quote. */
  predicate Quoted(e: string) {
    |e| >= 1 && e[0] == '"' && e[|e| - 1] == '"'
  }

  lemma EncodeRowEnds(row: Row)
    requires |row| >= 1
    ensures Quoted(EncodeRow(row))
  {
    var parts := QuoteAll(row);
    assert forall i :: 0 <= i < |parts| ==> |parts[i]| >= 1;
    JoinEnds(parts, ',');
  }

  /** Quoted lines joined by any separator make trimmed text. */
  lemma JoinQuoted(parts: seq<string>, sep: char)
    requires |parts| >= 1 && forall i :: 0 <= i < |parts| ==> Quoted(parts[i])
    ensures Trimmed(Join(parts, sep)) && Join(parts, sep) != []
  {
    JoinTrimmed(parts, sep);
  }

  /** Writing any non-empty table of non-empty rows with every field quoted
      and reading it back gives the same table. */
  lemma ParseEncode(rows: seq<Row>)
    requires |rows| >= 1 && NoEmptyRow(rows)
    ensures Parse(Encode(rows)) == Success(rows)
  {
    var e := Encode(rows);
    EncodeTrimmed(rows);
    TrimmedIsFixpoint(e);
    ScanEncoded(rows, []);
    assert Start == ScanState(false, [], [], []);
    assert [] + rows == rows;
    assert Parse(e) == Scan(e, Start);
  }

  // ---------------------------------------------------------------------------
  // finalize and from

  /** One record: column name to cell text. Property order is not modelled. */
  type Record = map<string, string>

  /** What `from` hands back as the payload: the rows themselves, or one
      record per data row when the first row is a header. */
  datatype CsvData = Rows(rows: seq<Row>) | Records(records: seq<Record>)

  /** The property name JavaScript reserves for the prototype: assigning a
      string to it leaves the object without such a key. */
  const ProtoKey := "__proto__"

  /** The key of column `idx`: the header cell, or `field<idx>` when the cell
      is empty. */
  function ColumnKey(header: Row, idx: nat): (k: string)
    requires idx < |header|
    ensures header[idx] != [] ==> k == header[idx]
    ensures header[idx] == [] ==> |k| > 5 && k[..5] == "field" && k[5..] == DecimalDigits(idx)
  {
    if header[idx] != [] then header[idx] else "field" + DecimalDigits(idx)
  }

  /** The cell of column `idx`, or "" when the row is too short. */
  function Cell(cols: Row, idx: nat): string {
    if idx < |cols| then cols[idx] else ""
  }

  /** The record after the assignments for columns `0 .. n-1`, in order. */
  function Assign(header: Row, cols: Row, n: nat): Record
    requires n <= |header|
  {
    if n == 0 then map[]
    else
      var r := Assign(header, cols, n - 1);
      var k := ColumnKey(header, n - 1);
      if k == ProtoKey then r else r[k := Cell(cols, n - 1)]
  }

  /** The record built from one data row. */
  function BuildRecord(header: Row, cols: Row): Record {
    Assign(header, cols, |header|)
  }

  /** Whether column `idx` is the last column carrying its key. */
  predicate LastWithKey(header: Row, idx: nat)
    requires idx < |header|
  {
    LastKeyBelow(header, idx, |header|)
  }

  lemma {:induction false} AssignKeys(header: Row, cols: Row, n: nat)
    requires n <= |header|
    ensures forall k :: k in Assign(header, cols, n) <==>
      k != ProtoKey && exists idx :: 0 <= idx < n && ColumnKey(header, idx) == k
  {
    if n > 0 {
      AssignKeys(header, cols, n - 1);
      forall k
        ensures k in Assign(header, cols, n) <==>
          k != ProtoKey && exists idx :: 0 <= idx < n && ColumnKey(header, idx) == k
      {
        if k != ProtoKey && k == ColumnKey(header, n - 1) {
          assert k in Assign(header, cols, n);
        }
      }
    }
  }

  /** No column from `idx + 1` to `n - 1` carries the key of column `idx`. */
  predicate LastKeyBelow(header: Row, idx: nat, n: nat)
    requires idx < n <= |header|
  {
    forall j :: idx < j < n ==> ColumnKey(header, j) != ColumnKey(header, idx)
  }

  lemma {:induction false} AssignValues(header: Row, cols: Row, n: nat)
    requires n <= |header|
    ensures forall idx ::
              0 <= idx < n && ColumnKey(header, idx) != ProtoKey && LastKeyBelow(header, idx, n)
              ==> ColumnKey(header, idx) in Assign(header, cols, n)
                  && Assign(header, cols, n)[ColumnKey(header, idx)] == Cell(cols, idx)
  {
    if n > 0 {
      AssignValues(header, cols, n - 1);
      var r := Assign(header, cols, n - 1);
      var last := ColumnKey(header, n - 1);
      assert Assign(header, cols, n) == if last == ProtoKey then r else r[last := Cell(cols, n - 1)];
      forall idx | 0 <= idx < n && ColumnKey(header, idx) != ProtoKey && LastKeyBelow(header, idx, n)
        ensures ColumnKey(header, idx) in Assign(header, cols, n)
                && Assign(header, cols, n)[ColumnKey(header, idx)] == Cell(cols, idx)
      {
        if idx < n - 1 {
          assert last != ColumnKey(header, idx);
          assert LastKeyBelow(header, idx, n - 1);
        }
      }
    }
  }

  /** A record has exactly one key per distinct column key (the prototype
      key excepted), and each key holds the cell of the last column that
      carries it: later duplicates overwrite earlier ones. */
  lemma RecordSpec(header: Row, cols: Row)
    ensures forall k :: k in BuildRecord(header, cols) <==>
      k != ProtoKey && exists idx :: 0 <= idx < |header| && ColumnKey(header, idx) == k
    ensures forall idx ::
              0 <= idx < |header| && ColumnKey(header, idx) != ProtoKey && LastWithKey(header, idx)
              ==> BuildRecord(header, cols)[ColumnKey(header, idx)] == Cell(cols, idx)
  {
    AssignKeys(header, cols, |header|);
    AssignValues(header, cols, |header|);
  }

  /** `finalize`: no rows give an empty row list; without a header the rows
      pass through; with one, every later row becomes a record keyed by the
      first row. */
  function Finalize(rows: seq<Row>, header: bool): (r: CsvData)
    ensures rows == [] ==> r == Rows([])
    ensures !header ==> r == Rows(rows)
    ensures header && rows != [] ==> r.Records? && |r.records| == |rows| - 1
    ensures header && rows != [] ==> forall i :: 0 <= i < |r.records| ==> r.records[i] == BuildRecord(rows[0], rows[i + 1])
  {
    if rows == [] then Rows([])
    else if !header then Rows(rows)
    else Records(seq(|rows| - 1, i requires 0 <= i < |rows| - 1 => BuildRecord(rows[0], rows[i + 1])))
  }

  /** `from`: parse, then finalize; a parse error propagates. An absent
      `header` option counts as false. */
  function From(text: string, header: bool): (r: Result<CsvData, string>)
    ensures r.Failure? <==> Parse(text).Failure?
    ensures r.Failure? ==> r.error == Parse(text).error
    ensures r.Success? ==> r.value == Finalize(Parse(text).value, header)
  {
    Parse(text).MapSuccess(rows => Finalize(rows, header))
  }

  /** With a header, `from` yields one record per line break of the trimmed
      text outside quotes: every row but the first. */
  lemma FromRecordCount(text: string)
    requires From(text, true).Success?
    ensures From(text, true).value.Records?
    ensures |From(text, true).value.records| == Breaks(Trim(text), false)
  {
    ParseShape(text);
  }
}
