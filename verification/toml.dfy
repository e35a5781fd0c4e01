/** The TOML reader of src/toml.ts. Only its pre-processing exists: every
    line loses its comment and surrounding whitespace, blank lines are
    dropped, the rest is logged, and an empty record is returned.

    `removeComments` is a global regex replace whose alternatives are a
    double-quoted string, a single-quoted string (each a run of ordinary
    characters or backslash escapes, where the escaped character is anything
    but a line terminator) and `#` followed by the rest of the input, which
    must hold no line terminator. Quoted strings are put back as they were,
    the comment is replaced by nothing. */
module Toml {
  import opened Wrappers
  import opened Text
  import opened Formats

  predicate IsQuote(c: char) {
    c == '"' || c == '\''
  }

  predicate NoTerminator(s: string) {
    forall i :: 0 <= i < |s| ==> !IsLineTerminator(s[i])
  }

  /** The end (one past the closing quote `q`) of the quoted string whose
      body starts at `j`, or None when the quoted alternative fails there:
      the input ends first, or a backslash is followed by a line terminator
      or by nothing. */
  function QuoteEnd(s: string, j: nat, q: char): (r: Option<nat>)
    requires j <= |s|
    ensures r.Some? ==> j < r.value <= |s| && s[r.value - 1] == q
    ensures r.Some? && IsQuote(q) ==> Escaped(q, s[j..r.value - 1])
    decreases |s| - j
  {
    if j == |s| then None
    else if s[j] == q then assert s[j..j] == []; Some(j + 1)
    else if s[j] == '\\' then
      if j + 1 < |s| && !IsLineTerminator(s[j + 1]) then
        var r := QuoteEnd(s, j + 2, q);
        if r.Some? then DropSlice(s, j, r.value - 1, 2); r else r
      else None
    else
      var r := QuoteEnd(s, j + 1, q);
      if r.Some? then DropSlice(s, j, r.value - 1, 1); r else r
  }

  /** The first line terminator at or after `j`, or the end of the input. */
  function LineEnd(s: string, j: nat): (e: nat)
    requires j <= |s|
    ensures j <= e <= |s|
    ensures forall k :: j <= k < e ==> !IsLineTerminator(s[k])
    ensures e < |s| ==> IsLineTerminator(s[e])
    decreases |s| - j
  {
    if j == |s| || IsLineTerminator(s[j]) then j else LineEnd(s, j + 1)
  }

  /** The replace as written, from position `i` on. `#.*$` has no `m` flag,
      so `$` is the end of the input: a `#` only starts a comment when no
      line terminator follows it, and the comment then runs to the end.
      Quoted strings are put back unchanged, so what is kept is always a
      prefix of the input: this is where it ends. */
  function Cut(s: string, i: nat): (c: nat)
    requires i <= |s|
    ensures i <= c <= |s|
    ensures c < |s| ==> s[c] == '#'
    decreases |s| - i
  {
    if i == |s| then i
    else if IsQuote(s[i]) then
      match QuoteEnd(s, i + 1, s[i])
      case Some(k) => Cut(s, k)
      case None => Cut(s, i + 1)
    else if s[i] == '#' && LineEnd(s, i + 1) == |s| then i
    else Cut(s, i + 1)
  }

  /** The cut is made only at a `#` with no line terminator after it. */
  lemma {:induction false} CutAtFinalComment(s: string, i: nat)
    requires i <= |s|
    ensures Cut(s, i) < |s| ==> LineEnd(s, Cut(s, i) + 1) == |s|
    decreases |s| - i
  {
    if i < |s| {
      if IsQuote(s[i]) {
        match QuoteEnd(s, i + 1, s[i])
        case Some(k) => CutAtFinalComment(s, k);
        case None => CutAtFinalComment(s, i + 1);
      } else if !(s[i] == '#' && LineEnd(s, i + 1) == |s|) {
        CutAtFinalComment(s, i + 1);
      }
    }
  }

  /** `removeComments(line)`: the replace, then `trim`. */
  function RemoveComments(line: string): (r: string)
    ensures Trimmed(r)
    ensures |r| <= |line|
  {
    Trim(line[..Cut(line, 0)])
  }

  /** The replace as evidently intended, with `$` matching before a line
      terminator as the `m` flag makes it: every `#` outside a quoted string
      starts a comment, which ends at the next line terminator. */
  function StripFixed(s: string, i: nat): (r: string)
    requires i <= |s|
    ensures |r| <= |s| - i
    decreases |s| - i
  {
    if i == |s| then []
    else if IsQuote(s[i]) then
      match QuoteEnd(s, i + 1, s[i])
      case Some(k) => s[i..k] + StripFixed(s, k)
      case None => [s[i]] + StripFixed(s, i + 1)
    else if s[i] == '#' then StripFixed(s, LineEnd(s, i + 1))
    else [s[i]] + StripFixed(s, i + 1)
  }

  function RemoveCommentsFixed(line: string): (r: string)
    ensures Trimmed(r)
    ensures |r| <= |line|
  {
    Trim(StripFixed(line, 0))
  }

  /** Without a `#` there is nothing to remove but surrounding whitespace. */
  lemma NoHashOnlyTrims(line: string)
    requires '#' !in line
    ensures RemoveComments(line) == Trim(line)
    ensures RemoveCommentsFixed(line) == Trim(line)
  {
    NoHashCopied(line, 0);
    assert line[..|line|] == line;
  }

  lemma {:induction false} NoHashCopied(s: string, i: nat)
    requires '#' !in s && i <= |s|
    ensures Cut(s, i) == |s|
    ensures StripFixed(s, i) == s[i..]
    decreases |s| - i
  {
    if i < |s| {
      if IsQuote(s[i]) {
        var k := AfterQuote(s, i);
        NoHashCopied(s, k);
        AgreeAtQuote(s, i, k);
      } else {
        assert s[i] != '#';
        NoHashCopied(s, i + 1);
        AgreeAtPlain(s, i);
      }
      CopiedToEnd(s, i);
    }
  }

  lemma CopiedToEnd(s: string, i: nat)
    requires i <= |s| && Cut(s, i) == |s| && StripFixed(s, i) == s[i..Cut(s, i)]
    ensures StripFixed(s, i) == s[i..]
  {
    assert s[i..|s|] == s[i..];
  }


  // ---------------------------------------------------------------------------
  // Comments and quoted strings

  /** A piece of a line: code holding no quote and no `#`, or a string
      closed by the quote it opened with, whose body is read as the regex
      reads it. */
  datatype Segment = Plain(text: string) | Str(quote: char, body: string)

  predicate WellFormed(g: Segment) {
    match g
    case Plain(text) => '#' !in text && forall i :: 0 <= i < |text| ==> !IsQuote(text[i])
    case Str(q, body) => IsQuote(q) && Escaped(q, body)
  }

  function Written(g: Segment): string {
    match g
    case Plain(text) => text
    case Str(q, body) => [q] + body + [q]
  }

  /** A line written as a run of segments. */
  function Concat(gs: seq<Segment>): string {
    if gs == [] then [] else Written(gs[0]) + Concat(gs[1..])
  }

  /** Any mix of code and closed quoted strings, then a comment with no line
      terminator: the comment goes, every `#` inside the strings stays, and
      so does everything else up to the surrounding whitespace. */
  lemma CommentRemoved(gs: seq<Segment>, note: string)
    requires forall g <- gs :: WellFormed(g)
    requires NoTerminator(note)
    ensures RemoveComments(Concat(gs) + ['#'] + note) == Trim(Concat(gs))
    ensures RemoveCommentsFixed(Concat(gs) + ['#'] + note) == Trim(Concat(gs))
  {
    var code := Concat(gs);
    var line := code + ['#'] + note;
    CommentLine(code, note);
    SegmentsAt(line, 0, gs, |code|);
    FinalCommentAt(line, |code|);
    EmptySuffix(code);
    KeptPrefix(line, code);
  }

  /** Where the code and the comment sit in a commented line. */
  lemma CommentLine(code: string, note: string)
    requires NoTerminator(note)
    ensures HoldsAt(code + ['#'] + note, 0, code)
    ensures (code + ['#'] + note)[|code|] == '#'
    ensures forall k :: |code| < k < |code + ['#'] + note| ==> !IsLineTerminator((code + ['#'] + note)[k])
    ensures (code + ['#'] + note)[..|code|] == code
  {
    var line := code + ['#'] + note;
    var n := |code|;
    forall k | n < k < |line|
      ensures !IsLineTerminator(line[k])
    {
      assert line[k] == note[k - n - 1];
    }
    HoldsAtChars(line, 0, code);
    forall k | 0 <= k < n
      ensures line[0 + k] == code[k]
    {
    }
    assert line[..n] == code;
  }

  /** When the scans keep exactly `code` at the front of the line, the
      result is `code` trimmed. */
  lemma KeptPrefix(line: string, code: string)
    requires |code| <= |line| && line[..|code|] == code
    requires Cut(line, 0) == |code| && StripFixed(line, 0) == code
    ensures RemoveComments(line) == Trim(code)
    ensures RemoveCommentsFixed(line) == Trim(code)
  {
  }

  lemma EmptySuffix(r: string)
    ensures r + [] == r
  {
  }

  /** A `#` with no line terminator after it is cut, in both versions. */
  lemma FinalCommentAt(s: string, n: nat)
    requires n < |s| && s[n] == '#'
    requires forall k :: n < k < |s| ==> !IsLineTerminator(s[k])
    ensures Cut(s, n) == n && StripFixed(s, n) == []
  {
    assert LineEnd(s, n + 1) == |s|;
  }

  /** A line of code and closed quoted strings alone loses nothing but its
      surrounding whitespace: a `#` inside a string is not a comment. */
  lemma QuotedHashKept(gs: seq<Segment>)
    requires forall g <- gs :: WellFormed(g)
    ensures RemoveComments(Concat(gs)) == Trim(Concat(gs))
    ensures RemoveCommentsFixed(Concat(gs)) == Trim(Concat(gs))
  {
    var code := Concat(gs);
    HoldsItself(code);
    SegmentsAt(code, 0, gs, |code|);
    EmptySuffix(code);
    assert code[..|code|] == code;
    KeptPrefix(code, code);
  }

  lemma HoldsItself(s: string)
    ensures HoldsAt(s, 0, s)
  {
    HoldsAtChars(s, 0, s);
  }

  lemma ConcatCons(gs: seq<Segment>)
    requires gs != []
    ensures Concat(gs) == Written(gs[0]) + Concat(gs[1..])
  {
  }

  /** `s` holds `x` from position `i` on. */
  predicate HoldsAt(s: string, i: nat, x: string)
    decreases |x|
  {
    i + |x| <= |s| && (x == [] || (s[i] == x[0] && HoldsAt(s, i + 1, x[1..])))
  }

  lemma {:induction false} HoldsAtChars(s: string, i: nat, x: string)
    ensures HoldsAt(s, i, x) <==> i + |x| <= |s| && forall k :: 0 <= k < |x| ==> s[i + k] == x[k]
    decreases |x|
  {
    if x != [] {
      HoldsAtChars(s, i + 1, x[1..]);
      if i + |x| <= |s| && forall k :: 0 <= k < |x| ==> s[i + k] == x[k] {
        assert s[i + 0] == x[0];
        forall k | 0 <= k < |x| - 1
          ensures s[i + 1 + k] == x[1..][k]
        {
          assert s[i + (k + 1)] == x[k + 1];
        }
      }
      if HoldsAt(s, i, x) {
        forall k | 0 <= k < |x|
          ensures s[i + k] == x[k]
        {
          if k > 0 {
            assert s[i + 1 + (k - 1)] == x[1..][k - 1];
          }
        }
      }
    }
  }

  /** Both scans pass over a run of segments written from `i` to `e`,
      copying it. */
  lemma {:induction false} SegmentsAt(s: string, i: nat, gs: seq<Segment>, e: nat)
    requires forall g <- gs :: WellFormed(g)
    requires HoldsAt(s, i, Concat(gs)) && e == i + |Concat(gs)|
    ensures Cut(s, i) == Cut(s, e)
    ensures StripFixed(s, i) == Concat(gs) + StripFixed(s, e)
    decreases |gs|
  {
    if gs == [] {
      assert Concat(gs) == [];
      EmptyPrefix(StripFixed(s, i));
    } else {
      var m := i + |Written(gs[0])|;
      SegmentsRest(s, i, gs, m);
      TailWellFormed(gs);
      SegmentsAt(s, m, gs[1..], e);
      SegmentsJoin(s, i, gs, m, e);
    }
  }

  /** The segments after the first are written from where it ends. */
  lemma SegmentsRest(s: string, i: nat, gs: seq<Segment>, m: nat)
    requires gs != [] && HoldsAt(s, i, Concat(gs)) && m == i + |Written(gs[0])|
    ensures HoldsAt(s, i, Written(gs[0])) && HoldsAt(s, m, Concat(gs[1..]))
    ensures m + |Concat(gs[1..])| == i + |Concat(gs)|
  {
    var x := Written(gs[0]);
    var t := Concat(gs[1..]);
    assert HoldsAt(s, i, x + t) && |Concat(gs)| == |x| + |t| by {
      ConcatCons(gs);
    }
    HoldsSplit(s, i, x, t);
  }

  lemma TailWellFormed(gs: seq<Segment>)
    requires gs != [] && forall g <- gs :: WellFormed(g)
    ensures WellFormed(gs[0]) && forall g <- gs[1..] :: WellFormed(g)
  {
    assert forall g <- gs[1..] :: g in gs;
  }

  /** The first segment, then the rest. */
  lemma SegmentsJoin(s: string, i: nat, gs: seq<Segment>, m: nat, e: nat)
    requires gs != [] && WellFormed(gs[0]) && e <= |s|
    requires HoldsAt(s, i, Written(gs[0])) && m == i + |Written(gs[0])|
    requires Cut(s, m) == Cut(s, e)
    requires StripFixed(s, m) == Concat(gs[1..]) + StripFixed(s, e)
    ensures Cut(s, i) == Cut(s, e)
    ensures StripFixed(s, i) == Concat(gs) + StripFixed(s, e)
  {
    var x := Written(gs[0]);
    var r := StripFixed(s, e);
    SegmentAt(s, i, gs[0], m);
    assert Concat(gs) + r == x + (Concat(gs[1..]) + r) by {
      ConcatCons(gs);
      Associative(x, Concat(gs[1..]), r);
    }
  }

  lemma EmptyPrefix<T>(r: seq<T>)
    ensures [] + r == r
  {
  }

  lemma Associative<T>(x: seq<T>, t: seq<T>, r: seq<T>)
    ensures x + (t + r) == (x + t) + r
  {
  }

  lemma HoldsSplit(s: string, i: nat, x: string, t: string)
    requires HoldsAt(s, i, x + t)
    ensures HoldsAt(s, i, x) && HoldsAt(s, i + |x|, t)
  {
    HoldsAtChars(s, i, x + t);
    HoldsAtChars(s, i, x);
    HoldsAtChars(s, i + |x|, t);
    forall k | 0 <= k < |x|
      ensures s[i + k] == x[k]
    {
      assert (x + t)[k] == x[k];
    }
    forall k | 0 <= k < |t|
      ensures s[i + |x| + k] == t[k]
    {
      assert s[i + (|x| + k)] == (x + t)[|x| + k] == t[k];
    }
  }

  /** Both scans pass over one segment written from `i` to `e`, copying
      it. */
  lemma SegmentAt(s: string, i: nat, g: Segment, e: nat)
    requires WellFormed(g) && HoldsAt(s, i, Written(g)) && e == i + |Written(g)|
    ensures Cut(s, i) == Cut(s, e)
    ensures StripFixed(s, i) == Written(g) + StripFixed(s, e)
  {
    match g
    case Plain(text) => PlainAt(s, i, text, e);
    case Str(q, body) => QuotedAt(s, i, q, body, e);
  }

  lemma PlainAt(s: string, i: nat, text: string, e: nat)
    requires WellFormed(Plain(text)) && HoldsAt(s, i, text) && e == i + |text|
    ensures Cut(s, i) == Cut(s, e)
    ensures StripFixed(s, i) == text + StripFixed(s, e)
  {
    PlainChars(s, i, text);
    PlainRun(s, i, e);
    SameHead(StripFixed(s, i), s[i..e], text, StripFixed(s, e));
  }

  lemma SameHead(r: string, a: string, b: string, t: string)
    requires r == a + t && a == b
    ensures r == b + t
  {
  }

  lemma QuotedAt(s: string, i: nat, q: char, body: string, e: nat)
    requires WellFormed(Str(q, body)) && HoldsAt(s, i, [q] + body + [q])
    requires e == i + |body| + 2
    ensures Cut(s, i) == Cut(s, e)
    ensures StripFixed(s, i) == [q] + body + [q] + StripFixed(s, e)
  {
    QuotedChars(s, i, q, body);
    QuoteBody(s, q, i + 1, body);
    ClosedQuote(s, i, e);
  }

  /** Both scans step over a quoted string that closes. */
  lemma ClosedQuote(s: string, i: nat, e: nat)
    requires i < |s| && IsQuote(s[i]) && i + 1 <= |s| && QuoteEnd(s, i + 1, s[i]) == Some(e)
    ensures Cut(s, i) == Cut(s, e)
    ensures StripFixed(s, i) == s[i..e] + StripFixed(s, e)
  {
  }

  lemma PlainChars(s: string, i: nat, text: string)
    requires WellFormed(Plain(text)) && HoldsAt(s, i, text)
    ensures i + |text| <= |s| && s[i..i + |text|] == text
    ensures forall k :: i <= k < i + |text| ==> !IsQuote(s[k]) && s[k] != '#'
  {
    HoldsAtChars(s, i, text);
    forall k | i <= k < i + |text|
      ensures !IsQuote(s[k]) && s[k] != '#'
    {
      assert s[i + (k - i)] == text[k - i];
    }
    assert s[i..i + |text|] == text by {
      forall k | 0 <= k < |text|
        ensures s[i..i + |text|][k] == text[k]
      {
        assert s[i + k] == text[k];
      }
    }
  }

  lemma QuotedChars(s: string, i: nat, q: char, body: string)
    requires WellFormed(Str(q, body)) && HoldsAt(s, i, [q] + body + [q])
    ensures i + |body| + 2 <= |s| && s[i..i + |body| + 2] == [q] + body + [q]
    ensures IsQuote(s[i]) && s[i] == q && s[i + 1 + |body|] == q
    ensures HoldsAt(s, i + 1, body)
  {
    var w := [q] + body + [q];
    HoldsAtChars(s, i, w);
    assert s[i + 0] == w[0];
    assert s[i + (1 + |body|)] == w[1 + |body|];
    HoldsAtChars(s, i + 1, body);
    forall k | 0 <= k < |body|
      ensures s[i + 1 + k] == body[k]
    {
      assert s[i + (1 + k)] == w[1 + k];
    }
    assert s[i..i + |w|] == w by {
      forall k | 0 <= k < |w|
        ensures s[i..i + |w|][k] == w[k]
      {
        assert s[i + k] == w[k];
      }
    }
  }

  /** The body of a string closed by `q`, as `(?:[^q\\]|\\.)*` reads it: a run
      of units, each a character other than `q` and the backslash, or a
      backslash followed by any character but a line terminator. */
  predicate Escaped(q: char, body: string)
    decreases |body|
  {
    body == []
    || (body[0] != q && body[0] != '\\' && Escaped(q, body[1..]))
    || (|body| >= 2 && body[0] == '\\' && !IsLineTerminator(body[1]) && Escaped(q, body[2..]))
  }

  /** The quoted alternative matches from `j` exactly up to the first `q`
      that ends an escaped body: it closes at `e` if and only if what lies
      between is such a body. Since `QuoteEnd` is a function, no escaped
      quote and no later quote can close it, and it fails (None) exactly
      when no escaped body followed by `q` starts at `j`. */
  lemma QuoteEndSpec(s: string, j: nat, q: char, e: nat)
    requires IsQuote(q) && j <= |s|
    ensures QuoteEnd(s, j, q) == Some(e) <==> j < e <= |s| && s[e - 1] == q && Escaped(q, s[j..e - 1])
  {
    if j < e <= |s| && s[e - 1] == q && Escaped(q, s[j..e - 1]) {
      HoldsAtChars(s, j, s[j..e - 1]);
      QuoteBody(s, q, j, s[j..e - 1]);
    }
  }

  /** `"x\"#y"`: an escaped quote and a `#` inside a string make a
      well-formed segment, so the lemmas above cover `a = "x\"#y" # c`. */
  lemma EscapedQuoteSegment()
    ensures WellFormed(Str('"', ['x', '\\', '"', '#', 'y']))
  {
  }

  lemma DropSlice(s: string, j: nat, e: nat, n: nat)
    requires j + n <= e <= |s|
    ensures s[j..e][n..] == s[j + n..e]
  {
  }

  /** Both scans copy a run free of quotes and `#`. */
  lemma {:induction false} PlainRun(s: string, i: nat, j: nat)
    requires i <= j <= |s|
    requires forall k :: i <= k < j ==> !IsQuote(s[k]) && s[k] != '#'
    ensures Cut(s, i) == Cut(s, j)
    ensures StripFixed(s, i) == s[i..j] + StripFixed(s, j)
    decreases j - i
  {
    if i < j {
      PlainRun(s, i + 1, j);
      CutAtPlain(s, i);
      StripAtPlain(s, i);
      SliceCons(s, i, j, StripFixed(s, j));
    }
  }

  lemma SliceCons(s: string, i: nat, j: nat, t: string)
    requires i < j <= |s|
    ensures [s[i]] + (s[i + 1..j] + t) == s[i..j] + t
  {
    assert s[i..j] == [s[i]] + s[i + 1..j];
  }

  /** An escaped body followed by `q` runs to that closing quote. */
  lemma {:induction false} QuoteBody(s: string, q: char, j: nat, body: string)
    requires IsQuote(q) && Escaped(q, body) && HoldsAt(s, j, body)
    requires j + |body| < |s| && s[j + |body|] == q
    ensures QuoteEnd(s, j, q) == Some(j + |body| + 1)
    decreases |body|
  {
    if body != [] {
      if body[0] != q && body[0] != '\\' {
        QuoteBody(s, q, j + 1, body[1..]);
      } else {
        assert body[0] == '\\' && |body| >= 2 && !IsLineTerminator(body[1]) && Escaped(q, body[2..]);
        var rest := body[1..][1..];
        assert s[j] == body[0] && HoldsAt(s, j + 1, body[1..]);
        assert s[j + 1] == body[1] && HoldsAt(s, j + 2, rest) && rest == body[2..];
        QuoteBody(s, q, j + 2, body[2..]);
        assert QuoteEnd(s, j, q) == QuoteEnd(s, j + 2, q);
      }
    }
  }

  lemma CutAtPlain(s: string, i: nat)
    requires i < |s| && !IsQuote(s[i]) && s[i] != '#'
    ensures Cut(s, i) == Cut(s, i + 1)
  {
  }

  lemma StripAtPlain(s: string, i: nat)
    requires i < |s| && !IsQuote(s[i]) && s[i] != '#'
    ensures StripFixed(s, i) == [s[i]] + StripFixed(s, i + 1)
  {
  }

  // ---------------------------------------------------------------------------
  // Line terminators left inside a line

  /** As written, a line that still ends in a line terminator (the `\r` of a
      CRLF file, since lines are split at `\n` only) keeps every comment:
      each `#` has the terminator after it. */
  lemma TerminatedLineKeepsComments(line: string)
    requires |line| >= 1 && IsLineTerminator(line[|line| - 1])
    ensures RemoveComments(line) == Trim(line)
  {
    TerminatedLineUncut(line);
    assert line[..|line|] == line;
  }

  lemma TerminatedLineUncut(line: string)
    requires |line| >= 1 && IsLineTerminator(line[|line| - 1])
    ensures Cut(line, 0) == |line|
  {
    CutAtFinalComment(line, 0);
  }

  /** The CRLF instance: `a = 1 # note` followed by `\r` keeps its comment. */
  lemma CrlfCommentKept(gs: seq<Segment>, note: string)
    requires forall g <- gs :: WellFormed(g)
    requires NoTerminator(note)
    ensures RemoveComments(Concat(gs) + ['#'] + note + ['\r']) == Trim(Concat(gs) + ['#'] + note)
    ensures RemoveComments(Concat(gs) + ['#'] + note) == Trim(Concat(gs))
  {
    var line := Concat(gs) + ['#'] + note;
    TerminatedLineKeepsComments(line + ['\r']);
    TrimTrailingSpace(line, '\r');
    CommentRemoved(gs, note);
  }

  /** Corrected, a carriage return at the end of the line changes nothing. */
  lemma FixedIgnoresCarriageReturn(line: string)
    ensures RemoveCommentsFixed(line + ['\r']) == RemoveCommentsFixed(line)
  {
    StripFixedSnoc(line, '\r', 0);
    TrimTrailingSpace(StripFixed(line, 0), '\r');
  }

  /** Appending a line terminator adds it to the output and changes nothing
      else. */
  lemma {:induction false} StripFixedSnoc(s: string, c: char, i: nat)
    requires IsLineTerminator(c) && i <= |s|
    ensures StripFixed(s + [c], i) == StripFixed(s, i) + [c]
    decreases |s| - i
  {
    var t := s + [c];
    if i == |s| {
      assert t[i] == c && !IsQuote(c) && c != '#';
      assert StripFixed(t, i + 1) == [];
      EmptyPrefix([c]);
    } else {
      assert t[i] == s[i];
      if IsQuote(s[i]) {
        QuoteEndSnoc(s, c, i + 1, s[i]);
        match QuoteEnd(s, i + 1, s[i])
        case Some(k) =>
          StripFixedSnoc(s, c, k);
          SliceSnoc(s, c, i, k);
          Associative(s[i..k], StripFixed(s, k), [c]);
        case None =>
          StripFixedSnoc(s, c, i + 1);
          Associative([s[i]], StripFixed(s, i + 1), [c]);
      } else if s[i] == '#' {
        LineEndSnoc(s, c, i + 1);
        var e := LineEnd(s, i + 1);
        if e < |s| {
          StripFixedSnoc(s, c, e);
        } else {
          StripFixedSnoc(s, c, |s|);
        }
      } else {
        StripFixedSnoc(s, c, i + 1);
        Associative([s[i]], StripFixed(s, i + 1), [c]);
      }
    }
  }

  lemma SliceSnoc(s: string, c: char, i: nat, k: nat)
    requires i <= k <= |s|
    ensures (s + [c])[i..k] == s[i..k]
  {
  }

  lemma {:induction false} QuoteEndSnoc(s: string, c: char, j: nat, q: char)
    requires IsLineTerminator(c) && IsQuote(q) && j <= |s|
    ensures QuoteEnd(s + [c], j, q) == QuoteEnd(s, j, q)
    decreases |s| - j
  {
    var t := s + [c];
    if j == |s| {
      assert t[j] == c && c != q && c != '\\';
      assert QuoteEnd(t, j + 1, q) == None;
    } else {
      assert t[j] == s[j];
      if s[j] == q {
      } else if s[j] == '\\' {
        if j + 1 < |s| {
          assert t[j + 1] == s[j + 1];
          if !IsLineTerminator(s[j + 1]) {
            QuoteEndSnoc(s, c, j + 2, q);
          }
        } else {
          assert t[j + 1] == c;
        }
      } else {
        QuoteEndSnoc(s, c, j + 1, q);
      }
    }
  }

  lemma {:induction false} LineEndSnoc(s: string, c: char, j: nat)
    requires IsLineTerminator(c) && j <= |s|
    ensures LineEnd(s + [c], j) == LineEnd(s, j)
    decreases |s| - j
  {
    var t := s + [c];
    if j < |s| {
      assert t[j] == s[j];
      LineEndSnoc(s, c, j + 1);
    }
  }

  /** On a line with no line terminator the two readings agree: the
      correction only matters where a terminator survives the split. */
  lemma FixedAgreesOnPlainLines(line: string)
    requires NoTerminator(line)
    ensures RemoveCommentsFixed(line) == RemoveComments(line)
  {
    StripAgrees(line, 0);
  }

  lemma {:induction false} StripAgrees(s: string, i: nat)
    requires NoTerminator(s) && i <= |s|
    ensures StripFixed(s, i) == s[i..Cut(s, i)]
    decreases |s| - i
  {
    if i < |s| {
      if IsQuote(s[i]) {
        var k := AfterQuote(s, i);
        StripAgrees(s, k);
        AgreeAtQuote(s, i, k);
      } else if s[i] == '#' {
        LineEndPlain(s, i + 1);
      } else {
        StripAgrees(s, i + 1);
        AgreeAtPlain(s, i);
      }
    }
  }

  /** Where both scans go on after a quote at `i`. */
  function AfterQuote(s: string, i: nat): (k: nat)
    requires i < |s| && IsQuote(s[i])
    ensures i < k <= |s|
  {
    match QuoteEnd(s, i + 1, s[i])
    case Some(k) => k
    case None => i + 1
  }

  lemma AgreeAtQuote(s: string, i: nat, k: nat)
    requires i < |s| && IsQuote(s[i]) && k == AfterQuote(s, i)
    requires StripFixed(s, k) == s[k..Cut(s, k)]
    ensures Cut(s, i) == Cut(s, k)
    ensures StripFixed(s, i) == s[i..Cut(s, i)]
  {
    assert StripFixed(s, i) == s[i..k] + StripFixed(s, k);
    Glue(s, i, k, Cut(s, k));
  }

  lemma AgreeAtPlain(s: string, i: nat)
    requires i < |s| && !IsQuote(s[i]) && s[i] != '#'
    requires StripFixed(s, i + 1) == s[i + 1..Cut(s, i + 1)]
    ensures Cut(s, i) == Cut(s, i + 1)
    ensures StripFixed(s, i) == s[i..Cut(s, i)]
  {
    Glue(s, i, i + 1, Cut(s, i + 1));
  }

  lemma Glue(s: string, i: nat, k: nat, c: nat)
    requires i <= k <= c <= |s|
    ensures s[i..k] + s[k..c] == s[i..c]
  {
  }

  lemma {:induction false} LineEndPlain(s: string, j: nat)
    requires NoTerminator(s) && j <= |s|
    ensures LineEnd(s, j) == |s|
    decreases |s| - j
  {
    if j < |s| {
      LineEndPlain(s, j + 1);
    }
  }

  // ---------------------------------------------------------------------------
  // parseToml

  predicate Blank(line: string) {
    Trim(line) == []
  }

  /** The cleaned lines that are kept: the nonblank ones, in order. */
  function CleanLines(lines: seq<string>, clean: string -> string): (kept: seq<string>)
    ensures Filtered(lines, clean, kept)
  {
    if lines == [] then []
    else
      var rest := CleanLines(lines[1..], clean);
      if Blank(clean(lines[0])) then
        FilteredSkip(lines, clean, rest);
        rest
      else
        FilteredKeep(lines, clean, rest);
        [clean(lines[0])] + rest
  }

  /** `kept` holds the cleaned lines that are not blank, and only those. */
  predicate Filtered(lines: seq<string>, clean: string -> string, kept: seq<string>) {
    && |kept| <= |lines|
    && (forall k <- kept :: !Blank(k))
    && (forall k <- kept :: exists l <- lines :: k == clean(l))
    && (forall l <- lines :: !Blank(clean(l)) ==> clean(l) in kept)
  }

  /** A first line that is blank once cleaned is dropped. */
  lemma FilteredSkip(lines: seq<string>, clean: string -> string, rest: seq<string>)
    requires lines != [] && Blank(clean(lines[0])) && Filtered(lines[1..], clean, rest)
    ensures Filtered(lines, clean, rest)
  {
    FromLines(lines, clean, rest);
    AllKept(lines, clean, rest);
  }

  /** A first line that is not blank once cleaned is kept, in front. */
  lemma FilteredKeep(lines: seq<string>, clean: string -> string, rest: seq<string>)
    requires lines != [] && !Blank(clean(lines[0])) && Filtered(lines[1..], clean, rest)
    ensures Filtered(lines, clean, [clean(lines[0])] + rest)
  {
    var c := clean(lines[0]);
    var kept := [c] + rest;
    assert forall k <- kept :: k == c || k in rest;
    assert forall k <- kept :: exists l <- lines :: k == clean(l) by {
      FromLines(lines, clean, rest);
      assert lines[0] in lines;
    }
    assert forall l <- lines :: !Blank(clean(l)) ==> clean(l) in kept by {
      AllKept(lines, clean, rest);
      assert forall k <- rest :: k in kept;
    }
  }

  /** Every line kept after the first comes from the lines. */
  lemma FromLines(lines: seq<string>, clean: string -> string, rest: seq<string>)
    requires lines != []
    requires forall k <- rest :: exists l <- lines[1..] :: k == clean(l)
    ensures forall k <- rest :: exists l <- lines :: k == clean(l)
  {
    forall k | k in rest
      ensures exists l <- lines :: k == clean(l)
    {
      var l :| l in lines[1..] && k == clean(l);
      assert l in lines;
    }
  }

  /** Every line after the first that is not blank once cleaned is kept. */
  lemma AllKept(lines: seq<string>, clean: string -> string, rest: seq<string>)
    requires lines != []
    requires forall l <- lines[1..] :: !Blank(clean(l)) ==> clean(l) in rest
    ensures forall l <- lines :: l != lines[0] && !Blank(clean(l)) ==> clean(l) in rest
  {
    forall l | l in lines && l != lines[0] && !Blank(clean(l))
      ensures clean(l) in rest
    {
      var i :| 0 <= i < |lines| && lines[i] == l;
      assert lines[1..][i - 1] == l;
    }
  }

  /** The filter keeps the order of the lines: cleaning a file in two parts
      and putting the kept lines together is cleaning it whole. */
  lemma {:induction false} CleanLinesAppend(a: seq<string>, b: seq<string>, clean: string -> string)
    ensures CleanLines(a + b, clean) == CleanLines(a, clean) + CleanLines(b, clean)
    decreases |a|
  {
    var y := CleanLines(b, clean);
    if a != [] {
      var x := CleanLines(a[1..], clean);
      DropAppend(a, b);
      CleanLinesAppend(a[1..], b, clean);
      if !Blank(clean(a[0])) {
        Associative([clean(a[0])], x, y);
      }
    } else {
      EmptyPrefix(y);
      assert a + b == b;
    }
  }

  lemma DropAppend<T>(a: seq<T>, b: seq<T>)
    requires a != []
    ensures (a + b)[0] == a[0] && (a + b)[1..] == a[1..] + b
  {
  }

  /** Two cleaners that agree on every line keep the same lines. */
  lemma {:induction false} CleanLinesAgree(lines: seq<string>, f: string -> string, g: string -> string)
    requires forall l <- lines :: f(l) == g(l)
    ensures CleanLines(lines, f) == CleanLines(lines, g)
    decreases |lines|
  {
    if lines != [] {
      assert lines[0] in lines;
      assert forall l <- lines[1..] :: l in lines;
      CleanLinesAgree(lines[1..], f, g);
    }
  }

  /** The text `parseToml` builds and logs: split at `\n`, clean each line,
      drop blank lines, join with `\n`. */
  function Preprocess(text: string, clean: string -> string): string {
    Join(CleanLines(Split(text, '\n'), clean), '\n')
  }

  /** What a call to `parseToml` leaves: the logged text and the record. */
  datatype TomlRun<V> = TomlRun(logged: string, record: map<string, V>)

  /** `parseToml`: each line cleaned by `removeComments` as written; the
      record comes back empty whatever the text. */
  function ParseToml<V>(text: string): (run: TomlRun<V>)
    ensures |run.record| == 0
    ensures '\n' !in text && !Blank(RemoveComments(text)) ==> run.logged == RemoveComments(text)
    ensures '\n' !in text && Blank(RemoveComments(text)) ==> run.logged == []
  {
    SingleLine(text);
    TomlRun(Preprocess(text, RemoveComments), map[])
  }

  /** `parseToml` with the corrected line cleaner. */
  function ParseTomlFixed<V>(text: string): (run: TomlRun<V>)
    ensures |run.record| == 0
    ensures '\n' !in text && !Blank(RemoveCommentsFixed(text)) ==> run.logged == RemoveCommentsFixed(text)
    ensures '\n' !in text && Blank(RemoveCommentsFixed(text)) ==> run.logged == []
  {
    SingleLine(text);
    TomlRun(Preprocess(text, RemoveCommentsFixed), map[])
  }

  lemma SingleLine(text: string)
    ensures '\n' !in text ==> Split(text, '\n') == [text]
  {
    if '\n' !in text {
      SplitJoin([text], '\n');
    }
  }

  /** Text whose only line terminator is `\n` (no CRLF line endings) is
      logged alike by the code and by the corrected pipeline. */
  lemma ParseTomlAgrees<V>(text: string)
    requires forall i :: 0 <= i < |text| ==> text[i] == '\n' || !IsLineTerminator(text[i])
    ensures ParseTomlFixed<V>(text) == ParseToml<V>(text)
  {
    var lines := Split(text, '\n');
    SplitPiecesFrom(text, '\n');
    forall l <- lines
      ensures RemoveCommentsFixed(l) == RemoveComments(l)
    {
      forall i | 0 <= i < |l|
        ensures !IsLineTerminator(l[i])
      {
        assert l[i] in l;
        var k :| 0 <= k < |text| && text[k] == l[i];
      }
      FixedAgreesOnPlainLines(l);
    }
    CleanLinesAgree(lines, RemoveCommentsFixed, RemoveComments);
  }

  /** `toml.from`: the empty record, marked as TOML. */
  function From<V>(text: string): (d: Structured<map<string, V>>)
    ensures d.origin == Toml && d.payload == ParseToml<V>(text).record
  {
    Structured(Toml, ParseToml<V>(text).record)
  }

  /** The record does not depend on the text at all. */
  lemma RecordIgnoresText<V>(a: string, b: string)
    ensures ParseToml<V>(a).record == ParseToml<V>(b).record
  {
  }

  /** Splitting the logged text at `\n` gives back exactly the kept lines
      (when any are kept), so no logged line is blank. */
  lemma ParseTomlLogsKeptLines<V>(text: string)
    requires CleanLines(Split(text, '\n'), RemoveComments) != []
    ensures Split(ParseToml<V>(text).logged, '\n') == CleanLines(Split(text, '\n'), RemoveComments)
  {
    forall l | '\n' !in l
      ensures '\n' !in RemoveComments(l)
    {
      CleanedHasNoNewline(l);
    }
    LoggedLines(text, RemoveComments);
  }

  /** The same for the corrected pipeline. */
  lemma ParseTomlFixedLogsKeptLines<V>(text: string)
    requires CleanLines(Split(text, '\n'), RemoveCommentsFixed) != []
    ensures Split(ParseTomlFixed<V>(text).logged, '\n') == CleanLines(Split(text, '\n'), RemoveCommentsFixed)
  {
    forall l | '\n' !in l
      ensures '\n' !in RemoveCommentsFixed(l)
    {
      CleanedHasNoNewlineFixed(l);
    }
    LoggedLines(text, RemoveCommentsFixed);
  }

  /** For any cleaner that keeps a line free of `\n`, splitting the
      preprocessed text at `\n` gives back the kept lines. */
  lemma LoggedLines(text: string, clean: string -> string)
    requires forall l :: '\n' !in l ==> '\n' !in clean(l)
    requires CleanLines(Split(text, '\n'), clean) != []
    ensures Split(Preprocess(text, clean), '\n') == CleanLines(Split(text, '\n'), clean)
  {
    var lines := Split(text, '\n');
    var kept := CleanLines(lines, clean);
    forall k <- kept
      ensures '\n' !in k
    {
      var l :| l in lines && k == clean(l);
    }
    SplitJoin(kept, '\n');
  }

  /** The line cleaner as written never brings in a `\n`. */
  lemma CleanedHasNoNewline(line: string)
    requires '\n' !in line
    ensures '\n' !in RemoveComments(line)
  {
    var p := line[..Cut(line, 0)];
    TrimIsInfix(p);
  }

  /** Nor does the corrected one. */
  lemma CleanedHasNoNewlineFixed(line: string)
    requires '\n' !in line
    ensures '\n' !in RemoveCommentsFixed(line)
  {
    StripFixedNoNewline(line, 0);
    TrimIsInfix(StripFixed(line, 0));
  }

  lemma {:induction false} StripFixedNoNewline(s: string, i: nat)
    requires '\n' !in s && i <= |s|
    ensures '\n' !in StripFixed(s, i)
    decreases |s| - i
  {
    if i < |s| {
      if IsQuote(s[i]) {
        match QuoteEnd(s, i + 1, s[i])
        case Some(k) =>
          StripFixedNoNewline(s, k);
        case None =>
          StripFixedNoNewline(s, i + 1);
      } else if s[i] == '#' {
        StripFixedNoNewline(s, LineEnd(s, i + 1));
      } else {
        StripFixedNoNewline(s, i + 1);
      }
    }
  }
}
