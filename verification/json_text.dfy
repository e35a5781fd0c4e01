/** `JSON.stringify` of a record whose values are all strings, as the fallback
    parser uses it to embed the per-format errors in its message, together
    with a reader for that text (strings as in section 7 of RFC 8259) that
    recovers the record. */
module JsonText {
  import opened Wrappers

  /** A record with string values, as an ordered list of properties: the
      order in which the properties were added is the order in which they
      are printed. */
  type Entries = seq<(string, string)>

  /** The two-character escapes of `JSON.stringify`, keyed by the character
      they stand for, as the letter after the backslash. */
  function ShortEscape(c: char): Option<char> {
    if c == '"' then Some('"')
    else if c == '\\' then Some('\\')
    else if c == '\U{0008}' then Some('b')
    else if c == '\U{000C}' then Some('f')
    else if c == '\n' then Some('n')
    else if c == '\r' then Some('r')
    else if c == '\t' then Some('t')
    else None
  }

  /** The character a two-character escape letter stands for; `/` is
      accepted on reading although it is never written. */
  function ShortUnescape(e: char): Option<char> {
    if e == '"' then Some('"')
    else if e == '\\' then Some('\\')
    else if e == '/' then Some('/')
    else if e == 'b' then Some('\U{0008}')
    else if e == 'f' then Some('\U{000C}')
    else if e == 'n' then Some('\n')
    else if e == 'r' then Some('\r')
    else if e == 't' then Some('\t')
    else None
  }

  function HexDigit(d: nat): (c: char)
    requires d < 16
    ensures IsHexDigit(c) && HexValue(c) == d
  {
    if d < 10 then (d + '0' as int) as char else (d - 10 + 'a' as int) as char
  }

  predicate IsHexDigit(c: char) {
    ('0' <= c <= '9') || ('a' <= c <= 'f') || ('A' <= c <= 'F')
  }

  function HexValue(c: char): (d: nat)
    requires IsHexDigit(c)
    ensures d < 16
  {
    if '0' <= c <= '9' then c as int - '0' as int
    else if 'a' <= c <= 'f' then c as int - 'a' as int + 10
    else c as int - 'A' as int + 10
  }

  /** How one character of a string is written: a short escape, `\u00xx`
      with lower-case hex digits for the other control characters, or the
      character itself. */
  function EscapeChar(c: char): (e: string)
    ensures |e| >= 1 && (e[0] == '\\' <==> (ShortEscape(c).Some? || c < ' '))
    ensures e[0] != '"'
  {
    if ShortEscape(c).Some? then ['\\', ShortEscape(c).value]
    else if c < ' ' then ['\\', 'u', '0', '0', HexDigit(c as int / 16), HexDigit(c as int % 16)]
    else [c]
  }

  function Escape(s: string): string {
    if s == [] then [] else EscapeChar(s[0]) + Escape(s[1..])
  }

  /** `JSON.stringify` of a string. */
  function QuoteString(s: string): (q: string)
    ensures |q| >= 2 && q[0] == '"'
  {
    ['"'] + Escape(s) + ['"']
  }

  function Members(entries: Entries): string {
    if entries == [] then []
    else
      var m := QuoteString(entries[0].0) + [':'] + QuoteString(entries[0].1);
      if |entries| == 1 then m else m + [','] + Members(entries[1..])
  }

  /** `JSON.stringify` of a record with string values: no spaces, properties
      in insertion order. */
  function Stringify(entries: Entries): (j: string)
    ensures |j| >= 2 && j[0] == '{' && j[|j| - 1] == '}'
  {
    ['{'] + Members(entries) + ['}']
  }

  // ---------------------------------------------------------------------------
  // Reading the text back

  /** One character of a string body that does not start with `"`: the
      character it stands for and how many characters it takes. Raw control
      characters, unknown escapes and `\u` escapes of surrogate halves are
      rejected. */
  function ReadChar(s: string): (r: Option<(char, nat)>)
    requires s != [] && s[0] != '"'
    ensures r.Some? ==> 1 <= r.value.1 <= |s|
  {
    if s[0] < ' ' then None
    else if s[0] != '\\' then Some((s[0], 1))
    else if |s| < 2 then None
    else if ShortUnescape(s[1]).Some? then Some((ShortUnescape(s[1]).value, 2))
    else if s[1] == 'u' && |s| >= 6 && IsHexDigit(s[2]) && IsHexDigit(s[3]) && IsHexDigit(s[4]) && IsHexDigit(s[5]) then
      var v := ((HexValue(s[2]) * 16 + HexValue(s[3])) * 16 + HexValue(s[4])) * 16 + HexValue(s[5]);
      if 0xD800 <= v < 0xE000 then None else Some((v as char, 6))
    else None
  }

  /** Reads a string body up to its closing `"`: the value and the text
      after the quote. */
  function ReadString(s: string): (r: Option<(string, string)>)
    ensures r.Some? ==> |r.value.1| < |s|
    decreases |s|
  {
    if s == [] then None
    else if s[0] == '"' then Some(([], s[1..]))
    else
      match ReadChar(s)
      case None => None
      case Some((c, n)) =>
        match ReadString(s[n..])
        case None => None
        case Some((v, rest)) => Some(([c] + v, rest))
  }

  /** Reads `"key":"value"` followed by `,` and more members, or by `}` at
      the very end. */
  function ReadMembers(s: string): Option<Entries>
    decreases |s|
  {
    if s == [] || s[0] != '"' then None
    else
      match ReadString(s[1..])
      case None => None
      case Some((k, r1)) =>
        if r1 == [] || r1[0] != ':' || |r1| < 2 || r1[1] != '"' then None
        else
          match ReadString(r1[2..])
          case None => None
          case Some((v, r2)) =>
            if r2 == ['}'] then Some([(k, v)])
            else if r2 != [] && r2[0] == ',' then Prepend((k, v), ReadMembers(r2[1..]))
            else None
  }

  function Prepend(kv: (string, string), rest: Option<Entries>): Option<Entries> {
    if rest.Some? then Some([kv] + rest.value) else None
  }

  function ReadObject(s: string): Option<Entries> {
    if s == ['{', '}'] then Some([])
    else if |s| >= 1 && s[0] == '{' then ReadMembers(s[1..])
    else None
  }

  // ---------------------------------------------------------------------------
  // Round trip

  lemma ReadEscapedChar(c: char, tail: string)
    ensures ReadChar(EscapeChar(c) + tail) == Some((c, |EscapeChar(c)|))
  {
    var e := EscapeChar(c);
    var s := e + tail;
    if ShortEscape(c).Some? {
      assert s[0] == '\\' && s[1] == ShortEscape(c).value;
    } else if c < ' ' {
      assert s[..6] == e;
      var v := ((HexValue(s[2]) * 16 + HexValue(s[3])) * 16 + HexValue(s[4])) * 16 + HexValue(s[5]);
      assert v == c as int;
    } else {
      assert s[0] == c;
    }
  }

  lemma {:induction false} ReadEscaped(x: string, rest: string)
    ensures ReadString(Escape(x) + ['"'] + rest) == Some((x, rest))
  {
    var s := Escape(x) + ['"'] + rest;
    if x == [] {
      assert s == ['"'] + rest;
    } else {
      var e := EscapeChar(x[0]);
      assert s == e + (Escape(x[1..]) + ['"'] + rest);
      ReadEscapedChar(x[0], Escape(x[1..]) + ['"'] + rest);
      assert s[|e|..] == Escape(x[1..]) + ['"'] + rest;
      ReadEscaped(x[1..], rest);
      assert [x[0]] + x[1..] == x;
    }
  }

  /** How `ReadMembers` proceeds once both strings of the first member have
      been read. */
  lemma ReadMembersUnfold(s: string, k: string, r1: string, v: string, r2: string)
    requires s != [] && s[0] == '"' && ReadString(s[1..]) == Some((k, r1))
    requires |r1| >= 2 && r1[0] == ':' && r1[1] == '"' && ReadString(r1[2..]) == Some((v, r2))
    requires r2 == ['}'] || (r2 != [] && r2[0] == ',')
    ensures ReadMembers(s) == if r2 == ['}'] then Some([(k, v)]) else Prepend((k, v), ReadMembers(r2[1..]))
  {
  }

  /** A printed string followed by anything is read back up to its end. */
  lemma ReadQuoted(x: string, rest: string)
    ensures var s := QuoteString(x) + rest; s[0] == '"' && ReadString(s[1..]) == Some((x, rest))
  {
    var s := QuoteString(x) + rest;
    assert s[1..] == Escape(x) + ['"'] + rest;
    ReadEscaped(x, rest);
  }

  /** One member read back, followed by the end of the record or by more
      members. */
  lemma ReadOneMember(k: string, v: string, after: string)
    requires after == ['}'] || (after != [] && after[0] == ',')
    ensures var s := QuoteString(k) + ([':'] + QuoteString(v) + after);
      ReadMembers(s) == if after == ['}'] then Some([(k, v)]) else Prepend((k, v), ReadMembers(after[1..]))
  {
    var q := QuoteString(v);
    var r1 := [':'] + (q + after);
    var s := QuoteString(k) + r1;
    assert s[0] == '"' && ReadString(s[1..]) == Some((k, r1)) by {
      ReadQuoted(k, r1);
    }
    assert |r1| >= 2 && r1[0] == ':' && r1[1] == '"' && ReadString(r1[2..]) == Some((v, after)) by {
      ReadQuoted(v, after);
      ColonTail(q + after);
    }
    ReadMembersUnfold(s, k, r1, v, after);
    assert r1 == [':'] + QuoteString(v) + after;
  }

  lemma ColonTail(t: string)
    requires |t| >= 1
    ensures ([':'] + t)[1] == t[0] && ([':'] + t)[2..] == t[1..]
  {
  }

  /** What follows the first member of a printed record. */
  function AfterFirst(entries: Entries): string
    requires entries != []
  {
    if |entries| == 1 then ['}'] else [','] + (Members(entries[1..]) + ['}'])
  }

  lemma MembersSplit(entries: Entries)
    requires entries != []
    ensures Members(entries) + ['}']
         == QuoteString(entries[0].0) + ([':'] + QuoteString(entries[0].1) + AfterFirst(entries))
  {
  }

  /** The members of a non-empty record, read back. */
  lemma {:induction false} ReadMembersOf(entries: Entries)
    requires entries != []
    ensures ReadMembers(Members(entries) + ['}']) == Some(entries)
  {
    var (k, v) := entries[0];
    var after := AfterFirst(entries);
    MembersSplit(entries);
    ReadOneMember(k, v, after);
    if |entries| > 1 {
      ReadMembersOf(entries[1..]);
      assert [(k, v)] + entries[1..] == entries;
    } else {
      assert entries == [(k, v)];
    }
  }

  /** Reading the printed record gives back every property, in order. */
  lemma ReadStringify(entries: Entries)
    ensures ReadObject(Stringify(entries)) == Some(entries)
  {
    var j := Stringify(entries);
    if entries == [] {
      assert j == ['{', '}'];
    } else {
      ReadMembersOf(entries);
      assert j[1..] == Members(entries) + ['}'];
      assert j != ['{', '}'] by {
        assert |Members(entries)| >= 1 by {
          assert Members(entries)[0] == '"';
        }
      }
    }
  }
}
