/** `replaceHTMLEntities` of src/utils/common.ts: one left-to-right pass of a
    global, case-insensitive regex replace that turns `&name;`, `&#ddd;` and
    `&#xhh;` references into the characters they stand for. JavaScript
    strings are sequences of UTF-16 code units and `String.fromCharCode`
    can produce a lone surrogate, so this module works on code units rather
    than on `char`. */
module HtmlEntities {
  import opened Wrappers
  import opened Utf16

  const Amp: CodeUnit := 0x26
  const Hash: CodeUnit := 0x23
  const Semi: CodeUnit := 0x3B
  const LowerX: CodeUnit := 0x78
  const UpperX: CodeUnit := 0x58

  /** An ASCII string as code units (keys and test inputs). */
  function Units(s: string): (u: Text16)
    ensures |u| == |s|
  {
    seq(|s|, i requires 0 <= i < |s| => (s[i] as int % 0x10000) as CodeUnit)
  }

  /** ASCII letters and digits back as characters. */
  function Chars(u: Text16): (s: string)
    requires AlnumName(u)
    ensures |s| == |u|
  {
    seq(|u|, i requires 0 <= i < |u| => (u[i] as int) as char)
  }

  // `[a-z]` under the `i` flag matches the ASCII letters of both cases; `x`
  // matches `x` and `X`, `[0-9a-f]` every hexadecimal digit, and `\d` only
  // the ASCII digits.

  predicate IsLetter(u: CodeUnit) {
    (0x41 <= u <= 0x5A) || (0x61 <= u <= 0x7A)
  }

  predicate IsDigit(u: CodeUnit) {
    0x30 <= u <= 0x39
  }

  predicate IsHexDigit(u: CodeUnit) {
    IsDigit(u) || (0x41 <= u <= 0x46) || (0x61 <= u <= 0x66)
  }

  function HexDigitValue(u: CodeUnit): (d: nat)
    requires IsHexDigit(u)
    ensures d < 16 && (IsDigit(u) ==> d < 10)
  {
    if IsDigit(u) then (u - 0x30) as nat
    else if u <= 0x46 then (u - 0x41) as nat + 10
    else (u - 0x61) as nat + 10
  }

  /** `parseInt` of a run of digits in the given base, most significant
      first. */
  function NumberValue(ds: Text16, base: nat): nat
    requires forall i :: 0 <= i < |ds| ==> IsHexDigit(ds[i])
  {
    if ds == [] then 0 else NumberValue(ds[..|ds| - 1], base) * base + HexDigitValue(ds[|ds| - 1])
  }

  /** A name the regex can capture: ASCII letters and digits. */
  predicate AlnumName(name: Text16) {
    forall i :: 0 <= i < |name| ==> IsLetter(name[i]) || IsDigit(name[i])
  }

  /** Which names the name alternative accepts: as written, `[a-z]+` (letters
      only); corrected, a letter followed by letters and digits, which
      reaches every key of the table. */
  datatype NameSyntax = LettersOnly | LettersThenAlnum

  predicate NameChar(syntax: NameSyntax, u: CodeUnit) {
    IsLetter(u) || (syntax == LettersThenAlnum && IsDigit(u))
  }

  datatype RunKind = Decimal | Hex | Name(syntax: NameSyntax)

  predicate InRun(kind: RunKind, u: CodeUnit) {
    match kind
    case Decimal => IsDigit(u)
    case Hex => IsHexDigit(u)
    case Name(syntax) => NameChar(syntax, u)
  }

  /** The end of the longest run of `kind` starting at `i`: the greedy `+`. */
  function RunEnd(s: Text16, i: nat, kind: RunKind): (e: nat)
    requires i <= |s|
    ensures i <= e <= |s|
    ensures forall j :: i <= j < e ==> InRun(kind, s[j])
    ensures e == |s| || !InRun(kind, s[e])
    decreases |s| - i
  {
    if i < |s| && InRun(kind, s[i]) then RunEnd(s, i + 1, kind) else i
  }

  /** What the first capture group holds: a numeric reference with its
      value, or a name. */
  datatype Reference = Numeric(value: nat) | Named(name: Text16)

  /** A match of the regex at the start of the text and its length. */
  datatype Match = Match(ref: Reference, len: nat)

  /** The optional `;` after the group. */
  function WithSemicolon(s: Text16, e: nat): (n: nat)
    requires e <= |s|
    ensures e <= n <= |s|
  {
    if e < |s| && s[e] == Semi then e + 1 else e
  }

  /** The regex tried at the start of `s`: `&`, then `#x` and hex digits,
      `#` and decimal digits, or a name, then an optional `;`. */
  function MatchAt(syntax: NameSyntax, s: Text16): (m: Option<Match>)
    ensures m.Some? ==> |s| >= 2 && s[0] == Amp && 2 <= m.value.len <= |s|
    ensures m.Some? && m.value.ref.Named? ==>
              && 1 <= |m.value.ref.name| < m.value.len
              && m.value.ref.name == s[1..|m.value.ref.name| + 1]
              && forall i :: 0 <= i < |m.value.ref.name| ==> NameChar(syntax, m.value.ref.name[i])
  {
    if |s| < 2 || s[0] != Amp then None
    else if s[1] == Hash then
      if |s| >= 4 && (s[2] == LowerX || s[2] == UpperX) && IsHexDigit(s[3]) then
        var e := RunEnd(s, 3, Hex);
        Some(Match(Numeric(NumberValue(s[3..e], 16)), WithSemicolon(s, e)))
      else if |s| >= 3 && IsDigit(s[2]) then
        var e := RunEnd(s, 2, Decimal);
        assert forall i :: 0 <= i < e - 2 ==> IsHexDigit(s[2..e][i]);
        Some(Match(Numeric(NumberValue(s[2..e], 10)), WithSemicolon(s, e)))
      else None
    else if IsLetter(s[1]) then
      var e := RunEnd(s, 1, Name(syntax));
      Some(Match(Named(s[1..e]), WithSemicolon(s, e)))
    else None
  }

  // The entity table, keyed by name; every value is one code unit. It is
  // written as five groups so that facts about all of its keys can be
  // proved a group at a time.

  const MarkupEntities: map<string, CodeUnit> := map[
    "amp" := 0x26, "lt" := 0x3C, "gt" := 0x3E, "quot" := 0x22, "apos" := 0x27, "nbsp" := 0xA0
  ]

  const SignEntities: map<string, CodeUnit> := map[
    "cent" := 0xA2, "pound" := 0xA3, "yen" := 0xA5, "euro" := 0x20AC,
    "copy" := 0xA9, "reg" := 0xAE, "trade" := 0x2122
  ]

  const PunctuationEntities: map<string, CodeUnit> := map[
    "hellip" := 0x2026, "ndash" := 0x2013, "mdash" := 0x2014, "rsquo" := 0x2019,
    "lsquo" := 0x2018, "ldquo" := 0x201C, "rdquo" := 0x201D, "middot" := 0xB7,
    "bull" := 0x2022, "laquo" := 0xAB, "raquo" := 0xBB
  ]

  const SymbolEntities: map<string, CodeUnit> := map[
    "sect" := 0xA7, "deg" := 0xB0, "plusmn" := 0xB1, "para" := 0xB6, "times" := 0xD7, "divide" := 0xF7
  ]

  const FigureEntities: map<string, CodeUnit> := map[
    "sup1" := 0xB9, "sup2" := 0xB2, "sup3" := 0xB3, "frac14" := 0xBC, "frac12" := 0xBD, "frac34" := 0xBE
  ]

  const Table: map<string, CodeUnit> :=
    FigureEntities + SymbolEntities + PunctuationEntities + SignEntities + MarkupEntities

  /** `map.hasOwnProperty(name) ? map[name] : none`: an exact, case-sensitive
      lookup in the entity table. */
  function Lookup(table: map<string, CodeUnit>, name: Text16): (r: Option<CodeUnit>)
    requires AlnumName(name)
    ensures r.Some? <==> Chars(name) in table
    ensures r.Some? ==> r.value == table[Chars(name)]
  {
    var k := Chars(name);
    if k in table then Some(table[k]) else None
  }

  /** What a match is replaced by: `String.fromCharCode` of the value (which
      keeps it modulo 2^16), the table entry, or the matched text itself. */
  function Replacement(syntax: NameSyntax, table: map<string, CodeUnit>, s: Text16, m: Match): (r: Text16)
    requires MatchAt(syntax, s) == Some(m)
    ensures 1 <= |r| <= m.len
  {
    match m.ref
    case Numeric(v) => [(v % 0x10000) as CodeUnit]
    case Named(name) =>
      var hit := Lookup(table, name);
      if hit.Some? then [hit.value] else s[..m.len]
  }

  /** The global replace: at each position either a match, replaced and
      skipped over, or one code unit copied. */
  function Decode(syntax: NameSyntax, table: map<string, CodeUnit>, s: Text16): (r: Text16)
    ensures |r| <= |s|
    decreases |s|
  {
    if s == [] then []
    else
      match MatchAt(syntax, s)
      case Some(m) => Replacement(syntax, table, s, m) + Decode(syntax, table, s[m.len..])
      case None => [s[0]] + Decode(syntax, table, s[1..])
  }

  /** `replaceHTMLEntities` as written. */
  function ReplaceHtmlEntities(s: Text16): (r: Text16)
    ensures |r| <= |s|
    ensures Amp !in s ==> r == s
  {
    NoReferenceUnchanged(LettersOnly, Table, s);
    Decode(LettersOnly, Table, s)
  }

  /** The decoder with the name syntax that reaches the whole table. */
  function ReplaceHtmlEntitiesFixed(s: Text16): (r: Text16)
    ensures |r| <= |s|
    ensures Amp !in s ==> r == s
  {
    NoReferenceUnchanged(LettersThenAlnum, Table, s);
    Decode(LettersThenAlnum, Table, s)
  }

  // ---------------------------------------------------------------------------
  // Properties

  /** Text without `&` is left alone. */
  lemma {:induction false} NoReferenceUnchanged(syntax: NameSyntax, table: map<string, CodeUnit>, s: Text16)
    ensures Amp !in s ==> Decode(syntax, table, s) == s
  {
    if s != [] && Amp !in s {
      NoReferenceUnchanged(syntax, table, s[1..]);
    }
  }

  /** How `Decode` proceeds after a match. */
  lemma DecodeAfterMatch(syntax: NameSyntax, table: map<string, CodeUnit>, s: Text16, m: Match)
    requires s != [] && MatchAt(syntax, s) == Some(m)
    ensures Decode(syntax, table, s) == Replacement(syntax, table, s, m) + Decode(syntax, table, s[m.len..])
  {
  }

  /** `amp`, and `&amp;`. */
  const AmpName: Text16 := [0x61, 0x6D, 0x70]
  const AmpReference: Text16 := [Amp] + AmpName + [Semi]

  /** Escaping every `&` as `&amp;`. */
  function Escape(s: Text16): (r: Text16)
    ensures |r| >= |s|
    ensures Amp in s <==> |r| > |s|
  {
    if s == [] then []
    else if s[0] == Amp then AmpReference + Escape(s[1..])
    else
      assert Amp in s <==> Amp in s[1..] by {
        assert s == [s[0]] + s[1..];
      }
      [s[0]] + Escape(s[1..])
  }

  /** A table that maps `amp` to `&`, as the library's does. */
  predicate HasAmp(table: map<string, CodeUnit>) {
    "amp" in table && table["amp"] == Amp
  }

  /** Decoding undoes escaping: nothing the escaped text holds is read as a
      reference except the `&amp;` that escaping wrote, whichever name
      syntax is used. */
  lemma {:induction false} DecodeEscape(syntax: NameSyntax, table: map<string, CodeUnit>, s: Text16)
    requires HasAmp(table)
    ensures Decode(syntax, table, Escape(s)) == s
  {
    if s != [] {
      DecodeEscape(syntax, table, s[1..]);
      var rest := Escape(s[1..]);
      if s[0] == Amp {
        AmpThenRest(syntax, table, rest);
      } else {
        var t := [s[0]] + rest;
        assert t[1..] == rest;
      }
      assert s == [s[0]] + s[1..];
    }
  }

  /** `&amp;` followed by anything decodes to `&` followed by the decoded
      rest. */
  lemma AmpThenRest(syntax: NameSyntax, table: map<string, CodeUnit>, rest: Text16)
    requires HasAmp(table)
    ensures Decode(syntax, table, AmpReference + rest) == [Amp] + Decode(syntax, table, rest)
  {
    assert Chars(AmpName) == "amp";
    assert AmpReference + rest == [Amp] + AmpName + ([Semi] + rest);
    NamedReference(syntax, table, AmpName, [Semi] + rest);
    assert ([Semi] + rest)[1..] == rest;
  }

  /** A decimal reference: `&#` and digits, then an optional `;`. */
  lemma DecimalReference(syntax: NameSyntax, table: map<string, CodeUnit>, ds: Text16, rest: Text16)
    requires |ds| >= 1 && forall i :: 0 <= i < |ds| ==> IsDigit(ds[i])
    requires rest == [] || !IsDigit(rest[0])
    ensures var after := if rest != [] && rest[0] == Semi then rest[1..] else rest;
      Decode(syntax, table, [Amp, Hash] + ds + rest)
        == [(NumberValue(ds, 10) % 0x10000) as CodeUnit] + Decode(syntax, table, after)
  {
    var s := [Amp, Hash] + ds + rest;
    var e := RunEnd(s, 2, Decimal);
    RunEndAt(s, 2, Decimal, ds, rest);
    assert s[2..e] == ds;
    var m := MatchAt(syntax, s).value;
    DecodeAfterMatch(syntax, table, s, m);
    assert s[m.len..] == if rest != [] && rest[0] == Semi then rest[1..] else rest;
  }

  /** A hexadecimal reference: `&#x` or `&#X` and hex digits, then an
      optional `;`. */
  lemma HexReference(syntax: NameSyntax, table: map<string, CodeUnit>, x: CodeUnit, hs: Text16, rest: Text16)
    requires x == LowerX || x == UpperX
    requires |hs| >= 1 && forall i :: 0 <= i < |hs| ==> IsHexDigit(hs[i])
    requires rest == [] || !IsHexDigit(rest[0])
    ensures var after := if rest != [] && rest[0] == Semi then rest[1..] else rest;
      Decode(syntax, table, [Amp, Hash, x] + hs + rest)
        == [(NumberValue(hs, 16) % 0x10000) as CodeUnit] + Decode(syntax, table, after)
  {
    var s := [Amp, Hash, x] + hs + rest;
    var e := RunEnd(s, 3, Hex);
    RunEndAt(s, 3, Hex, hs, rest);
    assert s[3..e] == hs;
    var m := MatchAt(syntax, s).value;
    DecodeAfterMatch(syntax, table, s, m);
    assert s[m.len..] == if rest != [] && rest[0] == Semi then rest[1..] else rest;
  }

  /** A run of `kind` followed by something else ends where that run ends. */
  lemma {:induction false} RunEndAt(s: Text16, i: nat, kind: RunKind, run: Text16, rest: Text16)
    requires i <= |s| && s[i..] == run + rest
    requires forall j :: 0 <= j < |run| ==> InRun(kind, run[j])
    requires rest == [] || !InRun(kind, rest[0])
    ensures RunEnd(s, i, kind) == i + |run|
    decreases |run|
  {
    if run == [] {
      assert s[i..] == rest;
    } else {
      assert s[i] == run[0];
      assert s[i + 1..] == run[1..] + rest;
      RunEndAt(s, i + 1, kind, run[1..], rest);
    }
  }

  /** A name reference: `&`, a name, then an optional `;`. A name in the
      table becomes its character; any other name is left as written. */
  lemma NamedReference(syntax: NameSyntax, table: map<string, CodeUnit>, name: Text16, rest: Text16)
    requires |name| >= 1 && IsLetter(name[0]) && forall i :: 0 <= i < |name| ==> NameChar(syntax, name[i])
    requires rest == [] || !NameChar(syntax, rest[0])
    ensures AlnumName(name)
    ensures var semi := rest != [] && rest[0] == Semi;
      var after := if semi then rest[1..] else rest;
      var written := [Amp] + name + (if semi then [Semi] else []);
      Decode(syntax, table, [Amp] + name + rest)
        == (if Chars(name) in table then [table[Chars(name)]] else written) + Decode(syntax, table, after)
  {
    var s := [Amp] + name + rest;
    var semi := rest != [] && rest[0] == Semi;
    NamedMatch(syntax, name, rest);
    var m := Match(Named(name), |name| + 1 + if semi then 1 else 0);
    DecodeAfterMatch(syntax, table, s, m);
    assert s[m.len..] == if semi then rest[1..] else rest;
    assert s[..m.len] == [Amp] + name + (if semi then [Semi] else []);
  }

  /** The regex matches `&`, the whole name and the `;` if there is one. */
  lemma NamedMatch(syntax: NameSyntax, name: Text16, rest: Text16)
    requires |name| >= 1 && IsLetter(name[0]) && forall i :: 0 <= i < |name| ==> NameChar(syntax, name[i])
    requires rest == [] || !NameChar(syntax, rest[0])
    ensures var semi := rest != [] && rest[0] == Semi;
      MatchAt(syntax, [Amp] + name + rest) == Some(Match(Named(name), |name| + 1 + if semi then 1 else 0))
  {
    var s := [Amp] + name + rest;
    assert s[1..] == name + rest;
    RunEndAt(s, 1, Name(syntax), name, rest);
    assert s[1..|name| + 1] == name;
    assert s[1] == name[0];
  }

  lemma NameIsAlnum(syntax: NameSyntax, name: Text16)
    requires forall i :: 0 <= i < |name| ==> NameChar(syntax, name[i])
    ensures AlnumName(name)
  {
  }

  /** A table key: a lower-case letter, then lower-case letters and
      digits. */
  predicate KeyShaped(k: string) {
    && |k| >= 1 && 'a' <= k[0] <= 'z'
    && forall i :: 0 <= i < |k| ==> 'a' <= k[i] <= 'z' || '0' <= k[i] <= '9'
  }

  /** Every key of the table has that shape. */
  lemma TableKeysAreNames()
    ensures forall k <- Table :: KeyShaped(k)
  {
    MarkupKeys();
    SignKeys();
    PunctuationKeys();
    SymbolKeys();
    FigureKeys();
  }

  lemma MarkupKeys() ensures forall k <- MarkupEntities :: KeyShaped(k) {}
  lemma SignKeys() ensures forall k <- SignEntities :: KeyShaped(k) {}
  lemma PunctuationKeys() ensures forall k <- PunctuationEntities :: KeyShaped(k) {}
  lemma SymbolKeys() ensures forall k <- SymbolEntities :: KeyShaped(k) {}
  lemma FigureKeys() ensures forall k <- FigureEntities :: KeyShaped(k) {}

  /** A key of the given shape, as code units, is a name the corrected
      syntax accepts, and reads back as the key. */
  lemma KeyAsName(k: string)
    requires KeyShaped(k)
    ensures var name := Units(k);
      && |name| >= 1 && IsLetter(name[0])
      && (forall i :: 0 <= i < |name| ==> NameChar(LettersThenAlnum, name[i]))
      && Chars(name) == k
  {
  }

  /** With the corrected syntax, `&key;` decodes to the table entry for every
      key. */
  lemma FixedDecodesEveryKey(k: string, rest: Text16)
    requires k in Table
    ensures ReplaceHtmlEntitiesFixed([Amp] + Units(k) + [Semi] + rest) == [Table[k]] + ReplaceHtmlEntitiesFixed(rest)
  {
    TableKeysAreNames();
    KeyAsName(k);
    KeyDecodes(LettersThenAlnum, Table, k, rest);
  }

  /** A key that the syntax accepts as a name decodes to its entry. */
  lemma KeyDecodes(syntax: NameSyntax, table: map<string, CodeUnit>, k: string, rest: Text16)
    requires k in table
    requires var name := Units(k);
      && |name| >= 1 && IsLetter(name[0])
      && (forall i :: 0 <= i < |name| ==> NameChar(syntax, name[i]))
      && Chars(name) == k
    ensures Decode(syntax, table, [Amp] + Units(k) + [Semi] + rest) == [table[k]] + Decode(syntax, table, rest)
  {
    var name := Units(k);
    assert [Amp] + name + [Semi] + rest == [Amp] + name + ([Semi] + rest);
    NamedReference(syntax, table, name, [Semi] + rest);
    assert ([Semi] + rest)[1..] == rest;
  }

  /** As written, a key decodes whenever it is all letters. */
  lemma LettersKeyDecodes(k: string, rest: Text16)
    requires k in Table && forall i :: 0 <= i < |k| ==> 'a' <= k[i] <= 'z'
    ensures ReplaceHtmlEntities([Amp] + Units(k) + [Semi] + rest) == [Table[k]] + ReplaceHtmlEntities(rest)
  {
    TableKeysAreNames();
    KeyAsName(k);
    KeyDecodes(LettersOnly, Table, k, rest);
  }

  /** `lt;` */
  const LtTail: Text16 := [0x6C, 0x74, Semi]

  lemma TableHasAmp()
    ensures HasAmp(Table)
  {
    assert "amp" in MarkupEntities && MarkupEntities["amp"] == Amp;
  }

  /** Decoding is a single pass: `&amp;lt;` becomes `&lt;`, not `<`. */
  lemma SinglePass()
    ensures ReplaceHtmlEntities(AmpReference + LtTail) == [Amp] + LtTail
  {
    TableHasAmp();
    AmpThenRest(LettersOnly, Table, LtTail);
    NoReferenceUnchanged(LettersOnly, Table, LtTail);
  }

  /** `sup`, and `&sup1;`. */
  const SupName: Text16 := [0x73, 0x75, 0x70]
  const SupOneReference: Text16 := [Amp] + SupName + [0x31, Semi]

  /** As written, `&sup1;` is left unchanged although `sup1` is in the
      table: the name alternative stops before the digit, `sup` is not a
      key, and `1;` is copied. */
  lemma SupOneNotDecoded()
    ensures "sup1" in Table
    ensures ReplaceHtmlEntities(SupOneReference) == SupOneReference
  {
    SupIsNotAKey();
    SupOneCopied(Table);
  }

  lemma SupOneCopied(table: map<string, CodeUnit>)
    requires "sup" !in table
    ensures Decode(LettersOnly, table, SupOneReference) == SupOneReference
  {
    assert Chars(SupName) == "sup";
    NamedReference(LettersOnly, table, SupName, [0x31, Semi]);
    NoReferenceUnchanged(LettersOnly, table, [0x31, Semi]);
  }

  lemma SupIsNotAKey()
    ensures "sup" !in Table && "sup1" in Table
  {
    SupInGroups();
  }

  lemma SupInGroups()
    ensures "sup1" in FigureEntities && "sup" !in FigureEntities
    ensures "sup" !in SymbolEntities && "sup" !in PunctuationEntities
    ensures "sup" !in SignEntities && "sup" !in MarkupEntities
  {
  }

  lemma SupOneEntry()
    ensures "sup1" in Table && Table["sup1"] == 0xB9
  {
    SupOneOnlyInFigures();
  }

  lemma SupOneOnlyInFigures()
    ensures "sup1" in FigureEntities && FigureEntities["sup1"] == 0xB9
    ensures "sup1" !in SymbolEntities && "sup1" !in PunctuationEntities
    ensures "sup1" !in SignEntities && "sup1" !in MarkupEntities
  {
  }

  /** With the corrected syntax the same input decodes to `¹`. */
  lemma SupOneFixed()
    ensures ReplaceHtmlEntitiesFixed(SupOneReference) == [0xB9]
  {
    SupOneEntry();
    SupOneDecoded(Table);
  }

  lemma SupOneDecoded(table: map<string, CodeUnit>)
    requires "sup1" in table
    ensures Decode(LettersThenAlnum, table, SupOneReference) == [table["sup1"]]
  {
    var name := SupName + [0x31];
    assert Chars(name) == "sup1";
    NamedReference(LettersThenAlnum, table, name, [Semi]);
    assert SupOneReference == [Amp] + name + [Semi];
    assert [Semi][1..] == [];
  }
}
