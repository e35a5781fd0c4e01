/** The format detector of src/utils/detectFormat.ts: an ordered chain of four
    checks over the trimmed text, each a regular expression in the source and
    an explicit predicate here. */
module DetectFormat {
  import opened Wrappers
  import opened Text
  import opened Formats

  /** The formats the detector can answer with. */
  type Candidate = f: Format | f != Format.Toml witness Format.Json

  // ---------------------------------------------------------------------------
  // JSON: the first and last characters are matching brackets

  predicate JsonShaped(t: string) {
    |t| >= 1 && ((t[0] == '{' && t[|t| - 1] == '}') || (t[0] == '[' && t[|t| - 1] == ']'))
  }

  // ---------------------------------------------------------------------------
  // XML: `<\/?[a-zA-Z][\w\-\.]*[^<>]*>` (case-insensitive). The word run is
  // swallowed by the `[^<>]*` run after it, so a match is `<`, an optional
  // `/`, an ASCII letter, a run free of `<` and `>`, then `>`.

  predicate IsAsciiLetter(c: char) {
    ('a' <= c <= 'z') || ('A' <= c <= 'Z')
  }

  predicate IsAngle(c: char) {
    c == '<' || c == '>'
  }

  /** The regex matches with its `<` at `i`, its letter at `l` and its `>`
      at `j`. */
  ghost predicate TagMatch(t: string, i: int, l: int, j: int) {
    && 0 <= i < l < j < |t|
    && t[i] == '<'
    && (l == i + 1 || (l == i + 2 && t[i + 1] == '/'))
    && IsAsciiLetter(t[l])
    && t[j] == '>'
    && (forall m :: l < m < j ==> !IsAngle(t[m]))
  }

  ghost predicate HasTag(t: string) {
    exists i, l, j :: TagMatch(t, i, l, j)
  }

  /** Whether the first `<` or `>` at or after `k` is a `>`. */
  function CloseAhead(t: string, k: nat): (b: bool)
    decreases |t| - k
  {
    if k >= |t| then false
    else if t[k] == '>' then true
    else if t[k] == '<' then false
    else CloseAhead(t, k + 1)
  }

  lemma {:induction false} CloseAheadSpec(t: string, k: nat)
    ensures CloseAhead(t, k) <==> exists j :: k <= j < |t| && t[j] == '>' && forall m :: k <= m < j ==> !IsAngle(t[m])
    decreases |t| - k
  {
    if k < |t| && !IsAngle(t[k]) {
      CloseAheadSpec(t, k + 1);
      if CloseAhead(t, k + 1) {
        var j :| k + 1 <= j < |t| && t[j] == '>' && forall m :: k + 1 <= m < j ==> !IsAngle(t[m]);
        assert forall m :: k <= m < j ==> !IsAngle(t[m]);
      }
    }
  }

  /** Where the letter of a tag opened at `i` sits, if there is one. */
  function LetterAt(t: string, i: nat): (l: Option<nat>)
    ensures l.Some? ==> i < l.value < |t| && IsAsciiLetter(t[l.value])
  {
    if i + 1 < |t| && IsAsciiLetter(t[i + 1]) then Some(i + 1)
    else if i + 2 < |t| && t[i + 1] == '/' && IsAsciiLetter(t[i + 2]) then Some(i + 2)
    else None
  }

  predicate TagAt(t: string, i: nat) {
    i < |t| && t[i] == '<' && LetterAt(t, i).Some? && CloseAhead(t, LetterAt(t, i).value + 1)
  }

  /** Whether a tag starts at or after `i`. */
  function TagFrom(t: string, i: nat): bool
    decreases |t| - i
  {
    i < |t| && (TagAt(t, i) || TagFrom(t, i + 1))
  }

  lemma TagAtSpec(t: string, i: nat)
    ensures TagAt(t, i) <==> exists l, j :: TagMatch(t, i, l, j)
  {
    if i < |t| && t[i] == '<' {
      if LetterAt(t, i).Some? {
        var l := LetterAt(t, i).value;
        CloseAheadSpec(t, l + 1);
        if CloseAhead(t, l + 1) {
          var j :| l + 1 <= j < |t| && t[j] == '>' && forall m :: l + 1 <= m < j ==> !IsAngle(t[m]);
          assert TagMatch(t, i, l, j);
        }
        if l2, j :| TagMatch(t, i, l2, j) {
          assert l2 == l;
          assert l + 1 <= j && forall m :: l + 1 <= m < j ==> !IsAngle(t[m]);
        }
      } else {
        if l, j :| TagMatch(t, i, l, j) {
          assert false;
        }
      }
    }
  }

  lemma {:induction false} TagFromSpec(t: string, i: nat)
    ensures TagFrom(t, i) <==> exists i', l, j :: i <= i' && TagMatch(t, i', l, j)
    decreases |t| - i
  {
    if i < |t| {
      TagAtSpec(t, i);
      TagFromSpec(t, i + 1);
      if i', l, j :| i <= i' && TagMatch(t, i', l, j) {
        if i' > i {
          assert i + 1 <= i';
        }
      }
    }
  }

  predicate XmlShaped(t: string) {
    |t| >= 1 && t[0] == '<' && TagFrom(t, 0)
  }

  // ---------------------------------------------------------------------------
  // CSV: a line feed, a `,` or `;`, and none of `{}[]<>`

  predicate IsBracket(c: char) {
    c == '{' || c == '}' || c == '[' || c == ']' || c == '<' || c == '>'
  }

  predicate CsvShaped(t: string) {
    && '\n' in t
    && (',' in t || ';' in t)
    && (forall c <- t :: !IsBracket(c))
  }

  // ---------------------------------------------------------------------------
  // YAML: `^[a-zA-Z0-9_-]+:\s` or `^\s*-\s+[a-zA-Z0-9_-]+`, multiline

  predicate IsNameChar(c: char) {
    IsAsciiLetter(c) || IsDigit(c) || c == '_' || c == '-'
  }

  /** Where multiline `^` matches: the start, or just after a line terminator. */
  predicate LineStart(t: string, p: int) {
    0 <= p <= |t| && (p == 0 || IsLineTerminator(t[p - 1]))
  }

  /** The end of the run of name characters starting at `p`. */
  function NameRunEnd(t: string, p: nat): (k: nat)
    requires p <= |t|
    ensures p <= k <= |t| && (k == |t| || !IsNameChar(t[k]))
    ensures forall m :: p <= m < k ==> IsNameChar(t[m])
    decreases |t| - p
  {
    if p < |t| && IsNameChar(t[p]) then NameRunEnd(t, p + 1) else p
  }

  /** The end of the run of whitespace starting at `p`. */
  function SpaceRunEnd(t: string, p: nat): (k: nat)
    requires p <= |t|
    ensures p <= k <= |t| && (k == |t| || !IsSpace(t[k]))
    ensures forall m :: p <= m < k ==> IsSpace(t[m])
    decreases |t| - p
  {
    if p < |t| && IsSpace(t[p]) then SpaceRunEnd(t, p + 1) else p
  }

  /** A key line: a line starting with a name, `:` and whitespace. */
  ghost predicate KeyLineMatch(t: string, p: int, k: int) {
    LineStart(t, p) && KeyBody(t, p, k)
  }

  ghost predicate KeyBody(t: string, p: int, k: int) {
    && 0 <= p < k && k + 1 < |t|
    && (forall m :: p <= m < k ==> IsNameChar(t[m]))
    && t[k] == ':' && IsSpace(t[k + 1])
  }

  /** A list line: optional whitespace, `-`, whitespace, a name character. */
  ghost predicate ListLineMatch(t: string, p: int, q: int, r: int) {
    LineStart(t, p) && ListBody(t, p, q, r)
  }

  ghost predicate ListBody(t: string, p: int, q: int, r: int) {
    && 0 <= p <= q && q + 1 < r < |t|
    && (forall m :: p <= m < q ==> IsSpace(t[m]))
    && t[q] == '-'
    && (forall m :: q < m < r ==> IsSpace(t[m]))
    && IsNameChar(t[r])
  }

  predicate KeyLineAt(t: string, p: nat)
    requires p <= |t|
  {
    var k := NameRunEnd(t, p);
    p < k && k + 1 < |t| && t[k] == ':' && IsSpace(t[k + 1])
  }

  predicate ListLineAt(t: string, p: nat)
    requires p <= |t|
  {
    var q := SpaceRunEnd(t, p);
    q < |t| && t[q] == '-' && (var r := SpaceRunEnd(t, q + 1); q + 1 < r < |t| && IsNameChar(t[r]))
  }

  /** Whether some line start at or after `p` begins a key line or a list
      line. */
  function YamlFrom(t: string, p: nat): bool
    requires p <= |t|
    decreases |t| - p
  {
    if p == |t| then false
    else (LineStart(t, p) && (KeyLineAt(t, p) || ListLineAt(t, p))) || YamlFrom(t, p + 1)
  }

  lemma KeyLineAtSpec(t: string, p: nat)
    requires p <= |t|
    ensures KeyLineAt(t, p) <==> exists k :: KeyBody(t, p, k)
  {
    var e := NameRunEnd(t, p);
    if KeyLineAt(t, p) {
      assert KeyBody(t, p, e);
    }
    if k :| KeyBody(t, p, k) {
      assert e == k;
    }
  }

  lemma ListLineAtSpec(t: string, p: nat)
    requires p <= |t|
    ensures ListLineAt(t, p) <==> exists q, r :: ListBody(t, p, q, r)
  {
    var q0 := SpaceRunEnd(t, p);
    if ListLineAt(t, p) {
      assert ListBody(t, p, q0, SpaceRunEnd(t, q0 + 1));
    }
    if q, r :| ListBody(t, p, q, r) {
      assert q0 == q;
      assert SpaceRunEnd(t, q + 1) == r;
    }
  }

  /** A YAML-looking line starts at `p`. */
  ghost predicate YamlLineAt(t: string, p: int) {
    (exists k :: KeyLineMatch(t, p, k)) || (exists q, r :: ListLineMatch(t, p, q, r))
  }

  ghost predicate HasYamlLine(t: string, from: int) {
    exists p :: from <= p && YamlLineAt(t, p)
  }

  lemma YamlLineAtSpec(t: string, p: nat)
    requires p <= |t|
    ensures LineStart(t, p) && (KeyLineAt(t, p) || ListLineAt(t, p)) <==> YamlLineAt(t, p)
  {
    KeyLineAtSpec(t, p);
    ListLineAtSpec(t, p);
    if LineStart(t, p) && KeyLineAt(t, p) {
      var k :| KeyBody(t, p, k);
      assert KeyLineMatch(t, p, k);
    }
    if LineStart(t, p) && ListLineAt(t, p) {
      var q, r :| ListBody(t, p, q, r);
      assert ListLineMatch(t, p, q, r);
    }
    if k :| KeyLineMatch(t, p, k) {
      assert KeyBody(t, p, k);
    }
    if q, r :| ListLineMatch(t, p, q, r) {
      assert ListBody(t, p, q, r);
    }
  }

  /** No YAML-looking line starts at or past the end. */
  lemma NoYamlLineAtEnd(t: string, p: int)
    requires p >= |t|
    ensures !YamlLineAt(t, p)
  {
    if k :| KeyLineMatch(t, p, k) {
      assert false;
    }
    if q, r :| ListLineMatch(t, p, q, r) {
      assert false;
    }
  }

  lemma {:induction false} YamlFromSpec(t: string, p: nat)
    requires p <= |t|
    ensures YamlFrom(t, p) <==> HasYamlLine(t, p)
    decreases |t| - p
  {
    if p < |t| {
      YamlFromSpec(t, p + 1);
      YamlLineAtSpec(t, p);
      if p2 :| p <= p2 && YamlLineAt(t, p2) {
        if p2 > p {
          assert p + 1 <= p2;
        }
      }
    } else {
      if p2 :| p <= p2 && YamlLineAt(t, p2) {
        NoYamlLineAtEnd(t, p2);
      }
    }
  }

  predicate YamlShaped(t: string) {
    YamlFrom(t, 0)
  }

  // ---------------------------------------------------------------------------
  // The chain

  /** `detectFormat`: the first check that fires on the trimmed text, in the
      order json, xml, csv, yaml; `None` stands for `null`. */
  function Detect(text: string): (r: Option<Candidate>)
    ensures var t := Trim(text);
      && (r == Some(Json) <==> JsonShaped(t))
      && (r == Some(Xml) <==> !JsonShaped(t) && |t| >= 1 && t[0] == '<' && HasTag(t))
      && (r == Some(Csv) <==> !JsonShaped(t) && !(|t| >= 1 && t[0] == '<' && HasTag(t)) && CsvShaped(t))
      && (r == Some(Yaml) <==> !JsonShaped(t) && !(|t| >= 1 && t[0] == '<' && HasTag(t)) && !CsvShaped(t) && HasYamlLine(t, 0))
      && (r == None <==> !JsonShaped(t) && !(|t| >= 1 && t[0] == '<' && HasTag(t)) && !CsvShaped(t) && !HasYamlLine(t, 0))
  {
    var t := Trim(text);
    TagFromSpec(t, 0);
    YamlFromSpec(t, 0);
    if JsonShaped(t) then Some(Json)
    else if XmlShaped(t) then Some(Xml)
    else if CsvShaped(t) then Some(Csv)
    else if YamlShaped(t) then Some(Yaml)
    else None
  }

  /** Blank text has no format. */
  lemma DetectBlank(text: string)
    requires AllSpace(text)
    ensures Detect(text) == None
  {
    var t := Trim(text);
    assert t == [];
    if p :| 0 <= p && YamlLineAt(t, p) {
      NoYamlLineAtEnd(t, p);
    }
  }

  /** Only the trimmed text matters. */
  lemma DetectTrimmed(text: string)
    ensures Detect(Trim(text)) == Detect(text)
  {
    TrimIdempotent(text);
  }
}
