/** The `autoParser` class of src/utils/autoParser.ts: the same chain as
    `any.from`, written out as four guarded steps, with no way to suppress
    the error. Its private format detector is character for character the
    one of src/utils/detectFormat.ts, so `Detect` is reused. */
module AutoParser {
  import opened Wrappers
  import opened Formats
  import opened DetectFormat
  import opened Any

  /** One guarded step of the fallback: skipped for the predicted format and
      once a parser has succeeded; otherwise the parser runs and either wins
      or adds its error. */
  function Step<P>(parse: Parser<P>, text: string, predicted: Option<Candidate>, f: Candidate, a: Attempt<P>): (b: Attempt<P>)
    ensures a.winner.Some? || Some(f) == predicted ==> b == a
    ensures a.winner.None? && Some(f) != predicted ==>
              && b.tried == a.tried + [f]
              && (parse(f, text).Success? <==> b.winner.Some?)
              && (parse(f, text).Failure? ==> b.errors == a.errors + [(f, parse(f, text).error)])
              && (parse(f, text).Success? ==> b.errors == a.errors && b.winner.value == Structured(f, parse(f, text).value))
  {
    if a.winner.Some? || Some(f) == predicted then a
    else
      match parse(f, text)
      case Success(v) => Attempt(a.tried + [f], a.errors, Some(Structured(f, v)))
      case Failure(e) => Attempt(a.tried + [f], a.errors + [(f, e)], None)
  }

  /** The four steps in source order: json, xml, csv, yaml. */
  function Steps<P>(parse: Parser<P>, text: string, predicted: Option<Candidate>): Attempt<P> {
    var a0 := Attempt([], [], None);
    var a1 := Step(parse, text, predicted, Json, a0);
    var a2 := Step(parse, text, predicted, Xml, a1);
    var a3 := Step(parse, text, predicted, Csv, a2);
    Step(parse, text, predicted, Yaml, a3)
  }

  /** `parse`: the predicted parser alone when it succeeds, otherwise the
      four steps, then the error; `null` is never returned. */
  function Parse<P>(text: string, parse: Parser<P>): (run: Run<P>)
    ensures run.outcome.Parsed? || run.outcome.Thrown?
    ensures Detect(text).Some? ==> |run.tried| >= 1 && run.tried[0] == Detect(text).value
  {
    var predicted := Detect(text);
    if predicted.Some? && parse(predicted.value, text).Success? then
      Run([predicted.value], [], Parsed(Structured(predicted.value, parse(predicted.value, text).value)))
    else
      var pre := if predicted.Some? then [predicted.value] else [];
      var a := Steps(parse, text, predicted);
      var outcome := if a.winner.Some? then Parsed(a.winner.value) else Thrown(FailureMessage(a.errors));
      Run(pre + a.tried, a.errors, outcome)
  }

  /** `parseString`: the public entry point, which forwards to `parse`. */
  function ParseString<P>(text: string, parse: Parser<P>): (run: Run<P>)
    ensures run.outcome != Null
    ensures run.outcome.Parsed? <==> exists f: Candidate :: parse(f, text).Success?
  {
    ParseAgreesWithAny(text, parse);
    Parse(text, parse)
  }

  // ---------------------------------------------------------------------------
  // Agreement with `any.from`

  /** The steps over any list of formats, one after the other. */
  function StepAll<P>(parse: Parser<P>, text: string, predicted: Option<Candidate>, order: seq<Candidate>, a: Attempt<P>): Attempt<P> {
    if order == [] then a else StepAll(parse, text, predicted, order[1..], Step(parse, text, predicted, order[0], a))
  }

  /** The formats of `order` that the steps do not skip. */
  function Kept(order: seq<Candidate>, predicted: Option<Candidate>): seq<Candidate> {
    if predicted.None? then order else Without(order, predicted.value)
  }

  /** Once a parser has won, the remaining steps change nothing. */
  lemma {:induction false} StepAllDone<P>(parse: Parser<P>, text: string, predicted: Option<Candidate>, order: seq<Candidate>, a: Attempt<P>)
    requires a.winner.Some?
    ensures StepAll(parse, text, predicted, order, a) == a
  {
    if order != [] {
      StepAllDone(parse, text, predicted, order[1..], a);
    }
  }

  /** Running the guarded steps over `order` is running the loop of
      `any.from` over the formats that are not skipped. */
  lemma {:induction false} StepAllTries<P>(parse: Parser<P>, text: string, predicted: Option<Candidate>, order: seq<Candidate>, a: Attempt<P>)
    requires a.winner.None?
    ensures var t := TryInOrder(parse, text, Kept(order, predicted));
      StepAll(parse, text, predicted, order, a) == Attempt(a.tried + t.tried, a.errors + t.errors, t.winner)
  {
    if order == [] {
      assert a.tried + [] == a.tried && a.errors + [] == a.errors;
    } else {
      var f := order[0];
      var b := Step(parse, text, predicted, f, a);
      KeptCons(order, predicted);
      if Some(f) == predicted {
        StepAllTries(parse, text, predicted, order[1..], a);
      } else if parse(f, text).Success? {
        StepAllDone(parse, text, predicted, order[1..], b);
      } else {
        StepAllTries(parse, text, predicted, order[1..], b);
        var t := TryInOrder(parse, text, Kept(order[1..], predicted));
        AppendShift(a.tried, f, t.tried);
        AppendShift(a.errors, (f, parse(f, text).error), t.errors);
      }
    }
  }

  lemma KeptCons(order: seq<Candidate>, predicted: Option<Candidate>)
    requires order != []
    ensures Kept(order, predicted)
            == if Some(order[0]) == predicted then Kept(order[1..], predicted) else [order[0]] + Kept(order[1..], predicted)
  {
  }

  lemma AppendShift<T>(xs: seq<T>, x: T, ys: seq<T>)
    ensures (xs + [x]) + ys == xs + ([x] + ys)
  {
  }

  /** The four written-out steps are the steps over the fixed order. */
  lemma StepsUnrolled<P>(parse: Parser<P>, text: string, predicted: Option<Candidate>)
    ensures Steps(parse, text, predicted) == StepAll(parse, text, predicted, FallbackOrder, Attempt([], [], None))
  {
    var a0: Attempt<P> := Attempt([], [], None);
    var a1 := Step(parse, text, predicted, Json, a0);
    var a2 := Step(parse, text, predicted, Xml, a1);
    var a3 := Step(parse, text, predicted, Csv, a2);
    var a4 := Step(parse, text, predicted, Yaml, a3);
    assert [Yaml][1..] == [];
    assert StepAll(parse, text, predicted, [Yaml], a3) == a4;
    assert [Csv, Yaml][1..] == [Yaml];
    assert StepAll(parse, text, predicted, [Csv, Yaml], a2) == a4;
    assert [Xml, Csv, Yaml][1..] == [Csv, Yaml];
    assert StepAll(parse, text, predicted, [Xml, Csv, Yaml], a1) == a4;
    assert FallbackOrder[1..] == [Xml, Csv, Yaml];
  }

  /** The four written-out steps are the loop of `any.from` over the
      remaining formats. */
  lemma StepsAreTheLoop<P>(parse: Parser<P>, text: string, predicted: Option<Candidate>)
    ensures Steps(parse, text, predicted) == TryInOrder(parse, text, Remaining(predicted))
  {
    var a0: Attempt<P> := Attempt([], [], None);
    StepsUnrolled(parse, text, predicted);
    StepAllTries(parse, text, predicted, FallbackOrder, a0);
    var t := TryInOrder(parse, text, Remaining(predicted));
    assert [] + t.tried == t.tried && [] + t.errors == t.errors;
  }

  /** `autoParser.parse` behaves exactly as `any.from` with errors not
      suppressed. */
  lemma ParseAgreesWithAny<P>(text: string, parse: Parser<P>)
    ensures Parse(text, parse) == Any.From(text, parse, false)
  {
    StepsAreTheLoop(parse, text, Detect(text));
  }
}
