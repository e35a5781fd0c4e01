/** The fallback parser of src/any.ts: try the detected format first, then
    every other format in a fixed order, keep the first success, and report
    the collected errors (or `null`) when nothing parses. */
module Any {
  import opened Wrappers
  import opened Text
  import opened Formats
  import opened DetectFormat
  import JsonText
  import Csv

  /** The per-format parsers the chain calls: a value, or the message of the
      error the parser throws. */
  type Parser<P> = (Candidate, string) -> Result<P, string>

  const FallbackOrder: seq<Candidate> := [Json, Xml, Csv, Yaml]

  const FailurePrefix := "Failed to parse data in any supported format: "

  /** No element occurs twice. */
  ghost predicate Distinct<T>(s: seq<T>) {
    forall i, j :: 0 <= i < j < |s| ==> s[i] != s[j]
  }

  /** The elements of `xs` other than `x`, in order. */
  function Without(xs: seq<Candidate>, x: Candidate): (r: seq<Candidate>)
    ensures forall f :: f in r <==> f in xs && f != x
    ensures |r| <= |xs|
    ensures Distinct(xs) ==> Distinct(r)
  {
    if xs == [] then []
    else if xs[0] == x then Without(xs[1..], x)
    else
      var rest := Without(xs[1..], x);
      assert Distinct(xs) ==> xs[0] !in xs[1..];
      [xs[0]] + rest
  }

  /** The formats tried after the prediction: json, xml, csv, yaml, minus the
      predicted one. */
  function Remaining(predicted: Option<Candidate>): (r: seq<Candidate>)
    ensures forall f: Candidate :: f in r <==> Some(f) != predicted
    ensures Distinct(r)
  {
    assert Distinct(FallbackOrder);
    if predicted.None? then FallbackOrder else Without(FallbackOrder, predicted.value)
  }

  /** The remaining formats spelled out for each prediction. */
  lemma RemainingOrder(predicted: Option<Candidate>)
    ensures predicted == None ==> Remaining(predicted) == [Json, Xml, Csv, Yaml]
    ensures predicted == Some(Json) ==> Remaining(predicted) == [Xml, Csv, Yaml]
    ensures predicted == Some(Xml) ==> Remaining(predicted) == [Json, Csv, Yaml]
    ensures predicted == Some(Csv) ==> Remaining(predicted) == [Json, Xml, Yaml]
    ensures predicted == Some(Yaml) ==> Remaining(predicted) == [Json, Xml, Csv]
  {
    assert FallbackOrder[1..] == [Xml, Csv, Yaml];
    assert [Xml, Csv, Yaml][1..] == [Csv, Yaml];
    assert [Csv, Yaml][1..] == [Yaml];
    assert [Yaml][1..] == [];
  }

  /** What a run of the fallback loop leaves: the formats whose parser ran,
      the errors of those that failed, and the first success if any. */
  datatype Attempt<P> = Attempt(tried: seq<Candidate>, errors: seq<(Candidate, string)>, winner: Option<Structured<P>>)

  /** Runs the parsers of `order` one after the other until one succeeds. */
  function TryInOrder<P>(parse: Parser<P>, text: string, order: seq<Candidate>): (a: Attempt<P>)
    ensures |a.tried| <= |order| && a.tried == order[..|a.tried|]
    ensures a.winner.None? <==> forall i :: 0 <= i < |order| ==> parse(order[i], text).Failure?
    ensures a.winner.None? ==> a.tried == order
    ensures a.winner.Some? ==>
              && |a.tried| >= 1
              && parse(a.tried[|a.tried| - 1], text).Success?
              && a.winner.value == Structured(a.tried[|a.tried| - 1], parse(a.tried[|a.tried| - 1], text).value)
    ensures |a.errors| == |a.tried| - (if a.winner.Some? then 1 else 0)
    ensures forall i :: 0 <= i < |a.errors| ==>
              a.errors[i].0 == a.tried[i] && parse(a.tried[i], text) == Failure(a.errors[i].1)
  {
    if order == [] then Attempt([], [], None)
    else
      var f := order[0];
      match parse(f, text)
      case Success(v) => Attempt([f], [], Some(Structured(f, v)))
      case Failure(e) =>
        var rest := TryInOrder(parse, text, order[1..]);
        TryAfterFailure(parse, text, order, e, rest);
        Attempt([f] + rest.tried, [(f, e)] + rest.errors, rest.winner)
  }

  /** The loop after a first parser that failed with `e`, given what the
      rest of the loop did. */
  lemma TryAfterFailure<P>(parse: Parser<P>, text: string, order: seq<Candidate>, e: string, rest: Attempt<P>)
    requires order != [] && parse(order[0], text) == Failure(e)
    requires |rest.tried| <= |order| - 1 && rest.tried == order[1..][..|rest.tried|]
    requires rest.winner.None? <==> forall i :: 0 <= i < |order| - 1 ==> parse(order[1..][i], text).Failure?
    requires rest.winner.None? ==> rest.tried == order[1..]
    requires |rest.errors| == |rest.tried| - (if rest.winner.Some? then 1 else 0)
    requires forall i :: 0 <= i < |rest.errors| ==>
               rest.errors[i].0 == rest.tried[i] && parse(rest.tried[i], text) == Failure(rest.errors[i].1)
    ensures var tried := [order[0]] + rest.tried;
            var errors := [(order[0], e)] + rest.errors;
            && tried == order[..|tried|]
            && (rest.winner.None? <==> forall i :: 0 <= i < |order| ==> parse(order[i], text).Failure?)
            && (rest.winner.None? ==> tried == order)
            && forall i :: 0 <= i < |errors| ==> errors[i].0 == tried[i] && parse(tried[i], text) == Failure(errors[i].1)
  {
    assert order == [order[0]] + order[1..];
    var tried := [order[0]] + rest.tried;
    var errors := [(order[0], e)] + rest.errors;
    forall i | 0 <= i < |errors|
      ensures errors[i].0 == tried[i] && parse(tried[i], text) == Failure(errors[i].1)
    {
      if i > 0 {
        assert errors[i] == rest.errors[i - 1] && tried[i] == rest.tried[i - 1];
      }
    }
    assert (forall i :: 0 <= i < |order| ==> parse(order[i], text).Failure?)
       <==> (forall i :: 0 <= i < |order| - 1 ==> parse(order[1..][i], text).Failure?) by {
      if forall i :: 0 <= i < |order| - 1 ==> parse(order[1..][i], text).Failure? {
        forall i | 0 <= i < |order|
          ensures parse(order[i], text).Failure?
        {
          if i > 0 {
            assert order[i] == order[1..][i - 1];
          }
        }
      }
    }
  }

  /** What `any.from` produces: a parsed value, `null`, or a thrown error. */
  datatype Outcome<P> = Parsed(data: Structured<P>) | Null | Thrown(message: string)

  /** The outcome together with the parsers that ran, in order, and the
      errors the fallback loop recorded. */
  datatype Run<P> = Run(tried: seq<Candidate>, errors: seq<(Candidate, string)>, outcome: Outcome<P>)

  /** The error record as `JSON.stringify` sees it: properties named after
      the formats, in the order they were added. */
  function ErrorEntries(errors: seq<(Candidate, string)>): (e: JsonText.Entries)
    ensures |e| == |errors| && forall i :: 0 <= i < |errors| ==> e[i] == (errors[i].0.Name(), errors[i].1)
  {
    if errors == [] then [] else [(errors[0].0.Name(), errors[0].1)] + ErrorEntries(errors[1..])
  }

  function FailureMessage(errors: seq<(Candidate, string)>): string {
    FailurePrefix + JsonText.Stringify(ErrorEntries(errors))
  }

  /** The fallback loop of `any.from` after the predicted parser, if any,
      has failed: the other formats in the fixed order until one succeeds;
      when none does the result is `Null` if `suppressErrors` is set and an
      error carrying the collected messages otherwise. */
  function Fallback<P>(text: string, predicted: Option<Candidate>, parse: Parser<P>, suppressErrors: bool): (run: Run<P>)
    requires predicted.Some? ==> parse(predicted.value, text).Failure?
    // every parser runs at most once: the predicted one, then the others in
    // the fixed order
    ensures var all := (if predicted.Some? then [predicted.value] else []) + Remaining(predicted);
              && |run.tried| <= |all| && run.tried == all[..|run.tried|]
              && Distinct(run.tried)
    ensures run.outcome.Null? <==> !run.outcome.Parsed? && suppressErrors
    ensures run.outcome.Thrown? ==> run.outcome.message == FailureMessage(run.errors)
  {
    var rest := Remaining(predicted);
    var pre := if predicted.Some? then [predicted.value] else [];
    RemainingCovers(predicted);
    var a := TryInOrder(parse, text, rest);
    TriedPrefix(pre, rest, a.tried);
    Settle(pre, a, suppressErrors)
  }

  /** A prefix of the loop's order, after the prediction, is a prefix of the
      whole order and repeats nothing. */
  lemma TriedPrefix(pre: seq<Candidate>, rest: seq<Candidate>, tried: seq<Candidate>)
    requires |tried| <= |rest| && tried == rest[..|tried|]
    requires Distinct(pre + rest)
    ensures |pre + tried| <= |pre + rest| && pre + tried == (pre + rest)[..|pre + tried|]
    ensures Distinct(pre + tried)
  {
    PrefixAfter(pre, rest, |tried|);
    PrefixDistinct(pre + rest, |pre| + |tried|);
  }

  /** The run once the loop has stopped: the winner, or null or a throw. */
  function Settle<P>(pre: seq<Candidate>, a: Attempt<P>, suppressErrors: bool): (run: Run<P>)
    ensures run.tried == pre + a.tried && run.errors == a.errors
    ensures run.outcome.Parsed? <==> a.winner.Some?
    ensures run.outcome.Parsed? ==> run.outcome.data == a.winner.value
    ensures run.outcome.Null? <==> a.winner.None? && suppressErrors
    ensures run.outcome.Thrown? ==> run.outcome.message == FailureMessage(run.errors)
  {
    var outcome :=
      if a.winner.Some? then Parsed(a.winner.value)
      else if suppressErrors then Null
      else Thrown(FailureMessage(a.errors));
    Run(pre + a.tried, a.errors, outcome)
  }

  /** In the fallback loop the first success wins: the last parser tried
      succeeded, its value is the result, and every earlier one failed. */
  lemma FallbackFirstSuccessWins<P>(text: string, predicted: Option<Candidate>, parse: Parser<P>, suppressErrors: bool)
    requires predicted.Some? ==> parse(predicted.value, text).Failure?
    ensures var run := Fallback(text, predicted, parse, suppressErrors);
      run.outcome.Parsed? ==>
        && |run.tried| >= 1
        && var f := run.tried[|run.tried| - 1];
        && parse(f, text).Success?
        && run.outcome.data == Structured(f, parse(f, text).value)
        && forall i :: 0 <= i < |run.tried| - 1 ==> parse(run.tried[i], text).Failure?
  {
    var pre := if predicted.Some? then [predicted.value] else [];
    var a := TryInOrder(parse, text, Remaining(predicted));
    SettleFirstSuccessWins(parse, text, pre, Remaining(predicted), a, suppressErrors);
    FallbackSettles(text, predicted, parse, suppressErrors);
  }

  /** The fallback is the loop over the remaining formats, settled. */
  lemma FallbackSettles<P>(text: string, predicted: Option<Candidate>, parse: Parser<P>, suppressErrors: bool)
    requires predicted.Some? ==> parse(predicted.value, text).Failure?
    ensures Fallback(text, predicted, parse, suppressErrors)
            == Settle(if predicted.Some? then [predicted.value] else [], TryInOrder(parse, text, Remaining(predicted)), suppressErrors)
  {
  }

  /** The first-success property of a settled run, from what the loop
      guarantees about its attempt. */
  lemma SettleFirstSuccessWins<P>(parse: Parser<P>, text: string, pre: seq<Candidate>, order: seq<Candidate>, a: Attempt<P>, suppressErrors: bool)
    requires forall f <- pre :: parse(f, text).Failure?
    requires a == TryInOrder(parse, text, order)
    ensures var run := Settle(pre, a, suppressErrors);
      run.outcome.Parsed? ==>
        && |run.tried| >= 1
        && var f := run.tried[|run.tried| - 1];
        && parse(f, text).Success?
        && run.outcome.data == Structured(f, parse(f, text).value)
        && forall i :: 0 <= i < |run.tried| - 1 ==> parse(run.tried[i], text).Failure?
  {
    var tried := pre + a.tried;
    if a.winner.Some? {
      assert tried[|tried| - 1] == a.tried[|a.tried| - 1];
    }
    forall i | 0 <= i < |tried| - 1
      ensures parse(tried[i], text).Failure?
    {
      if i < |pre| {
        assert tried[i] in pre;
      } else {
        assert tried[i] == a.tried[i - |pre|];
      }
    }
  }

  /** The predicted parser's error is never recorded. */
  lemma FallbackSkipsPredicted<P>(text: string, predicted: Option<Candidate>, parse: Parser<P>, suppressErrors: bool)
    requires predicted.Some? ==> parse(predicted.value, text).Failure?
    ensures forall e <- Fallback(text, predicted, parse, suppressErrors).errors :: Some(e.0) != predicted
  {
    var pre := if predicted.Some? then [predicted.value] else [];
    var rest := Remaining(predicted);
    var a := TryInOrder(parse, text, rest);
    FallbackSettles(text, predicted, parse, suppressErrors);
    if predicted.Some? {
      ErrorsAvoid(a.errors, a.tried, rest, predicted.value);
    }
  }

  /** Errors recorded along a prefix of `order` never name a format outside
      it. */
  lemma ErrorsAvoid(errors: seq<(Candidate, string)>, tried: seq<Candidate>, order: seq<Candidate>, x: Candidate)
    requires |errors| <= |tried| <= |order| && tried == order[..|tried|]
    requires forall i :: 0 <= i < |errors| ==> errors[i].0 == tried[i]
    requires x !in order
    ensures forall e <- errors :: e.0 != x
  {
    forall e <- errors
      ensures e.0 != x
    {
      var i :| 0 <= i < |errors| && errors[i] == e;
      assert e.0 == order[i];
    }
  }

  /** Total failure: every parser failed, and one error was recorded per
      remaining format, in the fixed order. */
  lemma FallbackTotalFailure<P>(text: string, predicted: Option<Candidate>, parse: Parser<P>, suppressErrors: bool)
    requires predicted.Some? ==> parse(predicted.value, text).Failure?
    ensures var run := Fallback(text, predicted, parse, suppressErrors);
      !run.outcome.Parsed? ==>
        && (forall f: Candidate :: parse(f, text).Failure?)
        && |run.errors| == |Remaining(predicted)|
        && forall i :: 0 <= i < |run.errors| ==>
             run.errors[i].0 == Remaining(predicted)[i] && parse(run.errors[i].0, text) == Failure(run.errors[i].1)
  {
    var pre := if predicted.Some? then [predicted.value] else [];
    var a := TryInOrder(parse, text, Remaining(predicted));
    FallbackSettles(text, predicted, parse, suppressErrors);
    EveryParserFailed(parse, text, predicted);
  }

  /** The body of `any.from` once the format has been predicted: the
      predicted parser first, alone if it succeeds; its failure is
      swallowed and the fallback loop runs. */
  function Chain<P>(text: string, predicted: Option<Candidate>, parse: Parser<P>, suppressErrors: bool): (run: Run<P>)
    ensures predicted.Some? ==> |run.tried| >= 1 && run.tried[0] == predicted.value
    ensures predicted.Some? && parse(predicted.value, text).Success? ==>
              && run.tried == [predicted.value]
              && run.outcome == Parsed(Structured(predicted.value, parse(predicted.value, text).value))
    ensures run.outcome.Parsed? <==> exists f: Candidate :: parse(f, text).Success?
    ensures run.outcome.Parsed? ==>
              && |run.tried| >= 1
              && run.outcome.data.origin == run.tried[|run.tried| - 1]
              && parse(run.tried[|run.tried| - 1], text) == Success(run.outcome.data.payload)
    ensures run.outcome.Null? <==> !run.outcome.Parsed? && suppressErrors
    ensures run.outcome.Thrown? ==> run.outcome.message == FailureMessage(run.errors)
  {
    if predicted.Some? && parse(predicted.value, text).Success? then
      Run([predicted.value], [], Parsed(Structured(predicted.value, parse(predicted.value, text).value)))
    else
      FallbackFirstSuccessWins(text, predicted, parse, suppressErrors);
      FallbackTotalFailure(text, predicted, parse, suppressErrors);
      Fallback(text, predicted, parse, suppressErrors)
  }

  /** `any.from`: predict the format of the text, then run the chain. The
      detected format's parser runs first and alone when it succeeds; the
      result is a value exactly when some parser accepts the text, and that
      value is what the parser returned; `null` only when every parser
      failed and errors are suppressed; otherwise the collected errors are
      thrown. */
  function From<P>(text: string, parse: Parser<P>, suppressErrors: bool): (run: Run<P>)
    ensures Detect(text).Some? ==> |run.tried| >= 1 && run.tried[0] == Detect(text).value
    ensures Detect(text).Some? && parse(Detect(text).value, text).Success? ==> run.tried == [Detect(text).value]
    ensures run.outcome.Parsed? <==> exists f: Candidate :: parse(f, text).Success?
    ensures run.outcome.Parsed? ==>
              && |run.tried| >= 1
              && run.outcome.data.origin == run.tried[|run.tried| - 1]
              && parse(run.tried[|run.tried| - 1], text) == Success(run.outcome.data.payload)
    ensures run.outcome.Null? <==> suppressErrors && forall f: Candidate :: parse(f, text).Failure?
    ensures run.outcome.Thrown? ==> !suppressErrors && run.outcome.message == FailureMessage(run.errors)
  {
    var run := Chain(text, Detect(text), parse, suppressErrors);
    NoneParsed(parse, text);
    run
  }

  /** No parser succeeds exactly when every parser fails. */
  lemma NoneParsed<P>(parse: Parser<P>, text: string)
    ensures (forall f: Candidate :: parse(f, text).Failure?) <==> !exists f: Candidate :: parse(f, text).Success?
  {
  }

  /** When the loop found no winner, every candidate's parser failed. */
  lemma EveryParserFailed<P>(parse: Parser<P>, text: string, predicted: Option<Candidate>)
    requires predicted.Some? ==> parse(predicted.value, text).Failure?
    ensures (forall i :: 0 <= i < |Remaining(predicted)| ==> parse(Remaining(predicted)[i], text).Failure?) ==>
              forall f: Candidate :: parse(f, text).Failure?
  {
    var rest := Remaining(predicted);
    RemainingCovers(predicted);
    if forall i :: 0 <= i < |rest| ==> parse(rest[i], text).Failure? {
      forall f: Candidate
        ensures parse(f, text).Failure?
      {
        if Some(f) != predicted {
          var pre := if predicted.Some? then [predicted.value] else [];
          assert f in pre + rest;
          assert f in rest;
          var k :| 0 <= k < |rest| && rest[k] == f;
        }
      }
    }
  }

  lemma PrefixAfter<T>(pre: seq<T>, rest: seq<T>, k: nat)
    requires k <= |rest|
    ensures pre + rest[..k] == (pre + rest)[..|pre| + k]
  {
  }

  lemma PrefixDistinct<T>(all: seq<T>, k: nat)
    requires k <= |all| && Distinct(all)
    ensures Distinct(all[..k])
  {
  }

  /** The prediction and the remaining formats are all four candidates, each
      once. */
  lemma RemainingCovers(predicted: Option<Candidate>)
    ensures var pre := if predicted.Some? then [predicted.value] else [];
      var all := pre + Remaining(predicted);
      && (forall f: Candidate :: f in all)
      && Distinct(all)
      && (forall f <- Remaining(predicted) :: Some(f) != predicted)
  {
    var pre := if predicted.Some? then [predicted.value] else [];
    var rest := Remaining(predicted);
    var all := pre + rest;
    forall f: Candidate
      ensures f in all
    {
      if Some(f) == predicted {
        assert all[0] == f;
      } else {
        assert f in rest;
      }
    }
    forall i, j | 0 <= i < j < |all|
      ensures all[i] != all[j]
    {
      if i >= |pre| {
        assert all[i] == rest[i - |pre|] && all[j] == rest[j - |pre|];
      } else {
        assert all[j] in rest;
      }
    }
  }

  /** `suppressErrors` defaults to false: without the argument, total failure
      throws. */
  function FromDefault<P>(text: string, parse: Parser<P>): (run: Run<P>)
    ensures run.outcome != Null
    ensures run.outcome.Parsed? || run.outcome.Thrown?
  {
    From(text, parse, false)
  }

  /** The message of the thrown error is the fixed prefix followed by text
      from which every format and its message can be read back, in the
      order they were tried. */
  lemma ThrownMessageReadable<P>(text: string, parse: Parser<P>)
    requires From(text, parse, false).outcome.Thrown?
    ensures var run := From(text, parse, false); var m := run.outcome.message;
      |m| > |FailurePrefix| && m[..|FailurePrefix|] == FailurePrefix
      && JsonText.ReadObject(m[|FailurePrefix|..]) == Some(ErrorEntries(run.errors))
  {
    var run := From(text, parse, false);
    var j := JsonText.Stringify(ErrorEntries(run.errors));
    JsonText.ReadStringify(ErrorEntries(run.errors));
    assert (FailurePrefix + j)[|FailurePrefix|..] == j;
  }

  // ---------------------------------------------------------------------------
  // The chain with this library's own parsers

  /** A payload: the value of a foreign parser (JSON, YAML) or the CSV data. */
  datatype Value<J> = Native(native: J) | Table(table: Csv.CsvData)

  const NotImplementedMessage := "Function not implemented."

  /** The library's parsers: JSON and YAML are supplied (their code is not
      part of this model), XML always throws, CSV is `csv.from` without a
      header. */
  function Library<J>(json: string -> Result<J, string>, yaml: string -> Result<J, string>): Parser<Value<J>> {
    (f: Candidate, t: string) =>
      if f == Json then json(t).MapSuccess(j => Native(j))
      else if f == Xml then Failure(NotImplementedMessage)
      else if f == Csv then CsvValue(t)
      else yaml(t).MapSuccess(j => Native(j))
  }

  /** `csv.from(text)` with no options, its data wrapped as a payload. */
  function CsvValue<J>(text: string): (r: Result<Value<J>, string>)
    ensures r.Success? <==> Csv.From(text, false).Success?
    ensures r.Success? ==> r.value == Table(Csv.From(text, false).value)
  {
    match Csv.From(text, false)
    case Success(d) => Success(Table(d))
    case Failure(e) => Failure(e)
  }

  /** The library's CSV parser succeeds exactly when `csv.from` does. */
  lemma LibraryCsv<J>(json: string -> Result<J, string>, yaml: string -> Result<J, string>, text: string)
    ensures Library(json, yaml)(Csv, text).Success? <==> Csv.From(text, false).Success?
  {
    assert Library(json, yaml)(Csv, text) == CsvValue(text);
  }

  /** Whatever the JSON and YAML parsers do, the chain only fails as a whole
      on text that is blank or holds an odd number of `"` after trimming:
      the CSV parser accepts everything else. */
  lemma LibraryFailsOnlyOnBlankOrOpenQuote<J>(text: string, json: string -> Result<J, string>,
                                              yaml: string -> Result<J, string>, suppressErrors: bool)
    requires !From(text, Library(json, yaml), suppressErrors).outcome.Parsed?
    ensures AllSpace(text) || Count(Trim(text), '"') % 2 == 1
  {
    ChainFailedAll(text, Detect(text), Library(json, yaml), suppressErrors);
    LibraryCsv(json, yaml, text);
    CsvFromFails(text);
  }

  /** When the chain as a whole fails, the CSV parser failed too. */
  lemma ChainFailedAll<P>(text: string, predicted: Option<Candidate>, parse: Parser<P>, suppressErrors: bool)
    requires !Chain(text, predicted, parse, suppressErrors).outcome.Parsed?
    ensures parse(Csv, text).Failure?
  {
  }

  /** `csv.from` fails only on blank text or an unbalanced quote. */
  lemma CsvFromFails(text: string)
    requires Csv.From(text, false).Failure?
    ensures AllSpace(text) || Count(Trim(text), '"') % 2 == 1
  {
    Csv.ParseOutcome(text);
  }

  /** Plain prose without quotes is taken as one CSV cell, so the chain
      never throws or returns null on it, whatever the flag. */
  lemma ProseParses<J>(text: string, json: string -> Result<J, string>,
                       yaml: string -> Result<J, string>, suppressErrors: bool)
    requires !AllSpace(text) && '"' !in text
    ensures From(text, Library(json, yaml), suppressErrors).outcome.Parsed?
  {
    CsvFromProse(text);
    LibraryCsv(json, yaml, text);
    ChainSucceeds(text, Detect(text), Library(json, yaml), suppressErrors);
  }

  /** The chain succeeds as soon as the CSV parser does. */
  lemma ChainSucceeds<P>(text: string, predicted: Option<Candidate>, parse: Parser<P>, suppressErrors: bool)
    requires parse(Csv, text).Success?
    ensures Chain(text, predicted, parse, suppressErrors).outcome.Parsed?
  {
  }

  /** `csv.from` accepts non-blank text without quotes. */
  lemma CsvFromProse(text: string)
    requires !AllSpace(text) && '"' !in text
    ensures Csv.From(text, false).Success?
  {
    var t := Trim(text);
    assert '"' !in t by {
      TrimIsInfix(text);
    }
    CountAbsent(t, '"');
    Csv.ParseOutcome(text);
  }

  /** The input of the library's own test that expects a throw. */
  const Prose := "This is not valid in any supported format"

  lemma ProseExample<J>(json: string -> Result<J, string>, yaml: string -> Result<J, string>)
    ensures From(Prose, Library(json, yaml), false).outcome.Parsed?
    ensures From(Prose, Library(json, yaml), true).outcome.Parsed?
  {
    assert !IsSpace(Prose[0]);
    ProseParses(Prose, json, yaml, false);
    ProseParses(Prose, json, yaml, true);
  }
}
