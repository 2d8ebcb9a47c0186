/**
 * The main loop of `ParsedDesc::parse_with_issues` exactly as written. Its unknown-field
 * branch leaves the loop body through `continue` before `processed_length` and
 * `current_field` are updated, while `parse_next` has already consumed lines from the shared
 * iterator. Once a handler lets an unknown field through, the loop keeps that field as its
 * current one for ever: it eats the rest of the lines and then repeats the same state.
 * `DescParse.ParseWithIssues` is the corrected loop.
 */
module DescAsWritten {
  import opened Wrappers
  import opened Text
  import opened DescField
  import opened Partial
  import opened DescParse
  import opened SeqFacts

  /**
   * The loop variables: the current header and its line, the position of the shared line
   * iterator, `processed_length` and the record built so far.
   */
  datatype LoopState = LoopState(current: Option<(RawField, string)>, pos: nat, processedLength: nat, parsed: ParsedDesc)

  /** What one pass through the loop body leads to. */
  datatype Outcome<E> =
    | Looping(state: LoopState)
    | Finished(result: PartialParseResult<ParsedDesc, E>)
    | SlicePanic

  /** Where the iterator stands after `parse_next` from `pos`: just after the header it returns, or at the end. */
  function PosAfterNext(toks: seq<Token>, pos: nat): (p: nat)
    requires pos <= |toks|
    ensures pos <= p <= |toks|
  {
    var k := NextHeader(toks, pos);
    if k < |toks| then k + 1 else |toks|
  }

  /**
   * One pass of the `while let` loop as written. The loop ends when there is no current
   * header; an out-of-range slice of the text panics.
   */
  function AsWrittenStep<E>(text: string, ls: seq<string>, s: LoopState, handle: DescParseIssue -> Result<(), E>): Outcome<E>
    requires s.pos <= |ls|
  {
    if s.current.None? then Finished(NewComplete(s.parsed))
    else
      var toks := Tokens(ls);
      var (field, fieldLine) := s.current.value;
      var k := NextHeader(toks, s.pos);
      var valueLength := |Concat(ls[s.pos..k])|;
      var next := if k < |ls| then Some((toks[k].value, ls[k])) else None;
      var pos := PosAfterNext(toks, s.pos);
      var valueStart := s.processedLength + |fieldLine|;
      var valueEnd := valueStart + valueLength;
      match ToParsed(field)
      case Ok(name) =>
        if valueEnd <= |text| then
          Looping(LoopState(next, pos, valueEnd, SetRawValue(s.parsed, name, Trim(text[valueStart..valueEnd]))))
        else SlicePanic
      case Err(_) =>
        match handle(UnknownField(field))
        case Err(error) => Finished(NewPartial(s.parsed, error))
        case Ok(_) => Looping(s.(pos := pos))
  }

  /**
   * The number of passes left once one has run. Runs count down through this function
   * rather than through `n - 1`, so that a run and the proofs about it name the same count.
   */
  function OneLess(n: nat): (m: nat)
    requires n > 0
    ensures m < n
  {
    n - 1
  }

  /** `n` passes of the loop, stopping early when it has ended. */
  function AsWrittenRun<E>(text: string, ls: seq<string>, s: LoopState, handle: DescParseIssue -> Result<(), E>, n: nat): Outcome<E>
    requires s.pos <= |ls|
    decreases n
  {
    if n == 0 then Looping(s)
    else match AsWrittenStep(text, ls, s, handle)
      case Looping(t) => if t.pos <= |ls| then AsWrittenRun(text, ls, t, handle, OneLess(n)) else Looping(t)
      case other => other
  }

  /** An accepted unknown header stays current; only the iterator moves on. */
  lemma UnknownFieldStays<E>(text: string, ls: seq<string>, s: LoopState, handle: DescParseIssue -> Result<(), E>)
    requires s.pos <= |ls| && s.current.Some? && ToParsed(s.current.value.0).Err?
    requires handle(UnknownField(s.current.value.0)).Ok?
    ensures AsWrittenStep(text, ls, s, handle) == Looping(s.(pos := PosAfterNext(Tokens(ls), s.pos)))
    ensures s.pos < |ls| ==> PosAfterNext(Tokens(ls), s.pos) > s.pos
    ensures s.pos == |ls| ==> AsWrittenStep(text, ls, s, handle) == Looping(s)
  {
  }

  /** Where the line iterator stands after `n` passes that each call `parse_next` once. */
  function PosAfterPasses(toks: seq<Token>, pos: nat, n: nat): (p: nat)
    requires pos <= |toks|
    ensures pos <= p <= |toks|
    decreases n
  {
    if n == 0 then pos else PosAfterPasses(toks, PosAfterNext(toks, pos), OneLess(n))
  }

  /**
   * The livelock: from a state whose current header is unknown and let through, no number
   * of passes ends the loop; each pass only moves the line iterator, so the current header,
   * `processed_length` and the record never change.
   */
  lemma {:induction false} NeverFinishes<E>(text: string, ls: seq<string>, s: LoopState, handle: DescParseIssue -> Result<(), E>, n: nat)
    requires s.pos <= |ls| && s.current.Some? && ToParsed(s.current.value.0).Err?
    requires handle(UnknownField(s.current.value.0)).Ok?
    ensures AsWrittenRun(text, ls, s, handle, n) == Looping(s.(pos := PosAfterPasses(Tokens(ls), s.pos, n)))
    decreases n
  {
    if n > 0 {
      UnknownFieldStays(text, ls, s, handle);
      var t := s.(pos := PosAfterNext(Tokens(ls), s.pos));
      RunOnePass(text, ls, s, handle, n, t);
      NeverFinishes(text, ls, t, handle, OneLess(n));
      assert t.(pos := PosAfterPasses(Tokens(ls), s.pos, n)) == s.(pos := PosAfterPasses(Tokens(ls), s.pos, n));
    } else {
      assert s.(pos := s.pos) == s;
    }
  }

  /**
   * Once enough passes have run, the loop sits in the same state with the line iterator
   * exhausted, which the next pass repeats unchanged (`UnknownFieldStays`).
   */
  lemma {:induction false} LivelockExhaustsLines<E>(text: string, ls: seq<string>, s: LoopState, handle: DescParseIssue -> Result<(), E>, n: nat)
    requires s.pos <= |ls| && s.current.Some? && ToParsed(s.current.value.0).Err?
    requires handle(UnknownField(s.current.value.0)).Ok?
    requires n >= |ls| - s.pos
    ensures AsWrittenRun(text, ls, s, handle, n) == Looping(s.(pos := |ls|))
    decreases n
  {
    if n > 0 {
      UnknownFieldStays(text, ls, s, handle);
      var t := s.(pos := PosAfterNext(Tokens(ls), s.pos));
      RunOnePass(text, ls, s, handle, n, t);
      LivelockExhaustsLines(text, ls, t, handle, OneLess(n));
      assert t.(pos := |ls|) == s.(pos := |ls|);
    } else {
      assert s.(pos := |ls|) == s;
    }
  }

  /** A pass that keeps the loop going leaves the remaining passes to run from its new state. */
  lemma RunOnePass<E>(text: string, ls: seq<string>, s: LoopState, handle: DescParseIssue -> Result<(), E>, n: nat, t: LoopState)
    requires s.pos <= |ls| && t.pos <= |ls| && n > 0
    requires AsWrittenStep(text, ls, s, handle) == Looping(t)
    ensures AsWrittenRun(text, ls, s, handle, n) == AsWrittenRun(text, ls, t, handle, OneLess(n))
  {
  }

  /** Where one pass of the first-field loop as written leads. */
  datatype FirstPass<E> =
    | Again(pos: nat)
    | Stopped(result: PartialParseResult<ParsedDesc, E>)
    | Entered(state: LoopState)

  /**
   * One pass of the first-field loop as written, with the line iterator at `pos`: `Again`
   * is `continue` with the iterator at its new position, `Stopped` an aborting handler and
   * `Entered` the `break` into the main loop. An accepted `EmptyInput` continues with the
   * iterator already exhausted, and a header found after skipped lines enters the main
   * loop with `processed_length` still 0.
   */
  function AsWrittenFirstStep<E>(ls: seq<string>, pos: nat, handle: DescParseIssue -> Result<(), E>): (o: FirstPass<E>)
    requires pos <= |ls|
    ensures o.Again? ==> pos <= o.pos <= |ls|
  {
    if pos == |ls| then
      match handle(DescParseIssue.EmptyInput)
      case Err(e) => Stopped(NewPartial(Default(), e))
      case Ok(_) => Again(pos)
    else match ParseRaw(Trim(ls[pos]))
      case Err(error) =>
        (match handle(FirstLineIsNotAField(ls[pos], error))
         case Err(e) => Stopped(NewPartial(Default(), e))
         case Ok(_) => Again(pos + 1))
      case Ok(first) => Entered(LoopState(Some((first, ls[pos])), pos + 1, 0, Default()))
  }

  /** `n` passes of the first-field loop, stopping early when it has been left. */
  function AsWrittenFirstRun<E>(ls: seq<string>, pos: nat, handle: DescParseIssue -> Result<(), E>, n: nat): FirstPass<E>
    requires pos <= |ls|
    decreases n
  {
    if n == 0 then Again(pos)
    else match AsWrittenFirstStep(ls, pos, handle)
      case Again(p) => AsWrittenFirstRun(ls, p, handle, OneLess(n))
      case other => other
  }

  /** As written, an accepted `EmptyInput` repeats itself: no number of passes leaves the loop. */
  lemma {:induction false} EmptyInputNeverFinishes<E>(ls: seq<string>, handle: DescParseIssue -> Result<(), E>, n: nat)
    requires handle(DescParseIssue.EmptyInput).Ok?
    ensures AsWrittenFirstRun(ls, |ls|, handle, n) == Again(|ls|)
    decreases n
  {
    if n > 0 {
      EmptyInputNeverFinishes(ls, handle, OneLess(n));
    }
  }

  /** As written, the empty text under a handler that lets `EmptyInput` through is never parsed. */
  lemma EmptyTextNeverFinishes<E>(handle: DescParseIssue -> Result<(), E>, n: nat)
    requires handle(DescParseIssue.EmptyInput).Ok?
    ensures AsWrittenFirstRun(LinesInclusive(""), 0, handle, n) == Again(0)
  {
    assert LinesInclusive("") == [];
    EmptyInputNeverFinishes([], handle, n);
  }

  /** Non-header lines let through are passed over one per pass until the header at `j`. */
  lemma {:induction false} FirstRunSkips<E>(ls: seq<string>, i: nat, j: nat, handle: DescParseIssue -> Result<(), E>, n: nat)
    requires i <= j < |ls| && n == j - i + 1
    requires forall k :: i <= k < j ==>
      ParseRaw(Trim(ls[k])).Err? && handle(FirstLineIsNotAField(ls[k], ParseRaw(Trim(ls[k])).error)).Ok?
    requires ParseRaw(Trim(ls[j])).Ok?
    ensures AsWrittenFirstRun(ls, i, handle, n) ==
      Entered(LoopState(Some((ParseRaw(Trim(ls[j])).value, ls[j])), j + 1, 0, Default()))
    decreases j - i
  {
    if i < j {
      FirstRunSkips(ls, i + 1, j, handle, OneLess(n));
    }
  }

  /**
   * As written, when the handler lets `j > 0` leading non-header lines through, the main
   * loop starts with `processed_length` 0 although the header line starts further on: the
   * value offset it computes falls before the end of the header line, so the first value
   * is sliced from the wrong place (and every later one too).
   */
  lemma SkippedLinesMisplaceValue<E>(text: string, handle: DescParseIssue -> Result<(), E>, j: nat)
    requires 0 < j < |LinesInclusive(text)|
    requires forall k :: 0 <= k < j ==> var l := LinesInclusive(text)[k];
      ParseRaw(Trim(l)).Err? && handle(FirstLineIsNotAField(l, ParseRaw(Trim(l)).error)).Ok?
    requires IsHeader(LinesInclusive(text)[j])
    ensures var ls := LinesInclusive(text); var o := AsWrittenFirstRun(ls, 0, handle, j + 1);
      o.Entered? && o.state.processedLength == 0 && o.state.current.Some? && o.state.current.value.1 == ls[j]
      && o.state.processedLength + |ls[j]| < |Concat(ls[..j + 1])|
  {
    var ls := LinesInclusive(text);
    FirstRunSkips(ls, 0, j, handle, j + 1);
    TakeSnoc(ls, j);
    ConcatAppend(ls[..j], [ls[j]]);
    assert Concat([ls[j]]) == ls[j] + Concat([]);
    assert ls[..j][0] == ls[0] != [];
  }

  /**
   * The first-field loop as written, for a handler that aborts on a malformed start: the
   * first line must be a header, and the iterator then stands at the second line. This is
   * the one pass `AsWrittenFirstStep` makes under such a handler.
   */
  function AsWrittenStart<E>(text: string, handle: DescParseIssue -> Result<(), E>): (o: Outcome<E>)
    requires AbortsOnMalformedStart(handle)
    ensures o.Looping? ==> o.state.pos == 1 && o.state.pos <= |LinesInclusive(text)|
    ensures o.Looping? ==> AsWrittenFirstStep(LinesInclusive(text), 0, handle) == Entered(o.state)
    ensures o.Finished? ==> AsWrittenFirstStep(LinesInclusive(text), 0, handle) == Stopped(o.result)
  {
    var ls := LinesInclusive(text);
    if ls == [] then Finished(NewPartial(Default(), handle(DescParseIssue.EmptyInput).error))
    else match ParseRaw(Trim(ls[0]))
      case Err(error) => Finished(NewPartial(Default(), handle(FirstLineIsNotAField(ls[0], error)).error))
      case Ok(first) => Looping(LoopState(Some((first, ls[0])), 1, 0, Default()))
  }

  /** No spelling in the catalog is longer than sixteen characters. */
  lemma SpellingLength(f: FieldName)
    ensures |NameStr(f)| <= 16
  {
  }

  /** A header name longer than every spelling of the catalog names no field. */
  lemma LongNameIsUnknown(name: string)
    requires |name| > 16
    ensures ToParsed(RawField(name)).Err?
  {
    ToParsedFails(RawField(name));
    forall f: FieldName ensures NameStr(f) != name {
      SpellingLength(f);
    }
  }

  /** The name of the unknown block inserted by the issue 30 test. */
  const Issue30Name: string := "THISFIELDISUNKNOWN"

  /** `%THISFIELDISUNKNOWN%` is a header line, and it names no field. */
  lemma Issue30HeaderIsUnknown()
    ensures ParseRaw(Display(RawField(Issue30Name))) == Ok(RawField(Issue30Name))
    ensures ToParsed(RawField(Issue30Name)).Err?
  {
    ParseRawDisplay(Issue30Name);
    LongNameIsUnknown(Issue30Name);
  }

  /**
   * A text whose first line is an unknown header, under a handler that lets unknown fields
   * through (such as `ParsedDesc::parse`'s): the loop as written is entered and never ends.
   */
  lemma UnknownFirstHeaderLivelock<E>(text: string, handle: DescParseIssue -> Result<(), E>, n: nat)
    requires AbortsOnMalformedStart(handle) && AcceptsUnknownFields(handle)
    requires LinesInclusive(text) != [] && IsHeader(LinesInclusive(text)[0])
    requires ToParsed(ParseRaw(Trim(LinesInclusive(text)[0])).value).Err?
    ensures var o := AsWrittenStart(text, handle);
      o.Looping? && AsWrittenRun(text, LinesInclusive(text), o.state, handle, n).Looping?
  {
    var o := AsWrittenStart(text, handle);
    NeverFinishes(text, LinesInclusive(text), o.state, handle, n);
  }
}
