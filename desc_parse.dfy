/**
 * The eager engine for the flat `desc` format: `ParsedDesc::parse_with_issues` makes one pass
 * over the inclusive lines of the text and stores, for every recognised `%FIELD%` header, the
 * trimmed text between that header line and the next one.
 *
 * The reference for the pass is the value-span rule `Entries` over the line sequence and
 * `RunEntries`, which feeds the entries to the issue handler in order. `ParseWithIssues` is
 * proved equal to it; the remaining lemmas state what the rule promises. `AsWrittenStep`
 * models the loop exactly as written, whose unknown-field branch never advances.
 */
module DescParse {
  import opened Wrappers
  import opened Text
  import opened DescField
  import opened Partial
  import opened SeqFacts

  /** `ParsedDesc`: at most one raw value per field. */
  datatype ParsedDesc = ParsedDesc(values: map<FieldName, string>)

  /** `ParsedDesc::default()`: no field has a value. */
  function Default(): (p: ParsedDesc)
    ensures forall f :: GetRawValue(p, f).None?
  {
    ParsedDesc(map[])
  }

  /** `get_raw_value`, which is also `query_raw_text`. */
  function GetRawValue(p: ParsedDesc, f: FieldName): Option<string> {
    if f in p.values then Some(p.values[f]) else None
  }

  /** `set_raw_value`: overwrite the value of one field. */
  function SetRawValue(p: ParsedDesc, f: FieldName, v: string): (r: ParsedDesc)
    ensures GetRawValue(r, f) == Some(v)
    ensures forall g :: g != f ==> GetRawValue(r, g) == GetRawValue(p, g)
  {
    ParsedDesc(p.values[f := v])
  }

  /** `DescParseError` */
  datatype DescParseError = EmptyInput | ValueWithoutField(line: string)

  /** `DescParseIssue` */
  datatype DescParseIssue =
    | EmptyInput
    | FirstLineIsNotAField(line: string, error: ParseRawFieldError)
    | UnknownField(field: RawField)

  /** `DescParseIssue::ignore_unknown_field`, the handler used by `ParsedDesc::parse`. */
  function IgnoreUnknownField(issue: DescParseIssue): (r: Result<(), DescParseError>)
    ensures r.Ok? <==> issue.UnknownField?
    ensures issue.EmptyInput? ==> r == Err(DescParseError.EmptyInput)
    ensures issue.FirstLineIsNotAField? ==> r == Err(ValueWithoutField(issue.line))
  {
    match issue
    case EmptyInput => Err(DescParseError.EmptyInput)
    case FirstLineIsNotAField(line, _) => Err(ValueWithoutField(line))
    case UnknownField(_) => Ok(())
  }

  /**
   * Handlers that abort on an empty input and on a first line that is not a header. Under
   * them the first-field loop as written makes at most one pass (see `DescAsWritten`).
   */
  ghost predicate AbortsOnMalformedStart<E>(handle: DescParseIssue -> Result<(), E>) {
    handle(DescParseIssue.EmptyInput).Err? &&
    forall line, error :: handle(FirstLineIsNotAField(line, error)).Err?
  }

  /** Handlers that let every unknown field through. */
  ghost predicate AcceptsUnknownFields<E>(handle: DescParseIssue -> Result<(), E>) {
    forall raw :: handle(UnknownField(raw)).Ok?
  }

  /** What the header tokenizer makes of one line. */
  type Token = Result<RawField, ParseRawFieldError>

  /** The token of every line: a line is a header iff its trimmed text tokenizes as `%NAME%`. */
  function Tokens(ls: seq<string>): (toks: seq<Token>)
    ensures |toks| == |ls|
  {
    seq(|ls|, i requires 0 <= i < |ls| => ParseRaw(Trim(ls[i])))
  }

  /** A line is a header iff its trimmed text tokenizes as `%NAME%`. */
  predicate IsHeader(line: string) {
    ParseRaw(Trim(line)).Ok?
  }

  /** The tokens of a concatenation are the concatenated tokens. */
  lemma TokensAppend(a: seq<string>, b: seq<string>)
    ensures Tokens(a + b) == Tokens(a) + Tokens(b)
  {
    assert forall i :: 0 <= i < |a| ==> (a + b)[i] == a[i];
    assert forall i :: |a| <= i < |a| + |b| ==> (a + b)[i] == b[i - |a|];
  }

  /** Index of the first header token at or after `from`, or `|toks|` when there is none. */
  function NextHeader(toks: seq<Token>, from: nat): (k: nat)
    requires from <= |toks|
    ensures from <= k <= |toks|
    ensures k < |toks| ==> toks[k].Ok?
    decreases |toks| - from
  {
    if from == |toks| || toks[from].Ok? then from else NextHeader(toks, from + 1)
  }

  /** The first header at or after `from` is the one after a run of non-header tokens. */
  lemma {:induction false} NextHeaderAt(toks: seq<Token>, from: nat, k: nat)
    requires from <= k <= |toks|
    requires forall i :: from <= i < k ==> toks[i].Err?
    requires k == |toks| || toks[k].Ok?
    ensures NextHeader(toks, from) == k
    decreases k - from
  {
    if from < k {
      NextHeaderAt(toks, from + 1, k);
    }
  }

  /** Every token skipped on the way to the next header is not a header. */
  lemma {:induction false} NextHeaderSkips(toks: seq<Token>, from: nat, i: nat)
    requires from <= |toks| && from <= i < NextHeader(toks, from)
    ensures toks[i].Err?
    decreases |toks| - from
  {
    if from < i {
      NextHeaderSkips(toks, from + 1, i);
    }
  }

  /** The next header is found before the end of `ta` when `tb` starts with a header. */
  lemma {:induction false} NextHeaderPrefix(ta: seq<Token>, tb: seq<Token>, from: nat)
    requires from <= |ta| && tb != [] && tb[0].Ok?
    ensures NextHeader(ta + tb, from) == NextHeader(ta, from)
    decreases |ta| - from
  {
    if from < |ta| {
      assert (ta + tb)[from] == ta[from];
      if ta[from].Err? {
        NextHeaderPrefix(ta, tb, from + 1);
      }
    } else {
      assert (ta + tb)[from] == tb[0];
    }
  }

  /** Searching a suffix finds the same header, counted from the suffix. */
  lemma {:induction false} NextHeaderDrop(toks: seq<Token>, j: nat, from: nat)
    requires j + from <= |toks|
    ensures NextHeader(toks[j..], from) + j == NextHeader(toks, j + from)
    decreases |toks| - j - from
  {
    if j + from < |toks| {
      assert toks[j..][from] == toks[j + from];
      if toks[j + from].Err? {
        NextHeaderDrop(toks, j, from + 1);
      }
    }
  }

  /** A header and the lines of the value that belongs to it. */
  datatype Entry = Entry(field: RawField, lines: seq<string>)

  /** The value of an entry: the trimmed text of its lines. */
  function Value(e: Entry): string {
    Trim(Concat(e.lines))
  }

  /**
   * The value-span rule, for lines that start with a header: every header line owns the
   * non-header lines that follow it, up to the next header line or the end.
   */
  function Entries(ls: seq<string>, toks: seq<Token>): (es: seq<Entry>)
    requires |toks| == |ls| && ls != [] && toks[0].Ok?
    ensures es != []
    decreases |ls|
  {
    var k := NextHeader(toks, 1);
    [Entry(toks[0].value, ls[1..k])] + (if k < |ls| then Entries(ls[k..], toks[k..]) else [])
  }

  lemma EntriesUnfold(ls: seq<string>, toks: seq<Token>, k: nat)
    requires |toks| == |ls| && ls != [] && toks[0].Ok? && k == NextHeader(toks, 1)
    ensures Entries(ls, toks) == [Entry(toks[0].value, ls[1..k])] + (if k < |ls| then Entries(ls[k..], toks[k..]) else [])
  {
  }

  /** The entries from the header at line `j` on, in the line numbering of the whole text. */
  lemma EntriesAt(ls: seq<string>, toks: seq<Token>, j: nat)
    requires |toks| == |ls| && j < |ls| && toks[j].Ok?
    ensures var k := NextHeader(toks, j + 1);
      Entries(ls[j..], toks[j..]) ==
        [Entry(toks[j].value, ls[j + 1..k])] + (if k < |ls| then Entries(ls[k..], toks[k..]) else [])
  {
    var k := NextHeader(toks, j + 1);
    var sl, st := ls[j..], toks[j..];
    assert st[0] == toks[j];
    assert NextHeader(st, 1) == k - j by { NextHeaderDrop(toks, j, 1); }
    assert sl[1..k - j] == ls[j + 1..k] by { SliceOfDrop(ls, j, 1, k - j); }
    assert sl[k - j..] == ls[k..] by { DropOfDrop(ls, j, k - j); }
    assert st[k - j..] == toks[k..] by { DropOfDrop(toks, j, k - j); }
    var head := Entry(toks[j].value, ls[j + 1..k]);
    assert Entry(st[0].value, sl[1..k - j]) == head;
    EntriesUnfoldTo(sl, st, k - j, head, ls[k..], toks[k..]);
  }

  /** `EntriesUnfold` with the first entry and the remaining lines given by name. */
  lemma EntriesUnfoldTo(ls: seq<string>, toks: seq<Token>, k: nat, head: Entry, lsRest: seq<string>, toksRest: seq<Token>)
    requires |toks| == |ls| && ls != [] && toks[0].Ok? && k == NextHeader(toks, 1)
    requires head == Entry(toks[0].value, ls[1..k]) && lsRest == ls[k..] && toksRest == toks[k..]
    ensures Entries(ls, toks) == [head] + (if k < |ls| then Entries(lsRest, toksRest) else [])
  {
    EntriesUnfold(ls, toks, k);
  }

  /** Lines that start with a header, followed by lines that start with a header, split into the two entry lists. */
  lemma {:induction false} EntriesAppend(a: seq<string>, ta: seq<Token>, b: seq<string>, tb: seq<Token>)
    requires |ta| == |a| && |tb| == |b| && a != [] && ta[0].Ok?
    requires b != [] && tb[0].Ok?
    ensures (ta + tb)[0] == ta[0]
    ensures Entries(a + b, ta + tb) == Entries(a, ta) + Entries(b, tb)
    decreases |a|
  {
    var k := NextHeader(ta, 1);
    NextHeaderPrefix(ta, tb, 1);
    SliceOfAppendLeft(a, b, 1, k);
    SliceOfAppendLeft(ta, tb, 0, 1);
    DropOfAppend(a, b, k);
    DropOfAppend(ta, tb, k);
    EntriesUnfold(a + b, ta + tb, k);
    EntriesUnfold(a, ta, k);
    var rest := if k < |a| then Entries(a[k..], ta[k..]) else [];
    if k < |a| {
      EntriesAppend(a[k..], ta[k..], b, tb);
    }
    AppendAssoc([Entry(ta[0].value, a[1..k])], rest, Entries(b, tb));
  }

  /** The entries in order, each known one stored and each unknown one given to the handler. */
  function RunEntries<E>(es: seq<Entry>, parsed: ParsedDesc, handle: DescParseIssue -> Result<(), E>)
    : PartialParseResult<ParsedDesc, E>
    decreases |es|
  {
    if es == [] then NewComplete(parsed)
    else match ToParsed(es[0].field)
      case Ok(f) => RunEntries(es[1..], SetRawValue(parsed, f, Value(es[0])), handle)
      case Err(_) =>
        match handle(UnknownField(es[0].field))
        case Err(e) => NewPartial(parsed, e)
        case Ok(_) => RunEntries(es[1..], parsed, handle)
  }

  /**
   * The first-field loop from line `i` on: each line that is not a header goes to the
   * handler as `FirstLineIsNotAField` and is skipped when let through, and running out of
   * lines goes to it as `EmptyInput`, which ends the parse with an empty record when let
   * through. The first header line starts the run of entries.
   */
  function StartFrom<E>(ls: seq<string>, toks: seq<Token>, i: nat, handle: DescParseIssue -> Result<(), E>)
    : PartialParseResult<ParsedDesc, E>
    requires |toks| == |ls| && i <= |ls|
    decreases |ls| - i
  {
    if i == |ls| then
      match handle(DescParseIssue.EmptyInput)
      case Err(e) => NewPartial(Default(), e)
      case Ok(_) => NewComplete(Default())
    else if toks[i].Err? then
      match handle(FirstLineIsNotAField(ls[i], toks[i].error))
      case Err(e) => NewPartial(Default(), e)
      case Ok(_) => StartFrom(ls, toks, i + 1, handle)
    else RunFrom(ls, toks, i, Default(), handle)
  }

  /** The result `parse_with_issues` promises for a sequence of inclusive lines. */
  function ParseLinesSpec<E>(ls: seq<string>, handle: DescParseIssue -> Result<(), E>)
    : PartialParseResult<ParsedDesc, E>
  {
    StartFrom(ls, Tokens(ls), 0, handle)
  }

  function ParseSpec<E>(text: string, handle: DescParseIssue -> Result<(), E>)
    : PartialParseResult<ParsedDesc, E>
  {
    ParseLinesSpec(LinesInclusive(text), handle)
  }

  /**
   * `parse_next`: consume lines until a header line, which is returned with its index, and
   * count the characters of the value lines before it.
   */
  method ParseNext(ls: seq<string>, ghost toks: seq<Token>, from: nat, ghost k: nat)
    returns (valueLength: nat, next: Option<(RawField, nat)>)
    requires toks == Tokens(ls) && from <= |ls| && k == NextHeader(toks, from)
    ensures valueLength == |Concat(ls[from..k])|
    ensures next.None? <==> k == |ls|
    ensures next.Some? ==> next.value.1 == k && toks[next.value.1] == Ok(next.value.0)
  {
    valueLength := 0;
    var i := from;
    while i < |ls|
      invariant from <= i <= |ls|
      invariant NextHeader(toks, i) == NextHeader(toks, from)
      invariant valueLength == |Concat(ls[from..i])|
    {
      var field := ParseRaw(Trim(ls[i]));
      assert field == toks[i];
      if field.Ok? {
        return valueLength, Some((field.value, i));
      }
      SliceSnoc(ls, from, i);
      ConcatAppend(ls[from..i], [ls[i]]);
      valueLength := valueLength + |ls[i]|;
      i := i + 1;
    }
    next := None;
  }

  /** The characters of lines `a..b` sit at the offsets of `a` and `b` in the whole text. */
  lemma ConcatSlice(ls: seq<string>, a: nat, b: nat)
    requires a <= b <= |ls|
    ensures |Concat(ls[..a])| + |Concat(ls[a..b])| == |Concat(ls[..b])|
    ensures |Concat(ls[..b])| <= |Concat(ls)|
    ensures Concat(ls)[|Concat(ls[..a])|..|Concat(ls[..b])|] == Concat(ls[a..b])
  {
    assert ls[..b] == ls[..a] + ls[a..b];
    ConcatAppend(ls[..a], ls[a..b]);
    assert ls == ls[..b] + ls[b..];
    ConcatAppend(ls[..b], ls[b..]);
  }

  /** The value of the header at line `j` is the text between the end of that line and line `k`. */
  lemma ValueSpan(text: string, ls: seq<string>, j: nat, k: nat)
    requires text == Concat(ls) && j < k <= |ls|
    ensures |Concat(ls[..j])| + |ls[j]| + |Concat(ls[j + 1..k])| == |Concat(ls[..k])| <= |text|
    ensures text[|Concat(ls[..j])| + |ls[j]|..|Concat(ls[..k])|] == Concat(ls[j + 1..k])
  {
    ConcatSlice(ls, j, j + 1);
    ConcatSlice(ls, j + 1, k);
    assert ls[j..j + 1] == [ls[j]];
    assert Concat([ls[j]]) == ls[j] + Concat([]);
  }

  /** The value of the entry at line `j`, read from the text at the offsets the main loop computes. */
  lemma ValueAt(text: string, ls: seq<string>, j: nat, from: nat, k: nat, start: nat, end: nat, e: Entry)
    requires text == Concat(ls) && from == j + 1 && from <= k <= |ls|
    requires start == |Concat(ls[..j])| + |ls[j]| && end == start + |Concat(ls[from..k])|
    requires e.lines == ls[from..k]
    ensures start <= end == |Concat(ls[..k])| <= |text| && Trim(text[start..end]) == Value(e)
  {
    ValueSpan(text, ls, j, k);
  }

  /** One entry of the run: a known field is stored, an unknown one goes to the handler. */
  lemma RunEntriesCons<E>(e: Entry, rest: seq<Entry>, parsed: ParsedDesc, handle: DescParseIssue -> Result<(), E>)
    ensures ToParsed(e.field).Ok? ==>
      RunEntries([e] + rest, parsed, handle) == RunEntries(rest, SetRawValue(parsed, ToParsed(e.field).value, Value(e)), handle)
    ensures Rejected(e, handle) ==>
      RunEntries([e] + rest, parsed, handle) == NewPartial(parsed, handle(UnknownField(e.field)).error)
    ensures ToParsed(e.field).Err? && !Rejected(e, handle) ==>
      RunEntries([e] + rest, parsed, handle) == RunEntries(rest, parsed, handle)
  {
    assert ([e] + rest)[0] == e;
    assert ([e] + rest)[1..] == rest;
  }

  /** What is left to run from line `k` on, which is a header line or the end of the lines. */
  function RunFrom<E>(ls: seq<string>, toks: seq<Token>, k: nat, parsed: ParsedDesc, handle: DescParseIssue -> Result<(), E>)
    : PartialParseResult<ParsedDesc, E>
    requires |toks| == |ls| && k <= |ls| && (k < |ls| ==> toks[k].Ok?)
  {
    if k < |ls| then RunEntries(Entries(ls[k..], toks[k..]), parsed, handle) else NewComplete(parsed)
  }

  /**
   * One pass of the main loop over the header at line `j`: a known field stores its value
   * and the run goes on at the next header, an unknown one rejected by the handler stops
   * the run, and an unknown one let through is skipped.
   */
  lemma RunFromStep<E>(ls: seq<string>, toks: seq<Token>, j: nat, from: nat, k: nat, parsed: ParsedDesc, handle: DescParseIssue -> Result<(), E>)
    requires |toks| == |ls| && j < |ls| && toks[j].Ok? && from == j + 1 && k == NextHeader(toks, from)
    ensures var e := Entry(toks[j].value, ls[from..k]);
      var run := RunFrom(ls, toks, j, parsed, handle);
      (ToParsed(e.field).Ok? ==> run == RunFrom(ls, toks, k, SetRawValue(parsed, ToParsed(e.field).value, Value(e)), handle))
      && (Rejected(e, handle) ==> run == NewPartial(parsed, handle(UnknownField(e.field)).error))
      && (ToParsed(e.field).Err? && !Rejected(e, handle) ==> run == RunFrom(ls, toks, k, parsed, handle))
  {
    var e := Entry(toks[j].value, ls[from..k]);
    var rest := if k < |ls| then Entries(ls[k..], toks[k..]) else [];
    EntriesAt(ls, toks, j);
    RunEntriesCons(e, rest, parsed, handle);
  }

  /**
   * `ParsedDesc::parse_with_issues`, with two corrections: `processed_length` counts the
   * lines the first-field loop skips, and an accepted `EmptyInput` ends the parse (see
   * `DescAsWritten.AsWrittenFirstStep`); the unknown-field branch advances like every other
   * branch (see `DescAsWritten.AsWrittenStep`).
   */
  method ParseWithIssues<E>(text: string, handle: DescParseIssue -> Result<(), E>)
    returns (r: PartialParseResult<ParsedDesc, E>)
    ensures r == ParseSpec(text, handle)
  {
    var ls := LinesInclusive(text);
    ghost var toks := Tokens(ls);
    ConcatLinesInclusive(text);
    var i := 0;
    var processedLength := 0;
    while i < |ls| && ParseRaw(Trim(ls[i])).Err?
      invariant i <= |ls| && processedLength == |Concat(ls[..i])|
      invariant StartFrom(ls, toks, i, handle) == ParseSpec(text, handle)
      decreases |ls| - i
    {
      var verdict := handle(FirstLineIsNotAField(ls[i], ParseRaw(Trim(ls[i])).error));
      if verdict.Err? {
        return NewPartial(Default(), verdict.error);
      }
      TakeSnoc(ls, i);
      ConcatAppend(ls[..i], [ls[i]]);
      processedLength := processedLength + |ls[i]|;
      i := i + 1;
    }
    if i == |ls| {
      var verdict := handle(DescParseIssue.EmptyInput);
      if verdict.Err? {
        return NewPartial(Default(), verdict.error);
      }
      return NewComplete(Default());
    }
    r := ParseFields(text, ls, toks, i, processedLength, ParseRaw(Trim(ls[i])).value, handle);
  }

  /**
   * The main loop of `parse_with_issues`, from the first header line `start` on.
   * `processedLength` is always the offset at which the current header line starts.
   */
  method ParseFields<E>(text: string, ls: seq<string>, ghost toks: seq<Token>, start: nat, startOffset: nat,
                        first: RawField, handle: DescParseIssue -> Result<(), E>)
    returns (r: PartialParseResult<ParsedDesc, E>)
    requires text == Concat(ls) && toks == Tokens(ls) && start < |ls| && toks[start] == Ok(first)
    requires startOffset == |Concat(ls[..start])|
    ensures r == RunFrom(ls, toks, start, Default(), handle)
  {
    ghost var spec := RunFrom(ls, toks, start, Default(), handle);
    var parsed := Default();
    var processedLength := startOffset;
    var current: Option<(RawField, nat)> := Some((first, start));
    ghost var pos := start;
    while current.Some?
      invariant pos <= |ls| && (pos < |ls| ==> toks[pos].Ok?) && RunFrom(ls, toks, pos, parsed, handle) == spec
      invariant current.None? <==> pos == |ls|
      invariant current.Some? ==> current.value.1 == pos && toks[pos] == Ok(current.value.0)
      invariant current.Some? ==> processedLength == |Concat(ls[..pos])|
      decreases |ls| - pos
    {
      var (field, j) := current.value;
      var from := j + 1;
      ghost var k := NextHeader(toks, from);
      var valueLength, next := ParseNext(ls, toks, from, k);
      var valueStart := processedLength + |ls[j]|;
      var valueEnd := valueStart + valueLength;
      ghost var e := Entry(field, ls[from..k]);
      ValueAt(text, ls, j, from, k, valueStart, valueEnd, e);
      RunFromStep(ls, toks, j, from, k, parsed, handle);
      var known := ToParsed(field);
      if known.Ok? {
        var value := Trim(text[valueStart..valueEnd]);
        assert value == Value(e);
        parsed := SetRawValue(parsed, known.value, value);
        assert RunFrom(ls, toks, k, parsed, handle) == spec;
      } else {
        var verdict := handle(UnknownField(field));
        if verdict.Err? {
          assert Rejected(e, handle);
          return NewPartial(parsed, verdict.error);
        }
        assert RunFrom(ls, toks, k, parsed, handle) == spec;
      }
      processedLength := valueEnd;
      current := next;
      pos := k;
    }
    return NewComplete(parsed);
  }

  /** `ParsedDesc::parse` (and `TryFrom<&str>`): unknown fields are ignored. */
  method Parse(text: string) returns (r: Result<ParsedDesc, DescParseError>)
    ensures r == TryIntoComplete(ParseSpec(text, IgnoreUnknownField))
    ensures text == [] <==> r == Err(DescParseError.EmptyInput)
    ensures var ls := LinesInclusive(text);
      ls != [] ==> (Tokens(ls)[0].Err? <==> r == Err(ValueWithoutField(ls[0])))
  {
    var partial := ParseWithIssues(text, IgnoreUnknownField);
    r := TryIntoComplete(partial);
    ConcatLinesInclusive(text);
    var ls := LinesInclusive(text);
    if ls != [] && Tokens(ls)[0].Ok? {
      StartsAtHeader(ls, IgnoreUnknownField);
      RunEntriesAccepting(Entries(ls, Tokens(ls)), Default(), IgnoreUnknownField);
    }
  }

  /** A text whose first line is a header is the run of its entries, whatever the handler. */
  lemma StartsAtHeader<E>(ls: seq<string>, handle: DescParseIssue -> Result<(), E>)
    requires ls != [] && Tokens(ls)[0].Ok?
    ensures ParseLinesSpec(ls, handle) == RunEntries(Entries(ls, Tokens(ls)), Default(), handle)
  {
    assert ls[0..] == ls;
    assert Tokens(ls)[0..] == Tokens(ls);
  }

  /** Corrected: an empty text let through by the handler parses to the empty record. */
  lemma AcceptedEmptyInputCompletes<E>(handle: DescParseIssue -> Result<(), E>)
    requires handle(DescParseIssue.EmptyInput).Ok?
    ensures ParseSpec("", handle) == NewComplete(Default())
  {
    assert LinesInclusive("") == [];
  }

  /** The first-field loop skips, one by one, the non-header lines its handler lets through. */
  lemma {:induction false} StartSkips<E>(ls: seq<string>, toks: seq<Token>, i: nat, j: nat, handle: DescParseIssue -> Result<(), E>)
    requires |toks| == |ls| && i <= j <= |ls|
    requires forall k :: i <= k < j ==> toks[k].Err? && handle(FirstLineIsNotAField(ls[k], toks[k].error)).Ok?
    ensures StartFrom(ls, toks, i, handle) == StartFrom(ls, toks, j, handle)
    decreases j - i
  {
    if i < j {
      StartSkips(ls, toks, i + 1, j, handle);
    }
  }

  /**
   * Corrected: lines in front of the first header that the handler lets through as
   * `FirstLineIsNotAField` are skipped, and the values are read as if the text began at
   * that header.
   */
  lemma LeadingNonHeaderLinesIgnored<E>(pre: seq<string>, ls: seq<string>, handle: DescParseIssue -> Result<(), E>)
    requires forall k :: 0 <= k < |pre| ==>
      ParseRaw(Trim(pre[k])).Err? && handle(FirstLineIsNotAField(pre[k], ParseRaw(Trim(pre[k])).error)).Ok?
    requires ls != [] && IsHeader(ls[0])
    ensures ParseLinesSpec(pre + ls, handle) == ParseLinesSpec(ls, handle)
  {
    var toks := Tokens(pre + ls);
    TokensAppend(pre, ls);
    assert forall k :: 0 <= k < |pre| ==> (pre + ls)[k] == pre[k] && toks[k] == Tokens(pre)[k];
    StartSkips(pre + ls, toks, 0, |pre|, handle);
    assert (pre + ls)[|pre|..] == ls;
    assert toks[|pre|..] == Tokens(ls);
    StartsAtHeader(ls, handle);
  }

  // ---------------------------------------------------------------------------------------
  // What the value-span rule promises

  /** The known entries applied in order, each overwriting the value of its field. */
  function ApplyKnown(es: seq<Entry>, p: ParsedDesc): ParsedDesc
    decreases |es|
  {
    if es == [] then p
    else ApplyKnown(es[1..], match ToParsed(es[0].field)
      case Ok(f) => SetRawValue(p, f, Value(es[0]))
      case Err(_) => p)
  }

  /** Under a handler that lets unknown fields through, the run completes with every known entry applied. */
  lemma {:induction false} RunEntriesAccepting<E>(es: seq<Entry>, p: ParsedDesc, handle: DescParseIssue -> Result<(), E>)
    requires AcceptsUnknownFields(handle)
    ensures RunEntries(es, p, handle) == NewComplete(ApplyKnown(es, p))
    decreases |es|
  {
    if es != [] {
      match ToParsed(es[0].field)
      case Ok(f) => RunEntriesAccepting(es[1..], SetRawValue(p, f, Value(es[0])), handle);
      case Err(_) => RunEntriesAccepting(es[1..], p, handle);
    }
  }

  /** An entry the handler stops at: an unknown field whose issue the handler rejects. */
  predicate Rejected<E>(e: Entry, handle: DescParseIssue -> Result<(), E>) {
    ToParsed(e.field).Err? && handle(UnknownField(e.field)).Err?
  }

  /** Index of the first rejected entry, or `|es|` when there is none. */
  function FirstRejected<E>(es: seq<Entry>, handle: DescParseIssue -> Result<(), E>): (i: nat)
    ensures i <= |es|
    ensures i < |es| ==> Rejected(es[i], handle)
    decreases |es|
  {
    if es == [] || Rejected(es[0], handle) then 0 else 1 + FirstRejected(es[1..], handle)
  }

  /** No entry before the first rejected one is rejected. */
  lemma {:induction false} FirstRejectedIsFirst<E>(es: seq<Entry>, handle: DescParseIssue -> Result<(), E>, j: nat)
    requires j < FirstRejected(es, handle)
    ensures !Rejected(es[j], handle)
    decreases |es|
  {
    if j > 0 {
      FirstRejectedIsFirst(es[1..], handle, j - 1);
    }
  }

  /**
   * The run stops exactly at the first unknown field the handler rejects, with that verdict
   * as its error and every known entry before it applied; without such a field it completes.
   */
  lemma {:induction false} RunEntriesStops<E>(es: seq<Entry>, p: ParsedDesc, handle: DescParseIssue -> Result<(), E>)
    ensures var i := FirstRejected(es, handle);
      RunEntries(es, p, handle) ==
        if i == |es| then NewComplete(ApplyKnown(es, p))
        else NewPartial(ApplyKnown(es[..i], p), handle(UnknownField(es[i].field)).error)
    decreases |es|
  {
    if es != [] && !Rejected(es[0], handle) {
      var p' := match ToParsed(es[0].field) case Ok(f) => SetRawValue(p, f, Value(es[0])) case Err(_) => p;
      RunEntriesStops(es[1..], p', handle);
      var i := FirstRejected(es[1..], handle);
      assert es[..i + 1][1..] == es[1..][..i];
    }
  }

  /** A field no entry names keeps the value it had. */
  lemma {:induction false} ApplyKnownUntouched(es: seq<Entry>, p: ParsedDesc, f: FieldName)
    requires forall j :: 0 <= j < |es| ==> ToParsed(es[j].field) != Ok(f)
    ensures GetRawValue(ApplyKnown(es, p), f) == GetRawValue(p, f)
    decreases |es|
  {
    if es != [] {
      var p' := match ToParsed(es[0].field) case Ok(g) => SetRawValue(p, g, Value(es[0])) case Err(_) => p;
      ApplyKnownUntouched(es[1..], p', f);
    }
  }

  /** Last occurrence wins: a field's value is that of the last entry naming it. */
  lemma {:induction false} LastOccurrenceWins(es: seq<Entry>, p: ParsedDesc, f: FieldName, i: nat)
    requires i < |es| && ToParsed(es[i].field) == Ok(f)
    requires forall j :: i < j < |es| ==> ToParsed(es[j].field) != Ok(f)
    ensures GetRawValue(ApplyKnown(es, p), f) == Some(Value(es[i]))
    decreases |es|
  {
    var p' := match ToParsed(es[0].field) case Ok(g) => SetRawValue(p, g, Value(es[0])) case Err(_) => p;
    if i == 0 {
      ApplyKnownUntouched(es[1..], p', f);
    } else {
      LastOccurrenceWins(es[1..], p', f, i - 1);
    }
  }

  lemma {:induction false} ApplyKnownAppend(a: seq<Entry>, b: seq<Entry>, p: ParsedDesc)
    ensures ApplyKnown(a + b, p) == ApplyKnown(b, ApplyKnown(a, p))
    decreases |a|
  {
    if a == [] {
      assert a + b == b;
    } else {
      assert (a + b)[1..] == a[1..] + b;
      assert (a + b)[0] == a[0];
      var p' := match ToParsed(a[0].field) case Ok(g) => SetRawValue(p, g, Value(a[0])) case Err(_) => p;
      ApplyKnownAppend(a[1..], b, p');
    }
  }

  /** An unknown entry changes nothing once it is let through. */
  lemma UnknownEntryIgnored(a: seq<Entry>, u: Entry, b: seq<Entry>, p: ParsedDesc)
    requires ToParsed(u.field).Err?
    ensures ApplyKnown(a + [u] + b, p) == ApplyKnown(a + b, p)
  {
    ApplyKnownAppend(a + [u], b, p);
    ApplyKnownAppend(a, [u], p);
    ApplyKnownAppend(a, b, p);
  }

  /** A header followed only by non-header lines, then lines that start with a header. */
  lemma BlockThenEntries(block: seq<string>, tk: seq<Token>, b: seq<string>, tb: seq<Token>)
    requires |tk| == |block| && block != [] && tk[0].Ok?
    requires forall i :: 1 <= i < |tk| ==> tk[i].Err?
    requires |tb| == |b| && b != [] && tb[0].Ok?
    ensures (tk + tb)[0] == tk[0]
    ensures Entries(block + b, tk + tb) == [Entry(tk[0].value, block[1..])] + Entries(b, tb)
  {
    EntriesAppend(block, tk, b, tb);
    NextHeaderAt(tk, 1, |block|);
    EntriesUnfold(block, tk, |block|);
    assert block[1..|block|] == block[1..];
    assert Entries(block, tk) == [Entry(tk[0].value, block[1..])];
  }

  /** The entry-level form of the insertion: the same entries around an unknown block. */
  lemma InsertedEntryIgnored<E>(ea: seq<Entry>, u: Entry, eb: seq<Entry>, handle: DescParseIssue -> Result<(), E>)
    requires AcceptsUnknownFields(handle) && ToParsed(u.field).Err?
    ensures RunEntries(ea + ([u] + eb), Default(), handle) == RunEntries(ea + eb, Default(), handle)
  {
    AppendAssoc(ea, [u], eb);
    UnknownEntryIgnored(ea, u, eb, Default());
    RunEntriesAccepting(ea + [u] + eb, Default(), handle);
    RunEntriesAccepting(ea + eb, Default(), handle);
  }

  /**
   * Inserting a block made of an unknown header and non-header lines in front of a header
   * line leaves the parse unchanged under a handler that lets unknown fields through.
   */
  lemma UnknownBlockInsertion<E>(a: seq<string>, block: seq<string>, b: seq<string>, handle: DescParseIssue -> Result<(), E>)
    requires AcceptsUnknownFields(handle)
    requires a != [] && IsHeader(a[0]) && b != [] && IsHeader(b[0])
    requires block != [] && IsHeader(block[0]) && ToParsed(ParseRaw(Trim(block[0])).value).Err?
    requires forall i :: 1 <= i < |block| ==> !IsHeader(block[i])
    ensures ParseLinesSpec(a + block + b, handle) == ParseLinesSpec(a + b, handle)
  {
    var ta, tk, tb := Tokens(a), Tokens(block), Tokens(b);
    assert forall i :: 1 <= i < |tk| ==> tk[i].Err?;
    var u := Entry(tk[0].value, block[1..]);
    var ea, eb := Entries(a, ta), Entries(b, tb);
    BlockThenEntries(block, tk, b, tb);
    assert a + block + b == a + (block + b) by { AppendAssoc(a, block, b); }
    assert Tokens(a + block + b) == ta + (tk + tb) by {
      TokensAppend(a, block);
      TokensAppend(a + block, b);
      AppendAssoc(ta, tk, tb);
    }
    assert Tokens(a + b) == ta + tb by { TokensAppend(a, b); }
    EntriesAppend(a, ta, block + b, tk + tb);
    EntriesAppend(a, ta, b, tb);
    InsertedEntryIgnored(ea, u, eb, handle);
    StartsAtHeader(a + block + b, handle);
    StartsAtHeader(a + b, handle);
  }
}
