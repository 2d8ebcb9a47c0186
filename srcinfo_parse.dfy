/**
 * `ParsedSrcinfo::parse_with_issues`: one pass over the non-blank trimmed lines of a
 * `.SRCINFO` text with a write cursor on the current section. `LineStep` is what one line
 * does, `Fold` runs the lines in order and stops at the first issue the handler turns into
 * an error, and `ParseWithIssues` is the loop, proved equal to `Fold`.
 */
module SrcinfoParse {
  import opened Wrappers
  import opened Partial
  import opened SrcinfoField
  import opened SrcinfoUtils
  import opened SrcinfoData
  import SeqFacts

  /** The write cursor points at a section that exists. */
  predicate CursorValid(p: ParsedSrcinfo, cur: Section) {
    cur.Derivative? ==> cur.name in p.derivatives
  }

  /**
   * `ParsedSrcinfo::get_or_insert`: the base section always exists; a `pkgname` section is
   * created empty and appended to the keys on first sight and reused afterwards.
   */
  function GetOrInsert(p: ParsedSrcinfo, s: Section): (r: ParsedSrcinfo)
    requires WellFormed(p)
    ensures WellFormed(r) && CursorValid(r, s) && r.base == p.base
    ensures forall n :: n in p.derivatives ==> n in r.derivatives && r.derivatives[n] == p.derivatives[n]
    ensures s.Derivative? && s.name !in p.derivatives ==>
      r.names == p.names + [s.name] && r.derivatives[s.name] == EmptySection
    ensures s == Section.Base || s.name in p.derivatives ==> r == p
  {
    match s
    case Base => p
    case Derivative(name) =>
      if name in p.derivatives then p
      else
        var r := ParsedSrcinfo(p.base, p.names + [name], p.derivatives[name := EmptySection]);
        assert forall n :: n in r.names ==> n in r.derivatives by {
          forall n | n in r.names ensures n in r.derivatives {
            if n != name {
              assert n in p.names;
            }
          }
        }
        r
  }

  /** `ParsedSrcinfoSectionMut::add`: add the entry to the section under the cursor. */
  function AddTo(p: ParsedSrcinfo, cur: Section, field: ParsedField<string>, value: string): (r: Result<ParsedSrcinfo, AddFailure>)
    requires WellFormed(p) && CursorValid(p, cur)
    ensures r.Ok? ==> WellFormed(r.value) && CursorValid(r.value, cur) && r.value.names == p.names
    ensures r.Err? && r.error.MeetHeader? <==> field.name == Name && field.architecture.None?
    ensures r.Err? && r.error.MeetHeader? ==> r.error.name == value
    ensures cur == Section.Base ==>
      r == (match BaseAdd(p.base, field, value) case Ok(d) => Ok(p.(base := d)) case Err(e) => Err(e))
    ensures cur.Derivative? ==>
      r == (match DerivativeAdd(cur.name, p.derivatives[cur.name], field, value)
            case Ok(d) => Ok(p.(derivatives := p.derivatives[cur.name := d]))
            case Err(e) => Err(e))
  {
    match cur
    case Base =>
      (match BaseAdd(p.base, field, value)
       case Ok(d) => Ok(p.(base := d))
       case Err(e) => Err(e))
    case Derivative(name) =>
      DerivativeAddKeepsShape(name, p.derivatives[name], field, value);
      match DerivativeAdd(name, p.derivatives[name], field, value)
      case Ok(d) => Ok(p.(derivatives := p.derivatives[name := d]))
      case Err(e) => Err(e)
  }

  /** `SrcinfoParseError`: the issues the default handler does not ignore. */
  datatype SrcinfoParseError =
    | BaseFieldAlreadySetError(error: AlreadySetError)
    | DerivativeFieldAlreadySetError(name: string, error: AlreadySetError)
    | InvalidLineError(line: string)

  /** `SrcinfoParseIssue::ignore_unknown_field`, the handler used by `ParsedSrcinfo::parse`. */
  function IgnoreUnknownField(issue: SrcinfoParseIssue): (r: Result<(), SrcinfoParseError>)
    ensures r.Ok? <==> issue.UnknownField?
    ensures issue.BaseFieldAlreadySet? ==> r == Err(BaseFieldAlreadySetError(issue.error))
    ensures issue.DerivativeFieldAlreadySet? ==> r == Err(DerivativeFieldAlreadySetError(issue.name, issue.error))
    ensures issue.InvalidLine? ==> r == Err(InvalidLineError(issue.line))
  {
    match issue
    case UnknownField(_) => Ok(())
    case BaseFieldAlreadySet(error) => Err(BaseFieldAlreadySetError(error))
    case DerivativeFieldAlreadySet(name, error) => Err(DerivativeFieldAlreadySetError(name, error))
    case InvalidLine(line) => Err(InvalidLineError(line))
  }

  /** What one line does: move on with a new state, or raise an issue for the handler. */
  datatype Step = Next(parsed: ParsedSrcinfo, cursor: Section) | Raise(issue: SrcinfoParseIssue)

  /**
   * One pass of the loop body: a line without `=` is an invalid line, an unknown field name
   * is an unknown field, an empty value is skipped, and otherwise the entry goes to the
   * section under the cursor; a `pkgname` header moves the cursor to its own section.
   */
  function LineStep(line: string, p: ParsedSrcinfo, cur: Section): (r: Step)
    requires WellFormed(p) && CursorValid(p, cur)
    ensures r.Next? ==> WellFormed(r.parsed) && CursorValid(r.parsed, r.cursor)
  {
    match ParseLine(line)
    case None => Raise(InvalidLine(line))
    case Some((raw, value)) =>
      match KnownField(raw)
      case None => Raise(UnknownField(raw))
      case Some(field) =>
        if value == [] then Next(p, cur)
        else
          match AddTo(p, cur, field, value)
          case Ok(q) => Next(q, cur)
          case Err(MeetHeader(name)) => Next(GetOrInsert(p, Derivative(name)), Derivative(name))
          case Err(Issue(issue)) => Raise(issue)
  }

  /** Where a run of lines ends: all lines done, or stopped by the handler's error. */
  datatype Outcome<E> = Done(parsed: ParsedSrcinfo, cursor: Section) | Stopped(parsed: ParsedSrcinfo, error: E)

  /** The lines in order; an issue the handler accepts leaves the state as it was. */
  function Fold<E>(lines: seq<string>, p: ParsedSrcinfo, cur: Section, handle: SrcinfoParseIssue -> Result<(), E>): (r: Outcome<E>)
    requires WellFormed(p) && CursorValid(p, cur)
    ensures WellFormed(r.parsed)
    ensures r.Done? ==> CursorValid(r.parsed, r.cursor)
    decreases |lines|
  {
    if lines == [] then Done(p, cur)
    else
      match LineStep(lines[0], p, cur)
      case Next(q, c) => Fold(lines[1..], q, c, handle)
      case Raise(issue) =>
        match handle(issue)
        case Err(e) => Stopped(p, e)
        case Ok(_) => Fold(lines[1..], p, cur, handle)
  }

  function ResultOf<E>(o: Outcome<E>): (r: PartialParseResult<ParsedSrcinfo, E>)
    ensures r.parsed == o.parsed && (HasError(r) <==> o.Stopped?)
  {
    match o
    case Done(p, _) => NewComplete(p)
    case Stopped(p, e) => NewPartial(p, e)
  }

  /** The result of parsing: the lines folded from the default data with the cursor on the base section. */
  function ParseSpec<E>(text: string, handle: SrcinfoParseIssue -> Result<(), E>): PartialParseResult<ParsedSrcinfo, E> {
    ResultOf(Fold(NonBlankTrimmedLines(text), DefaultParsed, Section.Base, handle))
  }

  /**
   * The body of the loop of `parse_with_issues` for one line: the new data and cursor, or
   * the issue to give to the handler with data and cursor unchanged.
   */
  method AddLine(line: string, parsed: ParsedSrcinfo, sectionMut: Section)
    returns (parsed': ParsedSrcinfo, sectionMut': Section, issue: Option<SrcinfoParseIssue>)
    requires WellFormed(parsed) && CursorValid(parsed, sectionMut)
    ensures issue.None? ==> LineStep(line, parsed, sectionMut) == Next(parsed', sectionMut')
    ensures issue.Some? ==> LineStep(line, parsed, sectionMut) == Raise(issue.value)
    ensures issue.Some? ==> parsed' == parsed && sectionMut' == sectionMut
  {
    parsed', sectionMut', issue := parsed, sectionMut, None;
    match ParseLine(line) {
      case None =>
        issue := Some(InvalidLine(line));
      case Some((raw, value)) =>
        match KnownField(raw) {
          case None =>
            issue := Some(UnknownField(raw));
          case Some(field) =>
            if value != [] {
              match AddTo(parsed, sectionMut, field, value) {
                case Ok(q) =>
                  parsed' := q;
                case Err(MeetHeader(name)) =>
                  sectionMut' := Derivative(name);
                  parsed' := GetOrInsert(parsed, sectionMut');
                case Err(Issue(e)) =>
                  issue := Some(e);
              }
            }
        }
    }
  }

  /** `ParsedSrcinfo::parse_with_issues` */
  method ParseWithIssues<E>(text: string, handle: SrcinfoParseIssue -> Result<(), E>) returns (r: PartialParseResult<ParsedSrcinfo, E>)
    ensures r == ParseSpec(text, handle)
  {
    var parsed := DefaultParsed;
    var lines := NonBlankTrimmedLines(text);
    var sectionMut := Section.Base;
    ghost var spec := Fold(lines, parsed, sectionMut, handle);
    var stopped: Option<E> := None;
    var i := 0;
    while i < |lines| && stopped.None?
      invariant i <= |lines| && WellFormed(parsed) && CursorValid(parsed, sectionMut)
      invariant stopped.None? ==> Fold(lines[i..], parsed, sectionMut, handle) == spec
      invariant stopped.Some? ==> spec == Stopped(parsed, stopped.value)
      decreases |lines| - i, stopped.None?
    {
      SeqFacts.DropCons(lines, i);
      var issue;
      parsed, sectionMut, issue := AddLine(lines[i], parsed, sectionMut);
      if issue.Some? {
        var handled := handle(issue.value);
        if handled.Err? {
          stopped := Some(handled.error);
        }
      }
      i := i + 1;
    }
    match stopped {
      case Some(e) =>
        r := NewPartial(parsed, e);
      case None =>
        r := NewComplete(parsed);
    }
  }

  /** `ParsedSrcinfo::parse`: unknown fields are ignored, every other issue is an error. */
  function Parse(text: string): PartialParseResult<ParsedSrcinfo, SrcinfoParseError> {
    ParseSpec(text, IgnoreUnknownField)
  }

  /** `TryFrom<&str> for ParsedSrcinfo`: succeeds exactly when no issue was escalated. */
  function TryFromText(text: string): (r: Result<ParsedSrcinfo, SrcinfoParseError>)
    ensures r.Ok? <==> Fold(NonBlankTrimmedLines(text), DefaultParsed, Section.Base, IgnoreUnknownField).Done?
    ensures r.Ok? ==> r.value == Parse(text).parsed
    ensures r.Err? ==> Parse(text).error == Some(r.error)
  {
    TryIntoComplete(Parse(text))
  }
  /**
   * Running `a` then `b` is running `a + b`: the state at the end of `a` is where `b`
   * starts, and once the handler stops the run the lines after it are never read.
   */
  lemma {:induction false} FoldAppend<E>(a: seq<string>, b: seq<string>, p: ParsedSrcinfo, cur: Section, handle: SrcinfoParseIssue -> Result<(), E>)
    requires WellFormed(p) && CursorValid(p, cur)
    ensures Fold(a + b, p, cur, handle) ==
      match Fold(a, p, cur, handle)
      case Done(q, c) => Fold(b, q, c, handle)
      case Stopped(q, e) => Stopped(q, e)
    decreases |a|
  {
    if a != [] {
      assert (a + b)[0] == a[0] && (a + b)[1..] == a[1..] + b;
      match LineStep(a[0], p, cur)
      case Next(q, c) => FoldAppend(a[1..], b, q, c, handle);
      case Raise(issue) =>
        if handle(issue).Ok? {
          FoldAppend(a[1..], b, p, cur, handle);
        }
    } else {
      assert a + b == b;
    }
  }

  /**
   * An issue the handler turns into an error stops parsing: the result keeps everything
   * added by the lines before it, and nothing after it is read.
   */
  lemma EscalationStops<E>(a: seq<string>, line: string, b: seq<string>, p: ParsedSrcinfo, cur: Section,
                           handle: SrcinfoParseIssue -> Result<(), E>, q: ParsedSrcinfo, c: Section, issue: SrcinfoParseIssue)
    requires WellFormed(p) && CursorValid(p, cur)
    requires Fold(a, p, cur, handle) == Done(q, c)
    requires LineStep(line, q, c) == Raise(issue) && handle(issue).Err?
    ensures Fold(a + [line] + b, p, cur, handle) == Stopped(q, handle(issue).error)
  {
    SeqFacts.AppendAssoc(a, [line], b);
    FoldAppend(a, [line] + b, p, cur, handle);
  }

  /** Under the default handler a line without `=` ends parsing with `InvalidLine`. */
  lemma InvalidLineIsAnError(a: seq<string>, line: string, b: seq<string>, q: ParsedSrcinfo, c: Section)
    requires '=' !in line
    requires Fold(a, DefaultParsed, Section.Base, IgnoreUnknownField) == Done(q, c)
    ensures Fold(a + [line] + b, DefaultParsed, Section.Base, IgnoreUnknownField) == Stopped(q, InvalidLineError(line))
  {
    EscalationStops(a, line, b, DefaultParsed, Section.Base, IgnoreUnknownField, q, c, InvalidLine(line));
  }

  /**
   * The lines that leave every state as it is: a known field with an empty value, and an
   * unknown field when the handler accepts it.
   */
  predicate Ignorable<E>(line: string, handle: SrcinfoParseIssue -> Result<(), E>) {
    match ParseLine(line)
    case None => false
    case Some((raw, value)) =>
      if KnownField(raw).None? then handle(UnknownField(raw)).Ok? else value == []
  }

  /** An ignorable line at the front is skipped with the state unchanged. */
  lemma IgnorableStep<E>(line: string, b: seq<string>, p: ParsedSrcinfo, cur: Section, handle: SrcinfoParseIssue -> Result<(), E>)
    requires WellFormed(p) && CursorValid(p, cur) && Ignorable(line, handle)
    ensures Fold([line] + b, p, cur, handle) == Fold(b, p, cur, handle)
  {
    assert ([line] + b)[0] == line && ([line] + b)[1..] == b;
  }

  /** Removing an ignorable line anywhere does not change the result. */
  lemma IgnorableLineDropped<E>(a: seq<string>, line: string, b: seq<string>, p: ParsedSrcinfo, cur: Section,
                                handle: SrcinfoParseIssue -> Result<(), E>)
    requires WellFormed(p) && CursorValid(p, cur) && Ignorable(line, handle)
    ensures Fold(a + [line] + b, p, cur, handle) == Fold(a + b, p, cur, handle)
  {
    SeqFacts.AppendAssoc(a, [line], b);
    FoldAppend(a, [line] + b, p, cur, handle);
    FoldAppend(a, b, p, cur, handle);
    match Fold(a, p, cur, handle)
    case Done(q, c) => IgnorableStep(line, b, q, c, handle);
    case Stopped(_, _) =>
  }

  /** Under the default handler an unknown field may be inserted anywhere without effect. */
  lemma UnknownFieldIgnored(a: seq<string>, line: string, b: seq<string>)
    requires ParseLine(line).Some? && KnownField(ParseLine(line).value.0).None?
    ensures Fold(a + [line] + b, DefaultParsed, Section.Base, IgnoreUnknownField) ==
            Fold(a + b, DefaultParsed, Section.Base, IgnoreUnknownField)
  {
    IgnorableLineDropped(a, line, b, DefaultParsed, Section.Base, IgnoreUnknownField);
  }

  /** The section name a line opens: `pkgname` without architecture and with a non-empty value. */
  function HeaderName(line: string): Option<string> {
    match ParseLine(line)
    case None => None
    case Some((raw, value)) =>
      match KnownField(raw)
      case Some(field) => if field.name == Name && field.architecture.None? && value != [] then Some(value) else None
      case None => None
  }

  /** The keys after reading `lines`: each header name appended on its first appearance. */
  function WithHeaders(names: seq<string>, lines: seq<string>): seq<string>
    decreases |lines|
  {
    if lines == [] then names
    else
      match HeaderName(lines[0])
      case Some(h) => WithHeaders(if h in names then names else names + [h], lines[1..])
      case None => WithHeaders(names, lines[1..])
  }

  /** What one line does to the keys: a header name is appended unless already present. */
  lemma LineStepNames(line: string, p: ParsedSrcinfo, cur: Section)
    requires WellFormed(p) && CursorValid(p, cur)
    ensures LineStep(line, p, cur).Next? ==>
      LineStep(line, p, cur).parsed.names ==
        match HeaderName(line)
        case Some(h) => if h in p.names then p.names else p.names + [h]
        case None => p.names
  {
    match ParseLine(line) {
      case None =>
      case Some((raw, value)) =>
        match KnownField(raw) {
          case None =>
          case Some(field) =>
            if value != [] {
              var r := AddTo(p, cur, field, value);
              if field.name == Name && field.architecture.None? {
                assert r == Err(MeetHeader(value));
                assert value in p.names <==> value in p.derivatives;
              } else {
                assert !(r.Err? && r.error.MeetHeader?);
              }
            }
        }
    }
  }

  /** A header line always moves on: it opens or reopens a section and raises no issue. */
  lemma HeaderStepNext(line: string, p: ParsedSrcinfo, cur: Section)
    requires WellFormed(p) && CursorValid(p, cur)
    ensures HeaderName(line).Some? ==> LineStep(line, p, cur).Next?
  {
    match ParseLine(line) {
      case None =>
      case Some((raw, value)) =>
        match KnownField(raw) {
          case None =>
          case Some(field) =>
            if value != [] && field.name == Name && field.architecture.None? {
              assert AddTo(p, cur, field, value) == Err(MeetHeader(value));
            }
        }
    }
  }

  /**
   * The `pkgname` sections of a completed run are the header names in order of first
   * appearance: a section is created on first sight and reused on later sight.
   */
  lemma {:induction false} SectionsInFirstAppearanceOrder<E>(lines: seq<string>, p: ParsedSrcinfo, cur: Section,
                                                           handle: SrcinfoParseIssue -> Result<(), E>)
    requires WellFormed(p) && CursorValid(p, cur)
    requires Fold(lines, p, cur, handle).Done?
    ensures Fold(lines, p, cur, handle).parsed.names == WithHeaders(p.names, lines)
    decreases |lines|
  {
    if lines != [] {
      LineStepNames(lines[0], p, cur);
      HeaderStepNext(lines[0], p, cur);
      match LineStep(lines[0], p, cur)
      case Next(q, c) => SectionsInFirstAppearanceOrder(lines[1..], q, c, handle);
      case Raise(issue) => SectionsInFirstAppearanceOrder(lines[1..], p, cur, handle);
    }
  }
}
