/**
 * `MemoQuerier` of the flat `desc` format: a forward cursor over the text (the unread text
 * and the header that starts it, once one has been found) and a cache with one slot per
 * field. A slot is unoccupied, occupied without a value, or occupied with a value.
 * Offsets into the unread text replace the address arithmetic of the source.
 */
module DescMemo {
  import opened Wrappers
  import opened Text
  import opened DescField
  import opened LineCursor
  import opened SeqFacts

  /**
   * The cache. A field missing from `slots` is unoccupied; `Some(None)` is the slot occupied
   * without a value.
   */
  datatype Cache = Cache(slots: map<FieldName, Option<string>>)

  /** `Cache::default`: every slot unoccupied. */
  function DefaultCache(): (c: Cache)
    ensures forall f :: Get(c, f).None?
  {
    Cache(map[])
  }

  /** `Cache::get`: `None` for an unoccupied slot, otherwise what the slot holds. */
  function Get(c: Cache, f: FieldName): Option<Option<string>> {
    if f in c.slots then Some(c.slots[f]) else None
  }

  /** `Cache::add`: occupy the slot of `f` with `v`; no other slot changes. */
  function Add(c: Cache, f: FieldName, v: Option<string>): (r: Cache)
    ensures Get(r, f) == Some(v)
    ensures forall g :: g != f ==> Get(r, g) == Get(c, g)
  {
    Cache(c.slots[f := v])
  }

  /** An empty value is stored and returned as `None`. */
  function NonEmpty(v: string): (r: Option<string>)
    ensures r.None? <==> v == []
    ensures r.Some? ==> r.value == v
  {
    if v == [] then None else Some(v)
  }

  /** An entry as `next_entry` returns it: the header and the raw value. */
  type Entry = (RawField, string)

  /** The cursor's remembered header: its trimmed text and the field it tokenizes to. */
  type Last = Option<(string, RawField)>

  /**
   * What the cursor keeps true: a remembered header is the trimmed first line of the unread
   * text, which starts right at the header, and it tokenizes to the remembered field.
   */
  predicate LastValid(text: string, last: Last) {
    last.Some? ==>
      text != [] && Lead(LineText(text, 0)) == 0 && last.value.0 == Trim(LineText(text, 0))
      && ParseRaw(last.value.0) == Ok(last.value.1)
  }

  /** Offset of the first line at or after the line start `k` whose trimmed text is a header, or `|s|`. */
  function ScanHeader(s: string, k: nat): (r: nat)
    requires k <= |s|
    ensures k <= r <= |s|
    ensures r < |s| ==> ParseRaw(Trim(LineText(s, r))).Ok?
    decreases |s| - k
  {
    if k == |s| then |s|
    else if ParseRaw(Trim(LineText(s, k))).Ok? then k
    else ScanHeader(s, NextLineStart(s, k))
  }

  /** The outcome of `next_entry`: the entry returned and the new cursor. */
  datatype Step = Step(result: Option<Entry>, text: string, last: Last)

  /**
   * Where the value of the current entry starts: just after the remembered header, or just
   * after the trimmed text of the first line.
   */
  function ValueStart(text: string, last: Last): (start: nat)
    requires LastValid(text, last) && text != []
    ensures start <= |LineText(text, 0)|
  {
    LeadTrim(LineText(text, 0));
    if last.Some? then |last.value.0| else Lead(LineText(text, 0)) + |Trim(LineText(text, 0))|
  }

  /**
   * The entry of `field` whose value starts at `start`, when the next header line starts at
   * `k` (`|text|` when there is none), and the cursor after it.
   */
  function Cut(text: string, field: RawField, start: nat, k: nat): Step
    requires text != [] && start <= |LineText(text, 0)| && NextLineStart(text, 0) <= k <= |text|
    requires k < |text| ==> ParseRaw(Trim(LineText(text, k))).Ok?
  {
    LineTextSlice(text, 0);
    if k == |text| then Step(Some((field, TrimLineBreaks(text[start..]))), [], None)
    else
      var lk := LineText(text, k);
      LineTextSlice(text, k);
      var end := k + Lead(lk);
      Step(Some((field, TrimLineBreaks(text[start..end]))), text[end..], Some((Trim(lk), ParseRaw(Trim(lk)).value)))
  }

  /** `Cut` with the next header line at `k`, spelled out for the method that computes it. */
  lemma CutAt(text: string, field: RawField, start: nat, k: nat)
    requires text != [] && start <= |LineText(text, 0)| && NextLineStart(text, 0) <= k < |text|
    requires ParseRaw(Trim(LineText(text, k))).Ok?
    ensures var lk := LineText(text, k); var end := k + Lead(lk);
      start <= end <= |text|
      && Cut(text, field, start, k) == Step(Some((field, TrimLineBreaks(text[start..end]))), text[end..], Some((Trim(lk), ParseRaw(Trim(lk)).value)))
  {
    LineTextSlice(text, 0);
    LineTextSlice(text, k);
  }

  /**
   * The end of `next_entry` once the next header line has been found at `k` (or not, when
   * `k == |text|`): slice out the value and move the cursor to the next trimmed header.
   */
  method TakeEntry(text: string, field: RawField, start: nat, k: nat) returns (e: Entry, rest: string, next: Last)
    requires text != [] && start <= |LineText(text, 0)| && NextLineStart(text, 0) <= k <= |text|
    requires k < |text| ==> ParseRaw(Trim(LineText(text, k))).Ok?
    ensures Cut(text, field, start, k) == Step(Some(e), rest, next)
  {
    LineTextSlice(text, 0);
    if k == |text| {
      e, rest, next := (field, TrimLineBreaks(text[start..])), [], None;
    } else {
      var line := LineText(text, k);
      var end := k + Lead(line);
      CutAt(text, field, start, k);
      e := (field, TrimLineBreaks(text[start..end]));
      rest := text[end..];
      next := Some((Trim(line), ParseRaw(Trim(line)).value));
    }
  }

  /**
   * `next_entry`. The value runs from the end of the current trimmed header to the start of
   * the next trimmed header, or to the end of the text, with `'\n'` and `'\r'` trimmed from
   * both ends. Without a next header the cursor is exhausted; otherwise the unread text
   * starts at the next header, which is remembered. An empty text or a first line that is
   * not a header returns `None` and leaves the cursor as it was.
   */
  function NextEntrySpec(text: string, last: Last): Step
    requires LastValid(text, last)
  {
    if text == [] then Step(None, text, last)
    else
      var header := if last.Some? then Ok(last.value.1) else ParseRaw(Trim(LineText(text, 0)));
      if header.Err? then Step(None, text, last)
      else Cut(text, header.value, ValueStart(text, last), ScanHeader(text, NextLineStart(text, 0)))
  }

  /** The empty string is not a header. */
  lemma EmptyIsNoHeader()
    ensures ParseRaw([]).Err?
  {
    ParseRawByCases([], IsNameChar);
  }

  /**
   * Cutting the text just before the trimmed header of the line at `k` leaves a valid
   * cursor that remembers that header.
   */
  lemma CutAtHeader(text: string, k: nat)
    requires k < |text| && ParseRaw(Trim(LineText(text, k))).Ok?
    ensures var lk := LineText(text, k); var end := k + Lead(lk);
      end < |text| && LastValid(text[end..], Some((Trim(lk), ParseRaw(Trim(lk)).value)))
  {
    var lk := LineText(text, k);
    LineTextSlice(text, k);
    LeadTrim(lk);
    EmptyIsNoHeader();
    assert Trim(lk) != [];
    var rest := text[k + Lead(lk)..];
    LineTextDrop(text, k, Lead(lk));
    assert LineText(rest, 0) == lk[Lead(lk)..];
    LeadDropped(lk);
  }

  /**
   * `next_entry` keeps the cursor valid; when it returns an entry the unread text gets
   * strictly shorter, and when it returns `None` nothing changes.
   */
  lemma NextEntryFacts(text: string, last: Last)
    requires LastValid(text, last)
    ensures var st := NextEntrySpec(text, last);
      LastValid(st.text, st.last) && (st.result.Some? ==> |st.text| < |text|)
      && (st.result.None? ==> st.text == text && st.last == last)
  {
    if text != [] {
      var header := if last.Some? then Ok(last.value.1) else ParseRaw(Trim(LineText(text, 0)));
      var k := ScanHeader(text, NextLineStart(text, 0));
      if header.Ok? {
        var start := ValueStart(text, last);
        if k < |text| {
          CutAt(text, header.value, start, k);
          CutAtHeader(text, k);
        } else {
          assert Cut(text, header.value, start, k).text == [];
        }
      }
    }
  }

  /** The entries `next_entry` returns from the cursor `(text, last)` until it returns `None`. */
  function Remaining(text: string, last: Last): seq<Entry>
    requires LastValid(text, last)
    decreases |text|
  {
    var st := NextEntrySpec(text, last);
    NextEntryFacts(text, last);
    if st.result.None? then [] else [st.result.value] + Remaining(st.text, st.last)
  }

  /** `Remaining` unfolded once: the entry `next_entry` returns, then those after it. */
  lemma RemainingStep(text: string, last: Last)
    requires LastValid(text, last)
    ensures var st := NextEntrySpec(text, last);
      LastValid(st.text, st.last)
      && Remaining(text, last) == if st.result.None? then [] else [st.result.value] + Remaining(st.text, st.last)
  {
    NextEntryFacts(text, last);
  }

  /**
   * A classifier of headers, as `RawField::to_parsed` is one. The cache and lookup facts below
   * hold for every classifier; the querier uses `ToParsed`.
   */
  type Classifier = RawField -> Result<FieldName, ParseNameError>

  /** An entry whose header the classifier `known` reads as the field `f`. */
  predicate Names(e: Entry, f: FieldName, known: Classifier) {
    known(e.0) == Ok(f)
  }

  /** The cache with the entry `e` stored: a known header occupies its slot, an unknown one changes nothing. */
  function Store(c: Cache, e: Entry, known: Classifier): Cache {
    match known(e.0)
    case Ok(f) => Add(c, f, NonEmpty(e.1))
    case Err(_) => c
  }

  /** Storing an entry occupies the slot of its field with its value and no other slot. */
  lemma StoreSlot(c: Cache, e: Entry, f: FieldName, known: Classifier)
    ensures Get(Store(c, e, known), f) == if known(e.0) == Ok(f) then Some(NonEmpty(e.1)) else Get(c, f)
  {
  }

  /** The cache after `query_raw_text_mut` has consumed `es`: each entry stored in turn. */
  function CacheOf(es: seq<Entry>, known: Classifier): Cache {
    if es == [] then DefaultCache()
    else Store(CacheOf(es[..|es| - 1], known), es[|es| - 1], known)
  }

  /** Consuming one more entry stores it. */
  lemma CacheOfSnoc(es: seq<Entry>, e: Entry, known: Classifier)
    ensures CacheOf(es + [e], known) == Store(CacheOf(es, known), e, known)
  {
    assert (es + [e])[..|es|] == es;
  }

  /** Index of the first entry of `f`, or `|es|`. */
  function FirstOf(es: seq<Entry>, f: FieldName, known: Classifier): (i: nat)
    ensures i <= |es|
    ensures i < |es| ==> Names(es[i], f, known)
  {
    if es == [] then 0
    else if Names(es[0], f, known) then 0
    else 1 + FirstOf(es[1..], f, known)
  }

  /** No entry before `FirstOf` names `f`. */
  lemma {:induction false} FirstOfFirst(es: seq<Entry>, f: FieldName, known: Classifier, t: nat)
    requires t < FirstOf(es, f, known)
    ensures !Names(es[t], f, known)
  {
    if t > 0 {
      FirstOfFirst(es[1..], f, known, t - 1);
    }
  }

  /** The first entry of `f` in `a + b` is the first in `a`, or else the first in `b`. */
  lemma {:induction false} FirstOfAppend(a: seq<Entry>, b: seq<Entry>, f: FieldName, known: Classifier)
    ensures FirstOf(a + b, f, known) == if FirstOf(a, f, known) < |a| then FirstOf(a, f, known) else |a| + FirstOf(b, f, known)
  {
    if a != [] {
      assert (a + b)[0] == a[0];
      DropOfAppend(a, b, 1);
      if !Names(a[0], f, known) {
        FirstOfAppend(a[1..], b, f, known);
      }
    } else {
      assert a + b == b;
    }
  }

  /** One more entry: the first entry of `f` stays, or is the new one, or is still missing. */
  lemma FirstOfSnoc(es: seq<Entry>, e: Entry, f: FieldName, known: Classifier)
    ensures FirstOf(es + [e], f, known) ==
      if FirstOf(es, f, known) < |es| then FirstOf(es, f, known) else if Names(e, f, known) then |es| else |es| + 1
  {
    FirstOfAppend(es, [e], f, known);
    assert [e][1..] == [];
  }

  /** No entry names `f`: the lookup reaches the end. */
  lemma FirstOfMissing(es: seq<Entry>, f: FieldName, known: Classifier)
    requires forall t :: 0 <= t < |es| ==> !Names(es[t], f, known)
    ensures FirstOf(es, f, known) == |es|
  {
  }

  /** The first entry that names `f` is the one `FirstOf` finds. */
  lemma FirstOfAt(es: seq<Entry>, f: FieldName, known: Classifier, j: nat)
    requires j < |es| && Names(es[j], f, known) && forall t :: 0 <= t < j ==> !Names(es[t], f, known)
    ensures FirstOf(es, f, known) == j
  {
    if FirstOf(es, f, known) > j {
      FirstOfFirst(es, f, known, j);
    }
  }

  /** A stateless lookup: the value of the first entry of `f`, `None` when empty or absent. */
  function Lookup(es: seq<Entry>, f: FieldName, known: Classifier): Option<string> {
    var i := FirstOf(es, f, known);
    if i < |es| then NonEmpty(es[i].1) else None
  }

  /** Behind entries none of which names `f`, the first entry of `f` is the one looked up. */
  lemma LookupFound(seen: seq<Entry>, e: Entry, tail: seq<Entry>, f: FieldName, known: Classifier)
    requires FirstOf(seen, f, known) == |seen| && Names(e, f, known)
    ensures FirstOf(seen + [e] + tail, f, known) == |seen|
    ensures Lookup(seen + [e] + tail, f, known) == NonEmpty(e.1)
  {
    FirstOfSnoc(seen, e, f, known);
    FirstOfAppend(seen + [e], tail, f, known);
    assert (seen + [e] + tail)[|seen|] == e;
  }

  /**
   * The miss loop runs out of entries: none of those read names `f`, the lookup finds
   * nothing, and all of them have been read.
   */
  lemma ReadAll(rest: seq<Entry>, seen: seq<Entry>, ahead: seq<Entry>, before: seq<Entry>, f: FieldName, known: Classifier)
    requires rest == seen + ahead && ahead == [] && FirstOf(seen, f, known) == |seen|
    ensures var i := FirstOf(rest, f, known);
      Lookup(rest, f, known) == None && before + seen == before + rest[..if i < |rest| then i + 1 else i]
  {
    assert rest == seen && rest[..|rest|] == rest;
  }

  /**
   * One more entry read by the miss loop: it joins those seen, and when it names `f` it is
   * the first entry of `f`, its value is the answer and it ends the entries read.
   */
  lemma ReadOne(rest: seq<Entry>, seen: seq<Entry>, e: Entry, tail: seq<Entry>, before: seq<Entry>, f: FieldName, known: Classifier)
    requires rest == seen + ([e] + tail) && FirstOf(seen, f, known) == |seen|
    ensures rest == (seen + [e]) + tail
    ensures !Names(e, f, known) ==> FirstOf(seen + [e], f, known) == |seen + [e]|
    ensures Names(e, f, known) ==> var i := FirstOf(rest, f, known);
      Lookup(rest, f, known) == NonEmpty(e.1) && (before + seen) + [e] == before + rest[..if i < |rest| then i + 1 else i]
  {
    FirstOfSnoc(seen, e, f, known);
    if Names(e, f, known) {
      LookupFound(seen, e, tail, f, known);
      assert rest == seen + [e] + tail;
      assert rest[..|seen| + 1] == seen + [e];
      assert (before + seen) + [e] == before + (seen + [e]);
    }
  }

  /**
   * The outcome of one pass of the miss loop, from the entries `ahead` before the pass and
   * `tail` after it, the entries consumed `c0` and `c1` and the caches `cache0` and
   * `cache1`: the search ends on an exhausted text or an entry of `f`, with the lookup's
   * answer; otherwise the entry read joins those seen.
   */
  lemma ReadOutcome(e: Option<Entry>, ahead: seq<Entry>, tail: seq<Entry>, rest: seq<Entry>, before: seq<Entry>,
                    seen: seq<Entry>, c0: seq<Entry>, c1: seq<Entry>, cache0: Cache, cache1: Cache,
                    f: FieldName, known: Classifier, done: bool, r: Option<string>, seen': seq<Entry>)
    requires rest == seen + ahead && c0 == before + seen && FirstOf(seen, f, known) == |seen| && Get(cache0, f).None?
    requires e.None? ==> ahead == [] && c1 == c0 && cache1 == cache0
    requires e.Some? ==> ahead == [e.value] + tail && c1 == c0 + [e.value] && cache1 == Store(cache0, e.value, known)
    requires done == (e.None? || known(e.value.0) == Ok(f))
    requires r == (if e.Some? && done then NonEmpty(e.value.1) else None)
    requires seen' == if e.Some? then seen + [e.value] else seen
    ensures !done ==>
      Get(cache1, f).None? && rest == seen' + tail && c1 == before + seen' && FirstOf(seen', f, known) == |seen'|
    ensures done ==>
      var i := FirstOf(rest, f, known);
      r == Lookup(rest, f, known) && c1 == before + rest[..if i < |rest| then i + 1 else i]
      && (Get(cache1, f) == Some(r) || (Get(cache1, f).None? && e.None?))
  {
    if e.None? {
      ReadAll(rest, seen, ahead, before, f, known);
    } else {
      ReadOne(rest, seen, e.value, tail, before, f, known);
      StoreSlot(cache0, e.value, f, known);
      AppendAssoc(before, seen, [e.value]);
    }
  }

  /** `f` heads at most one entry, as in a well-formed `desc` file. */
  ghost predicate AtMostOnce(es: seq<Entry>, f: FieldName, known: Classifier) {
    forall i, j :: 0 <= i < j < |es| && Names(es[i], f, known) ==> !Names(es[j], f, known)
  }

  /** A prefix of entries in which `f` heads at most one entry is such a sequence too. */
  lemma AtMostOncePrefix(a: seq<Entry>, b: seq<Entry>, f: FieldName, known: Classifier)
    requires AtMostOnce(a + b, f, known)
    ensures AtMostOnce(a, f, known)
  {
    forall i, j | 0 <= i < j < |a| && Names(a[i], f, known) ensures !Names(a[j], f, known) {
      assert (a + b)[i] == a[i] && (a + b)[j] == a[j];
    }
  }

  /** When the last entry names `f` and `f` heads at most one entry, no earlier entry names `f`. */
  lemma OnlyTheLast(p: seq<Entry>, e: Entry, f: FieldName, known: Classifier)
    requires AtMostOnce(p + [e], f, known) && Names(e, f, known)
    ensures FirstOf(p, f, known) == |p|
  {
    forall t | 0 <= t < |p| ensures !Names(p[t], f, known) {
      assert (p + [e])[t] == p[t] && (p + [e])[|p|] == e;
    }
    FirstOfMissing(p, f, known);
  }

  /**
   * For a field that heads at most one entry, its slot is occupied exactly when the field
   * has been seen, and it holds that entry's value.
   */
  lemma {:induction false} CacheOfLookup(es: seq<Entry>, f: FieldName, known: Classifier)
    requires AtMostOnce(es, f, known)
    ensures Get(CacheOf(es, known), f) == if FirstOf(es, f, known) < |es| then Some(Lookup(es, f, known)) else None
  {
    if es != [] {
      var p, e := es[..|es| - 1], es[|es| - 1];
      SplitLast(es);
      AtMostOncePrefix(p, [e], f, known);
      CacheOfLookup(p, f, known);
      CacheOfLookupSnoc(p, e, f, known);
    }
  }

  /** The step of `CacheOfLookup`: one more entry keeps the slot of `f` in line with the lookup. */
  lemma CacheOfLookupSnoc(p: seq<Entry>, e: Entry, f: FieldName, known: Classifier)
    requires AtMostOnce(p + [e], f, known)
    requires Get(CacheOf(p, known), f) == if FirstOf(p, f, known) < |p| then Some(Lookup(p, f, known)) else None
    ensures Get(CacheOf(p + [e], known), f) == if FirstOf(p + [e], f, known) < |p + [e]| then Some(Lookup(p + [e], f, known)) else None
  {
    CacheOfSnoc(p, e, known);
    FirstOfAppend(p, [e], f, known);
    if Names(e, f, known) {
      OnlyTheLast(p, e, f, known);
      assert (p + [e])[|p|] == e;
    } else if FirstOf(p, f, known) < |p| {
      assert (p + [e])[FirstOf(p, f, known)] == p[FirstOf(p, f, known)];
    } else {
      assert [e][1..] == [];
    }
  }

  /** A slot, once occupied, stays occupied however many entries follow. */
  lemma {:induction false} CacheOfKeeps(a: seq<Entry>, b: seq<Entry>, f: FieldName, known: Classifier)
    requires Get(CacheOf(a, known), f).Some?
    ensures Get(CacheOf(a + b, known), f).Some?
    decreases |b|
  {
    if b != [] {
      var p, e := b[..|b| - 1], b[|b| - 1];
      SplitLast(b);
      AppendAssoc(a, p, [e]);
      CacheOfKeeps(a, p, f, known);
      CacheOfSnoc(a + p, e, known);
    } else {
      assert a + b == a;
    }
  }

  /** Every known field among the entries has an occupied slot. */
  lemma CacheOfCovers(es: seq<Entry>, f: FieldName, known: Classifier)
    requires FirstOf(es, f, known) < |es|
    ensures Get(CacheOf(es, known), f).Some?
  {
    var i := FirstOf(es, f, known);
    var a := es[..i + 1];
    TakeSnoc(es, i);
    CacheOfSnoc(es[..i], es[i], known);
    TakeThenDrop(es, i + 1);
    CacheOfKeeps(a, es[i + 1..], f, known);
  }

  /**
   * The answer of `query_raw_text_mut` for the cache `c` with `rest` still unread: the cached
   * slot on a hit, otherwise the first entry of `f` in `rest`.
   */
  function MemoAnswer(c: Cache, rest: seq<Entry>, f: FieldName, known: Classifier): Option<string> {
    if Get(c, f).Some? then Get(c, f).value else Lookup(rest, f, known)
  }

  /**
   * For a field heading at most one entry, the cached querier answers what a stateless
   * lookup over all the entries answers, however much has been consumed.
   */
  lemma MemoIsTransparent(consumed: seq<Entry>, rest: seq<Entry>, f: FieldName, known: Classifier)
    requires AtMostOnce(consumed + rest, f, known)
    ensures MemoAnswer(CacheOf(consumed, known), rest, f, known) == Lookup(consumed + rest, f, known)
  {
    AtMostOncePrefix(consumed, rest, f, known);
    CacheOfLookup(consumed, f, known);
    FirstOfAppend(consumed, rest, f, known);
  }

  /** `MemoQuerier`: the unread text, the cache and the remembered header. */
  class MemoQuerier {
    var text: string
    var cache: Cache
    var last: Last
    /** The entries of the text the querier was made with. */
    ghost const entries: seq<Entry>
    /**
     * How a header is read as a field: `RawField::to_parsed`, which the constructor fixes.
     * The proofs about the cursor hold whatever the classifier.
     */
    const known: Classifier
    /** The entries returned by `next_entry` so far. */
    ghost var consumed: seq<Entry>

    /**
     * The cursor is valid, the entries of the original text are those consumed followed by
     * those still ahead, and the cache holds exactly what storing the consumed ones gives.
     */
    ghost predicate Valid()
      reads this
    {
      LastValid(text, last) && entries == consumed + Remaining(text, last)
      && cache == CacheOf(consumed, known)
    }

    /** `MemoQuerier::new`: the whole text unread, every slot unoccupied, no header remembered. */
    constructor(t: string)
      ensures Valid() && entries == Remaining(t, None) && text == t && last == None && consumed == [] && known == ToParsed
      ensures forall f :: Get(cache, f).None?
    {
      known := ToParsed;
      text := t;
      cache := DefaultCache();
      last := None;
      entries := Remaining(t, None);
      consumed := [];
    }

    /** `next_entry`: the first line, then a search of the following lines for the next header. */
    method NextEntry() returns (r: Option<Entry>)
      requires LastValid(text, last)
      modifies this`text, this`last
      ensures var st := NextEntrySpec(old(text), old(last)); r == st.result && text == st.text && last == st.last
    {
      var t := text;
      if t == [] {
        return None;
      }
      var l0 := LineText(t, 0);
      var field: RawField;
      var start: nat;
      if last.Some? {
        field := last.value.1;
        start := |last.value.0|;
      } else {
        var header := ParseRaw(Trim(l0));
        if header.Err? {
          return None;
        }
        field := header.value;
        start := Lead(l0) + |Trim(l0)|;
      }
      assert start == ValueStart(t, last);
      var k := NextLineStart(t, 0);
      while k < |t| && ParseRaw(Trim(LineText(t, k))).Err?
        invariant NextLineStart(t, 0) <= k <= |t|
        invariant ScanHeader(t, k) == ScanHeader(t, NextLineStart(t, 0))
        decreases |t| - k
      {
        k := NextLineStart(t, k);
      }
      var e, rest, next := TakeEntry(t, field, start, k);
      r := Some(e);
      text := rest;
      last := next;
    }

    /**
     * One pass of `query_raw_text_mut`'s loop before the comparison with the queried field:
     * `next_entry`, then a known header stores its value (an empty one as `None`) in its slot.
     */
    method Advance() returns (e: Option<Entry>)
      requires Valid()
      modifies this
      ensures Valid()
      ensures e.None? ==>
        old(Remaining(text, last)) == [] && text == old(text) && last == old(last)
        && consumed == old(consumed) && cache == old(cache)
      ensures e.Some? ==>
        old(Remaining(text, last)) == [e.value] + Remaining(text, last) && |text| < old(|text|)
        && consumed == old(consumed) + [e.value] && cache == Store(old(cache), e.value, known)
    {
      RemainingStep(text, last);
      NextEntryFacts(text, last);
      ghost var ahead := Remaining(text, last);
      e := NextEntry();
      if e.None? {
        return;
      }
      assert consumed + ahead == (consumed + [e.value]) + Remaining(text, last);
      CacheOfSnoc(consumed, e.value, known);
      match known(e.value.0)
      case Err(_) =>
        consumed := consumed + [e.value];
      case Ok(name) =>
        cache, consumed := Add(cache, name, NonEmpty(e.value.1)), consumed + [e.value];
    }

    /**
     * One pass of the miss loop of `query_raw_text_mut`. Of the entries `rest` that were
     * ahead when the miss began, `seen` have been read, after the entries `before`, and none
     * of them names `f`. The pass reads the next entry: it ends the search when the text is
     * exhausted or the entry names `f`, and otherwise joins the entries seen.
     */
    method ReadStep(f: FieldName, ghost rest: seq<Entry>, ghost before: seq<Entry>, ghost seen: seq<Entry>)
      returns (done: bool, r: Option<string>, ghost seen': seq<Entry>)
      requires Valid() && Get(cache, f).None?
      requires rest == seen + Remaining(text, last) && consumed == before + seen && FirstOf(seen, f, known) == |seen|
      modifies this
      ensures Valid()
      ensures !done ==>
        Get(cache, f).None? && |text| < old(|text|)
        && rest == seen' + Remaining(text, last) && consumed == before + seen' && FirstOf(seen', f, known) == |seen'|
      ensures done ==>
        var i := FirstOf(rest, f, known);
        r == Lookup(rest, f, known) && consumed == before + rest[..if i < |rest| then i + 1 else i]
        && (Get(cache, f) == Some(r) || (Get(cache, f).None? && Remaining(text, last) == []))
    {
      ghost var ahead, c0, cache0 := Remaining(text, last), consumed, cache;
      var e := Advance();
      done := e.None? || known(e.value.0) == Ok(f);
      r := if e.Some? && done then NonEmpty(e.value.1) else None;
      seen' := if e.Some? then seen + [e.value] else seen;
      ghost var tail := if e.Some? then Remaining(text, last) else [];
      ReadOutcome(e, ahead, tail, rest, before, seen, c0, consumed, cache0, cache, f, known, done, r, seen');
    }

    /**
     * The miss branch of `query_raw_text_mut`: read entries until one of `f`, storing every
     * known one. The answer is the first entry of `f` ahead, or `None` once the text is
     * exhausted; the entries read are those up to and including that entry.
     */
    method ReadUntil(f: FieldName) returns (r: Option<string>)
      requires Valid() && Get(cache, f).None?
      modifies this
      ensures Valid()
      ensures var rest := old(Remaining(text, last)); var i := FirstOf(rest, f, known);
        r == Lookup(rest, f, known) && consumed == old(consumed) + rest[..if i < |rest| then i + 1 else i]
      ensures Get(cache, f) == Some(r) || (Get(cache, f).None? && Remaining(text, last) == [])
    {
      ghost var rest := Remaining(text, last);
      ghost var before := consumed;
      ghost var seen: seq<Entry> := [];
      while true
        invariant Valid() && Get(cache, f).None?
        invariant rest == seen + Remaining(text, last) && consumed == before + seen && FirstOf(seen, f, known) == |seen|
        decreases |text|
      {
        var done;
        done, r, seen := ReadStep(f, rest, before, seen);
        if done {
          return;
        }
      }
    }

    /**
     * `query_raw_text_mut`. A hit answers from the cache and leaves the cursor alone. A miss
     * reads entries until one of `f`, storing every known one; it answers the first entry
     * of `f` ahead, or `None` once the text is exhausted. Afterwards `f`'s slot holds the
     * answer, unless the text is exhausted.
     */
    method QueryRawTextMut(f: FieldName) returns (r: Option<string>)
      requires Valid()
      modifies this
      ensures Valid()
      ensures r == MemoAnswer(old(cache), old(Remaining(text, last)), f, known)
      ensures old(Get(cache, f)).Some? ==> text == old(text) && last == old(last) && consumed == old(consumed)
      ensures old(Get(cache, f)).None? ==>
        var rest := old(Remaining(text, last));
        var i := FirstOf(rest, f, known);
        consumed == old(consumed) + rest[..if i < |rest| then i + 1 else i]
      ensures Get(cache, f) == Some(r) || (Get(cache, f).None? && Remaining(text, last) == [])
    {
      var hit := Get(cache, f);
      if hit.Some? {
        return hit.value;
      }
      r := ReadUntil(f);
    }
  }
}
