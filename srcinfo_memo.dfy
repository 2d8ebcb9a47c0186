/**
 * `MemoQuerier` of `.SRCINFO`: a forward cursor over the lines, the current section and a
 * cache. Queries read the cache and move the cursor only when the item they need is not
 * cached yet.
 */
module SrcinfoMemo {
  import opened Wrappers
  import opened Text
  import opened SeqFacts
  import opened SrcinfoField
  import opened SrcinfoUtils
  import opened SrcinfoData
  import opened SrcinfoCache
  import opened Checksums

  /** What `next_entry` makes of one line. */
  datatype LineKind =
    | Blank                                          // empty or `#` after trimming: skipped
    | Invalid                                        // no `=`: `next_entry` gives up
    | Ignored                                        // unknown field or empty value: skipped
    | Entry(field: ParsedField<string>, value: string)

  function Classify(line: string): LineKind {
    var t := Trim(line);
    if TrimmedLineIsBlank(t) then Blank
    else
      match ParseLine(t)
      case None => Invalid
      case Some((raw, value)) =>
        match KnownField(raw)
        case None => Ignored
        case Some(field) => if value == [] then Ignored else Entry(field, value)
  }

  /**
   * A line stops `next_entry` exactly when, trimmed, it is neither blank nor a comment and
   * holds no `=`; an entry always has a value.
   */
  lemma ClassifyInvalid(line: string)
    ensures Classify(line).Invalid? <==> !TrimmedLineIsBlank(Trim(line)) && '=' !in Trim(line)
    ensures Classify(line).Entry? ==> Classify(line).value != []
  {
  }

  /** The classification of every line, in order. */
  function Kinds(lines: seq<string>): (r: seq<LineKind>)
    ensures |r| == |lines|
  {
    seq(|lines|, i requires 0 <= i < |lines| => Classify(lines[i]))
  }

  /** Classifying a non-empty run of lines: its first line, then the rest. */
  lemma KindsCons(lines: seq<string>)
    requires lines != []
    ensures Kinds(lines) == [Classify(lines[0])] + Kinds(lines[1..])
  {
  }

  /** The section after an entry: only a `pkgname` without architecture opens a section. */
  function SectionAfter(section: Section, field: ParsedField<string>, value: string): Section {
    if field.name == Name && field.architecture.None? then Derivative(value) else section
  }

  /** The current section and the cache. */
  datatype Memo = Memo(section: Section, cache: Cache)

  /** The effect of one line on the section and the cache. */
  function Absorb(m: Memo, k: LineKind): Memo {
    match k
    case Entry(field, value) =>
      var section := SectionAfter(m.section, field, value);
      Memo(section, Add(m.cache, field.name, Item(value, section, field.architecture)))
    case _ => m
  }

  /** The section and cache after reading the lines classified as `ks`, one by one. */
  function Replay(m: Memo, ks: seq<LineKind>): Memo
    decreases |ks|
  {
    if ks == [] then m else Replay(Absorb(m, ks[0]), ks[1..])
  }

  /** Reading a line that is not an entry changes nothing. */
  lemma ReplaySkip(m: Memo, k: LineKind, c: seq<LineKind>)
    requires !k.Entry?
    ensures Replay(m, [k] + c) == Replay(m, c)
  {
    assert ([k] + c)[0] == k && ([k] + c)[1..] == c;
  }

  /** Reading one line is absorbing it. */
  lemma ReplayOne(m: Memo, k: LineKind)
    ensures Replay(m, [k]) == Absorb(m, k)
  {
    assert [k][1..] == [];
  }

  /** Reading two stretches of lines one after the other. */
  lemma {:induction false} ReplayAppend(m: Memo, a: seq<LineKind>, b: seq<LineKind>)
    ensures Replay(m, a + b) == Replay(Replay(m, a), b)
    decreases |a|
  {
    if a == [] {
      assert a + b == b;
    } else {
      assert (a + b)[0] == a[0] && (a + b)[1..] == a[1..] + b;
      ReplayAppend(Absorb(m, a[0]), a[1..], b);
    }
  }

  /** Reading lines never takes anything out of a list that only grows. */
  lemma {:induction false} ReplayExtends(m: Memo, ks: seq<LineKind>, f: FieldName)
    requires Grows(f)
    ensures View(m.cache, f) <= View(Replay(m, ks).cache, f)
    decreases |ks|
  {
    if ks != [] {
      match ks[0] {
        case Entry(field, value) =>
          var section := SectionAfter(m.section, field, value);
          AddExtends(m.cache, field.name, Item(value, section, field.architecture), f);
        case _ =>
      }
      ReplayExtends(Absorb(m, ks[0]), ks[1..], f);
    }
  }

  /** `r` is what is left of `s` after reading some of it. */
  predicate IsRest<T(==)>(r: seq<T>, s: seq<T>) {
    |r| <= |s| && r == s[|s| - |r|..]
  }

  /** What was read of `s` before `r`. */
  function Consumed<T>(s: seq<T>, r: seq<T>): seq<T>
    requires |r| <= |s|
  {
    s[..|s| - |r|]
  }

  /** What was read, then what is left, is the whole. */
  lemma ConsumedThenRest<T>(s: seq<T>, r: seq<T>)
    requires IsRest(r, s)
    ensures s == Consumed(s, r) + r
  {
  }

  lemma RestTrans<T>(s: seq<T>, mid: seq<T>, r: seq<T>)
    requires IsRest(mid, s) && IsRest(r, mid)
    ensures IsRest(r, s)
    ensures Consumed(s, r) == Consumed(s, mid) + Consumed(mid, r)
  {
  }

  /** What `next_entry` returns and where it leaves the cursor. */
  datatype Next = Next(memo: Memo, rest: seq<LineKind>, entry: Option<(FieldName, Item)>)

  /**
   * `next_entry`: skip blank lines, unknown fields and empty values; stop with `None` at
   * the end or after a line without `=`; otherwise update the section, cache the item and
   * return it. Every line it looks at is consumed, and an entry always costs a line.
   */
  function NextEntry(m: Memo, ks: seq<LineKind>): (r: Next)
    ensures IsRest(r.rest, ks)
    ensures ks != [] ==> |r.rest| < |ks|
    ensures r.entry.Some? ==> |r.rest| < |ks|
    decreases |ks|
  {
    if ks == [] then Next(m, [], None)
    else
      match ks[0]
      case Blank => NextEntry(m, ks[1..])
      case Ignored => NextEntry(m, ks[1..])
      case Invalid => Next(m, ks[1..], None)
      case Entry(field, value) =>
        var section := SectionAfter(m.section, field, value);
        var item := Item(value, section, field.architecture);
        Next(Memo(section, Add(m.cache, field.name, item)), ks[1..], Some((field.name, item)))
  }

  /**
   * The state `next_entry` leaves is that of reading every consumed line; it changes
   * nothing when it finds no entry, and it reports an entry in the section it leaves.
   */
  lemma {:induction false} NextEntryReplays(m: Memo, ks: seq<LineKind>)
    ensures var r := NextEntry(m, ks);
      r.memo == Replay(m, Consumed(ks, r.rest))
      && (r.entry.None? ==> r.memo == m)
      && (r.entry.Some? ==> r.entry.value.1.section == r.memo.section)
    decreases |ks|
  {
    if ks == [] {
      assert Consumed(ks, []) == [];
    } else if ks[0].Blank? || ks[0].Ignored? {
      var r := NextEntry(m, ks[1..]);
      NextEntryReplays(m, ks[1..]);
      var c := Consumed(ks[1..], r.rest);
      assert Consumed(ks, r.rest) == [ks[0]] + c;
      ReplaySkip(m, ks[0], c);
    } else {
      assert Consumed(ks, ks[1..]) == [ks[0]];
      ReplayOne(m, ks[0]);
    }
  }

  /** A line without `=` stops `next_entry`, which leaves the cursor just after it. */
  lemma InvalidLineStops(m: Memo, b: seq<LineKind>)
    ensures NextEntry(m, [Invalid] + b) == Next(m, b, None)
  {
    assert ([Invalid] + b)[0] == Invalid && ([Invalid] + b)[1..] == b;
  }

  /** No line lacks `=`. */
  predicate NoInvalid(ks: seq<LineKind>) {
    forall i :: 0 <= i < |ks| ==> !ks[i].Invalid?
  }

  lemma NoInvalidRest(ks: seq<LineKind>, r: seq<LineKind>)
    requires NoInvalid(ks) && IsRest(r, ks)
    ensures NoInvalid(r)
  {
    forall i | 0 <= i < |r| ensures !r[i].Invalid? {
      assert r[i] == ks[|ks| - |r| + i];
    }
  }

  /** On lines that all hold `=`, `next_entry` returns `None` only at the end of the text. */
  lemma {:induction false} NextEntryStops(m: Memo, ks: seq<LineKind>)
    requires NoInvalid(ks)
    ensures NextEntry(m, ks).entry.None? ==> NextEntry(m, ks).rest == []
    decreases |ks|
  {
    if ks != [] && (ks[0].Blank? || ks[0].Ignored?) {
      NoInvalidRest(ks, ks[1..]);
      NextEntryStops(m, ks[1..]);
    }
  }

  /** A `pkgname` without architecture is reported in the section it opens. */
  lemma HeaderCarriesItsSection(m: Memo, value: string, b: seq<LineKind>)
    ensures NextEntry(m, [Entry(ParsedField(Name, None), value)] + b).entry == Some((Name, Item(value, Derivative(value), None)))
    ensures NextEntry(m, [Entry(ParsedField(Name, None), value)] + b).memo.section == Derivative(value)
  {
    assert ([Entry(ParsedField(Name, None), value)] + b)[0] == Entry(ParsedField(Name, None), value);
  }

  /** What a query step yields and where it leaves the querier. */
  datatype Fill = Fill(memo: Memo, rest: seq<LineKind>, found: Option<Item>)

  /**
   * `QueryIter::next`: return the cached item at `index` if there is one; otherwise read
   * one more entry and look again, giving up when `next_entry` returns `None`.
   */
  function QueryStep(m: Memo, ks: seq<LineKind>, f: FieldName, index: nat): (r: Fill)
    ensures IsRest(r.rest, ks)
    decreases |ks|
  {
    match Get(m.cache, f, index)
    case Some(item) => Fill(m, ks, Some(item))
    case None =>
      var n := NextEntry(m, ks);
      if n.entry.None? then Fill(n.memo, n.rest, None)
      else QueryStep(n.memo, n.rest, f, index)
  }

  /**
   * A query step leaves the state of reading every consumed line, and what it yields is
   * what the cache then holds at `index`: an item of a query is always a cached item. A
   * step that consumes nothing answers from the cache as it was.
   */
  lemma {:induction false} QueryStepReplays(m: Memo, ks: seq<LineKind>, f: FieldName, index: nat)
    ensures var r := QueryStep(m, ks, f, index);
      r.memo == Replay(m, Consumed(ks, r.rest))
      && r.found == Get(r.memo.cache, f, index)
      && (|r.rest| == |ks| ==> r.memo == m)
    decreases |ks|
  {
    match Get(m.cache, f, index)
    case Some(item) =>
      assert Consumed(ks, ks) == [];
    case None =>
      var n := NextEntry(m, ks);
      NextEntryReplays(m, ks);
      if n.entry.Some? {
        var r := QueryStep(n.memo, n.rest, f, index);
        QueryStepReplays(n.memo, n.rest, f, index);
        RestTrans(ks, n.rest, r.rest);
        ReplayAppend(m, Consumed(ks, n.rest), Consumed(n.rest, r.rest));
      }
  }

  /** On lines that all hold `=`, a query step gives up only at the end of the text. */
  lemma {:induction false} QueryStepStops(m: Memo, ks: seq<LineKind>, f: FieldName, index: nat)
    requires NoInvalid(ks)
    ensures QueryStep(m, ks, f, index).found.None? ==> QueryStep(m, ks, f, index).rest == []
    decreases |ks|
  {
    if Get(m.cache, f, index).None? {
      var n := NextEntry(m, ks);
      NextEntryStops(m, ks);
      if n.entry.Some? {
        NoInvalidRest(ks, n.rest);
        QueryStepStops(n.memo, n.rest, f, index);
      }
    }
  }

  /**
   * On a text whose lines all hold `=`, one query step of a field whose slot only grows
   * finds the `index`-th item exactly when the fully read cache has one, and then finds
   * that item; otherwise it reads the whole text.
   */
  lemma QueryStepComplete(m: Memo, ks: seq<LineKind>, f: FieldName, index: nat)
    requires NoInvalid(ks) && Grows(f) && index <= |View(m.cache, f)|
    ensures var final := Replay(m, ks); var q := QueryStep(m, ks, f, index);
      index <= |View(final.cache, f)|
      && Replay(q.memo, q.rest) == final
      && (q.found.Some? <==> index < |View(final.cache, f)|)
      && (q.found.Some? ==> q.found.value == View(final.cache, f)[index] && index < |View(q.memo.cache, f)|)
      && (q.found.None? ==> q.memo == final && q.rest == [])
  {
    var final := Replay(m, ks);
    var q := QueryStep(m, ks, f, index);
    QueryStepReplays(m, ks, f, index);
    QueryStepStops(m, ks, f, index);
    var c := Consumed(ks, q.rest);
    ConsumedThenRest(ks, q.rest);
    ReplayAppend(m, c, q.rest);
    ReplayExtends(m, ks, f);
    ReplayExtends(q.memo, q.rest, f);
    if q.found.None? {
      assert c == ks;
    }
  }

  /** Every item that calling `QueryIter::next` again and again yields, starting at `index`. */
  function QueryAll(m: Memo, ks: seq<LineKind>, f: FieldName, index: nat): seq<Item>
    decreases |ks|, |View(m.cache, f)| - index
  {
    var q := QueryStep(m, ks, f, index);
    QueryStepReplays(m, ks, f, index);
    if q.found.None? then []
    else [q.found.value] + QueryAll(q.memo, q.rest, f, After(index))
  }

  /**
   * On a text whose lines all hold `=`, a query of a field whose slot only grows yields,
   * from `index` on, exactly the items the cache holds once the whole text is read.
   */
  lemma {:induction false} QueryAllComplete(m: Memo, ks: seq<LineKind>, f: FieldName, index: nat)
    requires NoInvalid(ks) && Grows(f) && index <= |View(m.cache, f)|
    ensures index <= |View(Replay(m, ks).cache, f)|
    ensures QueryAll(m, ks, f, index) == View(Replay(m, ks).cache, f)[index..]
    decreases |ks|, |View(m.cache, f)| - index
  {
    var final := View(Replay(m, ks).cache, f);
    var q := QueryStep(m, ks, f, index);
    QueryStepComplete(m, ks, f, index);
    QueryStepReplays(m, ks, f, index);
    if q.found.Some? {
      assert |q.rest| < |ks| || (q.memo == m && index < |View(m.cache, f)|);
      NoInvalidRest(ks, q.rest);
      QueryAllComplete(q.memo, q.rest, f, After(index));
      QueryAllFound(m, ks, f, index, final);
    } else {
      assert QueryAll(m, ks, f, index) == [];
    }
  }

  /** One found item followed by the rest of the query, read from the final cache. */
  lemma QueryAllFound(m: Memo, ks: seq<LineKind>, f: FieldName, index: nat, final: seq<Item>)
    requires var q := QueryStep(m, ks, f, index);
      index < |final| && After(index) <= |final|
      && q.found == Some(final[index])
      && QueryAll(q.memo, q.rest, f, After(index)) == final[After(index)..]
    ensures QueryAll(m, ks, f, index) == final[index..]
  {
    DropAfter(final, index);
  }

  /** Where a checksum step leaves the iterator. */
  datatype ChecksumFill = ChecksumFill(memo: Memo, rest: seq<LineKind>, typeId: nat, index: nat, found: Option<ChecksumItem>)

  /**
   * `ChecksumIter::next`: for the current type, return the cached item at `index`, reading
   * entries while it is missing; when `next_entry` returns `None` go on with the next type
   * from index 0. After the last type there is nothing more. For one type this is a query
   * step of the type's field.
   */
  function ChecksumStep(m: Memo, ks: seq<LineKind>, typeId: nat, index: nat): (r: ChecksumFill)
    ensures IsRest(r.rest, ks)
    decreases |Types| - typeId
  {
    if typeId >= |Types| then ChecksumFill(m, ks, typeId, index, None)
    else
      var t := Types[typeId];
      var q := QueryStep(m, ks, FieldOf(t), index);
      match q.found
      case Some(item) => ChecksumFill(q.memo, q.rest, typeId, After(index), Some(ToChecksum(t, item)))
      case None =>
        var r := ChecksumStep(q.memo, q.rest, After(typeId), 0);
        RestTrans(ks, q.rest, r.rest);
        r
  }

  /** A checksum step leaves the state of reading every consumed line. */
  lemma {:induction false} ChecksumStepReplays(m: Memo, ks: seq<LineKind>, typeId: nat, index: nat)
    ensures var r := ChecksumStep(m, ks, typeId, index);
      r.memo == Replay(m, Consumed(ks, r.rest))
    decreases |Types| - typeId
  {
    if typeId >= |Types| {
      assert Consumed(ks, ks) == [];
    } else {
      var q := QueryStep(m, ks, FieldOf(Types[typeId]), index);
      QueryStepReplays(m, ks, FieldOf(Types[typeId]), index);
      if q.found.None? {
        var r := ChecksumStep(q.memo, q.rest, After(typeId), 0);
        ChecksumStepReplays(q.memo, q.rest, After(typeId), 0);
        RestTrans(ks, q.rest, r.rest);
        ReplayAppend(m, Consumed(ks, q.rest), Consumed(q.rest, r.rest));
      }
    }
  }

  /** The checksum item of the `i`-th cached value of type number `typeId`. */
  function CachedChecksum(c: Cache, typeId: nat, i: nat): ChecksumItem
    requires typeId < |Types| && i < |View(c, FieldOf(Types[typeId]))|
  {
    ToChecksum(Types[typeId], View(c, FieldOf(Types[typeId]))[i])
  }

  /** A step result that reports the cached item just before its index, of its type. */
  predicate YieldsCached(r: ChecksumFill) {
    r.typeId < |Types| && 1 <= r.index <= |View(r.memo.cache, FieldOf(Types[r.typeId]))|
    && r.found == Some(CachedChecksum(r.memo.cache, r.typeId, r.index - 1))
  }

  /**
   * What a checksum step yields is the cached item just before the new index of the new
   * type, and the type never goes back.
   */
  lemma {:induction false} ChecksumStepFinds(m: Memo, ks: seq<LineKind>, typeId: nat, index: nat)
    ensures var r := ChecksumStep(m, ks, typeId, index);
      r.found.Some? ==> typeId <= r.typeId && YieldsCached(r)
    decreases |Types| - typeId
  {
    if typeId < |Types| {
      var t := Types[typeId];
      var q := QueryStep(m, ks, FieldOf(t), index);
      QueryStepReplays(m, ks, FieldOf(t), index);
      if q.found.None? {
        ChecksumStepFinds(q.memo, q.rest, After(typeId), 0);
      }
    }
  }

  /**
   * A checksum step that stays on its type and consumes no line answers from the cache as
   * it was and moves the index by one.
   */
  lemma ChecksumStepStays(m: Memo, ks: seq<LineKind>, typeId: nat, index: nat)
    ensures var r := ChecksumStep(m, ks, typeId, index);
      r.found.Some? && r.typeId == typeId && |r.rest| == |ks| ==>
        r.memo == m && r.index == After(index) && typeId < |Types| && index < |View(m.cache, FieldOf(Types[typeId]))|
  {
    if typeId < |Types| {
      var q := QueryStep(m, ks, FieldOf(Types[typeId]), index);
      QueryStepReplays(m, ks, FieldOf(Types[typeId]), index);
      if q.found.None? {
        ChecksumStepFinds(q.memo, q.rest, After(typeId), 0);
      }
    }
  }

  /** The measure under which repeated checksum steps terminate. */
  function Pending(m: Memo, typeId: nat, index: nat): nat {
    if typeId < |Types| && index <= |View(m.cache, FieldOf(Types[typeId]))|
    then |View(m.cache, FieldOf(Types[typeId]))| - index
    else 0
  }

  /** Every item that calling `ChecksumIter::next` again and again yields. */
  function ChecksumAll(m: Memo, ks: seq<LineKind>, typeId: nat, index: nat): seq<ChecksumItem>
    decreases |Types| - typeId, |ks|, Pending(m, typeId, index)
  {
    var q := ChecksumStep(m, ks, typeId, index);
    ChecksumStepFinds(m, ks, typeId, index);
    ChecksumStepStays(m, ks, typeId, index);
    if q.found.None? then []
    else [q.found.value] + ChecksumAll(q.memo, q.rest, q.typeId, q.index)
  }

  /**
   * The cached checksums grouped by type, in the order of `TYPES`: those of type number
   * `typeId` from `index` on, then every later type's.
   */
  function Grouped(c: Cache, typeId: nat, index: nat): seq<ChecksumItem>
    requires typeId < |Types| ==> index <= |View(c, FieldOf(Types[typeId]))|
    decreases |Types| - typeId
  {
    if typeId >= |Types| then []
    else ToChecksums(Types[typeId], View(c, FieldOf(Types[typeId]))[index..]) + Grouped(c, After(typeId), 0)
  }

  /**
   * One checksum step on a text whose lines all hold `=`: it yields the next item of the
   * current type as the fully read cache holds it, or, when the type has no more items,
   * it reads the whole text and behaves as a step on the next type.
   */
  lemma ChecksumStepComplete(m: Memo, ks: seq<LineKind>, typeId: nat, index: nat)
    requires NoInvalid(ks) && typeId < |Types| && index <= |View(m.cache, FieldOf(Types[typeId]))|
    ensures var final := Replay(m, ks);
      var items := View(final.cache, FieldOf(Types[typeId]));
      var q := ChecksumStep(m, ks, typeId, index);
      if index < |items| then
        q.found == Some(ToChecksum(Types[typeId], items[index])) && q.typeId == typeId && q.index == After(index)
        && Replay(q.memo, q.rest) == final && q.index <= |View(q.memo.cache, FieldOf(Types[typeId]))|
      else q == ChecksumStep(final, [], After(typeId), 0)
  {
    QueryStepComplete(m, ks, FieldOf(Types[typeId]), index);
  }

  lemma ToChecksumsFrom(t: ChecksumType, items: seq<Item>, index: nat)
    requires index < |items|
    ensures ToChecksums(t, items[index..]) == [ToChecksum(t, items[index])] + ToChecksums(t, items[After(index)..])
  {
    assert items[index..][0] == items[index] && items[index..][1..] == items[After(index)..];
  }

  /**
   * On a text whose lines all hold `=`, the checksum iterator yields the rest of the current
   * type and then every later type's items, grouped by type in the order of `TYPES`.
   */
  lemma {:induction false} ChecksumAllGrouped(m: Memo, ks: seq<LineKind>, typeId: nat, index: nat)
    requires NoInvalid(ks)
    requires typeId < |Types| ==> index <= |View(m.cache, FieldOf(Types[typeId]))|
    ensures typeId < |Types| ==> index <= |View(Replay(m, ks).cache, FieldOf(Types[typeId]))|
    ensures ChecksumAll(m, ks, typeId, index) == Grouped(Replay(m, ks).cache, typeId, index)
    decreases |Types| - typeId, |ks|, Pending(m, typeId, index), 1
  {
    if typeId < |Types| {
      ReplayExtends(m, ks, FieldOf(Types[typeId]));
      if index < |View(Replay(m, ks).cache, FieldOf(Types[typeId]))| {
        GroupedNext(m, ks, typeId, index);
      } else {
        GroupedLater(m, ks, typeId, index);
      }
    }
  }

  /** The step of `ChecksumAllGrouped` where the current type has an item left. */
  lemma {:induction false} GroupedNext(m: Memo, ks: seq<LineKind>, typeId: nat, index: nat)
    requires NoInvalid(ks) && typeId < |Types| && index <= |View(m.cache, FieldOf(Types[typeId]))|
    requires index < |View(Replay(m, ks).cache, FieldOf(Types[typeId]))|
    ensures ChecksumAll(m, ks, typeId, index) == Grouped(Replay(m, ks).cache, typeId, index)
    decreases |Types| - typeId, |ks|, Pending(m, typeId, index), 0
  {
    var t := Types[typeId];
    var final := Replay(m, ks);
    var items := View(final.cache, FieldOf(t));
    var q := ChecksumStep(m, ks, typeId, index);
    ChecksumStepComplete(m, ks, typeId, index);
    ChecksumStepStays(m, ks, typeId, index);
    assert |q.rest| < |ks| || Pending(q.memo, typeId, After(index)) < Pending(m, typeId, index);
    NoInvalidRest(ks, q.rest);
    ChecksumAllGrouped(q.memo, q.rest, typeId, After(index));
    var later := Grouped(final.cache, After(typeId), 0);
    var tail := ChecksumAll(q.memo, q.rest, typeId, After(index));
    assert tail == ToChecksums(t, items[After(index)..]) + later;
    var head := ToChecksum(t, items[index]);
    assert ChecksumAll(m, ks, typeId, index) == [head] + tail;
    ToChecksumsFrom(t, items, index);
    AppendAssoc([head], ToChecksums(t, items[After(index)..]), later);
  }

  /** The step of `ChecksumAllGrouped` where the current type has no item left. */
  lemma {:induction false} GroupedLater(m: Memo, ks: seq<LineKind>, typeId: nat, index: nat)
    requires NoInvalid(ks) && typeId < |Types| && index <= |View(m.cache, FieldOf(Types[typeId]))|
    requires index == |View(Replay(m, ks).cache, FieldOf(Types[typeId]))|
    ensures ChecksumAll(m, ks, typeId, index) == Grouped(Replay(m, ks).cache, typeId, index)
    decreases |Types| - typeId, |ks|, Pending(m, typeId, index), 0
  {
    var t := Types[typeId];
    var final := Replay(m, ks);
    var items := View(final.cache, FieldOf(t));
    ChecksumStepComplete(m, ks, typeId, index);
    assert ToChecksums(t, items[index..]) == [];
    assert Replay(final, []) == final;
    ChecksumAllGrouped(final, [], After(typeId), 0);
    assert ChecksumAll(m, ks, typeId, index) == ChecksumAll(final, [], After(typeId), 0);
  }

  /**
   * `checksums_mut` of the memo querier: all MD5 checksums first, then SHA-1, and so on,
   * whatever their order in the text.
   */
  lemma ChecksumsGroupedByType(m: Memo, ks: seq<LineKind>)
    requires NoInvalid(ks)
    ensures ChecksumAll(m, ks, 0, 0) == Grouped(Replay(m, ks).cache, 0, 0)
  {
    ChecksumAllGrouped(m, ks, 0, 0);
  }

  /**
   * The loop of `next_entry` (its tail calls written as a loop) on the state it reads and
   * writes: the section, the cache and the remaining lines.
   */
  method NextEntryFrom(m0: Memo, start: seq<string>) returns (m: Memo, lines: seq<string>, r: Option<(FieldName, Item)>)
    ensures IsRest(lines, start)
    ensures NextEntry(m0, Kinds(start)) == Next(m, Kinds(lines), r)
  {
    ghost var read := 0;
    m := m0;
    lines := start;
    r := None;
    var done := false;
    while !done
      invariant read <= |start| && lines == start[read..]
      invariant !done ==> NextEntry(m, Kinds(lines)) == NextEntry(m0, Kinds(start)) && r.None?
      invariant done ==> Next(m, Kinds(lines), r) == NextEntry(m0, Kinds(start))
      decreases if done then 0 else |lines| + 1
    {
      if lines == [] {
        done := true;
      } else {
        var kind := Classify(lines[0]);
        KindsCons(lines);
        DropOfDrop(start, read, 1);
        lines := lines[1..];
        read := read + 1;
        if kind.Entry? {
          var s := SectionAfter(m.section, kind.field, kind.value);
          var item := Item(kind.value, s, kind.field.architecture);
          m := Memo(s, Add(m.cache, kind.field.name, item));
          r := Some((kind.field.name, item));
        }
        done := !kind.Blank? && !kind.Ignored?;
      }
    }
  }

  /** The loop of `QueryIter::next` on the querier's state. */
  method QueryFrom(m0: Memo, start: seq<string>, f: FieldName, index: nat) returns (m: Memo, lines: seq<string>, r: Option<Item>)
    ensures IsRest(lines, start)
    ensures QueryStep(m0, Kinds(start), f, index) == Fill(m, Kinds(lines), r)
  {
    m := m0;
    lines := start;
    r := None;
    var done := false;
    while !done
      invariant IsRest(lines, start)
      invariant !done ==> QueryStep(m, Kinds(lines), f, index) == QueryStep(m0, Kinds(start), f, index) && r.None?
      invariant done ==> Fill(m, Kinds(lines), r) == QueryStep(m0, Kinds(start), f, index)
      decreases if done then 0 else |lines| + 1
    {
      var cached := Get(m.cache, f, index);
      if cached.Some? {
        r := cached;
        done := true;
      } else {
        var before := lines;
        var next;
        m, lines, next := NextEntryFrom(m, lines);
        RestTrans(start, before, lines);
        if next.None? {
          done := true;
        }
      }
    }
  }

  /**
   * A checksum step whose type has nothing cached at `index` reads one entry `n` and goes
   * on with the same type, or with the next type from its start when no entry is left.
   */
  lemma ChecksumStepReads(m: Memo, ks: seq<LineKind>, typeId: nat, index: nat, n: Next, typeId': nat, index': nat)
    requires typeId < |Types| && Get(m.cache, FieldOf(Types[typeId]), index).None?
    requires n == NextEntry(m, ks)
    requires n.entry.Some? ==> typeId' == typeId && index' == index
    requires n.entry.None? ==> typeId' == After(typeId) && index' == 0
    ensures ChecksumStep(m, ks, typeId, index) == ChecksumStep(n.memo, n.rest, typeId', index')
  {
  }

  /** The loop of `ChecksumIter::next` on the querier's and the iterator's state. */
  method ChecksumFrom(m0: Memo, start: seq<string>, typeId0: nat, index0: nat)
    returns (m: Memo, lines: seq<string>, typeId: nat, index: nat, r: Option<ChecksumItem>)
    ensures IsRest(lines, start)
    ensures ChecksumStep(m0, Kinds(start), typeId0, index0) == ChecksumFill(m, Kinds(lines), typeId, index, r)
  {
    m, lines, typeId, index := m0, start, typeId0, index0;
    r := None;
    var done := false;
    while !done
      invariant IsRest(lines, start)
      invariant !done ==> ChecksumStep(m, Kinds(lines), typeId, index) == ChecksumStep(m0, Kinds(start), typeId0, index0) && r.None?
      invariant done ==> ChecksumFill(m, Kinds(lines), typeId, index, r) == ChecksumStep(m0, Kinds(start), typeId0, index0)
      decreases if done then 0 else if typeId >= |Types| then 1 else |Types| - typeId + 1, |lines|
    {
      if typeId >= |Types| {
        done := true;
      } else {
        var t := Types[typeId];
        var cached := Get(m.cache, FieldOf(t), index);
        if cached.Some? {
          index := After(index);
          r := Some(ToChecksum(t, cached.value));
          done := true;
        } else {
          var before, m1, typeId1, index1 := lines, m, typeId, index;
          var next;
          m, lines, next := NextEntryFrom(m, lines);
          RestTrans(start, before, lines);
          if next.None? {
            typeId := After(typeId);
            index := 0;
          }
          ChecksumStepReads(m1, Kinds(before), typeId1, index1, Next(m, Kinds(lines), next), typeId, index);
        }
      }
    }
  }

  /** `MemoQuerier` */
  class MemoQuerier {
    /** `remaining_lines` */
    var remaining: seq<string>
    /** `current_section` */
    var section: Section
    var cache: Cache

    /** `MemoQuerier::new`: at the first line, in the base section, with an empty cache. */
    constructor (text: string)
      ensures remaining == Lines(text) && section == Section.Base && cache == EmptyCache
    {
      remaining := Lines(text);
      section := Section.Base;
      cache := EmptyCache;
    }

    /** `next_entry` */
    method NextEntryStep() returns (r: Option<(FieldName, Item)>)
      modifies this
      ensures IsRest(remaining, old(remaining))
      ensures NextEntry(Memo(old(section), old(cache)), Kinds(old(remaining))) == Next(Memo(section, cache), Kinds(remaining), r)
    {
      var m, lines;
      m, lines, r := NextEntryFrom(Memo(section, cache), remaining);
      remaining := lines;
      section := m.section;
      cache := m.cache;
      assert Memo(section, cache) == m;
    }
  }

  /** `QueryIter`: the items of one field, by increasing index into the cache. */
  class QueryIter {
    const querier: MemoQuerier
    const field: FieldName
    var index: nat

    /** `QueryIter::new` */
    constructor (querier: MemoQuerier, field: FieldName)
      ensures this.querier == querier && this.field == field && index == 0
    {
      this.querier := querier;
      this.field := field;
      index := 0;
    }

    /** `QueryIter::next` */
    method Next() returns (r: Option<Item>)
      modifies this, querier
      ensures IsRest(querier.remaining, old(querier.remaining))
      ensures QueryStep(Memo(old(querier.section), old(querier.cache)), Kinds(old(querier.remaining)), field, old(index))
        == Fill(Memo(querier.section, querier.cache), Kinds(querier.remaining), r)
      ensures index == old(index) + (if r.Some? then 1 else 0)
    {
      var m, lines;
      var i := index;
      m, lines, r := QueryFrom(Memo(querier.section, querier.cache), querier.remaining, field, i);
      querier.remaining := lines;
      querier.section := m.section;
      querier.cache := m.cache;
      index := i + if r.Some? then 1 else 0;
      assert Memo(querier.section, querier.cache) == m && querier.remaining == lines;
    }
  }

  /** `ChecksumIter`: the checksums of every type, type by type. */
  class ChecksumIter {
    const querier: MemoQuerier
    /** `checksum_type_id` */
    var typeId: nat
    /** `checksum_index` */
    var index: nat

    /** `ChecksumIter::new` */
    constructor (querier: MemoQuerier)
      ensures this.querier == querier && typeId == 0 && index == 0
    {
      this.querier := querier;
      typeId := 0;
      index := 0;
    }

    /** `ChecksumIter::next` */
    method Next() returns (r: Option<ChecksumItem>)
      modifies this, querier
      ensures IsRest(querier.remaining, old(querier.remaining))
      ensures ChecksumStep(Memo(old(querier.section), old(querier.cache)), Kinds(old(querier.remaining)), old(typeId), old(index))
        == ChecksumFill(Memo(querier.section, querier.cache), Kinds(querier.remaining), typeId, index, r)
    {
      var m, lines, t, i;
      m, lines, t, i, r := ChecksumFrom(Memo(querier.section, querier.cache), querier.remaining, typeId, index);
      querier.remaining := lines;
      querier.section := m.section;
      querier.cache := m.cache;
      typeId := t;
      index := i;
      assert Memo(querier.section, querier.cache) == m && querier.remaining == lines;
    }
  }
}
