/**
 * The checksum queries of a parsed `.SRCINFO` (`ParsedSrcinfo::checksums`) and of a single
 * section (`ParsedSrcinfoBaseSection::checksums`, `ParsedSrcinfoDerivativeSection::checksums`):
 * the checksum fields queried one type after the other in `TYPES` order.
 */
module SrcinfoChecksums {
  import opened Wrappers
  import opened SeqFacts
  import opened SrcinfoField
  import opened SrcinfoData
  import opened Checksums

  /** The position of a checksum type in `TYPES`. */
  function Rank(t: ChecksumType): (k: nat)
    ensures k < |Types| && Types[k] == t
  {
    match t
    case Md5 => 0
    case Sha1 => 1
    case Sha224 => 2
    case Sha256 => 3
    case Sha384 => 4
    case Sha512 => 5
    case Blake2b => 6
  }

  /** Each position of `TYPES` holds the type of that rank. */
  lemma RankOf(k: nat)
    requires k < |Types|
    ensures Rank(Types[k]) == k
  {
    if k == 0 {
    } else if k == 1 {
    } else if k == 2 {
    } else if k == 3 {
    } else if k == 4 {
    } else if k == 5 {
    } else {
    }
  }

  /** Items whose types appear in `TYPES` order: all of one type before any of a later one. */
  predicate GroupedByType(r: seq<ChecksumItem>) {
    forall i, j :: 0 <= i < j < |r| ==> Rank(r[i].value.kind) <= Rank(r[j].value.kind)
  }

  /**
   * `ParsedSrcinfo::checksums_single_type`: the items of the type's own query (base section
   * first, then the `pkgname` sections), each wrapped as a checksum of that type.
   */
  function ChecksumsSingleType(p: ParsedSrcinfo, t: ChecksumType): seq<ChecksumItem>
    requires WellFormed(p)
  {
    ToChecksums(t, QueryRawText(p, FieldOf(t)))
  }

  /** The checksums of the types from position `k` of `TYPES` on, type after type. */
  function ChecksumsFrom(p: ParsedSrcinfo, k: nat): seq<ChecksumItem>
    requires WellFormed(p)
    decreases |Types| - k
  {
    if k >= |Types| then [] else ChecksumsSingleType(p, Types[k]) + ChecksumsFrom(p, After(k))
  }

  /** `Checksums::checksums` for `ParsedSrcinfo`: `flat_map` of the single-type queries over `TYPES`. */
  function ParsedChecksums(p: ParsedSrcinfo): seq<ChecksumItem>
    requires WellFormed(p)
  {
    ChecksumsFrom(p, 0)
  }

  /** A checksum item comes from an item of its type's field with the same text, section and architecture. */
  lemma {:induction false} ToChecksumsHas(t: ChecksumType, items: seq<Item>, x: ChecksumItem)
    ensures x in ToChecksums(t, items) <==>
      x.value.kind == t && Item(x.value.raw, x.section, x.architecture) in items
    decreases |items|
  {
    if items != [] {
      ToChecksumsHas(t, items[1..], x);
      assert items == [items[0]] + items[1..];
    }
  }

  /** The checksums of the types from `k` on are those of each such type's field. */
  lemma {:induction false} ChecksumsFromHas(p: ParsedSrcinfo, k: nat, x: ChecksumItem)
    requires WellFormed(p)
    ensures x in ChecksumsFrom(p, k) <==>
      k <= Rank(x.value.kind) && Item(x.value.raw, x.section, x.architecture) in QueryRawText(p, FieldOf(x.value.kind))
    decreases |Types| - k
  {
    if k < |Types| {
      var t := x.value.kind;
      RankOf(k);
      ToChecksumsHas(Types[k], QueryRawText(p, FieldOf(Types[k])), x);
      ChecksumsFromHas(p, After(k), x);
      assert x in ChecksumsFrom(p, k) <==> x in ChecksumsSingleType(p, Types[k]) || x in ChecksumsFrom(p, After(k));
      if Rank(t) == k {
        assert t == Types[k];
      } else {
        assert t != Types[k];
      }
    }
  }

  /**
   * What `checksums` yields: a checksum of type `t` with text `v`, section `s` and
   * architecture `a` exactly when section `s` itself holds `v` with architecture `a` for
   * the field of `t` (checksum fields are never `pkgbase`-only, so both kinds of section count).
   */
  lemma ParsedChecksumsHold(p: ParsedSrcinfo, x: ChecksumItem)
    requires WellFormed(p)
    ensures x in ParsedChecksums(p) <==>
      var f := FieldOf(x.value.kind);
      (x.section == Section.Base && Holds(p.base, f, x.value.raw, x.architecture))
      || (x.section.Derivative? && x.section.name in p.derivatives
          && Holds(p.derivatives[x.section.name], f, x.value.raw, x.architecture))
  {
    var f := FieldOf(x.value.kind);
    ChecksumFieldShared(x.value.kind);
    ChecksumsFromHas(p, 0, x);
    assert x in ParsedChecksums(p) <==> Item(x.value.raw, x.section, x.architecture) in QueryRawText(p, f);
    QueryRawTextHolds(p, f, x.value.raw, x.section, x.architecture);
  }

  /** Checksum fields belong to every section, not to `pkgbase` alone. */
  lemma ChecksumFieldShared(t: ChecksumType)
    ensures FieldOf(t) != Name && !BaseOnly(FieldOf(t))
  {
  }

  lemma {:induction false} ToChecksumsOfType(t: ChecksumType, items: seq<Item>, i: nat)
    requires i < |items|
    ensures ToChecksums(t, items)[i].value.kind == t
    decreases i
  {
    if i > 0 {
      ToChecksumsOfType(t, items[1..], i - 1);
    }
  }

  /** Every item from position `k` of `TYPES` on has a type at `k` or later. */
  lemma RankFrom(p: ParsedSrcinfo, k: nat, i: nat)
    requires WellFormed(p) && i < |ChecksumsFrom(p, k)|
    ensures k <= Rank(ChecksumsFrom(p, k)[i].value.kind)
  {
    ChecksumsFromHas(p, k, ChecksumsFrom(p, k)[i]);
  }

  /** Items of one type followed by items of later types, grouped, are grouped. */
  lemma GroupedAppend(a: seq<ChecksumItem>, b: seq<ChecksumItem>, k: nat)
    requires forall i :: 0 <= i < |a| ==> Rank(a[i].value.kind) == k
    requires forall j :: 0 <= j < |b| ==> k < Rank(b[j].value.kind)
    requires GroupedByType(b)
    ensures GroupedByType(a + b)
  {
    var r := a + b;
    forall i, j | 0 <= i < j < |r| ensures Rank(r[i].value.kind) <= Rank(r[j].value.kind) {
      if j < |a| {
        assert r[i] == a[i] && r[j] == a[j];
      } else if i < |a| {
        assert r[i] == a[i] && r[j] == b[j - |a|];
      } else {
        assert r[i] == b[i - |a|] && r[j] == b[j - |a|];
      }
    }
  }

  /** The checksums from position `k` on are grouped by type in `TYPES` order. */
  lemma {:induction false} ChecksumsFromGrouped(p: ParsedSrcinfo, k: nat)
    requires WellFormed(p)
    ensures GroupedByType(ChecksumsFrom(p, k))
    decreases |Types| - k
  {
    if k < |Types| {
      var items := QueryRawText(p, FieldOf(Types[k]));
      var head := ChecksumsSingleType(p, Types[k]);
      var tail := ChecksumsFrom(p, After(k));
      RankOf(k);
      forall i | 0 <= i < |head| ensures Rank(head[i].value.kind) == k {
        ToChecksumsOfType(Types[k], items, i);
      }
      forall j | 0 <= j < |tail| ensures k < Rank(tail[j].value.kind) {
        RankFrom(p, After(k), j);
      }
      ChecksumsFromGrouped(p, After(k));
      GroupedAppend(head, tail, k);
    }
  }

  /** `checksums` lists every md5 checksum before any sha1 checksum, and so on through `TYPES`. */
  lemma ParsedChecksumsGrouped(p: ParsedSrcinfo)
    requires WellFormed(p)
    ensures GroupedByType(ParsedChecksums(p))
  {
    ChecksumsFromGrouped(p, 0);
  }

  /** An item of a section-level checksum query: the value and its architecture suffix. */
  type SectionChecksum = (ChecksumValue, Option<string>)

  /** The stored `(value, architecture)` pairs of a checksum field, as checksums of type `t`. */
  function ToSectionChecksums(t: ChecksumType, view: seq<ArchValue>): (r: seq<SectionChecksum>)
    ensures |r| == |view|
  {
    if view == [] then [] else [(ChecksumValue(t, view[0].0), view[0].1)] + ToSectionChecksums(t, view[1..])
  }

  /** A section-level checksum of type `t` is a stored pair of the field of `t`, architecture kept. */
  lemma {:induction false} ToSectionChecksumsHas(t: ChecksumType, view: seq<ArchValue>, x: SectionChecksum)
    ensures x in ToSectionChecksums(t, view) <==> x.0.kind == t && (x.0.raw, x.1) in view
    decreases |view|
  {
    if view != [] {
      ToSectionChecksumsHas(t, view[1..], x);
      assert view == [view[0]] + view[1..];
    }
  }

  /** The section checksum yielded at position `i` of the view. */
  lemma {:induction false} ToSectionChecksumsAt(t: ChecksumType, view: seq<ArchValue>, i: nat)
    requires i < |view|
    ensures ToSectionChecksums(t, view)[i] == (ChecksumValue(t, view[i].0), view[i].1)
    decreases i
  {
    if i > 0 {
      ToSectionChecksumsAt(t, view[1..], i - 1);
    }
  }

  /** A section's `checksums_single_type`: its own list of the type's field. */
  function SectionChecksumsSingleType(d: SectionData, t: ChecksumType): seq<SectionChecksum> {
    ToSectionChecksums(t, Multi(d, FieldOf(t)))
  }

  /** A section's checksums of the types from position `k` of `TYPES` on. */
  function SectionChecksumsFrom(d: SectionData, k: nat): seq<SectionChecksum>
    decreases |Types| - k
  {
    if k >= |Types| then [] else SectionChecksumsSingleType(d, Types[k]) + SectionChecksumsFrom(d, After(k))
  }

  /** `checksums` of a base or `pkgname` section: `flat_map` of its single-type views over `TYPES`. */
  function SectionChecksums(d: SectionData): seq<SectionChecksum> {
    SectionChecksumsFrom(d, 0)
  }

  lemma {:induction false} SectionChecksumsFromHas(d: SectionData, k: nat, x: SectionChecksum)
    ensures x in SectionChecksumsFrom(d, k) <==> k <= Rank(x.0.kind) && (x.0.raw, x.1) in Multi(d, FieldOf(x.0.kind))
    decreases |Types| - k
  {
    if k < |Types| {
      var t := x.0.kind;
      RankOf(k);
      ToSectionChecksumsHas(Types[k], Multi(d, FieldOf(Types[k])), x);
      SectionChecksumsFromHas(d, After(k), x);
      assert x in SectionChecksumsFrom(d, k) <==> x in SectionChecksumsSingleType(d, Types[k]) || x in SectionChecksumsFrom(d, After(k));
      if Rank(t) == k {
        assert t == Types[k];
      } else {
        assert t != Types[k];
      }
    }
  }

  /**
   * A section's `checksums` yields exactly the pairs it stores under the checksum fields,
   * each tagged with the type of its field and with its architecture unchanged.
   */
  lemma SectionChecksumsHold(d: SectionData, x: SectionChecksum)
    ensures x in SectionChecksums(d) <==> (x.0.raw, x.1) in Multi(d, FieldOf(x.0.kind))
  {
    SectionChecksumsFromHas(d, 0, x);
  }

  /**
   * `SectionChecksumsIter`: an index into the view of one section's checksum field. Each
   * `next` yields the pair at the index and moves it on by one; past the end it yields
   * nothing and stays.
   */
  class SectionChecksumsIter {
    var index: nat
    const kind: ChecksumType
    const view: seq<ArchValue>

    ghost predicate Valid()
      reads this
    {
      index <= |view|
    }

    /** The checksums still to come. */
    function Remaining(): seq<SectionChecksum>
      reads this
      requires Valid()
    {
      ToSectionChecksums(kind, view[index..])
    }

    /** `checksums_single_type` of a section: a new iterator over its list of the type's field. */
    constructor (d: SectionData, t: ChecksumType)
      ensures Valid() && index == 0 && kind == t && view == Multi(d, FieldOf(t))
      ensures Remaining() == SectionChecksumsSingleType(d, t)
    {
      index := 0;
      kind := t;
      view := Multi(d, FieldOf(t));
      new;
      assert view[0..] == view;
    }

    /** `Iterator::next` */
    method Next() returns (r: Option<SectionChecksum>)
      requires Valid()
      modifies this
      ensures Valid()
      ensures old(index) < |view| ==>
        r == Some((ChecksumValue(kind, view[old(index)].0), view[old(index)].1)) && index == old(index) + 1
      ensures old(index) == |view| ==> r.None? && index == old(index)
      ensures r.Some? ==> old(Remaining()) == [r.value] + Remaining()
      ensures r.None? <==> old(Remaining()) == []
    {
      if index < |view| {
        var (value, architecture) := view[index];
        r := Some((ChecksumValue(kind, value), architecture));
        assert view[index..][1..] == view[index + 1..];
        index := index + 1;
      } else {
        r := None;
      }
    }
  }
}
