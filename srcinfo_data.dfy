/**
 * The data of a parsed `.SRCINFO`: one `pkgbase` section and the `pkgname` sections in order
 * of first appearance, the rules by which a section accepts an entry
 * (`ParsedSrcinfoBaseSection::add`, `ParsedSrcinfoDerivativeSectionEntryMut::add` and the
 * `add_value_to_option` they share), and the `Query` methods of `ParsedSrcinfo`.
 */
module SrcinfoData {
  import opened Wrappers
  import opened SrcinfoField

  /** `Section`: the section an item was read from. */
  datatype Section = Base | Derivative(name: string)

  /** `QueryRawTextItem`: the value text of an entry with its section and architecture. */
  datatype Item = Item(value: string, section: Section, architecture: Option<string>)

  /** A stored value of a multi-valued field together with its architecture suffix. */
  type ArchValue = (string, Option<string>)

  predicate IsSingle(f: FieldName) {
    ClassOf(f) == BaseSingle || ClassOf(f) == SharedSingle
  }

  predicate IsMulti(f: FieldName) {
    ClassOf(f) == BaseMulti || ClassOf(f) == SharedMultiNoArch || ClassOf(f) == SharedMultiArch
  }

  /** The fields that only the `pkgbase` section holds. */
  predicate BaseOnly(f: FieldName) {
    ClassOf(f) == BaseSingle || ClassOf(f) == BaseMulti
  }

  /**
   * The data of one section: the `Option` slot of each single-valued field and the `Vec` of
   * each multi-valued field. An absent key is an empty slot or an empty list.
   */
  datatype SectionData = SectionData(singles: map<FieldName, string>, multis: map<FieldName, seq<ArchValue>>)

  /** `Default` of a section: every slot empty, every list empty. */
  const EmptySection := SectionData(map[], map[])

  /** The value in the slot of a single-valued field. */
  function Single(d: SectionData, f: FieldName): Option<string> {
    if f in d.singles then Some(d.singles[f]) else None
  }

  /** The values in the list of a multi-valued field, in insertion order. */
  function Multi(d: SectionData, f: FieldName): seq<ArchValue> {
    if f in d.multis then d.multis[f] else []
  }

  /** Two sections agree on every field other than `f`. */
  predicate SameExcept(d: SectionData, e: SectionData, f: FieldName) {
    forall g :: g != f ==> Single(d, g) == Single(e, g) && Multi(d, g) == Multi(e, g)
  }

  /** `Vec::push` on the list of `f`. */
  function Push(d: SectionData, f: FieldName, v: ArchValue): (r: SectionData)
    ensures Multi(r, f) == Multi(d, f) + [v]
    ensures SameExcept(d, r, f) && Single(r, f) == Single(d, f)
  {
    d.(multis := d.multis[f := Multi(d, f) + [v]])
  }

  /** `ParsedSrcinfoAlreadySetError` / `ParsedDerivativeAlreadySetError`: the field and the value it keeps. */
  datatype AlreadySetError = AlreadySetError(field: FieldName, value: string)

  /** `SrcinfoParseIssue` */
  datatype SrcinfoParseIssue =
    | UnknownField(field: RawField)
    | BaseFieldAlreadySet(error: AlreadySetError)
    | DerivativeFieldAlreadySet(name: string, error: AlreadySetError)
    | InvalidLine(line: string)

  /** `AddFailure`: the entry opens a new section, or it raises an issue. */
  datatype AddFailure = MeetHeader(name: string) | Issue(issue: SrcinfoParseIssue)

  /** The issue raised by a second value for a single-valued field of section `owner`. */
  function AlreadySet(owner: Section, error: AlreadySetError): SrcinfoParseIssue {
    match owner
    case Base => BaseFieldAlreadySet(error)
    case Derivative(name) => DerivativeFieldAlreadySet(name, error)
  }

  /**
   * `add_value_to_option` (both copies): fill an empty slot, or leave the slot as it is and
   * report the value it already holds.
   */
  function AddValueToOption(owner: Section, d: SectionData, f: FieldName, value: string): (r: Result<SectionData, AddFailure>)
    ensures r.Ok? <==> Single(d, f).None?
    ensures r.Ok? ==> Single(r.value, f) == Some(value) && Multi(r.value, f) == Multi(d, f) && SameExcept(d, r.value, f)
    ensures r.Err? ==> r.error == Issue(AlreadySet(owner, AlreadySetError(f, Single(d, f).value)))
  {
    if f in d.singles then Err(Issue(AlreadySet(owner, AlreadySetError(f, d.singles[f]))))
    else Ok(d.(singles := d.singles[f := value]))
  }

  /**
   * Whether a section stores an entry of `field`: every section stores multi-valued
   * fields with an architecture, and the others only without one; a `pkgname` section never
   * stores the `pkgbase`-only fields.
   */
  predicate Stores(owner: Section, field: ParsedField<string>) {
    var c := ClassOf(field.name);
    if c == SharedMultiArch then true
    else if c == Header || (owner.Derivative? && BaseOnly(field.name)) then false
    else field.architecture.None?
  }

  /**
   * What adding an entry does to a section: `pkgname` without architecture is reported as a
   * header and changes nothing; an entry the section does not store changes nothing; a stored
   * multi-valued entry is appended; a stored single-valued entry fills the slot or is
   * reported as already set.
   */
  predicate AddSpec(owner: Section, d: SectionData, field: ParsedField<string>, value: string, r: Result<SectionData, AddFailure>) {
    var f := field.name;
    (r.Err? && r.error.MeetHeader? <==> f == Name && field.architecture.None?)
    && (r.Err? && r.error.MeetHeader? ==> r.error.name == value)
    && (r.Ok? ==> SameExcept(d, r.value, f))
    && (!Stores(owner, field) && f != Name ==> r == Ok(d))
    && (f == Name && field.architecture.Some? ==> r == Ok(d))
    && (Stores(owner, field) && IsMulti(f) ==>
          r.Ok? && Multi(r.value, f) == Multi(d, f) + [(value, field.architecture)] && Single(r.value, f) == Single(d, f))
    && (Stores(owner, field) && IsSingle(f) && Single(d, f).None? ==>
          r.Ok? && Single(r.value, f) == Some(value) && Multi(r.value, f) == Multi(d, f))
    && (Stores(owner, field) && IsSingle(f) && Single(d, f).Some? ==>
          r == Err(Issue(AlreadySet(owner, AlreadySetError(f, Single(d, f).value)))))
  }

  /** `ParsedSrcinfoBaseSection::add` */
  function BaseAdd(d: SectionData, field: ParsedField<string>, value: string): (r: Result<SectionData, AddFailure>)
    ensures AddSpec(Section.Base, d, field, value, r)
  {
    var f := field.name;
    match ClassOf(f)
    case Header => if field.architecture.None? then Err(MeetHeader(value)) else Ok(d)
    case BaseSingle => if field.architecture.None? then AddValueToOption(Section.Base, d, f, value) else Ok(d)
    case SharedSingle => if field.architecture.None? then AddValueToOption(Section.Base, d, f, value) else Ok(d)
    case BaseMulti => if field.architecture.None? then Ok(Push(d, f, (value, None))) else Ok(d)
    case SharedMultiNoArch => if field.architecture.None? then Ok(Push(d, f, (value, None))) else Ok(d)
    case SharedMultiArch => Ok(Push(d, f, (value, field.architecture)))
  }

  /** `ParsedSrcinfoDerivativeSectionEntryMut::add` for the section named `name`. */
  function DerivativeAdd(name: string, d: SectionData, field: ParsedField<string>, value: string): (r: Result<SectionData, AddFailure>)
    ensures AddSpec(Derivative(name), d, field, value, r)
  {
    var f := field.name;
    match ClassOf(f)
    case Header => if field.architecture.None? then Err(MeetHeader(value)) else Ok(d)
    case BaseSingle => Ok(d)
    case BaseMulti => Ok(d)
    case SharedSingle => if field.architecture.None? then AddValueToOption(Derivative(name), d, f, value) else Ok(d)
    case SharedMultiNoArch => if field.architecture.None? then Ok(Push(d, f, (value, None))) else Ok(d)
    case SharedMultiArch => Ok(Push(d, f, (value, field.architecture)))
  }

  /** A `pkgname` section never holds a `pkgbase`-only field. */
  predicate NoBaseFields(d: SectionData) {
    forall f :: BaseOnly(f) ==> Single(d, f).None? && Multi(d, f) == []
  }

  /** Adding to a `pkgname` section keeps it free of `pkgbase`-only fields. */
  lemma DerivativeAddKeepsShape(name: string, d: SectionData, field: ParsedField<string>, value: string)
    requires NoBaseFields(d)
    ensures DerivativeAdd(name, d, field, value).Ok? ==> NoBaseFields(DerivativeAdd(name, d, field, value).value)
  {
    var r := DerivativeAdd(name, d, field, value);
    if r.Ok? {
      forall f | BaseOnly(f) ensures Single(r.value, f).None? && Multi(r.value, f) == [] {
        if f == field.name {
          assert !Stores(Derivative(name), field);
        }
      }
    }
  }

  /**
   * `ParsedSrcinfo`: the `pkgbase` section and the `IndexMap` of `pkgname` sections, kept as
   * the keys in insertion order and the map from key to section.
   */
  datatype ParsedSrcinfo = ParsedSrcinfo(base: SectionData, names: seq<string>, derivatives: map<string, SectionData>)

  /** The keys are distinct and are exactly the keys of the map. */
  predicate WellFormed(p: ParsedSrcinfo) {
    (forall i, j :: 0 <= i < j < |p.names| ==> p.names[i] != p.names[j])
    && (forall n :: n in p.names ==> n in p.derivatives)
    && (forall n :: n in p.derivatives ==> n in p.names)
    && (forall n :: n in p.derivatives ==> NoBaseFields(p.derivatives[n]))
  }

  /** `ParsedSrcinfo::default()` */
  const DefaultParsed := ParsedSrcinfo(EmptySection, [], map[])

  /** The items a section holds for `f`, tagged with section `s`. */
  function SectionItems(d: SectionData, s: Section, f: FieldName): (r: seq<Item>)
    ensures forall x :: x in r ==> x.section == s
  {
    if IsSingle(f) then
      match Single(d, f)
      case Some(v) => [Item(v, s, None)]
      case None => []
    else
      var vs := Multi(d, f);
      seq(|vs|, i requires 0 <= i < |vs| => Item(vs[i].0, s, vs[i].1))
  }

  /** The items of the `pkgname` sections `ns`, section by section. */
  function DerivativeItems(p: ParsedSrcinfo, ns: seq<string>, f: FieldName): (r: seq<Item>)
    requires forall n :: n in ns ==> n in p.derivatives
    ensures forall x :: x in r ==> x.section.Derivative? && x.section.name in ns
  {
    if ns == [] then []
    else SectionItems(p.derivatives[ns[0]], Derivative(ns[0]), f) + DerivativeItems(p, ns[1..], f)
  }

  /**
   * `Query::query_raw_text` on `ParsedSrcinfo`: for `pkgname` the keys of the sections; for a
   * `pkgbase`-only field the items of the base section; for any other field the items of the
   * base section followed by those of each `pkgname` section in order.
   */
  function QueryRawText(p: ParsedSrcinfo, f: FieldName): (r: seq<Item>)
    requires WellFormed(p)
    ensures f == Name ==> |r| == |p.names| && forall i :: 0 <= i < |r| ==> r[i] == Item(p.names[i], Derivative(p.names[i]), None)
  {
    if f == Name then seq(|p.names|, i requires 0 <= i < |p.names| => Item(p.names[i], Derivative(p.names[i]), None))
    else if BaseOnly(f) then SectionItems(p.base, Section.Base, f)
    else SectionItems(p.base, Section.Base, f) + DerivativeItems(p, p.names, f)
  }

  /** A section holds `v` with architecture `a` for field `f`. */
  predicate Holds(d: SectionData, f: FieldName, v: string, a: Option<string>) {
    if IsSingle(f) then Single(d, f) == Some(v) && a.None? else (v, a) in Multi(d, f)
  }

  lemma SectionItemsHold(d: SectionData, s: Section, f: FieldName, v: string, a: Option<string>)
    ensures Item(v, s, a) in SectionItems(d, s, f) <==> Holds(d, f, v, a)
  {
    if !IsSingle(f) {
      var vs := Multi(d, f);
      if (v, a) in vs {
        var i :| 0 <= i < |vs| && vs[i] == (v, a);
        assert SectionItems(d, s, f)[i] == Item(v, s, a);
      }
    }
  }

  lemma {:induction false} DerivativeItemsHold(p: ParsedSrcinfo, ns: seq<string>, f: FieldName, n: string, v: string, a: Option<string>)
    requires forall m :: m in ns ==> m in p.derivatives
    ensures Item(v, Derivative(n), a) in DerivativeItems(p, ns, f) <==> n in ns && Holds(p.derivatives[n], f, v, a)
    decreases |ns|
  {
    if ns != [] {
      SectionItemsHold(p.derivatives[ns[0]], Derivative(ns[0]), f, v, a);
      DerivativeItemsHold(p, ns[1..], f, n, v, a);
      assert ns == [ns[0]] + ns[1..];
    }
  }

  /**
   * What a query yields, item by item: a base item for each value the base section holds,
   * and, unless the field is `pkgbase`-only, a `Derivative(n)` item for each value section
   * `n` holds itself; nothing is filled in from the base section.
   */
  lemma QueryRawTextHolds(p: ParsedSrcinfo, f: FieldName, v: string, s: Section, a: Option<string>)
    requires WellFormed(p) && f != Name
    ensures Item(v, s, a) in QueryRawText(p, f) <==>
      (s == Section.Base && Holds(p.base, f, v, a))
      || (s.Derivative? && !BaseOnly(f) && s.name in p.derivatives && Holds(p.derivatives[s.name], f, v, a))
  {
    SectionItemsHold(p.base, Section.Base, f, v, a);
    if s.Derivative? && !BaseOnly(f) {
      DerivativeItemsHold(p, p.names, f, s.name, v, a);
    }
  }

  /** The items of the base section come before those of every `pkgname` section. */
  lemma QueryBaseFirst(p: ParsedSrcinfo, f: FieldName, i: nat, j: nat)
    requires WellFormed(p) && i < j < |QueryRawText(p, f)|
    requires QueryRawText(p, f)[j].section == Section.Base
    ensures QueryRawText(p, f)[i].section == Section.Base
  {
    var r := QueryRawText(p, f);
    if f != Name && !BaseOnly(f) {
      var b := SectionItems(p.base, Section.Base, f);
      if j >= |b| {
        assert false;
      }
      assert r[i] == b[i] && b[i] in b;
    } else if f != Name {
      assert r[i] in r;
    }
  }
}
