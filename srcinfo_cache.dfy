/**
 * The cache of the `.SRCINFO` `MemoQuerier`: one slot per field, shaped by the field's class.
 * `pkgbase`-only single fields keep one value that a later `add` overwrites; every other
 * field keeps a growing list.
 */
module SrcinfoCache {
  import opened Wrappers
  import opened SrcinfoField
  import opened SrcinfoData

  /**
   * `Cache`: `singles` are the `SingleValueCache`s of the `pkgbase`-only single fields,
   * `values` the lists of the `pkgbase`-only multi field, `sectioned` the lists of the shared
   * fields without architecture, `items` the lists of the shared fields with architecture
   * and `names` the list of `pkgname` values. An absent key is an empty slot or list.
   */
  datatype Cache = Cache(
    singles: map<FieldName, string>,
    values: map<FieldName, seq<string>>,
    sectioned: map<FieldName, seq<(string, Section)>>,
    items: map<FieldName, seq<Item>>,
    names: seq<string>)

  /** `Cache::default()` */
  const EmptyCache := Cache(map[], map[], map[], map[], [])

  function ValuesOf(c: Cache, f: FieldName): seq<string> {
    if f in c.values then c.values[f] else []
  }

  function SectionedOf(c: Cache, f: FieldName): seq<(string, Section)> {
    if f in c.sectioned then c.sectioned[f] else []
  }

  function ItemsOf(c: Cache, f: FieldName): seq<Item> {
    if f in c.items then c.items[f] else []
  }

  /** `create_base_value` */
  function BaseValue(v: string): Item {
    Item(v, Section.Base, None)
  }

  /** `create_shared_value_no_arch` */
  function SharedValue(vs: (string, Section)): Item {
    Item(vs.0, vs.1, None)
  }

  /** `create_name_value`: a `pkgname` value is reported in the section it names. */
  function NameValue(v: string): Item {
    Item(v, Derivative(v), None)
  }

  /**
   * The items the slot of `f` holds, when `f` is stored as class `k`, in the order `get`
   * reports them for the indices 0, 1, 2, …
   */
  function ViewAs(c: Cache, f: FieldName, k: FieldClass): (r: seq<Item>) {
    match k
    case Header => seq(|c.names|, i requires 0 <= i < |c.names| => NameValue(c.names[i]))
    case BaseSingle => if f in c.singles then [BaseValue(c.singles[f])] else []
    case BaseMulti =>
      var vs := ValuesOf(c, f);
      seq(|vs|, i requires 0 <= i < |vs| => BaseValue(vs[i]))
    case SharedSingle =>
      var vs := SectionedOf(c, f);
      seq(|vs|, i requires 0 <= i < |vs| => SharedValue(vs[i]))
    case SharedMultiNoArch =>
      var vs := SectionedOf(c, f);
      seq(|vs|, i requires 0 <= i < |vs| => SharedValue(vs[i]))
    case SharedMultiArch => ItemsOf(c, f)
  }

  /** The items the slot of `f` holds. */
  function View(c: Cache, f: FieldName): seq<Item> {
    ViewAs(c, f, ClassOf(f))
  }

  /** `Cache::get` for a field of class `k`; `SingleValueCache::get` answers index 0 only. */
  function GetAs(c: Cache, f: FieldName, k: FieldClass, index: nat): (r: Option<Item>)
    ensures r.Some? <==> index < |ViewAs(c, f, k)|
    ensures r.Some? ==> r.value == ViewAs(c, f, k)[index]
  {
    match k
    case Header => if index < |c.names| then Some(NameValue(c.names[index])) else None
    case BaseSingle => if index == 0 && f in c.singles then Some(BaseValue(c.singles[f])) else None
    case BaseMulti => if index < |ValuesOf(c, f)| then Some(BaseValue(ValuesOf(c, f)[index])) else None
    case SharedSingle => if index < |SectionedOf(c, f)| then Some(SharedValue(SectionedOf(c, f)[index])) else None
    case SharedMultiNoArch => if index < |SectionedOf(c, f)| then Some(SharedValue(SectionedOf(c, f)[index])) else None
    case SharedMultiArch => if index < |ItemsOf(c, f)| then Some(ItemsOf(c, f)[index]) else None
  }

  /** `Cache::get`: the `index`-th item of the field's slot, if there is one. */
  function Get(c: Cache, f: FieldName, index: nat): (r: Option<Item>)
    ensures r.Some? <==> index < |View(c, f)|
    ensures r.Some? ==> r.value == View(c, f)[index]
  {
    GetAs(c, f, ClassOf(f), index)
  }

  /** A fresh cache answers nothing. */
  lemma EmptyCacheIsEmpty(f: FieldName, index: nat)
    ensures View(EmptyCache, f) == []
    ensures Get(EmptyCache, f, index) == None
  {
    match ClassOf(f) {
      case Header =>
      case BaseSingle =>
      case BaseMulti =>
      case SharedSingle =>
      case SharedMultiNoArch =>
      case SharedMultiArch =>
    }
  }

  /**
   * The `extract_*` rules: which items `add` keeps for a field of class `k`. Items of the
   * fields stored with their architecture are always kept; all others only without an
   * architecture suffix.
   */
  predicate Kept(k: FieldClass, item: Item) {
    k == SharedMultiArch || item.architecture.None?
  }

  /**
   * How a kept item is reported back: `pkgbase`-only fields in the base section, `pkgname`
   * in the section it names, shared fields in their own section, without architecture
   * unless the field stores one.
   */
  function Stored(k: FieldClass, item: Item): Item {
    match k
    case Header => NameValue(item.value)
    case BaseSingle => BaseValue(item.value)
    case BaseMulti => BaseValue(item.value)
    case SharedSingle => Item(item.value, item.section, None)
    case SharedMultiNoArch => Item(item.value, item.section, None)
    case SharedMultiArch => item
  }

  /** `Vec::push` on the list kept under `k`. */
  function Append<V>(m: map<FieldName, seq<V>>, k: FieldName, v: V): (r: map<FieldName, seq<V>>)
    ensures k in r && r[k] == (if k in m then m[k] else []) + [v]
    ensures forall j :: j != k ==> (j in r <==> j in m) && (j in m ==> r[j] == m[j])
  {
    m[k := (if k in m then m[k] else []) + [v]]
  }

  /** `Cache::add` for a field of class `k`: apply the class's `extract_*` rule. */
  function AddAs(c: Cache, f: FieldName, k: FieldClass, item: Item): (r: Cache) {
    if !Kept(k, item) then c
    else
      match k
      case Header => c.(names := c.names + [item.value])
      case BaseSingle => c.(singles := c.singles[f := item.value])
      case BaseMulti => c.(values := Append(c.values, f, item.value))
      case SharedSingle => c.(sectioned := Append(c.sectioned, f, (item.value, item.section)))
      case SharedMultiNoArch => c.(sectioned := Append(c.sectioned, f, (item.value, item.section)))
      case SharedMultiArch => c.(items := Append(c.items, f, item))
  }

  /** `Cache::add`: dispatch on the class of the field. */
  function Add(c: Cache, f: FieldName, item: Item): Cache {
    AddAs(c, f, ClassOf(f), item)
  }

  lemma AddAsKeeps(c: Cache, f: FieldName, kf: FieldClass, item: Item, g: FieldName)
    requires g != f
    ensures var r := AddAs(c, f, kf, item);
      ValuesOf(r, g) == ValuesOf(c, g) && SectionedOf(r, g) == SectionedOf(c, g) && ItemsOf(r, g) == ItemsOf(c, g)
      && (g in r.singles <==> g in c.singles) && (g in c.singles ==> r.singles[g] == c.singles[g])
      && (kf != Header ==> r.names == c.names)
  {
    if Kept(kf, item) {
      match kf {
        case Header =>
        case BaseSingle =>
        case BaseMulti =>
        case SharedSingle =>
        case SharedMultiNoArch =>
        case SharedMultiArch =>
      }
    }
  }

  lemma AddAsOther(c: Cache, f: FieldName, kf: FieldClass, item: Item, g: FieldName, kg: FieldClass)
    requires g != f && !(kf == Header && kg == Header)
    ensures ViewAs(AddAs(c, f, kf, item), g, kg) == ViewAs(c, g, kg)
  {
    AddAsKeeps(c, f, kf, item, g);
    var r := AddAs(c, f, kf, item);
    match kg {
      case Header =>
      case BaseSingle =>
      case BaseMulti =>
      case SharedSingle =>
      case SharedMultiNoArch =>
      case SharedMultiArch =>
    }
  }

  /** Only `pkgname` is stored as a header. */
  lemma OnlyNameIsHeader(f: FieldName)
    ensures ClassOf(f) == Header <==> f == Name
  {
  }

  /** `add` changes no slot but that of its own field. */
  lemma AddOther(c: Cache, f: FieldName, item: Item, g: FieldName)
    requires g != f
    ensures View(Add(c, f, item), g) == View(c, g)
  {
    OnlyNameIsHeader(f);
    OnlyNameIsHeader(g);
    AddAsOther(c, f, ClassOf(f), item, g, ClassOf(g));
  }

  lemma AddAsSame(c: Cache, f: FieldName, k: FieldClass, item: Item)
    ensures !Kept(k, item) ==> ViewAs(AddAs(c, f, k, item), f, k) == ViewAs(c, f, k)
    ensures Kept(k, item) && k == BaseSingle ==> ViewAs(AddAs(c, f, k, item), f, k) == [Stored(k, item)]
    ensures Kept(k, item) && k != BaseSingle ==> ViewAs(AddAs(c, f, k, item), f, k) == ViewAs(c, f, k) + [Stored(k, item)]
  {
    var r := AddAs(c, f, k, item);
    if Kept(k, item) {
      match k {
        case Header =>
          assert ViewAs(r, f, k) == ViewAs(c, f, k) + [Stored(k, item)];
        case BaseSingle =>
        case BaseMulti =>
          assert ViewAs(r, f, k) == ViewAs(c, f, k) + [Stored(k, item)];
        case SharedSingle =>
          assert ViewAs(r, f, k) == ViewAs(c, f, k) + [Stored(k, item)];
        case SharedMultiNoArch =>
          assert ViewAs(r, f, k) == ViewAs(c, f, k) + [Stored(k, item)];
        case SharedMultiArch =>
      }
    }
  }

  /**
   * What `add` does to its own field's slot: a dropped item changes nothing; a kept item
   * overwrites the single value of a `pkgbase`-only single field and is appended to any
   * other list.
   */
  lemma AddSame(c: Cache, f: FieldName, item: Item)
    ensures !Kept(ClassOf(f), item) ==> View(Add(c, f, item), f) == View(c, f)
    ensures Kept(ClassOf(f), item) && ClassOf(f) == BaseSingle ==> View(Add(c, f, item), f) == [Stored(ClassOf(f), item)]
    ensures Kept(ClassOf(f), item) && ClassOf(f) != BaseSingle ==>
      View(Add(c, f, item), f) == View(c, f) + [Stored(ClassOf(f), item)]
  {
    AddAsSame(c, f, ClassOf(f), item);
  }

  /** Only the slot of a `pkgbase`-only single field can lose what it held. */
  predicate Grows(f: FieldName) {
    ClassOf(f) != BaseSingle
  }

  /** `add` never removes or reorders what a list held. */
  lemma AddExtends(c: Cache, f: FieldName, item: Item, g: FieldName)
    requires Grows(g)
    ensures View(c, g) <= View(Add(c, f, item), g)
  {
    if g == f {
      AddSame(c, f, item);
    } else {
      AddOther(c, f, item, g);
    }
  }

  /** A second `pkgver` replaces the first in the cache: the last added value wins. */
  lemma SingleOverwrites(c: Cache, first: string, second: string)
    ensures View(Add(Add(c, Version, BaseValue(first)), Version, BaseValue(second)), Version) == [BaseValue(second)]
  {
    AddSame(Add(c, Version, BaseValue(first)), Version, BaseValue(second));
  }
}
