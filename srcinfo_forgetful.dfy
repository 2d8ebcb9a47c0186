/**
 * `ForgetfulQuerier` of `.SRCINFO`: every lookup rescans the text. The querier holds only
 * the text, so each query is a function of the text.
 */
module SrcinfoForgetful {
  import opened Wrappers
  import opened SrcinfoField
  import opened SrcinfoUtils
  import opened Checksums
  import SrcinfoData

  type Section = SrcinfoData.Section
  type Item = SrcinfoData.Item

  /** A known field and its value, as `known_field` gives them. */
  type Entry = (ParsedField<string>, string)

  /** An entry tagged with the section it belongs to. */
  type Tagged = (Section, Entry)

  /** `map_while(parse_line)`: the parsed lines before the first line without `=`. */
  function ParsedPrefix(lines: seq<string>): (r: seq<(RawField, string)>)
    ensures |r| <= |lines|
    ensures forall i :: 0 <= i < |r| ==> ParseLine(lines[i]) == Some(r[i])
    ensures |r| < |lines| ==> '=' !in lines[|r|]
  {
    if lines == [] then []
    else
      match ParseLine(lines[0])
      case None => []
      case Some(p) => [p] + ParsedPrefix(lines[1..])
  }

  /** Nothing after the first line without `=` is ever read. */
  lemma {:induction false} StopsAtLineWithoutEquals(a: seq<string>, line: string, b: seq<string>)
    requires forall i :: 0 <= i < |a| ==> '=' in a[i]
    requires '=' !in line
    ensures ParsedPrefix(a + [line] + b) == ParsedPrefix(a)
    decreases |a|
  {
    if a == [] {
      assert (a + [line] + b)[0] == line;
    } else {
      assert (a + [line] + b)[0] == a[0];
      assert (a + [line] + b)[1..] == a[1..] + [line] + b;
      StopsAtLineWithoutEquals(a[1..], line, b);
    }
  }

  /** `filter_map(known_field)` and then `filter(|(_, value)| !value.is_empty())`. */
  function KnownEntries(ps: seq<(RawField, string)>): (r: seq<Entry>)
    ensures forall e :: e in r ==> e.1 != [] && exists p :: p in ps && KnownField(p.0) == Some(e.0) && p.1 == e.1
    ensures forall p :: p in ps && KnownField(p.0).Some? && p.1 != [] ==> (KnownField(p.0).value, p.1) in r
  {
    if ps == [] then []
    else
      var rest := KnownEntries(ps[1..]);
      assert forall p :: p in ps[1..] ==> p in ps;
      match KnownField(ps[0].0)
      case Some(f) => if ps[0].1 != [] then [(f, ps[0].1)] + rest else rest
      case None => rest
  }

  /** `scan_section`: an item of field `pkgname` opens the derivative section it names. */
  function ScanStep(section: Section, e: Entry): Section {
    if e.0.name == FieldName.Name then SrcinfoData.Derivative(e.1) else section
  }

  /**
   * The section after the entries `done`: the one named by the last `pkgname` among them,
   * or `start` when there is none.
   */
  function SectionAfter(start: Section, done: seq<Entry>): Section {
    if done == [] then start
    else if done[|done| - 1].0.name == FieldName.Name then SrcinfoData.Derivative(done[|done| - 1].1)
    else SectionAfter(start, done[..|done| - 1])
  }

  /** Reading the first entry and then the rest is reading them all. */
  lemma {:induction false} SectionAfterCons(start: Section, e: Entry, rest: seq<Entry>)
    ensures SectionAfter(ScanStep(start, e), rest) == SectionAfter(start, [e] + rest)
    decreases |rest|
  {
    if rest != [] {
      assert ([e] + rest)[..|[e] + rest| - 1] == [e] + rest[..|rest| - 1];
      SectionAfterCons(start, e, rest[..|rest| - 1]);
    } else {
      assert ([e] + rest)[..0] == [];
    }
  }

  /**
   * `scan_state_copy(start, scan_section)`: each entry is tagged with the section named by
   * the last `pkgname` up to and including it, whether or not that `pkgname` carries an
   * architecture suffix.
   */
  function ScanSections(start: Section, es: seq<Entry>): (r: seq<Tagged>)
    ensures |r| == |es|
    ensures forall i :: 0 <= i < |es| ==> r[i] == (SectionAfter(start, es[..i + 1]), es[i])
    decreases |es|
  {
    if es == [] then []
    else
      var s := ScanStep(start, es[0]);
      var rest := ScanSections(s, es[1..]);
      assert es[..1] == [es[0]] && ([es[0]][..0]) == [];
      forall i | 1 <= i < |es|
        ensures rest[i - 1] == (SectionAfter(start, es[..i + 1]), es[i])
      {
        SectionAfterCons(start, es[0], es[1..][..i]);
        assert [es[0]] + es[1..][..i] == es[..i + 1];
      }
      [(s, es[0])] + rest
  }

  /** `all_known_items` */
  function AllKnownItems(text: string): (r: seq<Tagged>) {
    ScanSections(SrcinfoData.Base, KnownEntries(ParsedPrefix(NonBlankTrimmedLines(text))))
  }

  /** The raw-text item reported for a tagged entry. */
  function ItemOf(t: Tagged): Item {
    SrcinfoData.Item(t.1.1, t.0, t.1.0.architecture)
  }

  /** The items, among `ts`, of the field `f`, in order. */
  function ItemsOf(ts: seq<Tagged>, f: FieldName): (r: seq<Item>)
    ensures forall it :: it in r <==> exists t :: t in ts && t.1.0.name == f && it == ItemOf(t)
  {
    if ts == [] then []
    else
      var rest := ItemsOf(ts[1..], f);
      assert forall t :: t in ts <==> t == ts[0] || t in ts[1..];
      if ts[0].1.0.name == f then [ItemOf(ts[0])] + rest else rest
  }

  /** Filtering keeps source order: the items of a concatenation are concatenated. */
  lemma {:induction false} ItemsOfAppend(a: seq<Tagged>, b: seq<Tagged>, f: FieldName)
    ensures ItemsOf(a + b, f) == ItemsOf(a, f) + ItemsOf(b, f)
    decreases |a|
  {
    if a == [] {
      assert a + b == b;
    } else {
      assert (a + b)[0] == a[0] && (a + b)[1..] == a[1..] + b;
      ItemsOfAppend(a[1..], b, f);
    }
  }

  /** `query_raw_text`: exactly the items of the field, in source order, with their sections. */
  function QueryRawText(text: string, f: FieldName): (r: seq<Item>)
    ensures forall it :: it in r <==> exists t :: t in AllKnownItems(text) && t.1.0.name == f && it == ItemOf(t)
  {
    ItemsOf(AllKnownItems(text), f)
  }

  /** `c` is the checksum item reported for the tagged entry `t`. */
  predicate ChecksumOfEntry(t: Tagged, c: ChecksumItem) {
    ValueFromField(t.1.0.name, t.1.1) == Some(c.value) && c.section == t.0 && c.architecture == t.1.0.architecture
  }

  /** The checksum items among `ts`, in order, each tagged with the type of its field. */
  function ChecksumsOf(ts: seq<Tagged>): (r: seq<ChecksumItem>)
    ensures forall c :: c in r <==> exists t :: t in ts && ChecksumOfEntry(t, c)
  {
    if ts == [] then []
    else
      var rest := ChecksumsOf(ts[1..]);
      assert forall t :: t in ts <==> t == ts[0] || t in ts[1..];
      match ValueFromField(ts[0].1.0.name, ts[0].1.1)
      case Some(v) =>
        var c0 := ChecksumItem(v, ts[0].0, ts[0].1.0.architecture);
        assert ChecksumOfEntry(ts[0], c0);
        forall c ensures c in [c0] + rest <==> exists t :: t in ts && ChecksumOfEntry(t, c) {
          if c == c0 {
            assert ts[0] in ts;
          } else if exists t :: t in ts && ChecksumOfEntry(t, c) {
            var t :| t in ts && ChecksumOfEntry(t, c);
            assert t != ts[0];
          }
        }
        [c0] + rest
      case None => rest
  }

  /** Checksums keep source order: the checksums of a concatenation are concatenated. */
  lemma {:induction false} ChecksumsOfAppend(a: seq<Tagged>, b: seq<Tagged>)
    ensures ChecksumsOf(a + b) == ChecksumsOf(a) + ChecksumsOf(b)
    decreases |a|
  {
    if a == [] {
      assert a + b == b;
    } else {
      assert (a + b)[0] == a[0] && (a + b)[1..] == a[1..] + b;
      ChecksumsOfAppend(a[1..], b);
    }
  }

  /** `checksums`: every checksum item of the text in source order, whatever its type. */
  function QueryChecksums(text: string): (r: seq<ChecksumItem>)
    ensures forall c :: c in r <==> exists t :: t in AllKnownItems(text) && ChecksumOfEntry(t, c)
  {
    ChecksumsOf(AllKnownItems(text))
  }

  /**
   * A SHA-1 checksum of the base section followed by an MD5 checksum of a derivative is
   * reported in that order, unlike the queriers that group checksums by type.
   */
  lemma SourceOrderNotTypeOrder(sha1: string, md5: string, name: string)
    requires sha1 != [] && md5 != [] && name != []
    ensures var es: seq<Entry> := [
        (ParsedField(Sha1Checksums, None), sha1),
        (ParsedField(FieldName.Name, None), name),
        (ParsedField(Md5Checksums, None), md5)];
      ChecksumsOf(ScanSections(SrcinfoData.Base, es)) == [
        ChecksumItem(ChecksumValue(Sha1, sha1), SrcinfoData.Base, None),
        ChecksumItem(ChecksumValue(Md5, md5), SrcinfoData.Derivative(name), None)]
  {
    var es: seq<Entry> := [
      (ParsedField(Sha1Checksums, None), sha1),
      (ParsedField(FieldName.Name, None), name),
      (ParsedField(Md5Checksums, None), md5)];
    var d := SrcinfoData.Derivative(name);
    var t3 := ScanSections(d, es[2..]);
    assert es[2..][1..] == [];
    assert t3 == [(d, es[2])];
    var t2 := ScanSections(SrcinfoData.Base, es[1..]);
    assert es[1..][1..] == es[2..];
    assert t2 == [(d, es[1])] + t3;
    var ts := ScanSections(SrcinfoData.Base, es);
    assert ts == [(SrcinfoData.Base, es[0])] + t2;
    assert ChecksumsOf(t3) == [ChecksumItem(ChecksumValue(Md5, md5), d, None)];
    assert ChecksumsOf(t2) == ChecksumsOf(t3);
  }
}
