/**
 * The checksum types of `.SRCINFO` (`md5sums` to `b2sums`), their values and the arrays
 * they decode into.
 */
module Checksums {
  import opened Wrappers
  import opened Hex
  import opened Values
  import opened SrcinfoField
  import SrcinfoData

  /** `ChecksumType` */
  datatype ChecksumType = Md5 | Sha1 | Sha224 | Sha256 | Sha384 | Sha512 | Blake2b

  /** `ChecksumType::TYPES`, in the order the checksum queries list them. */
  const Types: seq<ChecksumType> := [Md5, Sha1, Sha224, Sha256, Sha384, Sha512, Blake2b]

  /** Every checksum type appears exactly once in `TYPES`. */
  lemma TypesListsEachOnce(t: ChecksumType)
    ensures t in Types
    ensures forall i, j :: 0 <= i < j < |Types| ==> Types[i] != Types[j]
  {
  }

  /** The number of bytes of a checksum of each type. */
  function Size(t: ChecksumType): nat {
    match t
    case Md5 => Hex128Size
    case Sha1 => Hex160Size
    case Sha224 => Hex224Size
    case Sha256 => Hex256Size
    case Sha384 => Hex384Size
    case Sha512 => Hex512Size
    case Blake2b => Hex512Size
  }

  /** `into_field_name` */
  function FieldOf(t: ChecksumType): (r: FieldName)
    ensures ClassOf(r) == SharedMultiArch
  {
    match t
    case Md5 => Md5Checksums
    case Sha1 => Sha1Checksums
    case Sha224 => Sha224Checksums
    case Sha256 => Sha256Checksums
    case Sha384 => Sha384Checksums
    case Sha512 => Sha512Checksums
    case Blake2b => Blake2bChecksums
  }

  /** `try_from_field_name`: the checksum type stored under a field, if any. */
  function TypeOfField(f: FieldName): (r: Option<ChecksumType>)
    ensures r.Some? ==> FieldOf(r.value) == f
  {
    match f
    case Md5Checksums => Some(Md5)
    case Sha1Checksums => Some(Sha1)
    case Sha224Checksums => Some(Sha224)
    case Sha256Checksums => Some(Sha256)
    case Sha384Checksums => Some(Sha384)
    case Sha512Checksums => Some(Sha512)
    case Blake2bChecksums => Some(Blake2b)
    case _ => None
  }

  /** `try_from_field_name` inverts `into_field_name`, and finds no type for other fields. */
  lemma TypeOfFieldInverse(t: ChecksumType, f: FieldName)
    ensures TypeOfField(FieldOf(t)) == Some(t)
    ensures TypeOfField(f).None? <==> forall u :: FieldOf(u) != f
  {
    if TypeOfField(f).None? {
      forall u ensures FieldOf(u) != f {
        match u
        case Md5 =>
        case Sha1 =>
        case Sha224 =>
        case Sha256 =>
        case Sha384 =>
        case Sha512 =>
        case Blake2b =>
      }
    }
  }

  /** `TryFrom<FieldName> for ChecksumType` */
  function TypeTryFrom(f: FieldName): (r: Result<ChecksumType, ()>)
    ensures r.Ok? <==> TypeOfField(f).Some?
    ensures r.Ok? ==> FieldOf(r.value) == f
  {
    match TypeOfField(f)
    case Some(t) => Ok(t)
    case None => Err(())
  }

  /** `ChecksumValue`: the raw text of a checksum, tagged with its type. */
  datatype ChecksumValue = ChecksumValue(kind: ChecksumType, raw: string)

  /** `ChecksumValue::try_from_field_name` */
  function ValueFromField(f: FieldName, raw: string): (r: Option<ChecksumValue>)
    ensures r.Some? <==> TypeOfField(f).Some?
    ensures r.Some? ==> FieldOf(r.value.kind) == f && r.value.raw == raw
  {
    match TypeOfField(f)
    case Some(t) => Some(ChecksumValue(t, raw))
    case None => None
  }

  /** `QueryChecksumItem`: a checksum value with the section and architecture it was found in. */
  datatype ChecksumItem = ChecksumItem(value: ChecksumValue, section: SrcinfoData.Section, architecture: Option<string>)

  /** An item of the field of type `t` as a checksum item: its value text tagged with `t`. */
  function ToChecksum(t: ChecksumType, item: SrcinfoData.Item): ChecksumItem {
    ChecksumItem(ChecksumValue(t, item.value), item.section, item.architecture)
  }

  /** Items of the field of type `t` as checksum items, in order. */
  function ToChecksums(t: ChecksumType, items: seq<SrcinfoData.Item>): (r: seq<ChecksumItem>)
    ensures |r| == |items|
    ensures forall i :: 0 <= i < |items| ==> r[i] == ToChecksum(t, items[i])
  {
    if items == [] then [] else [ToChecksum(t, items[0])] + ToChecksums(t, items[1..])
  }

  /** `ChecksumArray`: `Skip`, or the decoded bytes of a checksum of some type. */
  datatype ChecksumArray = Skip | Typed(kind: ChecksumType, bytes: seq<Byte>)

  /** `ChecksumValue::u8_array`: decode with the wrapper of the value's type. */
  function U8Array(v: ChecksumValue): (r: Option<ChecksumArray>)
    ensures r.Some? <==> SkipOrHexArray(v.raw, Size(v.kind)).Some?
    ensures r == Some(ChecksumArray.Skip) <==> v.raw == "SKIP"
    ensures r.Some? && r.value.Typed? ==> r.value.kind == v.kind && |r.value.bytes| == Size(v.kind)
  {
    match SkipOrHexArray(v.raw, Size(v.kind))
    case None => None
    case Some(a) => if a.Skip? then Some(ChecksumArray.Skip) else Some(Typed(v.kind, a.bytes))
  }

  /** `ParseArray for ChecksumValue` */
  function ChecksumParseArray(v: ChecksumValue): (r: Result<ChecksumArray, ()>)
    ensures r.Ok? <==> U8Array(v).Some?
    ensures r.Ok? ==> r.value == U8Array(v).value
  {
    ParseArray(U8Array(v))
  }

  /** `ChecksumArray::try_as_slice` */
  function TryAsSlice(a: ChecksumArray): (r: Option<seq<Byte>>)
    ensures r.None? <==> a.Skip?
    ensures r.Some? ==> a == Typed(a.kind, r.value)
  {
    match a
    case Skip => None
    case Typed(_, bytes) => Some(bytes)
  }

  /** Round trip: a checksum spelled from bytes of the right size decodes into them. */
  lemma U8ArrayEncode(t: ChecksumType, bs: seq<Byte>)
    requires |bs| == Size(t)
    ensures U8Array(ChecksumValue(t, Encode(bs))) == Some(Typed(t, bs))
    ensures TryAsSlice(U8Array(ChecksumValue(t, Encode(bs))).value) == Some(bs)
  {
    SkipOrHexArrayEncode(bs);
  }

  /** A checksum too short for its type is padded with leading zero bytes, not refused. */
  lemma ShortChecksumIsPadded()
    ensures U8Array(ChecksumValue(Md5, "ff")).Some?
    ensures U8Array(ChecksumValue(Md5, "ff")).value.bytes == Zeros(15) + [0xff]
  {
    HexArrayEncode([], [0xff], 15);
    assert Encode([0xff]) == Encode([]) + ByteDigits(0xff);
    assert [] + Encode([0xff]) == "ff";
    HexArrayOfEmpty(15);
    assert "ff" != "SKIP";
  }

  /** `len` zero bytes. */
  function Zeros(len: nat): (r: seq<Byte>)
    ensures |r| == len && forall i :: 0 <= i < len ==> r[i] == 0
  {
    if len == 0 then [] else Zeros(len - 1) + [0]
  }

  /** Reading bytes from empty text yields zero bytes. */
  lemma {:induction false} HexArrayOfEmpty(len: nat)
    ensures HexArray([], len) == ([], Zeros(len))
  {
    if len > 0 {
      HexArrayOfEmpty(len - 1);
      HexArrayStep([], len);
      assert ReadDigits([], 2) == ([], 0);
    }
  }
}
