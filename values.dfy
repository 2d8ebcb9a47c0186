/**
 * The value wrappers of the crate: `SkipOrArray`, the decoders of the checksum and hash
 * wrappers (`u8_array`, `parse_array`, `u128`), the numeric wrappers (`parse`) and the
 * newline-separated list wrappers.
 */
module Values {
  import opened Wrappers
  import opened Text
  import opened Hex

  /** `SkipOrArray<LEN>`: the text was `SKIP`, or it decoded into `LEN` bytes. */
  datatype SkipOrArray = Skip | Array(bytes: seq<Byte>)

  /** `is_skip` */
  predicate IsSkip(x: SkipOrArray) {
    x.Skip?
  }

  /** `is_array` */
  predicate IsArray(x: SkipOrArray) {
    x.Array?
  }

  /** `is_skip` and `is_array` are each other's negation. */
  lemma SkipIsNotArray(x: SkipOrArray)
    ensures IsSkip(x) <==> !IsArray(x)
  {
  }

  /** `try_into_array` */
  function TryIntoArray(x: SkipOrArray): (r: Option<seq<Byte>>)
    ensures r.None? <==> IsSkip(x)
    ensures r.Some? ==> x == Array(r.value)
  {
    match x
    case Array(bytes) => Some(bytes)
    case Skip => None
  }

  /** `as_array`: the same bytes as `try_into_array`, borrowed. */
  function AsArray(x: SkipOrArray): (r: Option<seq<Byte>>)
    ensures r == TryIntoArray(x)
  {
    match x
    case Array(bytes) => Some(bytes)
    case Skip => None
  }

  /** `as_slice` */
  function AsSlice(x: SkipOrArray): (r: Option<seq<Byte>>)
    ensures r.None? <==> IsSkip(x)
    ensures r.Some? ==> x == Array(r.value)
  {
    match AsArray(x)
    case Some(a) => Some(a)
    case None => None
  }

  /** `TryFrom<SkipOrArray<LEN>> for [u8; LEN]` */
  function ArrayTryFrom(x: SkipOrArray): (r: Result<seq<Byte>, ()>)
    ensures r.Err? <==> IsSkip(x)
    ensures r.Ok? ==> x == Array(r.value)
  {
    match TryIntoArray(x)
    case Some(a) => Ok(a)
    case None => Err(())
  }

  /** A value of `SkipOrArray<LEN>`: an `Array` holds exactly `LEN` bytes. */
  predicate HasLength(x: SkipOrArray, len: nat) {
    x.Array? ==> |x.bytes| == len
  }

  /** `as_slice` has length `LEN` whenever it is present. */
  lemma AsSliceLength(x: SkipOrArray, len: nat)
    requires HasLength(x, len)
    ensures AsSlice(x).Some? ==> |AsSlice(x).value| == len
  {
  }

  /** The sizes, in bytes, of the checksum wrappers `SkipOrHex128` to `SkipOrHex512`. */
  const Hex128Size := 16
  const Hex160Size := 20
  const Hex224Size := 28
  const Hex256Size := 32
  const Hex384Size := 48
  const Hex512Size := 64

  /**
   * `u8_array` of the `.SRCINFO` checksum wrappers: `SKIP` is `Skip`; any other text is
   * decoded with `ParseHex` and accepted when nothing is left over.
   */
  function SkipOrHexArray(s: string, size: nat): (r: Option<SkipOrArray>)
    ensures s == "SKIP" ==> r == Some(Skip)
    ensures s != "SKIP" ==> (r.Some? <==> HexArray(s, size).0 == [])
    ensures s != "SKIP" && r.Some? ==> r.value == Array(HexArray(s, size).1)
    ensures r.Some? ==> HasLength(r.value, size)
  {
    if s == "SKIP" then Some(Skip)
    else
      HexArrayShape(s, size);
      var (invalid, bytes) := HexArray(s, size);
      if invalid == [] then Some(Array(bytes)) else None
  }

  /** `u8_array` of the hash wrappers `Hex128` and `Hex256`, which have no `SKIP` case. */
  function HexU8Array(s: string, size: nat): (r: Option<seq<Byte>>)
    ensures r.Some? <==> HexArray(s, size).0 == []
    ensures r.Some? ==> r.value == HexArray(s, size).1 && |r.value| == size
  {
    HexArrayShape(s, size);
    var (invalid, bytes) := HexArray(s, size);
    if invalid == [] then Some(bytes) else None
  }

  /** `parse_array`: `u8_array` with `None` turned into `Err(())`. */
  function ParseArray<T>(decoded: Option<T>): (r: Result<T, ()>)
    ensures r.Ok? <==> decoded.Some?
    ensures r.Ok? ==> r.value == decoded.value
  {
    match decoded
    case Some(a) => Ok(a)
    case None => Err(())
  }

  /** Lower-case hexadecimal text never reads `SKIP`. */
  lemma EncodeIsNotSkip(bs: seq<Byte>)
    ensures Encode(bs) != "SKIP"
  {
    if |bs| == 2 {
      assert Encode(bs) == Encode(bs[..1]) + ByteDigits(bs[1]);
      assert Encode(bs[..1]) == Encode(bs[..1][..0]) + ByteDigits(bs[0]);
      assert Encode(bs)[0] == ByteDigits(bs[0])[0] != 'S';
    }
  }

  /** Round trip: the checksum spelled by some bytes decodes into those bytes. */
  lemma SkipOrHexArrayEncode(bs: seq<Byte>)
    ensures SkipOrHexArray(Encode(bs), |bs|) == Some(Array(bs))
    ensures HexU8Array(Encode(bs), |bs|) == Some(bs)
  {
    EncodeIsNotSkip(bs);
    EncodeRoundTrip([], bs);
    assert [] + Encode(bs) == Encode(bs);
  }

  /** The spelling of bytes is a string of digits whose value is the bytes' value. */
  lemma {:induction false} EncodeValue(bs: seq<Byte>)
    ensures AllHex(Encode(bs)) && DigitsValue(Encode(bs)) == BytesValue(bs)
    decreases |bs|
  {
    if bs != [] {
      var front, b := bs[..|bs| - 1], bs[|bs| - 1];
      EncodeValue(front);
      HexDigitSpellings(b / 16);
      HexDigitSpellings(b % 16);
      var d := ByteDigits(b);
      assert AllHex(d);
      assert d[..1][..0] == [] && d[..1] == [d[0]];
      assert DigitsValue(d[..1]) == b / 16;
      assert DigitsValue(d) == 16 * (b / 16) + b % 16;
      DigitsValueAppend(Encode(front), d);
      assert Pow16(2) == 256;
    }
  }

  /** `Hex128::u128`: the value of the text, when `ParseHex for u128` leaves nothing over. */
  function Hex128U128(s: string): (r: Option<nat>)
    ensures r.Some? <==> ReadDigits(s, 32).0 == []
    ensures r.Some? ==> r.value == ReadDigits(s, 32).1 && r.value < Pow16(32)
  {
    ReadDigitsBound(s, 32);
    var (invalid, value) := ReadDigits(s, 32);
    if invalid == [] then Some(value) else None
  }

  /** `SkipOrHex128::u128`: `SKIP` is `Some(None)`; other text as `Hex128::u128`. */
  function SkipOrHex128U128(s: string): (r: Option<Option<nat>>)
    ensures s == "SKIP" ==> r == Some(None)
    ensures s != "SKIP" ==> (r.Some? <==> Hex128U128(s).Some?)
    ensures s != "SKIP" && r.Some? ==> r.value == Some(Hex128U128(s).value)
  {
    if s == "SKIP" then Some(None)
    else
      var (invalid, value) := ReadDigits(s, 32);
      if invalid == [] then Some(Some(value)) else None
  }

  /**
   * The two decodings of an MD5 checksum agree: the spelling of 16 bytes reads as the
   * big-endian value of those bytes.
   */
  lemma U128AgreesWithArray(bs: seq<Byte>)
    requires |bs| == Hex128Size
    ensures HexU8Array(Encode(bs), Hex128Size) == Some(bs)
    ensures Hex128U128(Encode(bs)) == Some(BytesValue(bs))
    ensures SkipOrHex128U128(Encode(bs)) == Some(Some(BytesValue(bs)))
  {
    SkipOrHexArrayEncode(bs);
    EncodeValue(bs);
    EncodeIsNotSkip(bs);
    ReadDigitsOfHex(Encode(bs), 32);
    assert Encode(bs)[0..] == Encode(bs) && Encode(bs)[..0] == [];
  }

  /** `IntErrorKind` of `u64::from_str` (`Zero` is never produced for an unsigned type). */
  datatype IntErrorKind = Empty | InvalidDigit | PosOverflow

  /** One more than `u64::MAX`. */
  const U64Limit: nat := 0x1_0000_0000_0000_0000

  predicate IsDecimalDigit(c: char) {
    '0' <= c <= '9'
  }

  predicate AllDecimal(s: string) {
    forall i :: 0 <= i < |s| ==> IsDecimalDigit(s[i])
  }

  /** The value of a string of decimal digits. */
  function DecimalValue(s: string): nat
    requires AllDecimal(s)
  {
    if s == [] then 0 else 10 * DecimalValue(s[..|s| - 1]) + (s[|s| - 1] as int - '0' as int)
  }

  /**
   * The digit loop of `u64::from_str`, left to right: a non-digit is `InvalidDigit`, a value
   * past `u64::MAX` is `PosOverflow`, whichever comes first.
   */
  function AccumulateDigits(ds: string, acc: nat): (r: Result<nat, IntErrorKind>)
    ensures r.Err? ==> r.error != Empty
    decreases |ds|
  {
    if ds == [] then Ok(acc)
    else if !IsDecimalDigit(ds[0]) then Err(InvalidDigit)
    else
      var next := 10 * acc + (ds[0] as int - '0' as int);
      if next >= U64Limit then Err(PosOverflow) else AccumulateDigits(ds[1..], next)
  }

  /**
   * `u64::from_str`: empty text is `Empty`; a lone sign is `InvalidDigit`; one leading `+`
   * is allowed; the digits follow.
   */
  function ParseU64(s: string): (r: Result<nat, IntErrorKind>)
    ensures r == Err(Empty) <==> s == []
  {
    if s == [] then Err(Empty)
    else if s == "+" || s == "-" then Err(InvalidDigit)
    else AccumulateDigits(if s[0] == '+' then s[1..] else s, 0)
  }

  /** The digit loop succeeds exactly on digits whose value stays in range. */
  lemma {:induction false} AccumulateDigitsOk(ds: string, acc: nat, pre: string)
    requires AllDecimal(pre) && DecimalValue(pre) == acc && acc < U64Limit
    ensures AccumulateDigits(ds, acc).Ok? <==> AllDecimal(ds) && DecimalValue(pre + ds) < U64Limit
    ensures AccumulateDigits(ds, acc).Ok? ==> AccumulateDigits(ds, acc).value == DecimalValue(pre + ds)
    decreases |ds|
  {
    if ds == [] {
      assert pre + ds == pre;
    } else if IsDecimalDigit(ds[0]) {
      var pre' := pre + [ds[0]];
      assert pre'[..|pre'| - 1] == pre;
      assert AllDecimal(pre');
      var next := 10 * acc + (ds[0] as int - '0' as int);
      assert DecimalValue(pre') == next;
      assert pre + ds == pre' + ds[1..];
      if next < U64Limit {
        AccumulateDigitsOk(ds[1..], next, pre');
        if AllDecimal(ds[1..]) {
          DecimalValueGrows(pre', ds[1..]);
        }
      } else {
        if AllDecimal(ds) {
          DecimalValueGrows(pre', ds[1..]);
        }
      }
    } else {
      assert !AllDecimal(ds);
    }
  }

  /** Appending digits never lowers the value. */
  lemma {:induction false} DecimalValueGrows(pre: string, ds: string)
    requires AllDecimal(pre) && AllDecimal(ds)
    ensures AllDecimal(pre + ds) && DecimalValue(pre) <= DecimalValue(pre + ds)
    decreases |ds|
  {
    if ds == [] {
      assert pre + ds == pre;
    } else {
      DecimalValueGrows(pre, ds[..|ds| - 1]);
      assert (pre + ds)[..|pre + ds| - 1] == pre + ds[..|ds| - 1];
    }
  }

  /**
   * `u64::from_str` succeeds exactly on an optional `+` followed by one or more digits whose
   * value is at most `u64::MAX`, and then gives that value.
   */
  lemma ParseU64Ok(s: string)
    ensures var ds := if s != [] && s[0] == '+' then s[1..] else s;
      ParseU64(s).Ok? <==> ds != [] && AllDecimal(ds) && DecimalValue(ds) < U64Limit
    ensures var ds := if s != [] && s[0] == '+' then s[1..] else s;
      ParseU64(s).Ok? ==> ParseU64(s).value == DecimalValue(ds)
  {
    if s != [] && s != "+" && s != "-" {
      var ds := if s[0] == '+' then s[1..] else s;
      AccumulateDigitsOk(ds, 0, []);
      assert [] + ds == ds;
    }
  }

  /** The decimal spelling of a number, without leading zeros. */
  function Decimal(n: nat): (r: string)
    ensures r != [] && AllDecimal(r) && DecimalValue(r) == n
  {
    var last := ['0' + (n % 10) as char];
    if n < 10 then last
    else
      var front := Decimal(n / 10);
      assert (front + last)[..|front + last| - 1] == front;
      front + last
  }

  /** Round trip: every `u64` is parsed back from its decimal spelling. */
  lemma ParseU64Decimal(n: nat)
    requires n < U64Limit
    ensures ParseU64(Decimal(n)) == Ok(n)
  {
    var s := Decimal(n);
    ParseU64Ok(s);
    assert IsDecimalDigit(s[0]);
  }

  /**
   * `parse` of the numeric wrappers (`Epoch`, `Release`, `Size`, `Timestamp`): empty text is
   * 0, any other text is `u64::from_str`.
   */
  function ParseNum(s: string): (r: Result<nat, IntErrorKind>)
    ensures s == [] ==> r == Ok(0)
    ensures s != [] ==> r == ParseU64(s)
    ensures r.Ok? ==> r.value < U64Limit
  {
    ParseU64Ok(s);
    match ParseU64(s)
    case Err(Empty) => Ok(0)
    case other => other
  }

  /** The items of a newline-separated list wrapper: `split('\n')` of its text. */
  function ListItems(text: string): (r: seq<string>)
    ensures |r| >= 1
    ensures forall i :: 0 <= i < |r| ==> '\n' !in r[i]
  {
    var r := Split(text, '\n');
    assert forall i :: 0 <= i < |r| ==> '\n' !in r[i] by {
      forall i | 0 <= i < |r| ensures '\n' !in r[i] {
        assert forall j :: 0 <= j < |r[i]| ==> r[i][j] !in {'\n'};
      }
    }
    r
  }

  /** Joining the items of a list with `'\n'` gives back its text. */
  lemma ListItemsJoin(text: string)
    ensures Join(ListItems(text), '\n') == text
  {
    JoinSplit(text, '\n');
  }
}
