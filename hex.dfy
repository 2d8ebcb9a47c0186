/**
 * `ParseHex`: hexadecimal text decoded from its right end. `parse_hex_value` reads up to
 * `2 * SIZE` digits with `next_back`, the least significant first, and stops at the first
 * character that is not a digit, which it has already consumed; the array decoder fills
 * `[u8; LEN]` from its last element backwards, one `parse_hex_value` of size 1 per byte.
 */
module Hex {
  import opened Wrappers
  import SeqFacts

  /** `u8` */
  type Byte = b: int | 0 <= b < 256

  function Pow16(n: nat): (r: nat)
    ensures r >= 1
  {
    if n == 0 then 1 else 16 * Pow16(n - 1)
  }

  /** `parse_hex_digit`: `0-9`, `a-f` and `A-F` are digits; nothing else is. */
  function HexDigit(c: char): (r: Option<nat>)
    ensures r.Some? <==> '0' <= c <= '9' || 'a' <= c <= 'f' || 'A' <= c <= 'F'
    ensures r.Some? ==> r.value < 16
  {
    if '0' <= c <= '9' then Some(c as int - '0' as int)
    else if 'a' <= c <= 'f' then Some(10 + c as int - 'a' as int)
    else if 'A' <= c <= 'F' then Some(10 + c as int - 'A' as int)
    else None
  }

  /** The lower-case and upper-case spellings of a digit value. */
  function LowerDigit(d: nat): char
    requires d < 16
  {
    "0123456789abcdef"[d]
  }

  function UpperDigit(d: nat): char
    requires d < 16
  {
    "0123456789ABCDEF"[d]
  }

  /** Every digit value is read back from both of its spellings. */
  lemma HexDigitSpellings(d: nat)
    requires d < 16
    ensures HexDigit(LowerDigit(d)) == Some(d)
    ensures HexDigit(UpperDigit(d)) == Some(d)
  {
  }

  predicate AllHex(s: string) {
    forall i :: 0 <= i < |s| ==> HexDigit(s[i]).Some?
  }

  /** The big-endian value of a string of digits. */
  function DigitsValue(s: string): nat
    requires AllHex(s)
  {
    if s == [] then 0 else 16 * DigitsValue(s[..|s| - 1]) + HexDigit(s[|s| - 1]).value
  }

  /** The big-endian value of a byte string. */
  function BytesValue(bs: seq<Byte>): nat {
    if bs == [] then 0 else 256 * BytesValue(bs[..|bs| - 1]) + bs[|bs| - 1]
  }

  /**
   * `parse_hex_value` with `n = 2 * SIZE` digits: the rest of the input and the value read.
   * The digits occupy disjoint bits, so the `|=` of the source is an addition here.
   */
  function ReadDigits(s: string, n: nat): (r: (string, nat))
    decreases n
  {
    if n == 0 || s == [] then (s, 0)
    else
      match HexDigit(s[|s| - 1])
      case None => (s[..|s| - 1], 0)
      case Some(d) =>
        var (rest, v) := ReadDigits(s[..|s| - 1], n - 1);
        (rest, d + 16 * v)
  }

  /** `ParseHex for [u8; LEN]`: the bytes are read from the last one to the first. */
  function HexArray(s: string, len: nat): (r: (string, seq<Byte>))
    decreases len
  {
    if len == 0 then (s, [])
    else
      var (rest, b) := ReadDigits(s, 2);
      ReadDigitsBound(s, 2);
      var (rest', front) := HexArray(rest, len - 1);
      (rest', front + [b as Byte])
  }

  /** What `parse_hex_value` reads is a prefix of its input and fits in `n` digits. */
  lemma {:induction false} ReadDigitsBound(s: string, n: nat)
    ensures ReadDigits(s, n).0 <= s
    ensures ReadDigits(s, n).1 < Pow16(n)
    decreases n
  {
    if n > 0 && s != [] && HexDigit(s[|s| - 1]).Some? {
      var d := HexDigit(s[|s| - 1]).value;
      ReadDigitsBound(s[..|s| - 1], n - 1);
      var v := ReadDigits(s[..|s| - 1], n - 1).1;
      assert d + 16 * v <= 15 + 16 * (Pow16(n - 1) - 1);
    }
  }

  /** The array has `LEN` bytes, and the rest is a prefix of the input. */
  lemma {:induction false} HexArrayShape(s: string, len: nat)
    ensures |HexArray(s, len).1| == len
    ensures HexArray(s, len).0 <= s
    decreases len
  {
    if len > 0 {
      ReadDigitsBound(s, 2);
      HexArrayShape(ReadDigits(s, 2).0, len - 1);
    }
  }

  /** The value read so far combined with what the remaining digit positions will read. */
  function Combine(r: (string, nat), value: nat, pos: nat): (string, nat) {
    (r.0, value + Pow16(pos) * r.1)
  }

  /** One digit read from the back: the value so far gains the digit at position `pos`. */
  lemma ReadOneDigit(s: string, n: nat, value: nat, pos: nat)
    requires n > 0 && s != [] && HexDigit(s[|s| - 1]).Some?
    ensures Combine(ReadDigits(s, n), value, pos) ==
      Combine(ReadDigits(s[..|s| - 1], n - 1), value + HexDigit(s[|s| - 1]).value * Pow16(pos), pos + 1)
  {
    var d := HexDigit(s[|s| - 1]).value;
    var v := ReadDigits(s[..|s| - 1], n - 1).1;
    assert Pow16(pos) * (d + 16 * v) == d * Pow16(pos) + (16 * Pow16(pos)) * v;
  }

  /** Reading stops: at the end of the input, at a non-digit, or after the last position. */
  lemma ReadStops(s: string, n: nat, value: nat, pos: nat)
    ensures n == 0 || s == [] ==> Combine(ReadDigits(s, n), value, pos) == (s, value)
    ensures n > 0 && s != [] && HexDigit(s[|s| - 1]).None? ==> Combine(ReadDigits(s, n), value, pos) == (s[..|s| - 1], value)
  {
  }

  /**
   * One pass of the loop of `parse_hex_value`: `next_back`, then either the digit is added
   * at position `pos` or the loop ends.
   */
  method ReadNext(rest: string, n: nat, value: nat, pos: nat)
    returns (rest': string, value': nat, pos': nat, done: bool)
    requires pos < n
    ensures done ==> pos' == pos && Combine(ReadDigits(rest, n - pos), value, pos) == (rest', value')
    ensures !done ==> pos' == pos + 1
    ensures !done ==> Combine(ReadDigits(rest, n - pos), value, pos) == Combine(ReadDigits(rest', n - pos'), value', pos')
  {
    ReadStops(rest, n - pos, value, pos);
    rest', value', pos', done := rest, value, pos, true;
    if rest != [] {
      var c := rest[|rest| - 1];
      rest' := rest[..|rest| - 1];
      match HexDigit(c) {
        case None =>
        case Some(d) =>
          ReadOneDigit(rest, n - pos, value, pos);
          value' := value + d * Pow16(pos);
          pos' := pos + 1;
          done := false;
      }
    }
  }

  /**
   * `parse_hex_value`: the loop over the digit positions, reading characters from the
   * back; a missing or non-hexadecimal character ends it.
   */
  method ParseHexValue(input: string, size: nat) returns (rest: string, value: nat)
    ensures (rest, value) == ReadDigits(input, 2 * size)
  {
    var n := 2 * size;
    rest, value := input, 0;
    var pos := 0;
    var done := false;
    assert Combine(ReadDigits(input, n), 0, 0) == ReadDigits(input, n);
    while pos < n && !done
      invariant pos <= n
      invariant !done ==> ReadDigits(input, n) == Combine(ReadDigits(rest, n - pos), value, pos)
      invariant done ==> ReadDigits(input, n) == (rest, value)
      decreases n - pos, !done
    {
      rest, value, pos, done := ReadNext(rest, n, value, pos);
    }
    ReadStops(rest, n - pos, value, pos);
  }

  /** One byte: the last two digit positions, then the bytes before it. */
  lemma HexArrayStep(s: string, len: nat)
    requires len > 0
    ensures ReadDigits(s, 2).1 < 256
    ensures HexArray(s, len) ==
      (HexArray(ReadDigits(s, 2).0, len - 1).0, HexArray(ReadDigits(s, 2).0, len - 1).1 + [ReadDigits(s, 2).1 as Byte])
  {
    ReadDigitsBound(s, 2);
  }

  /** `ParseHex for [u8; LEN]`: a zeroed array filled from its last element backwards. */
  method ParseHexArray(input: string, len: nat) returns (rest: string, bytes: array<Byte>)
    ensures fresh(bytes)
    ensures (rest, bytes[..]) == HexArray(input, len)
  {
    bytes := new Byte[len](_ => 0);
    rest := input;
    var i := len;
    assert HexArray(rest, i).1 + bytes[i..] == HexArray(rest, i).1;
    while i > 0
      invariant i <= len == bytes.Length
      invariant HexArray(input, len) == (HexArray(rest, i).0, HexArray(rest, i).1 + bytes[i..])
    {
      HexArrayStep(rest, i);
      var r, v := ParseHexValue(rest, 1);
      i := i - 1;
      bytes[i] := v;
      assert bytes[i..] == [v as Byte] + bytes[i + 1..];
      SeqFacts.AppendAssoc(HexArray(r, i).1, [v as Byte], bytes[i + 1..]);
      rest := r;
    }
    assert HexArray(rest, 0).1 + bytes[0..] == bytes[..];
  }
  /** A byte written as two lower-case digits, the most significant first. */
  function ByteDigits(b: Byte): string {
    [LowerDigit(b / 16), LowerDigit(b % 16)]
  }

  /** Bytes written big-endian, two lower-case digits each. */
  function Encode(bs: seq<Byte>): (r: string)
    ensures |r| == 2 * |bs|
  {
    if bs == [] then [] else Encode(bs[..|bs| - 1]) + ByteDigits(bs[|bs| - 1])
  }

  /** Two digits at the end of the input are read back as the byte they spell. */
  lemma ReadByteDigits(prefix: string, b: Byte)
    ensures ReadDigits(prefix + ByteDigits(b), 2) == (prefix, b)
  {
    var s := prefix + ByteDigits(b);
    HexDigitSpellings(b / 16);
    HexDigitSpellings(b % 16);
    assert s[..|s| - 1][..|s| - 2] == prefix;
  }

  /**
   * Round trip: the array decoder reads back the bytes of their own spelling from the right
   * end of the input, and goes on with the `m` bytes before them from what stands before.
   */
  lemma {:induction false} HexArrayEncode(prefix: string, bs: seq<Byte>, m: nat)
    ensures HexArray(prefix + Encode(bs), m + |bs|) == (HexArray(prefix, m).0, HexArray(prefix, m).1 + bs)
  {
    HexArrayEncodeAt(prefix, bs, m, prefix + Encode(bs), m + |bs|);
  }

  /** `HexArrayEncode` with the text and the length named by the caller. */
  lemma {:induction false} HexArrayEncodeAt(prefix: string, bs: seq<Byte>, m: nat, s: string, len: nat)
    requires s == prefix + Encode(bs) && len == m + |bs|
    ensures HexArray(s, len) == (HexArray(prefix, m).0, HexArray(prefix, m).1 + bs)
    decreases |bs|
  {
    if bs != [] {
      var front, b := bs[..|bs| - 1], bs[|bs| - 1];
      var p' := prefix + Encode(front);
      EncodeSnoc(prefix, bs, front, b);
      ReadByteDigits(p', b);
      HexArrayEncodeAt(prefix, front, m, p', m + |front|);
      EncodeStep(s, p', b, len, m + |front|, HexArray(prefix, m), front, bs);
    } else {
      EncodeNone(prefix, bs, HexArray(prefix, m).1);
    }
  }

  /** The spelling of bytes is the spelling of all but the last, then that of the last. */
  lemma EncodeSnoc(prefix: string, bs: seq<Byte>, front: seq<Byte>, b: Byte)
    requires bs != [] && front == bs[..|bs| - 1] && b == bs[|bs| - 1]
    ensures prefix + Encode(bs) == (prefix + Encode(front)) + ByteDigits(b) && bs == front + [b]
  {
    SeqFacts.AppendAssoc(prefix, Encode(front), ByteDigits(b));
  }

  /** No bytes are spelled by no digits. */
  lemma EncodeNone(prefix: string, bs: seq<Byte>, x: seq<Byte>)
    requires bs == []
    ensures prefix + Encode(bs) == prefix && x + bs == x
  {
  }

  /** One step of `HexArrayEncode`: the last byte read back in front of the bytes already read. */
  lemma EncodeStep(s: string, p': string, b: Byte, len: nat, k: nat, r: (string, seq<Byte>), front: seq<Byte>, bs: seq<Byte>)
    requires len == k + 1 && ReadDigits(s, 2) == (p', b as nat) && bs == front + [b]
    requires HexArray(p', k) == (r.0, r.1 + front)
    ensures HexArray(s, len) == (r.0, r.1 + bs)
  {
    HexArrayStep(s, len);
    SeqFacts.AppendAssoc(r.1, front, [b]);
  }

  /** The spelling of `LEN` bytes is read back whole, and the text before it is the remainder. */
  lemma EncodeRoundTrip(prefix: string, bs: seq<Byte>)
    ensures HexArray(prefix + Encode(bs), |bs|) == (prefix, bs)
  {
    HexArrayEncode(prefix, bs, 0);
    assert HexArray(prefix, 0) == (prefix, []);
    assert [] + bs == bs;
  }

  /** `16 * (a * b + c) + d` regrouped. */
  lemma ShiftDigit(a: nat, b: nat, c: nat, d: nat)
    ensures 16 * (a * b + c) + d == a * (16 * b) + (16 * c + d)
  {
    calc {
      16 * (a * b + c) + d;
      16 * (a * b) + 16 * c + d;
      { assert 16 * (a * b) == a * (16 * b); }
      a * (16 * b) + (16 * c + d);
    }
  }

  /** The value of digits is the value of the leading part shifted past the trailing part. */
  lemma {:induction false} DigitsValueAppend(x: string, y: string)
    requires AllHex(x) && AllHex(y)
    ensures AllHex(x + y) && DigitsValue(x + y) == DigitsValue(x) * Pow16(|y|) + DigitsValue(y)
    decreases |y|
  {
    assert AllHex(x + y) by {
      forall i | 0 <= i < |x + y| ensures HexDigit((x + y)[i]).Some? {
        if i >= |x| {
          assert (x + y)[i] == y[i - |x|];
        }
      }
    }
    if y == [] {
      assert x + y == x;
    } else {
      var y' := y[..|y| - 1];
      assert (x + y)[..|x + y| - 1] == x + y';
      assert (x + y)[|x + y| - 1] == y[|y| - 1];
      DigitsValueAppend(x, y');
      ShiftDigit(DigitsValue(x), Pow16(|y'|), DigitsValue(y'), HexDigit(y[|y| - 1]).value);
    }
  }

  /**
   * On a string of digits `parse_hex_value` reads the `n` rightmost digits, or all of them
   * when there are fewer, and leaves the others as the remainder.
   */
  lemma {:induction false} ReadDigitsOfHex(s: string, n: nat)
    requires AllHex(s)
    ensures var k := if |s| <= n then 0 else |s| - n;
      ReadDigits(s, n) == (s[..k], DigitsValue(s[k..]))
    decreases n
  {
    var k := if |s| <= n then 0 else |s| - n;
    if n == 0 {
      assert s[..k] == s && s[k..] == [];
    } else if s != [] {
      var s' := s[..|s| - 1];
      ReadDigitsOfHex(s', n - 1);
      assert s'[..k] == s[..k];
      assert s[k..][..|s[k..]| - 1] == s'[k..];
    }
  }

  /** Appending a byte shifts the value by one byte. */
  lemma BytesValueAppend(front: seq<Byte>, b: Byte)
    ensures BytesValue(front + [b]) == 256 * BytesValue(front) + b
  {
    assert (front + [b])[..|front|] == front;
  }

  /** The value of at most two trailing digits after a leading part, as the next byte sees it. */
  lemma TwoDigitsShift(s: string, k: nat, k1: nat)
    requires AllHex(s) && k <= k1 <= |s|
    requires k1 == (if |s| <= 2 then 0 else |s| - 2)
    ensures DigitsValue(s[k..]) == 256 * DigitsValue(s[k..k1]) + DigitsValue(s[k1..])
  {
    assert s[k..] == s[k..k1] + s[k1..];
    DigitsValueAppend(s[k..k1], s[k1..]);
    if |s| < 2 {
      assert s[k..k1] == [];
    } else {
      assert Pow16(|s[k1..]|) == 256;
    }
  }

  /** One byte of the array decoder on a string of digits. */
  lemma HexArrayOfHexStep(s: string, len: nat, k1: nat, k: nat)
    requires AllHex(s) && len > 0
    requires k1 == (if |s| <= 2 then 0 else |s| - 2)
    requires k == (if |s| <= 2 * len then 0 else |s| - 2 * len)
    requires HexArray(s[..k1], len - 1).0 == s[..k1][..k]
    requires BytesValue(HexArray(s[..k1], len - 1).1) == DigitsValue(s[..k1][k..])
    ensures HexArray(s, len).0 == s[..k] && BytesValue(HexArray(s, len).1) == DigitsValue(s[k..])
  {
    ReadDigitsOfHex(s, 2);
    var low := ReadDigits(s, 2);
    assert low.0 == s[..k1] && low.1 == DigitsValue(s[k1..]);
    HexArrayStep(s, len);
    var h := HexArray(s[..k1], len - 1);
    assert HexArray(s, len) == (h.0, h.1 + [low.1 as Byte]);
    assert k <= k1;
    assert s[..k1][..k] == s[..k];
    StepValue(s, k, k1, h.1, low.1 as Byte);
  }

  /** The value of the bytes read so far, with the low byte appended, is the value of all digits from `k`. */
  lemma StepValue(s: string, k: nat, k1: nat, front: seq<Byte>, b: Byte)
    requires AllHex(s) && k <= k1 <= |s|
    requires k1 == (if |s| <= 2 then 0 else |s| - 2)
    requires BytesValue(front) == DigitsValue(s[..k1][k..]) && b as int == DigitsValue(s[k1..])
    ensures BytesValue(front + [b]) == DigitsValue(s[k..])
  {
    BytesValueAppend(front, b);
    assert s[..k1][k..] == s[k..k1];
    TwoDigitsShift(s, k, k1);
  }

  /**
   * On a string of digits the array decoder reads the `2 * LEN` rightmost digits, or all of
   * them when there are fewer, so that a short input gives leading zero bytes and an empty
   * remainder.
   */
  lemma {:induction false} HexArrayOfHex(s: string, len: nat)
    requires AllHex(s)
    ensures var k := if |s| <= 2 * len then 0 else |s| - 2 * len;
      HexArray(s, len).0 == s[..k] && BytesValue(HexArray(s, len).1) == DigitsValue(s[k..])
    decreases len
  {
    var k := if |s| <= 2 * len then 0 else |s| - 2 * len;
    if len == 0 {
      assert s[..k] == s && s[k..] == [];
    } else {
      var k1 := if |s| <= 2 then 0 else |s| - 2;
      HexArrayOfHex(s[..k1], len - 1);
      HexArrayOfHexStep(s, len, k1, k);
    }
  }

  /** The decoding of `1`, the leftmost digit of the tests' input, into one to three bytes. */
  lemma HexArrayOfOne()
    ensures HexArray("1", 1) == ("", [0x01])
    ensures HexArray("1", 2) == ("", [0x00, 0x01])
    ensures HexArray("1", 3) == ("", [0x00, 0x00, 0x01])
  {
    assert ReadDigits("1", 2) == ("", 1);
    assert ReadDigits("", 2) == ("", 0);
    HexArrayStep("1", 1);
    assert HexArray("1", 1).1 == [] + [0x01] == [0x01];
    HexArrayStep("", 1);
    assert HexArray("", 1).1 == [] + [0x00] == [0x00];
    HexArrayStep("", 2);
    assert HexArray("", 2).1 == [0x00] + [0x00] == [0x00, 0x00];
    HexArrayStep("1", 2);
    assert HexArray("1", 2).1 == [0x00] + [0x01] == [0x00, 0x01];
    HexArrayStep("1", 3);
    assert HexArray("1", 3).1 == [0x00, 0x00] + [0x01] == [0x00, 0x00, 0x01];
  }

  /** `17afb88` is `1` followed by the spelling of three bytes. */
  lemma TestInputSpelling()
    ensures "17afb88" == "1" + Encode([0x7a, 0xfb, 0x88])
    ensures "17afb88" == "17a" + Encode([0xfb, 0x88])
  {
    var bs: seq<Byte> := [0x7a, 0xfb, 0x88];
    assert ByteDigits(0x7a) == "7a" && ByteDigits(0xfb) == "fb" && ByteDigits(0x88) == "88";
    assert Encode(bs[..1]) == "7a";
    assert Encode(bs[..2]) == "7afb";
    assert Encode(bs) == "7afb88";
    var cs: seq<Byte> := [0xfb, 0x88];
    assert Encode(cs[..1]) == "fb";
    assert Encode(cs) == "fb88";
  }

  /** `17afb88` is `17afb` followed by the spelling of its last byte. */
  lemma TestInputLastByte()
    ensures "17afb88" == "17afb" + Encode([0x88])
  {
    assert Encode([0x88]) == "88";
  }

  /** The tests' examples: `17afb88` decoded into arrays of six, five and four bytes, zero-padded in front. */
  lemma HexArrayExamples()
    ensures HexArray("17afb88", 6) == ("", [0x00, 0x00, 0x01, 0x7a, 0xfb, 0x88])
    ensures HexArray("17afb88", 5) == ("", [0x00, 0x01, 0x7a, 0xfb, 0x88])
    ensures HexArray("17afb88", 4) == ("", [0x01, 0x7a, 0xfb, 0x88])
  {
    TestInputSpelling();
    HexArrayOfOne();
    var bs: seq<Byte> := [0x7a, 0xfb, 0x88];
    HexArrayEncode("1", bs, 1);
    assert [0x01] + bs == [0x01, 0x7a, 0xfb, 0x88];
    HexArrayEncode("1", bs, 2);
    assert [0x00, 0x01] + bs == [0x00, 0x01, 0x7a, 0xfb, 0x88];
    HexArrayEncode("1", bs, 3);
    assert [0x00, 0x00, 0x01] + bs == [0x00, 0x00, 0x01, 0x7a, 0xfb, 0x88];
  }

  /** The tests' examples: `17afb88` decoded into arrays of three bytes down to none, leaving the leading digits. */
  lemma HexArrayShortExamples()
    ensures HexArray("17afb88", 3) == ("1", [0x7a, 0xfb, 0x88])
    ensures HexArray("17afb88", 2) == ("17a", [0xfb, 0x88])
    ensures HexArray("17afb88", 1) == ("17afb", [0x88])
    ensures HexArray("17afb88", 0) == ("17afb88", [])
  {
    TestInputSpelling();
    EncodeRoundTrip("1", [0x7a, 0xfb, 0x88]);
    EncodeRoundTrip("17a", [0xfb, 0x88]);
    TestInputLastByte();
    EncodeRoundTrip("17afb", [0x88]);
  }

  /**
   * A character that is not a digit is consumed and ends only the byte being read: the
   * next byte goes on with the character before it, so the remainder can still be empty.
   */
  lemma NonHexEndsOnlyOneByte()
    ensures HexArray("1z2", 2) == ("", [0x01, 0x02])
    ensures HexArray("zz", 2) == ("", [0x00, 0x00])
    ensures !AllHex("zz")
  {
    assert HexDigit('z').None? && HexDigit('2') == Some(2) && HexDigit('1') == Some(1);
    assert "1z2"[..2] == "1z" && "1z"[..1] == "1" && "1"[..0] == "";
    assert ReadDigits("1z", 1) == ("1", 0);
    assert ReadDigits("1z2", 2) == ("1", 2);
    assert ReadDigits("1", 2) == ("", 1);
    assert "zz"[..1] == "z" && "z"[..0] == "";
    assert ReadDigits("zz", 2) == ("z", 0);
    assert ReadDigits("z", 2) == ("", 0);
    HexArrayStep("1", 1);
    assert HexArray("1", 1).1 == [] + [0x01] == [0x01];
    HexArrayStep("1z2", 2);
    assert HexArray("1z2", 2).1 == [0x01] + [0x02] == [0x01, 0x02];
    HexArrayStep("z", 1);
    assert HexArray("z", 1).1 == [] + [0x00] == [0x00];
    HexArrayStep("zz", 2);
    assert HexArray("zz", 2).1 == [0x00] + [0x00] == [0x00, 0x00];
  }

  /** `ParseHex for u128`: up to 32 digits read into one value. */
  method ParseHexU128(input: string) returns (rest: string, value: nat)
    ensures (rest, value) == ReadDigits(input, 32)
  {
    rest, value := ParseHexValue(input, 16);
  }

  /**
   * The value read by `ParseHex for u128` is below `16^32 = 2^128` and, on a string of digits, is
   * the big-endian value of its 32 rightmost digits.
   */
  lemma U128Value(s: string)
    ensures ReadDigits(s, 32).1 < Pow16(32)
    ensures AllHex(s) ==> ReadDigits(s, 32).1 == DigitsValue(s[if |s| <= 32 then 0 else |s| - 32..])
  {
    ReadDigitsBound(s, 32);
    if AllHex(s) {
      ReadDigitsOfHex(s, 32);
    }
  }
}
