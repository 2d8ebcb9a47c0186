/**
 * Upstream versions (`UpstreamVersion`, `ValidUpstreamVersion`): the characters `validate`
 * accepts, the split into components at `.`, `_`, `+` and `@`, the numeric prefix and text
 * suffix of a component, and the order of versions that imitates `vercmp`: component
 * sequences compared lexicographically.
 */
module UpstreamVersion {
  import opened Wrappers
  import opened Text
  import opened Values

  /** `core::cmp::Ordering` */
  datatype Ordering = Less | Equal | Greater

  /** `Ordering::reverse`: the ordering of the swapped pair. */
  function Flip(o: Ordering): Ordering {
    match o
    case Less => Greater
    case Equal => Equal
    case Greater => Less
  }

  /**
   * `Ord` of slices and `Iterator::cmp`: the first pair that compares unequal decides, and
   * a sequence that runs out first is less.
   */
  function Lex<T>(a: seq<T>, b: seq<T>, cmp: (T, T) -> Ordering): Ordering
    decreases |a|
  {
    if a == [] then (if b == [] then Equal else Less)
    else if b == [] then Greater
    else
      match cmp(a[0], b[0])
      case Equal => Lex(a[1..], b[1..], cmp)
      case Less => Less
      case Greater => Greater
  }

  /** Swapping the operands flips the result. */
  ghost predicate Antisymmetric<T(!new)>(cmp: (T, T) -> Ordering) {
    forall x, y :: cmp(x, y) == Flip(cmp(y, x))
  }

  /** `Equal` holds of equal values only. */
  ghost predicate Identifies<T(!new)>(cmp: (T, T) -> Ordering) {
    forall x, y :: cmp(x, y) == Equal <==> x == y
  }

  ghost predicate Transitive<T(!new)>(cmp: (T, T) -> Ordering) {
    forall x, y, z :: cmp(x, y) == Less && cmp(y, z) == Less ==> cmp(x, z) == Less
  }

  lemma {:induction false} LexAntisymmetric<T(!new)>(a: seq<T>, b: seq<T>, cmp: (T, T) -> Ordering)
    requires Antisymmetric(cmp)
    ensures Lex(a, b, cmp) == Flip(Lex(b, a, cmp))
    decreases |a|
  {
    if a != [] && b != [] {
      assert cmp(a[0], b[0]) == Flip(cmp(b[0], a[0]));
      LexAntisymmetric(a[1..], b[1..], cmp);
    }
  }

  lemma {:induction false} LexIdentifies<T(!new)>(a: seq<T>, b: seq<T>, cmp: (T, T) -> Ordering)
    requires Identifies(cmp)
    ensures Lex(a, b, cmp) == Equal <==> a == b
    decreases |a|
  {
    if a != [] && b != [] {
      assert cmp(a[0], b[0]) == Equal <==> a[0] == b[0];
      LexIdentifies(a[1..], b[1..], cmp);
      assert a == [a[0]] + a[1..] && b == [b[0]] + b[1..];
    }
  }

  lemma {:induction false} LexTransitive<T(!new)>(a: seq<T>, b: seq<T>, c: seq<T>, cmp: (T, T) -> Ordering)
    requires Identifies(cmp) && Transitive(cmp)
    requires Lex(a, b, cmp) == Less && Lex(b, c, cmp) == Less
    ensures Lex(a, c, cmp) == Less
    decreases |a|
  {
    if a != [] {
      var ab, bc := cmp(a[0], b[0]), cmp(b[0], c[0]);
      if ab == Equal && bc == Equal {
        LexTransitive(a[1..], b[1..], c[1..], cmp);
      } else if ab == Equal {
        assert a[0] == b[0];
      } else if bc == Equal {
        assert b[0] == c[0];
      } else {
        assert cmp(a[0], c[0]) == Less;
      }
    }
  }

  /** A sequence sorts below every longer sequence that starts with it. */
  lemma {:induction false} LexProperPrefix<T(!new)>(a: seq<T>, t: seq<T>, cmp: (T, T) -> Ordering)
    requires Identifies(cmp) && t != []
    ensures Lex(a, a + t, cmp) == Less
    decreases |a|
  {
    if a != [] {
      assert cmp(a[0], a[0]) == Equal;
      assert (a + t)[0] == a[0] && (a + t)[1..] == a[1..] + t;
      LexProperPrefix(a[1..], t, cmp);
    }
  }

  /** `Ord for char` */
  function CmpChar(x: char, y: char): Ordering {
    if x < y then Less else if x == y then Equal else Greater
  }

  /** `Ord for Option<u64>`: `None` first, then by value. */
  function CmpPrefix(x: Option<nat>, y: Option<nat>): Ordering {
    match (x, y)
    case (None, None) => Equal
    case (None, Some(_)) => Less
    case (Some(_), None) => Greater
    case (Some(m), Some(n)) => if m < n then Less else if m == n then Equal else Greater
  }

  /** `UpstreamVersionComponent`: the numeric prefix, when the segment starts with a digit, and the rest. */
  datatype Component = Component(prefix: Option<nat>, suffix: string)

  /** The derived `Ord` of a component: by prefix, then by suffix as text. */
  function CmpComponent(x: Component, y: Component): Ordering {
    match CmpPrefix(x.prefix, y.prefix)
    case Equal => Lex(x.suffix, y.suffix, CmpChar)
    case Less => Less
    case Greater => Greater
  }

  lemma CharOrder()
    ensures Antisymmetric(CmpChar) && Identifies(CmpChar) && Transitive(CmpChar)
  {
  }

  /** The component order is a total order whose `Equal` is identity. */
  lemma ComponentOrder()
    ensures Antisymmetric(CmpComponent) && Identifies(CmpComponent) && Transitive(CmpComponent)
  {
    CharOrder();
    forall x, y ensures CmpComponent(x, y) == Flip(CmpComponent(y, x)) {
      LexAntisymmetric(x.suffix, y.suffix, CmpChar);
    }
    forall x, y ensures CmpComponent(x, y) == Equal <==> x == y {
      LexIdentifies(x.suffix, y.suffix, CmpChar);
    }
    forall x, y, z | CmpComponent(x, y) == Less && CmpComponent(y, z) == Less
      ensures CmpComponent(x, z) == Less
    {
      if CmpPrefix(x.prefix, y.prefix) == Equal && CmpPrefix(y.prefix, z.prefix) == Equal {
        LexTransitive(x.suffix, y.suffix, z.suffix, CmpChar);
      }
    }
  }

  /** The number of leading ASCII digits. */
  function LeadingDigits(s: string): (n: nat)
    ensures n <= |s| && AllDecimal(s[..n])
    ensures n < |s| ==> !IsDecimalDigit(s[n])
  {
    if s == [] || !IsDecimalDigit(s[0]) then 0
    else
      var m := LeadingDigits(s[1..]);
      assert s[..m + 1] == [s[0]] + s[1..][..m];
      m + 1
  }

  /**
   * What `UpstreamVersionComponent::parse` makes of a segment: the decimal value of its
   * leading digits, absent when there are none, and the text after them.
   */
  function ComponentOf(segment: string): Component {
    var n := LeadingDigits(segment);
    Component(if n == 0 then None else Some(DecimalValue(segment[..n])), segment[n..])
  }

  /**
   * `UpstreamVersionComponent::parse`: accumulate digits from the left; the first other
   * character marks the boundary.
   */
  method ParseComponent(segment: string) returns (c: Component)
    ensures c == ComponentOf(segment)
  {
    if |segment| == 0 {
      return Component(None, "");
    }
    var prefix: nat := 0;
    var boundary := |segment|;
    var idx := 0;
    while idx < |segment|
      invariant idx <= LeadingDigits(segment)
      invariant AllDecimal(segment[..idx]) && prefix == DecimalValue(segment[..idx])
      invariant boundary == |segment|
    {
      var ch := segment[idx];
      if IsDecimalDigit(ch) {
        prefix := prefix * 10 + (ch as int - '0' as int);
        assert segment[..idx + 1][..idx] == segment[..idx];
        idx := idx + 1;
      } else {
        boundary := idx;
        break;
      }
    }
    var p := if boundary != 0 then Some(prefix) else None;
    c := Component(p, segment[boundary..]);
  }

  /** The spelling of a component: the decimal prefix, if any, then the suffix. */
  function SpellComponent(c: Component): string {
    (match c.prefix case Some(v) => Decimal(v) case None => "") + c.suffix
  }

  /** Digits followed by text that does not start with a digit have exactly those leading digits. */
  lemma {:induction false} LeadingDigitsOf(d: string, t: string)
    requires AllDecimal(d)
    requires t == [] || !IsDecimalDigit(t[0])
    ensures LeadingDigits(d + t) == |d|
    decreases |d|
  {
    if d == [] {
      assert d + t == t;
    } else {
      assert (d + t)[1..] == d[1..] + t;
      LeadingDigitsOf(d[1..], t);
    }
  }

  /**
   * Round trip: a component whose suffix does not start with a digit is parsed back from its
   * spelling (`123alpha` is `(Some(123), "alpha")`).
   */
  lemma ComponentOfSpelling(c: Component)
    requires c.suffix == [] || !IsDecimalDigit(c.suffix[0])
    ensures ComponentOf(SpellComponent(c)) == c
  {
    var d := match c.prefix case Some(v) => Decimal(v) case None => "";
    LeadingDigitsOf(d, c.suffix);
    var s := d + c.suffix;
    assert s[..|d|] == d && s[|d|..] == c.suffix;
  }

  /** A zero in front of digits changes nothing of their value. */
  lemma {:induction false} DecimalValueZeroPrefix(d: string)
    requires AllDecimal(d)
    ensures AllDecimal("0" + d) && DecimalValue("0" + d) == DecimalValue(d)
    decreases |d|
  {
    var z := "0" + d;
    if d == [] {
      assert z[..0] == [];
    } else {
      assert z[..|z| - 1] == "0" + d[..|d| - 1];
      DecimalValueZeroPrefix(d[..|d| - 1]);
    }
  }

  /** Leading zeros are ignored: `0` in front of a segment that starts with a digit changes nothing. */
  lemma LeadingZeroIgnored(s: string)
    requires s != [] && IsDecimalDigit(s[0])
    ensures ComponentOf("0" + s) == ComponentOf(s)
  {
    var z := "0" + s;
    var n := LeadingDigits(s);
    assert z[1..] == s;
    assert LeadingDigits(z) == n + 1;
    assert z[..n + 1] == "0" + s[..n];
    DecimalValueZeroPrefix(s[..n]);
    assert z[n + 1..] == s[n..];
  }

  lemma ComponentOfEmpty()
    ensures ComponentOf("") == Component(None, "")
  {
  }

  lemma ComponentOfAlpha()
    ensures ComponentOf("alpha") == Component(None, "alpha")
  {
    assert !IsDecimalDigit("alpha"[0]);
  }

  lemma Decimal123()
    ensures Decimal(123) == "123"
  {
    assert Decimal(12) == "12" by {
      assert Decimal(1) == "1";
    }
  }

  lemma ComponentOf123()
    ensures ComponentOf("123") == Component(Some(123), "")
    ensures ComponentOf("123alpha") == Component(Some(123), "alpha")
  {
    Decimal123();
    ComponentOfSpelling(Component(Some(123), ""));
    assert SpellComponent(Component(Some(123), "")) == "123";
    ComponentOfSpelling(Component(Some(123), "alpha"));
    assert SpellComponent(Component(Some(123), "alpha")) == "123alpha";
  }

  lemma ComponentOf0Alpha()
    ensures ComponentOf("0alpha") == Component(Some(0), "alpha")
  {
    assert Decimal(0) == "0";
    ComponentOfSpelling(Component(Some(0), "alpha"));
    assert SpellComponent(Component(Some(0), "alpha")) == "0alpha";
  }

  lemma ComponentOf00Alpha()
    ensures ComponentOf("00alpha") == Component(Some(0), "alpha")
  {
    ComponentOf0Alpha();
    LeadingZeroIgnored("0alpha");
    assert "0" + "0alpha" == "00alpha";
  }

  /** The component separators, all treated alike. */
  const Separators: set<char> := {'.', '_', '+', '@'}

  /** `ValidUpstreamVersion`: text that `validate` accepted. */
  datatype ValidUpstreamVersion = ValidUpstreamVersion(raw: string)

  /** `ValidUpstreamVersion::components`: the text split at every separator, each segment parsed. */
  function Components(s: string): (r: seq<Component>)
    ensures |r| >= 1
  {
    var segments := SplitAny(s, Separators);
    seq(|segments|, i requires 0 <= i < |segments| => ComponentOf(segments[i]))
  }

  /** `Ord for ValidUpstreamVersion`: the component sequences compared lexicographically. */
  function Cmp(v: ValidUpstreamVersion, w: ValidUpstreamVersion): Ordering {
    Lex(Components(v.raw), Components(w.raw), CmpComponent)
  }

  /** `PartialEq for ValidUpstreamVersion`: `cmp` is `Equal`. */
  predicate Eq(v: ValidUpstreamVersion, w: ValidUpstreamVersion) {
    Cmp(v, w) == Equal
  }

  /** `Hash for ValidUpstreamVersion`: what is fed to the hasher is the component sequence. */
  function HashInput(v: ValidUpstreamVersion): seq<Component> {
    Components(v.raw)
  }

  /** The version order is antisymmetric: swapping the operands flips the result. */
  lemma CmpAntisymmetric(v: ValidUpstreamVersion, w: ValidUpstreamVersion)
    ensures Cmp(v, w) == Flip(Cmp(w, v))
  {
    ComponentOrder();
    LexAntisymmetric(Components(v.raw), Components(w.raw), CmpComponent);
  }

  /** The version order is transitive. */
  lemma CmpTransitive(u: ValidUpstreamVersion, v: ValidUpstreamVersion, w: ValidUpstreamVersion)
    requires Cmp(u, v) == Less && Cmp(v, w) == Less
    ensures Cmp(u, w) == Less
  {
    ComponentOrder();
    LexTransitive(Components(u.raw), Components(v.raw), Components(w.raw), CmpComponent);
  }

  /**
   * `eq` holds exactly when the component sequences are equal, which is what `hash` feeds to
   * the hasher: equal versions hash alike although their texts may differ.
   */
  lemma EqIffSameHashInput(v: ValidUpstreamVersion, w: ValidUpstreamVersion)
    ensures Eq(v, w) <==> HashInput(v) == HashInput(w)
  {
    ComponentOrder();
    LexIdentifies(Components(v.raw), Components(w.raw), CmpComponent);
  }

  /** The first separator of text whose separators stand where those of `s` stand. */
  lemma {:induction false} SameSeparatorsFirst(s: string, t: string)
    requires |s| == |t|
    requires forall i :: 0 <= i < |s| ==> (s[i] in Separators <==> t[i] in Separators)
    ensures FirstIndexIn(s, Separators) == FirstIndexIn(t, Separators)
    decreases |s|
  {
    if s != [] {
      SameSeparatorsFirst(s[1..], t[1..]);
    }
  }

  /** Two texts that differ only in which separator stands where. */
  predicate SameButSeparators(s: string, t: string) {
    |s| == |t| && forall i :: 0 <= i < |s| ==> s[i] == t[i] || (s[i] in Separators && t[i] in Separators)
  }

  lemma {:induction false} SplitSameButSeparators(s: string, t: string)
    requires SameButSeparators(s, t)
    ensures SplitAny(s, Separators) == SplitAny(t, Separators)
    decreases |s|
  {
    SameSeparatorsFirst(s, t);
    match FirstIndexIn(s, Separators)
    case None =>
      assert s == t;
    case Some(k) =>
      assert s[..k] == t[..k];
      assert SameButSeparators(s[k + 1..], t[k + 1..]);
      SplitSameButSeparators(s[k + 1..], t[k + 1..]);
  }

  /** The difference between `.`, `_`, `+` and `@` is ignored (`1+2.3 == 1@2_3`). */
  lemma SeparatorsIgnored(v: ValidUpstreamVersion, w: ValidUpstreamVersion)
    requires SameButSeparators(v.raw, w.raw)
    ensures Eq(v, w)
  {
    SplitSameButSeparators(v.raw, w.raw);
    EqIffSameHashInput(v, w);
  }

  /** The components of text joined at a separator are the components of each part. */
  lemma ComponentsAppend(s: string, c: char, t: string)
    requires c in Separators
    ensures Components(s + [c] + t) == Components(s) + Components(t)
  {
    SplitAnyAppend(s, c, t, Separators);
  }

  /** A version sorts below itself followed by a separator and more (`1.1 < 1.1.0 < 1.1.0.0`). */
  lemma LongerVersionSortsHigher(s: string, c: char, t: string)
    requires c in Separators
    ensures Cmp(ValidUpstreamVersion(s), ValidUpstreamVersion(s + [c] + t)) == Less
  {
    ComponentsAppend(s, c, t);
    ComponentOrder();
    LexProperPrefix(Components(s), Components(t), CmpComponent);
  }

  /** The components of text with two separators: one per segment. */
  lemma ThreeComponents(a: string, b: string, c: string)
    requires forall i :: 0 <= i < |a| ==> a[i] !in Separators
    requires forall i :: 0 <= i < |b| ==> b[i] !in Separators
    requires forall i :: 0 <= i < |c| ==> c[i] !in Separators
    ensures Components(a + "." + b + "." + c) == [ComponentOf(a), ComponentOf(b), ComponentOf(c)]
  {
    ComponentsAppend(a, '.', b);
    ComponentsAppend(a + "." + b, '.', c);
  }

  /** Zeros in front of numeric segments are ignored, whichever segments carry them. */
  lemma ZeroPaddingIgnored(a: string, b: string, c: string)
    requires a != [] && b != [] && c != []
    requires IsDecimalDigit(a[0]) && IsDecimalDigit(b[0]) && IsDecimalDigit(c[0])
    requires forall i :: 0 <= i < |a| ==> a[i] !in Separators
    requires forall i :: 0 <= i < |b| ==> b[i] !in Separators
    requires forall i :: 0 <= i < |c| ==> c[i] !in Separators
    ensures Eq(ValidUpstreamVersion("0" + a + "." + ("0" + b) + "." + c),
               ValidUpstreamVersion(a + "." + b + "." + ("0" + c)))
  {
    var v := ValidUpstreamVersion("0" + a + "." + ("0" + b) + "." + c);
    var w := ValidUpstreamVersion(a + "." + b + "." + ("0" + c));
    ThreeComponents("0" + a, "0" + b, c);
    ThreeComponents(a, b, "0" + c);
    LeadingZeroIgnored(a);
    LeadingZeroIgnored(b);
    LeadingZeroIgnored(c);
    EqIffSameHashInput(v, w);
  }

  /** Leading zeros are ignored: `01.02.3 == 1.2.03`. */
  lemma LeadingZerosExample()
    ensures Eq(ValidUpstreamVersion("01.02.3"), ValidUpstreamVersion("1.2.03"))
  {
    assert "01.02.3" == "0" + "1" + "." + ("0" + "2") + "." + "3";
    assert "1.2.03" == "1" + "." + "2" + "." + ("0" + "3");
    ZeroPaddingIgnored("1", "2", "3");
  }

  /** The characters `validate` accepts: ASCII letters and digits, `.`, `_`, `+` and `@`. */
  predicate IsVersionChar(c: char) {
    ('0' <= c <= '9') || ('a' <= c <= 'z') || ('A' <= c <= 'Z') || c == '.' || c == '_' || c == '+' || c == '@'
  }

  /** Index of the first character `validate` refuses. */
  function FirstInvalid(s: string): (r: Option<nat>)
    ensures r.Some? ==> r.value < |s| && !IsVersionChar(s[r.value])
    ensures r.Some? ==> forall i :: 0 <= i < r.value ==> IsVersionChar(s[i])
    ensures r.None? ==> forall i :: 0 <= i < |s| ==> IsVersionChar(s[i])
  {
    if s == [] then None
    else if !IsVersionChar(s[0]) then Some(0)
    else match FirstInvalid(s[1..])
      case None => None
      case Some(k) => Some(k + 1)
  }

  /** `ValidateUpstreamVersionError`: the refused character and the whole input. */
  datatype ValidateError = ValidateError(character: char, input: string)

  /** `UpstreamVersion::validate` */
  function Validate(s: string): (r: Result<ValidUpstreamVersion, ValidateError>)
    ensures r.Ok? <==> forall i :: 0 <= i < |s| ==> IsVersionChar(s[i])
    ensures r.Ok? ==> r.value.raw == s
    ensures r.Err? ==> r.error.input == s
    ensures r.Err? ==> exists i :: (0 <= i < |s| && s[i] == r.error.character
      && !IsVersionChar(s[i]) && forall j :: 0 <= j < i ==> IsVersionChar(s[j]))
  {
    match FirstInvalid(s)
    case Some(i) => Err(ValidateError(s[i], s))
    case None => Ok(ValidUpstreamVersion(s))
  }

  /** Text made only of accepted characters is accepted unchanged. */
  lemma ValidateAcceptsAll(s: string)
    requires forall i :: 0 <= i < |s| ==> IsVersionChar(s[i])
    ensures Validate(s) == Ok(ValidUpstreamVersion(s))
  {
  }

  lemma ValidateAccepts()
    ensures Validate("12.34_56a") == Ok(ValidUpstreamVersion("12.34_56a"))
  {
    var good := "12.34_56a";
    forall i | 0 <= i < |good| ensures IsVersionChar(good[i]) {
      assert good[i] in ['1', '2', '.', '3', '4', '_', '5', '6', 'a'];
    }
    ValidateAcceptsAll(good);
  }

  lemma ValidateRefuses()
    ensures Validate("2:12.34_56a-1") == Err(ValidateError(':', "2:12.34_56a-1"))
  {
    var bad := "2:12.34_56a-1";
    assert IsVersionChar(bad[0]) && !IsVersionChar(bad[1]);
    assert FirstInvalid(bad[1..]) == Some(0);
    assert FirstInvalid(bad) == Some(1);
  }
}
