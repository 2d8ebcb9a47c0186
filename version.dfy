/**
 * Full versions (`Version`, `ParsedVersion`): an optional epoch before the first `:`, the
 * upstream version, and the release after the last `-`; their parse, which checks the parts
 * in that order, and the derived order of parsed versions.
 */
module Version {
  import opened Wrappers
  import opened Text
  import opened Values
  import UpstreamVersion

  /** `SplitVersionError` */
  datatype SplitVersionError = MissingRelease

  /** The raw parts `Version::components` returns: `Epoch`, `UpstreamVersion` and `Release` texts. */
  datatype RawParts = RawParts(epoch: Option<string>, upstream: string, release: string)

  /** The epoch part of a version's text: the epoch and its `:`, if there is an epoch. */
  function EpochPrefix(epoch: Option<string>): string {
    match epoch
    case Some(e) => e + [':']
    case None => ""
  }

  /** The text a version is made of: `epoch:upstream-release`, the epoch part optional. */
  function Spell(p: RawParts): string {
    EpochPrefix(p.epoch) + (p.upstream + ['-'] + p.release)
  }

  /** The epoch, before the first `:` if there is one, and the text after it. */
  function SplitEpoch(s: string): (r: (Option<string>, string))
    ensures EpochPrefix(r.0) + r.1 == s
    ensures r.0.None? <==> ':' !in s
    ensures r.0.Some? ==> ':' !in r.0.value
  {
    match SplitOnce(s, ':')
    case Some((e, rest)) => (Some(e), rest)
    case None => (None, s)
  }

  /**
   * `Version::components`: the epoch is what precedes the first `:`, if there is one; the
   * release is what follows the last `-` after it, and without such a `-` there is no version.
   */
  function SplitVersion(s: string): (r: Result<RawParts, SplitVersionError>)
    ensures r.Err? <==> '-' !in SplitEpoch(s).1
    ensures r.Ok? ==> Spell(r.value) == s
    ensures r.Ok? ==> (r.value.epoch.None? <==> ':' !in s)
    ensures r.Ok? && r.value.epoch.Some? ==> ':' !in r.value.epoch.value
    ensures r.Ok? ==> '-' !in r.value.release
  {
    var (epoch, rest) := SplitEpoch(s);
    match RSplitOnce(rest, '-')
    case None => Err(MissingRelease)
    case Some((upstream, release)) => Ok(RawParts(epoch, upstream, release))
  }

  /** Parts that `SplitVersion` gives back from their spelling. */
  predicate Separable(p: RawParts) {
    '-' !in p.release
    && match p.epoch
       case Some(e) => ':' !in e
       case None => ':' !in p.upstream && ':' !in p.release
  }

  /** Round trip: parts without a stray separator are split back out of their spelling. */
  lemma SplitVersionOfSpelling(p: RawParts)
    requires Separable(p)
    ensures SplitVersion(Spell(p)) == Ok(p)
  {
    var rest := p.upstream + ['-'] + p.release;
    match p.epoch
    case Some(e) =>
      SplitOnceAt(e, ':', rest);
      RSplitOnceAt(p.upstream, '-', p.release);
    case None =>
      assert Spell(p) == rest;
      RSplitOnceAt(p.upstream, '-', p.release);
  }

  /** `ParseVersionError` */
  datatype ParseVersionError =
    | InvalidComponents(split: SplitVersionError)
    | InvalidEpoch(epochError: IntErrorKind)
    | InvalidUpstream(upstreamError: UpstreamVersion.ValidateError)
    | InvalidRelease(releaseError: IntErrorKind)

  /** `ParsedVersion` */
  datatype ParsedVersion = ParsedVersion(epoch: Option<nat>, upstream: UpstreamVersion.ValidUpstreamVersion, release: nat)

  /** `Epoch::parse` lifted over the optional epoch (`Option::map` then `transpose`). */
  function ParseEpoch(epoch: Option<string>): (r: Result<Option<nat>, IntErrorKind>)
    ensures r.Ok? ==> (r.value.Some? <==> epoch.Some?)
  {
    match epoch
    case None => Ok(None)
    case Some(e) =>
      match ParseNum(e)
      case Ok(n) => Ok(Some(n))
      case Err(k) => Err(k)
  }

  /**
   * `Version::parse`: split, then parse the epoch, validate the upstream version, parse the
   * release, and report the first part that fails.
   */
  function ParseVersion(s: string): (r: Result<ParsedVersion, ParseVersionError>)
    ensures r.Ok? ==> SplitVersion(s).Ok?
    ensures r.Ok? ==> (r.value.epoch.None? <==> ':' !in s)
    ensures r.Ok? ==> var up := r.value.upstream.raw;
      forall i :: 0 <= i < |up| ==> UpstreamVersion.IsVersionChar(up[i])
    ensures r.Ok? ==> r.value.release < U64Limit
    ensures r.Ok? && r.value.epoch.Some? ==> r.value.epoch.value < U64Limit
    ensures r == Err(InvalidComponents(MissingRelease)) <==> SplitVersion(s).Err?
  {
    match SplitVersion(s)
    case Err(e) => Err(InvalidComponents(e))
    case Ok(p) => ParseParts(p)
  }

  /** The part of `Version::parse` after the split: each part in turn, the first failure reported. */
  function ParseParts(p: RawParts): (r: Result<ParsedVersion, ParseVersionError>)
    ensures r.Ok? ==> (r.value.epoch.None? <==> p.epoch.None?)
    ensures r.Ok? ==> r.value.upstream.raw == p.upstream
    ensures r.Ok? ==> forall i :: 0 <= i < |p.upstream| ==> UpstreamVersion.IsVersionChar(p.upstream[i])
    ensures r.Ok? ==> r.value.release < U64Limit
    ensures r.Ok? && r.value.epoch.Some? ==> r.value.epoch.value < U64Limit
    ensures r.Err? ==> !r.error.InvalidComponents?
  {
    match ParseEpoch(p.epoch)
    case Err(k) => Err(InvalidEpoch(k))
    case Ok(epoch) =>
      match UpstreamVersion.Validate(p.upstream)
      case Err(e) => Err(InvalidUpstream(e))
      case Ok(upstream) =>
        match ParseNum(p.release)
        case Err(k) => Err(InvalidRelease(k))
        case Ok(release) => Ok(ParsedVersion(epoch, upstream, release))
  }

  /** The optional epoch spelled in decimal. */
  function SpellEpoch(epoch: Option<nat>): Option<string> {
    match epoch
    case Some(e) => Some(Decimal(e))
    case None => None
  }

  /** An epoch that fits in `u64` is parsed back from its decimal spelling. */
  lemma ParseEpochOfSpelling(epoch: Option<nat>)
    requires epoch.Some? ==> epoch.value < U64Limit
    ensures ParseEpoch(SpellEpoch(epoch)) == Ok(epoch)
  {
    if epoch.Some? {
      ParseU64Decimal(epoch.value);
    }
  }

  /** Each part parsed: the version is assembled from them. */
  lemma ParseVersionOfParts(s: string, p: RawParts, epoch: Option<nat>,
                            upstream: UpstreamVersion.ValidUpstreamVersion, release: nat)
    requires SplitVersion(s) == Ok(p)
    requires ParseEpoch(p.epoch) == Ok(epoch)
    requires UpstreamVersion.Validate(p.upstream) == Ok(upstream)
    requires ParseNum(p.release) == Ok(release)
    ensures ParseVersion(s) == Ok(ParsedVersion(epoch, upstream, release))
  {
  }

  /** A bad epoch is reported before the rest is looked at. */
  lemma ParseVersionFailsAtEpoch(s: string, p: RawParts)
    requires SplitVersion(s) == Ok(p)
    requires ParseEpoch(p.epoch).Err?
    ensures ParseVersion(s) == Err(InvalidEpoch(ParseEpoch(p.epoch).error))
  {
  }

  /** The epoch parsed, an invalid upstream version is reported before the release is looked at. */
  lemma ParseVersionFailsAtUpstream(s: string, p: RawParts, epoch: Option<nat>)
    requires SplitVersion(s) == Ok(p)
    requires ParseEpoch(p.epoch) == Ok(epoch)
    requires UpstreamVersion.Validate(p.upstream).Err?
    ensures ParseVersion(s) == Err(InvalidUpstream(UpstreamVersion.Validate(p.upstream).error))
  {
  }

  /** All else parsed, a bad release is reported. */
  lemma ParseVersionFailsAtRelease(s: string, p: RawParts, epoch: Option<nat>,
                                   upstream: UpstreamVersion.ValidUpstreamVersion)
    requires SplitVersion(s) == Ok(p)
    requires ParseEpoch(p.epoch) == Ok(epoch)
    requires UpstreamVersion.Validate(p.upstream) == Ok(upstream)
    requires ParseNum(p.release).Err?
    ensures ParseVersion(s) == Err(InvalidRelease(ParseNum(p.release).error))
  {
  }

  /** The spelling of a parsed version: decimal epoch and release around the upstream text. */
  function SpellParsed(v: ParsedVersion): RawParts {
    RawParts(SpellEpoch(v.epoch), v.upstream.raw, Decimal(v.release))
  }

  /**
   * Round trip: a parsed version whose numbers fit in `u64` is parsed back from its decimal
   * spelling `epoch:upstream-release`.
   */
  lemma ParseVersionOfSpelling(v: ParsedVersion)
    requires v.epoch.Some? ==> v.epoch.value < U64Limit
    requires v.release < U64Limit
    requires UpstreamVersion.Validate(v.upstream.raw).Ok?
    ensures ParseVersion(Spell(SpellParsed(v))) == Ok(v)
  {
    var p := SpellParsed(v);
    var up := v.upstream.raw;
    assert forall i :: 0 <= i < |up| ==> UpstreamVersion.IsVersionChar(up[i]);
    assert ':' !in up;
    assert AllDecimal(p.release);
    assert '-' !in p.release && ':' !in p.release;
    assert v.epoch.Some? ==> AllDecimal(p.epoch.value);
    SplitVersionOfSpelling(p);
    ParseEpochOfSpelling(v.epoch);
    ParseU64Decimal(v.release);
    ParseVersionOfParts(Spell(p), p, v.epoch, v.upstream, v.release);
  }

  /** The derived order of `Option<u64>`, on epochs. */
  function CmpEpoch(x: Option<nat>, y: Option<nat>): UpstreamVersion.Ordering {
    UpstreamVersion.CmpPrefix(x, y)
  }

  /** `u64::cmp` */
  function CmpNat(m: nat, n: nat): UpstreamVersion.Ordering {
    if m < n then UpstreamVersion.Less else if m == n then UpstreamVersion.Equal else UpstreamVersion.Greater
  }

  /** The derived `Ord for ParsedVersion`: epoch, then upstream version, then release. */
  function Cmp(v: ParsedVersion, w: ParsedVersion): UpstreamVersion.Ordering {
    match CmpEpoch(v.epoch, w.epoch)
    case Equal => (
      match UpstreamVersion.Cmp(v.upstream, w.upstream)
      case Equal => CmpNat(v.release, w.release)
      case Less => UpstreamVersion.Less
      case Greater => UpstreamVersion.Greater)
    case Less => UpstreamVersion.Less
    case Greater => UpstreamVersion.Greater
  }

  /** The derived `PartialEq for ParsedVersion`: field by field, the upstream part by its `eq`. */
  predicate Eq(v: ParsedVersion, w: ParsedVersion) {
    v.epoch == w.epoch && UpstreamVersion.Eq(v.upstream, w.upstream) && v.release == w.release
  }

  /** The derived `eq` and `cmp` agree: equal exactly when `cmp` is `Equal`. */
  lemma EqAgreesWithCmp(v: ParsedVersion, w: ParsedVersion)
    ensures Eq(v, w) <==> Cmp(v, w) == UpstreamVersion.Equal
  {
  }

  /** Swapping the operands flips the order of parsed versions. */
  lemma CmpAntisymmetric(v: ParsedVersion, w: ParsedVersion)
    ensures Cmp(v, w) == UpstreamVersion.Flip(Cmp(w, v))
  {
    UpstreamVersion.CmpAntisymmetric(v.upstream, w.upstream);
  }

  /** The order of parsed versions is transitive. */
  lemma CmpTransitive(u: ParsedVersion, v: ParsedVersion, w: ParsedVersion)
    requires Cmp(u, v) == UpstreamVersion.Less && Cmp(v, w) == UpstreamVersion.Less
    ensures Cmp(u, w) == UpstreamVersion.Less
  {
    UpstreamVersion.EqIffSameHashInput(u.upstream, v.upstream);
    UpstreamVersion.EqIffSameHashInput(v.upstream, w.upstream);
    UpstreamVersion.EqIffSameHashInput(u.upstream, w.upstream);
    if CmpEpoch(u.epoch, v.epoch) == UpstreamVersion.Equal && CmpEpoch(v.epoch, w.epoch) == UpstreamVersion.Equal
      && UpstreamVersion.Cmp(u.upstream, v.upstream) == UpstreamVersion.Less
      && UpstreamVersion.Cmp(v.upstream, w.upstream) == UpstreamVersion.Less
    {
      UpstreamVersion.CmpTransitive(u.upstream, v.upstream, w.upstream);
    }
  }

  /** A higher epoch wins whatever follows it. */
  lemma EpochDominates(v: ParsedVersion, w: ParsedVersion)
    requires v.epoch.Some? && w.epoch.Some? && v.epoch.value < w.epoch.value
    ensures Cmp(v, w) == UpstreamVersion.Less
  {
  }

  /** Valid upstream texts joined are valid. */
  lemma ValidConcat(a: string, b: string)
    requires UpstreamVersion.Validate(a).Ok? && UpstreamVersion.Validate(b).Ok?
    ensures UpstreamVersion.Validate(a + b).Ok?
  {
    var ab := a + b;
    assert forall i :: 0 <= i < |ab| ==> ab[i] == (if i < |a| then a[i] else b[i - |a|]);
  }

  /** `0.1.2_rc.1` is a valid upstream version. */
  lemma SampleUpstreamValid()
    ensures UpstreamVersion.Validate("0.1.2_rc.1") == Ok(UpstreamVersion.ValidUpstreamVersion("0.1.2_rc.1"))
  {
    var a, b := "0.1.2", "_rc.1";
    forall i | 0 <= i < |a| ensures UpstreamVersion.IsVersionChar(a[i]) {
    }
    forall i | 0 <= i < |b| ensures UpstreamVersion.IsVersionChar(b[i]) {
    }
    ValidConcat(a, b);
    assert a + b == "0.1.2_rc.1";
  }

  lemma SplitWithEpoch()
    ensures SplitVersion("2:0.1.2_rc.1-1") == Ok(RawParts(Some("2"), "0.1.2_rc.1", "1"))
  {
    var p := RawParts(Some("2"), "0.1.2_rc.1", "1");
    assert Spell(p) == "2:0.1.2_rc.1-1";
    SplitVersionOfSpelling(p);
  }

  lemma SplitWithoutEpoch()
    ensures SplitVersion("0.1.2_rc.1-1") == Ok(RawParts(None, "0.1.2_rc.1", "1"))
  {
    var p := RawParts(None, "0.1.2_rc.1", "1");
    assert Spell(p) == "0.1.2_rc.1-1";
    assert ':' !in p.upstream;
    SplitVersionOfSpelling(p);
  }

  /** `2:0.1.2_rc.1` is the epoch `2` and the text after it. */
  lemma EpochWithoutRelease()
    ensures SplitEpoch("2:0.1.2_rc.1") == (Some("2"), "0.1.2_rc.1")
  {
    assert "2:0.1.2_rc.1" == "2" + [':'] + "0.1.2_rc.1";
    SplitOnceAt("2", ':', "0.1.2_rc.1");
  }

  /** A valid upstream version holds no `-`. */
  lemma SampleUpstreamUndashed()
    ensures '-' !in "0.1.2_rc.1"
  {
    var up := "0.1.2_rc.1";
    forall i | 0 <= i < |up| ensures up[i] != '-' {
      assert up[i] in ['0', '.', '1', '2', '_', 'r', 'c'];
    }
  }

  lemma SplitWithoutRelease()
    ensures SplitVersion("2:0.1.2_rc.1") == Err(MissingRelease)
  {
    EpochWithoutRelease();
    SampleUpstreamUndashed();
  }

  lemma ParseOne()
    ensures ParseNum("1") == Ok(1)
  {
    assert Decimal(1) == "1";
    ParseU64Decimal(1);
  }

  lemma ParseTwo()
    ensures ParseNum("2") == Ok(2)
  {
    assert Decimal(2) == "2";
    ParseU64Decimal(2);
  }

  lemma ParseWithEpoch()
    ensures ParseVersion("2:0.1.2_rc.1-1") == Ok(ParsedVersion(Some(2), UpstreamVersion.ValidUpstreamVersion("0.1.2_rc.1"), 1))
  {
    SplitWithEpoch();
    ParseTwo();
    ParseOne();
    SampleUpstreamValid();
    ParseVersionOfParts("2:0.1.2_rc.1-1", RawParts(Some("2"), "0.1.2_rc.1", "1"),
      Some(2), UpstreamVersion.ValidUpstreamVersion("0.1.2_rc.1"), 1);
  }

  lemma ParseWithoutEpoch()
    ensures ParseVersion("0.1.2_rc.1-1") == Ok(ParsedVersion(None, UpstreamVersion.ValidUpstreamVersion("0.1.2_rc.1"), 1))
  {
    SplitWithoutEpoch();
    ParseOne();
    SampleUpstreamValid();
    ParseVersionOfParts("0.1.2_rc.1-1", RawParts(None, "0.1.2_rc.1", "1"),
      None, UpstreamVersion.ValidUpstreamVersion("0.1.2_rc.1"), 1);
  }

  lemma ParseWithoutRelease()
    ensures ParseVersion("2:0.1.2_rc.1") == Err(InvalidComponents(MissingRelease))
  {
    SplitWithoutRelease();
  }

  lemma SplitBadEpoch()
    ensures SplitVersion("2.1:0.1.2_rc.1-1") == Ok(RawParts(Some("2.1"), "0.1.2_rc.1", "1"))
  {
    var p := RawParts(Some("2.1"), "0.1.2_rc.1", "1");
    assert Spell(p) == "2.1:0.1.2_rc.1-1";
    SplitVersionOfSpelling(p);
  }

  /** An epoch with a `.` is not an integer. */
  lemma DottedEpochInvalid()
    ensures ParseEpoch(Some("2.1")) == Err(InvalidDigit)
  {
    assert ParseU64("2.1") == AccumulateDigits("2.1", 0);
    assert AccumulateDigits("2.1"[1..], 2) == Err(InvalidDigit);
  }

  lemma ParseBadEpoch()
    ensures ParseVersion("2.1:0.1.2_rc.1-1") == Err(InvalidEpoch(InvalidDigit))
  {
    SplitBadEpoch();
    DottedEpochInvalid();
    ParseVersionFailsAtEpoch("2.1:0.1.2_rc.1-1", RawParts(Some("2.1"), "0.1.2_rc.1", "1"));
  }

  lemma SplitBadUpstream()
    ensures SplitVersion("2:0.1.2-rc.1-1") == Ok(RawParts(Some("2"), "0.1.2-rc.1", "1"))
  {
    var p := RawParts(Some("2"), "0.1.2-rc.1", "1");
    assert Spell(p) == "2:0.1.2-rc.1-1";
    SplitVersionOfSpelling(p);
  }

  lemma ParseBadUpstream()
    ensures ParseVersion("2:0.1.2-rc.1-1").Err? && ParseVersion("2:0.1.2-rc.1-1").error.InvalidUpstream?
  {
    SplitBadUpstream();
    ParseTwo();
    DashedUpstreamInvalid();
    ParseVersionFailsAtUpstream("2:0.1.2-rc.1-1", RawParts(Some("2"), "0.1.2-rc.1", "1"), Some(2));
  }

  /** A `-` inside the upstream version is refused. */
  lemma DashedUpstreamInvalid()
    ensures UpstreamVersion.Validate("0.1.2-rc.1").Err?
  {
    var up := "0.1.2-rc.1";
    assert !UpstreamVersion.IsVersionChar(up[5]);
  }

  lemma SplitBadRelease()
    ensures SplitVersion("2:0.1.2_rc.1-a") == Ok(RawParts(Some("2"), "0.1.2_rc.1", "a"))
  {
    var p := RawParts(Some("2"), "0.1.2_rc.1", "a");
    assert Spell(p) == "2:0.1.2_rc.1-a";
    SplitVersionOfSpelling(p);
  }

  /** A release that is a letter is not an integer. */
  lemma LetterReleaseInvalid()
    ensures ParseNum("a") == Err(InvalidDigit)
  {
  }

  lemma ParseBadRelease()
    ensures ParseVersion("2:0.1.2_rc.1-a") == Err(InvalidRelease(InvalidDigit))
  {
    SplitBadRelease();
    ParseTwo();
    SampleUpstreamValid();
    LetterReleaseInvalid();
    ParseVersionFailsAtRelease("2:0.1.2_rc.1-a", RawParts(Some("2"), "0.1.2_rc.1", "a"),
      Some(2), UpstreamVersion.ValidUpstreamVersion("0.1.2_rc.1"));
  }
}
