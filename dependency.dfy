/**
 * Dependency values: the name at the front of a dependency (`DependencyName::parse`), the
 * version constraint after it (`DependencySpecificationOperator::parse`), and the optional
 * reason after `: ` in optional dependencies (`DependencyAndReason::components`).
 */
module Dependency {
  import opened Wrappers
  import opened Text

  /**
   * `DependencyName::is_valid_char`: lowercase ASCII letters and digits anywhere; `@`, `_`
   * and `+` anywhere; `-` and `.` anywhere but first. `index` counts bytes in the source,
   * which only matters through whether it is 0.
   */
  predicate IsValidChar(index: nat, c: char) {
    if 'a' <= c <= 'z' || '0' <= c <= '9' then true
    else if index == 0 && (c == '-' || c == '.') then false
    else c == '@' || c == '.' || c == '_' || c == '+' || c == '-'
  }

  /**
   * Which characters may stand in a name: lowercase letters, digits, `@`, `_` and `+` anywhere,
   * `-` and `.` anywhere but first; nothing else, uppercase letters included.
   */
  lemma ValidCharClasses(index: nat, c: char)
    ensures ('a' <= c <= 'z' || '0' <= c <= '9') ==> IsValidChar(index, c)
    ensures 'A' <= c <= 'Z' ==> !IsValidChar(index, c)
    ensures IsValidChar(index, c) <==>
      'a' <= c <= 'z' || '0' <= c <= '9' || c == '@' || c == '_' || c == '+'
      || (index > 0 && (c == '-' || c == '.'))
  {
  }

  /** The first index from `i` on whose character may not stand there in a name. */
  function NameEnd(s: string, i: nat): (r: nat)
    requires i <= |s|
    ensures i <= r <= |s|
    ensures forall j :: i <= j < r ==> IsValidChar(j, s[j])
    ensures r < |s| ==> !IsValidChar(r, s[r])
    decreases |s| - i
  {
    if i == |s| || !IsValidChar(i, s[i]) then i else NameEnd(s, i + 1)
  }

  /**
   * `DependencyName::parse`: the name is everything before the first character that may not
   * stand at its place in a name; the rest follows it.
   */
  function ParseName(s: string): (r: (string, string))
    ensures r.0 + r.1 == s
    ensures forall j :: 0 <= j < |r.0| ==> IsValidChar(j, r.0[j])
    ensures r.1 == [] || !IsValidChar(|r.0|, r.1[0])
  {
    var stop := NameEnd(s, 0);
    if stop == |s| then
      (s, "")
    else
      assert s == s[..stop] + s[stop..];
      (s[..stop], s[stop..])
  }

  /** The name is the longest valid prefix: any split into a valid name and a stop is the parse. */
  lemma ParseNameUnique(s: string, name: string, rest: string)
    requires name + rest == s
    requires forall j :: 0 <= j < |name| ==> IsValidChar(j, name[j])
    requires rest == [] || !IsValidChar(|name|, rest[0])
    ensures ParseName(s) == (name, rest)
  {
    var r := ParseName(s);
    assert r.0 == s[..|r.0|] && name == s[..|name|];
  }

  /** A name may not start with `-` or `.`: such text has an empty name. */
  lemma LeadingHyphenOrDot(s: string)
    requires s != [] && (s[0] == '-' || s[0] == '.')
    ensures ParseName(s) == ("", s)
  {
    ParseNameUnique(s, "", s);
  }

  /** `Dependency::components`: the name and the specification that follows it. */
  function DependencyComponents(s: string): (r: (string, string))
    ensures r.0 + r.1 == s
  {
    ParseName(s)
  }

  /** `DependencySpecificationOperator` */
  datatype Operator = Less | LessOrEqual | Equal | GreaterOrEqual | Greater

  /** The `strum` spelling of an operator. */
  function AsStr(op: Operator): (r: string)
    ensures 1 <= |r| <= 2
  {
    match op
    case Less => "<"
    case LessOrEqual => "<="
    case Equal => "="
    case GreaterOrEqual => ">="
    case Greater => ">"
  }

  /** The order in which `parse` tries the operators: each `…OrEqual` before its strict form. */
  const Candidates: seq<Operator> := [LessOrEqual, GreaterOrEqual, Less, Equal, Greater]

  /** `find_map` over the candidates: the first whose spelling is a prefix of `s`. */
  function FindOperator(s: string, candidates: seq<Operator>): (r: Option<(Operator, string)>)
    ensures r.Some? ==> r.value.0 in candidates && AsStr(r.value.0) + r.value.1 == s
    ensures r.None? <==> forall i :: 0 <= i < |candidates| ==> !(AsStr(candidates[i]) <= s)
  {
    if candidates == [] then None
    else
      match StripPrefix(s, AsStr(candidates[0]))
      case Some(rest) => Some((candidates[0], rest))
      case None =>
        var r := FindOperator(s, candidates[1..]);
        assert forall i :: 1 <= i < |candidates| ==> candidates[i] == candidates[1..][i - 1];
        r
  }

  /** `DependencySpecificationOperator::parse` */
  function ParseOperator(s: string): (r: Option<(Operator, string)>)
    ensures r.Some? ==> AsStr(r.value.0) + r.value.1 == s
  {
    FindOperator(s, Candidates)
  }

  /** A candidate whose spelling does not start the text is passed over. */
  lemma FindOperatorSkip(s: string, candidates: seq<Operator>)
    requires candidates != [] && !(AsStr(candidates[0]) <= s)
    ensures FindOperator(s, candidates) == FindOperator(s, candidates[1..])
  {
  }

  /** A candidate whose spelling starts the text is taken. */
  lemma FindOperatorHit(s: string, candidates: seq<Operator>)
    requires candidates != [] && AsStr(candidates[0]) <= s
    ensures FindOperator(s, candidates) == Some((candidates[0], s[|AsStr(candidates[0])|..]))
  {
  }

  /**
   * The candidate order written out: `<=`, `>=`, `<`, `=`, `>`, the first that starts the text
   * winning.
   */
  lemma ParseOperatorInOrder(s: string)
    ensures ParseOperator(s) ==
      if "<=" <= s then Some((LessOrEqual, s[2..]))
      else if ">=" <= s then Some((GreaterOrEqual, s[2..]))
      else if "<" <= s then Some((Less, s[1..]))
      else if "=" <= s then Some((Equal, s[1..]))
      else if ">" <= s then Some((Greater, s[1..]))
      else None
  {
    var c := Candidates;
    assert c[1..] == [GreaterOrEqual, Less, Equal, Greater];
    assert c[2..] == [Less, Equal, Greater] == c[1..][1..];
    assert c[3..] == [Equal, Greater] == c[2..][1..];
    assert c[4..] == [Greater] == c[3..][1..];
    assert c[4..][1..] == [];
    if "<=" <= s {
      FindOperatorHit(s, c);
    } else {
      FindOperatorSkip(s, c);
      if ">=" <= s {
        FindOperatorHit(s, c[1..]);
      } else {
        FindOperatorSkip(s, c[1..]);
        if "<" <= s {
          FindOperatorHit(s, c[2..]);
        } else {
          FindOperatorSkip(s, c[2..]);
          if "=" <= s {
            FindOperatorHit(s, c[3..]);
          } else {
            FindOperatorSkip(s, c[3..]);
            if ">" <= s {
              FindOperatorHit(s, c[4..]);
            } else {
              FindOperatorSkip(s, c[4..]);
            }
          }
        }
      }
    }
  }

  /** There is an operator exactly when the text starts with `<`, `=` or `>`. */
  lemma ParseOperatorNone(s: string)
    ensures ParseOperator(s).None? <==> s == [] || (s[0] != '<' && s[0] != '=' && s[0] != '>')
  {
    ParseOperatorInOrder(s);
  }

  /**
   * The parse takes the longest operator that the text starts with, so `<=1` is never read as
   * `<` followed by `=1`.
   */
  lemma ParseOperatorLongest(s: string, op: Operator)
    requires AsStr(op) <= s
    ensures ParseOperator(s).Some?
    ensures |AsStr(op)| <= |AsStr(ParseOperator(s).value.0)|
  {
    ParseOperatorInOrder(s);
  }

  /**
   * Round trip: an operator followed by a version is parsed back into the two, unless a strict
   * operator is followed by `=`, which makes it the `…OrEqual` operator.
   */
  lemma ParseOperatorOfSpelling(op: Operator, v: string)
    requires op == Less || op == Greater ==> v == [] || v[0] != '='
    ensures ParseOperator(AsStr(op) + v) == Some((op, v))
  {
    var s := AsStr(op) + v;
    ParseOperatorInOrder(s);
    assert s[0] == AsStr(op)[0];
    assert |AsStr(op)| == 2 ==> s[1] == AsStr(op)[1];
    assert |AsStr(op)| == 1 ==> v != [] ==> s[1] == v[0];
    assert s[|AsStr(op)|..] == v;
  }

  /** `DependencySpecification::components`: the operator and the `Version` text after it. */
  function SpecificationComponents(s: string): (r: Option<(Operator, string)>)
    ensures r.Some? ==> AsStr(r.value.0) + r.value.1 == s
  {
    match ParseOperator(s)
    case Some((op, version)) => Some((op, version))
    case None => None
  }

  /**
   * Round trip of a whole dependency: a valid name, an operator and a version are taken apart
   * again, since no operator character can belong to a name.
   */
  lemma DependencyOfSpelling(name: string, op: Operator, v: string)
    requires forall j :: 0 <= j < |name| ==> IsValidChar(j, name[j])
    requires op == Less || op == Greater ==> v == [] || v[0] != '='
    ensures DependencyComponents(name + AsStr(op) + v) == (name, AsStr(op) + v)
    ensures SpecificationComponents(AsStr(op) + v) == Some((op, v))
  {
    var spec := AsStr(op) + v;
    assert spec[0] == AsStr(op)[0];
    assert name + AsStr(op) + v == name + spec;
    ParseNameUnique(name + spec, name, spec);
    ParseOperatorOfSpelling(op, v);
  }

  lemma OperatorLessExample()
    ensures ParseOperator("<1.27.0-1") == Some((Less, "1.27.0-1"))
  {
    var v := "1.27.0-1";
    ParseOperatorOfSpelling(Less, v);
    assert AsStr(Less) + v == "<1.27.0-1";
  }

  lemma OperatorLessOrEqualExample()
    ensures ParseOperator("<=1.27.0-1") == Some((LessOrEqual, "1.27.0-1"))
  {
    var v := "1.27.0-1";
    ParseOperatorOfSpelling(LessOrEqual, v);
    assert AsStr(LessOrEqual) + v == "<=1.27.0-1";
  }

  lemma OperatorEqualExample()
    ensures ParseOperator("=1.27.0-1") == Some((Equal, "1.27.0-1"))
  {
    var v := "1.27.0-1";
    ParseOperatorOfSpelling(Equal, v);
    assert AsStr(Equal) + v == "=1.27.0-1";
  }

  lemma OperatorGreaterOrEqualExample()
    ensures ParseOperator(">=1.27.0-1") == Some((GreaterOrEqual, "1.27.0-1"))
  {
    var v := "1.27.0-1";
    ParseOperatorOfSpelling(GreaterOrEqual, v);
    assert AsStr(GreaterOrEqual) + v == ">=1.27.0-1";
  }

  lemma OperatorGreaterExample()
    ensures ParseOperator(">1.27.0-1") == Some((Greater, "1.27.0-1"))
  {
    var v := "1.27.0-1";
    ParseOperatorOfSpelling(Greater, v);
    assert AsStr(Greater) + v == ">1.27.0-1";
  }

  lemma NoOperatorExamples()
    ensures ParseOperator("1.27.0-1") == None
    ensures SpecificationComponents("") == None
  {
    ParseOperatorNone("1.27.0-1");
    ParseOperatorNone("");
  }

  lemma DependencyNameExample()
    ensures DependencyComponents("rustup>=1.27.0-1") == ("rustup", ">=1.27.0-1")
  {
    var name, spec := "rustup", ">=1.27.0-1";
    forall j | 0 <= j < |name| ensures IsValidChar(j, name[j]) {
    }
    assert !IsValidChar(|name|, spec[0]);
    ParseNameUnique(name + spec, name, spec);
    assert name + spec == "rustup>=1.27.0-1";
  }

  lemma DependencySpecificationExample()
    ensures SpecificationComponents(">=1.27.0-1") == Some((GreaterOrEqual, "1.27.0-1"))
  {
    OperatorGreaterOrEqualExample();
  }

  /** The reason separator: a colon followed by a space, so an epoch's `:` does not split. */
  const ReasonSeparator := ": "

  /**
   * `DependencyAndReason::components`: split at the first `: `, both sides trimmed; without one,
   * the whole text trimmed and no reason.
   */
  function ReasonComponents(s: string): (r: (string, Option<string>))
    ensures r.1.None? <==> forall j :: 0 <= j <= |s| ==> !MatchesAt(s, ReasonSeparator, j)
    ensures r.1.None? ==> r.0 == Trim(s)
  {
    match SplitOnceStr(s, ReasonSeparator)
    case Some((depend, reason)) => (Trim(depend), Some(Trim(reason)))
    case None => (Trim(s), None)
  }

  /** Text with no `: ` in it. */
  predicate NoReasonSeparator(d: string) {
    forall j :: 0 <= j < |d| - 1 ==> !(d[j] == ':' && d[j + 1] == ' ')
  }

  /**
   * Round trip: a dependency without `: ` in it, `: ` and a reason are taken apart again, each
   * side trimmed.
   */
  lemma ReasonComponentsOfSpelling(d: string, reason: string)
    requires NoReasonSeparator(d)
    ensures ReasonComponents(d + ReasonSeparator + reason) == (Trim(d), Some(Trim(reason)))
  {
    var s := d + ReasonSeparator + reason;
    forall j | 0 <= j < |d| ensures !MatchesAt(s, ReasonSeparator, j) {
      if j < |d| - 1 {
        assert s[j] == d[j] && s[j + 1] == d[j + 1];
      } else {
        assert s[j + 1] == ':';
      }
    }
    SplitOnceStrAt(d, ReasonSeparator, reason);
  }

  /** A `:` that no space follows, such as an epoch's, does not split: there is no reason. */
  lemma EpochColonDoesNotSplit(s: string)
    requires NoReasonSeparator(s)
    ensures ReasonComponents(s) == (Trim(s), None)
  {
    forall j | 0 <= j <= |s| ensures !MatchesAt(s, ReasonSeparator, j) {
      if j + 2 <= |s| {
        assert s[j..j + 2][0] == s[j] && s[j..j + 2][1] == s[j + 1];
      }
    }
  }

  /** Text that neither starts nor ends with whitespace is its own trim. */
  lemma TrimUnpadded(s: string)
    requires s == [] || (!IsWhitespace(s[0]) && !IsWhitespace(s[|s| - 1]))
    ensures Trim(s) == s
  {
  }

  lemma ReasonSplitExample()
    ensures ReasonComponents("lldb: rust-lldb script") == (Trim("lldb"), Some(Trim("rust-lldb script")))
  {
    LldbSpelling();
    ReasonComponentsOfSpelling("lldb", "rust-lldb script");
  }

  lemma LldbSpelling()
    ensures "lldb" + ReasonSeparator + "rust-lldb script" == "lldb: rust-lldb script"
  {
  }

  lemma TrimLldb()
    ensures Trim("lldb") == "lldb"
  {
    TrimUnpadded("lldb");
  }

  lemma TrimLldbScript()
    ensures Trim("rust-lldb script") == "rust-lldb script"
  {
    TrimUnpadded("rust-lldb script");
  }

  lemma ReasonExample()
    ensures ReasonComponents("lldb: rust-lldb script") == ("lldb", Some("rust-lldb script"))
  {
    ReasonSplitExample();
    TrimLldb();
    TrimLldbScript();
  }
}
