/**
 * String helpers with the semantics of the Rust `str` methods the crate relies on:
 * `trim`/`trim_start`/`trim_end`/`trim_matches`, `split_once`, `rsplit_once`,
 * `strip_prefix`, `split`, `split_inclusive('\n')` (the lines of `lines_inclusive`)
 * and `lines`.
 */
module Text {
  import opened Wrappers
  import opened SeqFacts

  /** Rust's `char::is_whitespace`: the Unicode White_Space property. */
  predicate IsWhitespace(c: char) {
    ('\t' <= c <= '\r') || c == ' ' || c == '\U{0085}' || c == '\U{00A0}' || c == '\U{1680}'
    || ('\U{2000}' <= c <= '\U{200A}') || c == '\U{2028}' || c == '\U{2029}'
    || c == '\U{202F}' || c == '\U{205F}' || c == '\U{3000}'
  }

  /** The characters removed by `trim_matches(['\n', '\r'])`. */
  predicate IsLineBreak(c: char) {
    c == '\n' || c == '\r'
  }

  /** `s` without its leading characters that satisfy `p`. */
  function TrimStartBy(s: string, p: char -> bool): string
    decreases |s|
  {
    if s != [] && p(s[0]) then TrimStartBy(s[1..], p) else s
  }

  /** What `TrimStartBy` leaves is a suffix that does not start with a trimmed character. */
  lemma {:induction false} TrimStartBySuffix(s: string, p: char -> bool)
    ensures var r := TrimStartBy(s, p);
      |r| <= |s| && r == s[|s| - |r|..] && (r != [] ==> !p(r[0]))
    decreases |s|
  {
    if s != [] && p(s[0]) {
      TrimStartBySuffix(s[1..], p);
    }
  }

  /** `s` without its trailing characters that satisfy `p`. */
  function TrimEndBy(s: string, p: char -> bool): string
    decreases |s|
  {
    if s != [] && p(s[|s| - 1]) then TrimEndBy(s[..|s| - 1], p) else s
  }

  /** What `TrimEndBy` leaves is a prefix that does not end with a trimmed character. */
  lemma {:induction false} TrimEndByPrefix(s: string, p: char -> bool)
    ensures var r := TrimEndBy(s, p);
      |r| <= |s| && r == s[..|r|] && (r != [] ==> !p(r[|r| - 1]))
    decreases |s|
  {
    if s != [] && p(s[|s| - 1]) {
      TrimEndByPrefix(s[..|s| - 1], p);
    }
  }

  function TrimBy(s: string, p: char -> bool): string {
    TrimEndBy(TrimStartBy(s, p), p)
  }

  /** What `TrimBy` leaves is a slice of `s` that neither starts nor ends with a trimmed character. */
  lemma TrimBySlice(s: string, p: char -> bool)
    ensures var r := TrimBy(s, p); var a := |s| - |TrimStartBy(s, p)|;
      0 <= a && a + |r| <= |s| && r == s[a..a + |r|]
    ensures var r := TrimBy(s, p); r != [] ==> !p(r[0]) && !p(r[|r| - 1])
  {
    var t := TrimStartBy(s, p);
    TrimStartBySuffix(s, p);
    TrimEndByPrefix(t, p);
  }

  /** `TrimStartBy` empties exactly the texts made only of trimmed characters. */
  lemma {:induction false} TrimStartByEmpty(s: string, p: char -> bool)
    ensures TrimStartBy(s, p) == [] <==> forall c :: c in s ==> p(c)
    decreases |s|
  {
    if s != [] {
      assert s == [s[0]] + s[1..];
      if p(s[0]) {
        TrimStartByEmpty(s[1..], p);
      }
    }
  }

  /** `TrimEndBy` empties exactly the texts made only of trimmed characters. */
  lemma {:induction false} TrimEndByEmpty(s: string, p: char -> bool)
    ensures TrimEndBy(s, p) == [] <==> forall c :: c in s ==> p(c)
    decreases |s|
  {
    if s != [] {
      assert s == s[..|s| - 1] + [s[|s| - 1]];
      if p(s[|s| - 1]) {
        TrimEndByEmpty(s[..|s| - 1], p);
      }
    }
  }

  /** `TrimBy` empties exactly the texts made only of trimmed characters. */
  lemma TrimByEmpty(s: string, p: char -> bool)
    ensures TrimBy(s, p) == [] <==> forall c :: c in s ==> p(c)
  {
    var t := TrimStartBy(s, p);
    TrimStartByEmpty(s, p);
    TrimStartBySuffix(s, p);
    TrimEndByEmpty(t, p);
    if t != [] {
      assert t[0] in t;
    }
  }

  /** `str::trim_start` */
  function TrimStart(s: string): string {
    TrimStartBy(s, IsWhitespace)
  }

  /** `str::trim_end` */
  function TrimEnd(s: string): string {
    TrimEndBy(s, IsWhitespace)
  }

  /** `str::trim` */
  function Trim(s: string): string {
    TrimBy(s, IsWhitespace)
  }

  /** `str::trim_matches(['\n', '\r'])` */
  function TrimLineBreaks(s: string): string {
    TrimBy(s, IsLineBreak)
  }

  /** Index of the first character of `s` that belongs to `cs`. */
  function FirstIndexIn(s: string, cs: set<char>): (r: Option<nat>)
    ensures r.Some? ==> r.value < |s| && s[r.value] in cs
    ensures r.Some? ==> forall i :: 0 <= i < r.value ==> s[i] !in cs
    ensures r.None? ==> forall i :: 0 <= i < |s| ==> s[i] !in cs
    decreases |s|
  {
    if s == [] then None
    else if s[0] in cs then Some(0)
    else match FirstIndexIn(s[1..], cs)
      case None => None
      case Some(k) => Some(k + 1)
  }

  /** Index of the last occurrence of `c` in `s`. */
  function LastIndexOf(s: string, c: char): (r: Option<nat>)
    ensures r.Some? ==> r.value < |s| && s[r.value] == c
    ensures r.Some? ==> forall i :: r.value < i < |s| ==> s[i] != c
    ensures r.None? ==> c !in s
    decreases |s|
  {
    if s == [] then None
    else if s[|s| - 1] == c then Some(|s| - 1)
    else LastIndexOf(s[..|s| - 1], c)
  }

  /** `str::split_once(c)`: the text before and after the first `c`. */
  function SplitOnce(s: string, c: char): (r: Option<(string, string)>)
    ensures r.None? <==> c !in s
    ensures r.Some? ==> r.value.0 + [c] + r.value.1 == s && c !in r.value.0
  {
    match FirstIndexIn(s, {c})
    case None => None
    case Some(k) =>
      assert s == s[..k] + [c] + s[k + 1..];
      Some((s[..k], s[k + 1..]))
  }

  /** `str::rsplit_once(c)`: the text before and after the last `c`. */
  function RSplitOnce(s: string, c: char): (r: Option<(string, string)>)
    ensures r.None? <==> c !in s
    ensures r.Some? ==> r.value.0 + [c] + r.value.1 == s && c !in r.value.1
  {
    match LastIndexOf(s, c)
    case None => None
    case Some(k) =>
      assert s == s[..k] + [c] + s[k + 1..];
      Some((s[..k], s[k + 1..]))
  }

  /** `pat` occurs in `s` at index `j`. */
  predicate MatchesAt(s: string, pat: string, j: nat) {
    j + |pat| <= |s| && s[j..j + |pat|] == pat
  }

  /** Index of the first occurrence of `pat` in `s`. */
  function FindStr(s: string, pat: string, from: nat := 0): (r: Option<nat>)
    requires from <= |s|
    ensures r.Some? ==> from <= r.value && MatchesAt(s, pat, r.value)
    ensures r.Some? ==> forall j :: from <= j < r.value ==> !MatchesAt(s, pat, j)
    ensures r.None? ==> forall j :: from <= j <= |s| ==> !MatchesAt(s, pat, j)
    decreases |s| - from
  {
    if MatchesAt(s, pat, from) then Some(from)
    else if from == |s| then None
    else FindStr(s, pat, from + 1)
  }

  /** `str::split_once(pat)` for a string pattern. */
  function SplitOnceStr(s: string, pat: string): (r: Option<(string, string)>)
    ensures r.Some? ==> r.value.0 + pat + r.value.1 == s
    ensures r.Some? ==> forall j :: 0 <= j < |r.value.0| ==> !MatchesAt(s, pat, j)
    ensures r.None? ==> forall j :: 0 <= j <= |s| ==> !MatchesAt(s, pat, j)
  {
    match FindStr(s, pat)
    case None => None
    case Some(k) =>
      assert s == s[..k] + s[k..k + |pat|] + s[k + |pat|..];
      Some((s[..k], s[k + |pat|..]))
  }

  /** `str::strip_prefix` */
  function StripPrefix(s: string, prefix: string): (r: Option<string>)
    ensures r.Some? <==> prefix <= s
    ensures r.Some? ==> prefix + r.value == s
  {
    if prefix <= s then
      assert s == prefix + s[|prefix|..];
      Some(s[|prefix|..])
    else None
  }

  /** `str::split` on any character of `seps`; there is always at least one part. */
  function SplitAny(s: string, seps: set<char>): (r: seq<string>)
    ensures |r| >= 1
    ensures forall i, j :: 0 <= i < |r| && 0 <= j < |r[i]| ==> r[i][j] !in seps
    decreases |s|
  {
    match FirstIndexIn(s, seps)
    case None => [s]
    case Some(k) => [s[..k]] + SplitAny(s[k + 1..], seps)
  }

  /** A separator put after `s` is found there unless `s` has one of its own. */
  lemma FirstIndexInAppend(s: string, c: char, t: string, seps: set<char>)
    requires c in seps
    ensures FirstIndexIn(s + [c] + t, seps) ==
      Some(match FirstIndexIn(s, seps) case None => |s| case Some(k) => k)
  {
    var st := s + [c] + t;
    match FirstIndexIn(s, seps)
    case None =>
      assert st[|s|] == c;
      forall i | 0 <= i < |s| ensures st[i] !in seps {
        assert st[i] == s[i];
      }
    case Some(k) =>
      assert st[k] == s[k];
      forall i | 0 <= i < k ensures st[i] !in seps {
        assert st[i] == s[i];
      }
  }

  /** Splitting at a separator between two texts splits each of them. */
  lemma {:induction false} SplitAnyAppend(s: string, c: char, t: string, seps: set<char>)
    requires c in seps
    ensures SplitAny(s + [c] + t, seps) == SplitAny(s, seps) + SplitAny(t, seps)
    decreases |s|
  {
    var st := s + [c] + t;
    FirstIndexInAppend(s, c, t, seps);
    match FirstIndexIn(s, seps)
    case None =>
      assert st[..|s|] == s && st[|s| + 1..] == t;
    case Some(k) =>
      var tail := s[k + 1..];
      assert st[..k] == s[..k];
      assert st[k + 1..] == tail + [c] + t;
      SplitAnyAppend(tail, c, t, seps);
      AppendAssoc([s[..k]], SplitAny(tail, seps), SplitAny(t, seps));
  }

  /** `str::split(c)` */
  function Split(s: string, c: char): (r: seq<string>)
    ensures |r| >= 1
  {
    SplitAny(s, {c})
  }

  /** `parts.join([c])` */
  function Join(parts: seq<string>, c: char): string
    requires |parts| >= 1
  {
    if |parts| == 1 then parts[0] else parts[0] + [c] + Join(parts[1..], c)
  }

  /** Concatenation of a sequence of strings. */
  function Concat(ls: seq<string>): string {
    if ls == [] then [] else ls[0] + Concat(ls[1..])
  }

  /**
   * `str::split_inclusive('\n')`: the lines with their terminators kept; the text after the
   * last `'\n'`, when not empty, is the final line.
   */
  function LinesInclusive(s: string): (r: seq<string>)
    ensures forall i :: 0 <= i < |r| ==> r[i] != []
    decreases |s|
  {
    if s == [] then []
    else match FirstIndexIn(s, {'\n'})
      case None => [s]
      case Some(k) => [s[..k + 1]] + LinesInclusive(s[k + 1..])
  }

  /** The line ending `str::lines` drops: a final `"\n"` or `"\r\n"`. */
  function StripLineEnding(l: string): string {
    if |l| >= 1 && l[|l| - 1] == '\n' then
      if |l| >= 2 && l[|l| - 2] == '\r' then l[..|l| - 2] else l[..|l| - 1]
    else l
  }

  /** `str::lines` */
  function Lines(s: string): seq<string> {
    var ls := LinesInclusive(s);
    seq(|ls|, i requires 0 <= i < |ls| => StripLineEnding(ls[i]))
  }

  /** Splitting at the first `c` finds the `c` that follows a prefix free of `c`. */
  lemma SplitOnceAt(a: string, c: char, b: string)
    requires c !in a
    ensures SplitOnce(a + [c] + b, c) == Some((a, b))
  {
    var s := a + [c] + b;
    assert forall i :: 0 <= i < |a| ==> s[i] == a[i];
    assert s[|a|] == c;
    assert FirstIndexIn(s, {c}) == Some(|a|);
    assert s[..|a|] == a;
    assert s[|a| + 1..] == b;
  }

  /** Splitting at the last `c` finds the `c` that precedes a suffix free of `c`. */
  lemma RSplitOnceAt(a: string, c: char, b: string)
    requires c !in b
    ensures RSplitOnce(a + [c] + b, c) == Some((a, b))
  {
    var s := a + [c] + b;
    assert forall i :: |a| < i < |s| ==> s[i] == b[i - |a| - 1];
    assert s[|a|] == c;
    assert LastIndexOf(s, c) == Some(|a|);
    assert s[..|a|] == a;
    assert s[|a| + 1..] == b;
  }

  /** Splitting at the first `pat` finds the `pat` that no earlier occurrence precedes. */
  lemma SplitOnceStrAt(a: string, pat: string, b: string)
    requires forall j :: 0 <= j < |a| ==> !MatchesAt(a + pat + b, pat, j)
    ensures SplitOnceStr(a + pat + b, pat) == Some((a, b))
  {
    var s := a + pat + b;
    assert s[|a|..|a| + |pat|] == pat;
    assert MatchesAt(s, pat, |a|);
    assert FindStr(s, pat) == Some(|a|);
    assert s[..|a|] == a;
    assert s[|a| + |pat|..] == b;
  }

  /** `trim_end` removes exactly a whitespace padding from text that does not end in whitespace. */
  lemma {:induction false} TrimEndPadded(w: string, pad: string)
    requires w == [] || !IsWhitespace(w[|w| - 1])
    requires forall c :: c in pad ==> IsWhitespace(c)
    ensures TrimEnd(w + pad) == w
    decreases |pad|
  {
    if pad == [] {
      assert w + pad == w;
    } else {
      var s := w + pad;
      assert s[|s| - 1] == pad[|pad| - 1];
      assert s[..|s| - 1] == w + pad[..|pad| - 1];
      TrimEndPadded(w, pad[..|pad| - 1]);
    }
  }

  /** `trim_start` removes exactly a whitespace padding from text that does not start with whitespace. */
  lemma {:induction false} TrimStartPadded(pad: string, v: string)
    requires forall c :: c in pad ==> IsWhitespace(c)
    requires v == [] || !IsWhitespace(v[0])
    ensures TrimStart(pad + v) == v
    decreases |pad|
  {
    if pad == [] {
      assert pad + v == v;
    } else {
      var s := pad + v;
      assert s[0] == pad[0];
      assert s[1..] == pad[1..] + v;
      TrimStartPadded(pad[1..], v);
    }
  }

  lemma ConcatAppend(a: seq<string>, b: seq<string>)
    ensures Concat(a + b) == Concat(a) + Concat(b)
  {
    if a == [] {
      assert a + b == b;
    } else {
      assert (a + b)[1..] == a[1..] + b;
      ConcatAppend(a[1..], b);
    }
  }

  /** The inclusive lines of a text concatenate back to the text. */
  lemma {:induction false} ConcatLinesInclusive(s: string)
    ensures Concat(LinesInclusive(s)) == s
    decreases |s|
  {
    if s != [] {
      match FirstIndexIn(s, {'\n'})
      case None =>
      case Some(k) =>
        ConcatLinesInclusive(s[k + 1..]);
        assert s == s[..k + 1] + s[k + 1..];
    }
  }

  /** Joining the parts of `split(c)` with `c` reproduces the text. */
  lemma {:induction false} JoinSplit(s: string, c: char)
    ensures Join(Split(s, c), c) == s
    decreases |s|
  {
    match FirstIndexIn(s, {c})
    case None =>
    case Some(k) =>
      JoinSplit(s[k + 1..], c);
      assert s == s[..k] + [c] + s[k + 1..];
  }
}
