/**
 * `str::lines` read through an offset cursor: the line that starts at offset `k` of a text
 * and the offset at which the following line starts. A text read from offset 0 to its end
 * this way yields exactly `Text.Lines`.
 */
module LineCursor {
  import opened Text

  /** Offset of the first `'\n'` at or after `k`, or `|s|`. */
  function LineEnd(s: string, k: nat): (e: nat)
    requires k <= |s|
    ensures k <= e <= |s|
    decreases |s| - k
  {
    if k == |s| || s[k] == '\n' then k else LineEnd(s, k + 1)
  }

  /** `LineEnd` stops at the first `'\n'`. */
  lemma {:induction false} LineEndFirst(s: string, k: nat)
    requires k <= |s|
    ensures var e := LineEnd(s, k); (e < |s| ==> s[e] == '\n') && forall j :: k <= j < e ==> s[j] != '\n'
    decreases |s| - k
  {
    if k < |s| && s[k] != '\n' {
      LineEndFirst(s, k + 1);
    }
  }

  /** A line that ends before `e` ends where a line from any of its offsets ends. */
  lemma {:induction false} LineEndFrom(s: string, k: nat, j: nat)
    requires k <= |s| && k <= j <= LineEnd(s, k)
    ensures LineEnd(s, j) == LineEnd(s, k)
    decreases j - k
  {
    if k < j {
      LineEndFrom(s, k + 1, j);
    }
  }

  /** Searching a suffix of the text finds the same line end, counted from the suffix. */
  lemma {:induction false} LineEndDrop(s: string, d: nat, k: nat)
    requires d + k <= |s|
    ensures LineEnd(s[d..], k) + d == LineEnd(s, d + k)
    decreases |s| - d - k
  {
    if d + k < |s| {
      assert s[d..][k] == s[d + k];
      if s[d + k] != '\n' {
        LineEndDrop(s, d, k + 1);
      }
    }
  }

  /** The line starting at `k`, without its `"\n"` or `"\r\n"` terminator. */
  function LineText(s: string, k: nat): (l: string)
    requires k <= |s|
  {
    var e := LineEnd(s, k);
    if e < |s| && e > k && s[e - 1] == '\r' then s[k..e - 1] else s[k..e]
  }

  /** The line is the text from `k`, and it ends at or just before the line end. */
  lemma LineTextSlice(s: string, k: nat)
    requires k <= |s|
    ensures k + |LineText(s, k)| <= LineEnd(s, k) && LineText(s, k) == s[k..k + |LineText(s, k)|]
  {
  }

  /** Offset of the line after the one at `k`. */
  function NextLineStart(s: string, k: nat): (n: nat)
    requires k < |s|
    ensures k < n <= |s|
  {
    var e := LineEnd(s, k);
    if e < |s| then e + 1 else |s|
  }

  /**
   * Dropping the first `d` characters of the line at `k` leaves, at the start of the rest of
   * the text, the rest of that line.
   */
  lemma LineTextDrop(s: string, k: nat, d: nat)
    requires k <= |s| && d <= |LineText(s, k)|
    ensures k + d <= |s| && LineText(s[k + d..], 0) == LineText(s, k)[d..]
  {
    var e := LineEnd(s, k);
    LineTextSlice(s, k);
    LineEndFrom(s, k, k + d);
    LineEndDrop(s, k + d, 0);
    var t := s[k + d..];
    assert LineEnd(t, 0) == e - (k + d);
    if e < |s| && e > k && s[e - 1] == '\r' {
      assert t[e - (k + d) - 1] == s[e - 1];
    } else if e - (k + d) > 0 && e < |s| {
      assert t[e - (k + d) - 1] == s[e - 1];
    }
  }

  /** Number of leading whitespace characters of a line. */
  function Lead(l: string): (n: nat)
    ensures n <= |l|
  {
    TrimStartBySuffix(l, IsWhitespace);
    |l| - |TrimStart(l)|
  }

  /** The trimmed line starts after its leading whitespace, and is a slice of the line. */
  lemma LeadTrim(l: string)
    ensures Lead(l) + |Trim(l)| <= |l| && Trim(l) == l[Lead(l)..Lead(l) + |Trim(l)|]
    ensures l[Lead(l)..] == TrimStart(l)
  {
    TrimStartBySuffix(l, IsWhitespace);
    TrimEndByPrefix(TrimStart(l), IsWhitespace);
  }

  /** Trimming what is left after the leading whitespace changes nothing more. */
  lemma LeadDropped(l: string)
    ensures Lead(l[Lead(l)..]) == 0 && Trim(l[Lead(l)..]) == Trim(l)
  {
    LeadTrim(l);
    TrimStartBySuffix(l, IsWhitespace);
    var t := TrimStart(l);
    if t != [] {
      assert TrimStartBy(t, IsWhitespace) == t;
    }
  }
}
