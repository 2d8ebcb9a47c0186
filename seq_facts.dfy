/** Small facts about sequence slices and appends, stated once so that proofs can cite them. */
module SeqFacts {
  lemma AppendAssoc<T>(x: seq<T>, y: seq<T>, z: seq<T>)
    ensures (x + y) + z == x + (y + z)
  {
  }

  /** A slice inside the left operand of an append. */
  lemma SliceOfAppendLeft<T>(a: seq<T>, b: seq<T>, i: nat, j: nat)
    requires i <= j <= |a|
    ensures (a + b)[i..j] == a[i..j]
  {
  }

  /** Dropping a prefix of the left operand of an append. */
  lemma DropOfAppend<T>(a: seq<T>, b: seq<T>, k: nat)
    requires k <= |a|
    ensures (a + b)[k..] == a[k..] + b
  {
  }

  /** Dropping the whole left operand of an append. */
  lemma DropLeft<T>(a: seq<T>, b: seq<T>)
    ensures (a + b)[|a|..] == b
  {
  }

  /** A slice of a suffix is a slice of the whole. */
  lemma SliceOfDrop<T>(s: seq<T>, j: nat, a: nat, b: nat)
    requires j + a <= j + b <= |s|
    ensures s[j..][a..b] == s[j + a..j + b]
  {
  }

  /** A suffix of a suffix is a suffix of the whole. */
  lemma DropOfDrop<T>(s: seq<T>, j: nat, a: nat)
    requires j + a <= |s|
    ensures s[j..][a..] == s[j + a..]
  {
  }

  /** Widening a slice by one element on the right. */
  lemma SliceSnoc<T>(s: seq<T>, a: nat, b: nat)
    requires a <= b < |s|
    ensures s[a..b + 1] == s[a..b] + [s[b]]
  {
  }

  /** A suffix is its first element followed by the rest. */
  lemma DropCons<T>(s: seq<T>, i: nat)
    requires i < |s|
    ensures s[i..] == [s[i]] + s[i + 1..]
  {
  }

  /** A non-empty sequence is its front followed by its last item. */
  lemma SplitLast<T>(s: seq<T>)
    requires s != []
    ensures s == s[..|s| - 1] + [s[|s| - 1]]
  {
  }

  /** A prefix one item longer is the shorter prefix and that item. */
  lemma TakeSnoc<T>(s: seq<T>, i: nat)
    requires i < |s|
    ensures s[..i + 1] == s[..i] + [s[i]]
  {
  }

  /** A sequence is its prefix up to `i` followed by the rest. */
  lemma TakeThenDrop<T>(s: seq<T>, i: nat)
    requires i <= |s|
    ensures s == s[..i] + s[i..]
  {
  }

  /**
   * The position after `i`. Recursions that step through a sequence or a list of kinds, and
   * the proofs about them, go through this one function so that both name the same position.
   */
  function After(i: nat): nat {
    i + 1
  }

  /** A sequence from `i` on: its item at `i`, then the rest. */
  lemma DropAfter<T>(s: seq<T>, i: nat)
    requires i < |s|
    ensures s[i..] == [s[i]] + s[After(i)..]
  {
    DropCons(s, i);
  }
}
