/** Generic facts about sequence concatenation and slicing used by the proofs. */
module SeqLemmas {
  /** Concatenation is associative. */
  lemma AppendAssoc<T>(x: seq<T>, y: seq<T>, z: seq<T>)
    ensures x + (y + z) == (x + y) + z
  {
  }

  /** A non-empty sequence is its head followed by its tail. */
  lemma HeadTail<T>(s: seq<T>)
    requires |s| > 0
    ensures s == [s[0]] + s[1..]
  {
  }

  /** A non-empty sequence is its initial part followed by its last element. */
  lemma InitLast<T>(s: seq<T>)
    requires |s| > 0
    ensures s == s[..|s| - 1] + [s[|s| - 1]]
  {
  }

  /** Two parts of which one is empty can be appended in either order. */
  lemma SwapOneEmpty<T>(x: seq<T>, y: seq<T>, z: seq<T>)
    requires y == [] || z == []
    ensures x + y + z == x + z + y
  {
    if y == [] {
      assert x + y == x && z + y == z;
    } else {
      assert x + z == x && y + z == y;
    }
  }

  /** Inserting `e` at `j < |s|` commutes with putting the last element back. */
  lemma SplitSnoc<T>(s: seq<T>, j: nat, e: T)
    requires j < |s|
    ensures s[..|s| - 1][..j] + [e] + s[..|s| - 1][j..] + [s[|s| - 1]] == s[..j] + [e] + s[j..]
  {
  }

  /** A sequence that agrees with `sorted` below `j`, holds `e` at `j` and `sorted` shifted up above it. */
  lemma Reassembled<T>(b: seq<T>, sorted: seq<T>, j: nat, e: T)
    requires j <= |sorted| && |b| == |sorted| + 1
    requires forall k :: 0 <= k < j ==> b[k] == sorted[k]
    requires b[j] == e
    requires forall k :: j < k < |b| ==> b[k] == sorted[k - 1]
    ensures b == sorted[..j] + [e] + sorted[j..]
  {
  }

  /** Dropping the last element of a concatenation with a non-empty right part. */
  lemma ConcatInit<T>(a: seq<T>, b: seq<T>)
    requires |b| > 0
    ensures (a + b)[..|a + b| - 1] == a + b[..|b| - 1]
    ensures (a + b)[|a + b| - 1] == b[|b| - 1]
  {
  }

  /** A non-empty prefix is the shorter prefix followed by one element. */
  lemma PrefixSnoc<T>(s: seq<T>, n: nat)
    requires 0 < n <= |s|
    ensures s[..n] == s[..n - 1] + [s[n - 1]]
  {
  }

  /** Sequences of one length that agree everywhere are equal. */
  lemma EqualPointwise<T>(x: seq<T>, y: seq<T>)
    requires |x| == |y| && forall k :: 0 <= k < |x| ==> x[k] == y[k]
    ensures x == y
  {
  }
}
