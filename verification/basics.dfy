/** Small failure-carrying datatypes shared by every module of the model, and
    element-level facts about sequences and maps stated once, for any element
    type. */
module Basics {

  /** Python's `None` versus a present value. */
  datatype Option<T> = None | Some(value: T)

  /** The outcome of an operation that either returns a value or raises. */
  datatype Result<T, E> = Ok(value: T) | Err(error: E)
  {
    predicate IsOk() { Ok? }
  }

  /** Element `k` of `s[n..]` is element `n + k` of `s`. */
  lemma DropIndex<T>(s: seq<T>, n: nat)
    requires n <= |s|
    ensures forall k :: 0 <= k < |s| - n ==> s[n..][k] == s[n + k]
  {
  }

  /** A sequence is its first `j` elements followed by the rest. */
  lemma SplitAt<T>(s: seq<T>, j: nat)
    requires j <= |s|
    ensures s[..j] + s[j..] == s
  {
  }

  /** Dropping the head of a prefix is taking a prefix of the tail. */
  lemma TakeTail<T>(s: seq<T>, m: nat)
    requires 1 <= m <= |s|
    ensures s[..m][1..] == s[1..][..m - 1]
  {
  }

  /** The head and tail of `a + b` for non-empty `a`; `b` itself otherwise. */
  lemma ConsAppend<T>(a: seq<T>, b: seq<T>)
    ensures |a| == 0 ==> a + b == b
    ensures |a| > 0 ==> (a + b)[0] == a[0] && (a + b)[1..] == a[1..] + b
  {
  }

  /** Setting a key to the same value twice is setting it once. */
  lemma UpdateTwice<K, V>(m: map<K, V>, k: K, v: V)
    ensures m[k := v][k := v] == m[k := v]
  {
  }

  /** A sequence is a prefix of itself followed by anything. */
  lemma AppendPrefix<T>(s: seq<T>, t: seq<T>)
    ensures (s + t)[..|s|] == s
  {
  }

  /** A prefix of a prefix is a prefix. */
  lemma PrefixTrans<T>(a: seq<T>, b: seq<T>, c: seq<T>)
    requires |a| <= |b| && b[..|a|] == a
    requires |b| <= |c| && c[..|b|] == b
    ensures |a| <= |c| && c[..|a|] == a
  {
    assert c[..|a|] == c[..|b|][..|a|];
  }

}
