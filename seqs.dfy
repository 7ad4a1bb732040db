/** Sequence notions used by both components: order-preserving subsequences,
    duplicate-freedom, and JavaScript's `Array.prototype.slice`. */
module Seqs {

  /** `r` is obtained from `s` by dropping some elements, keeping the order of
      the rest. */
  ghost predicate Subsequence<T>(r: seq<T>, s: seq<T>)
    decreases |s|
  {
    if r == [] then true
    else if s == [] then false
    else (r[0] == s[0] && Subsequence(r[1..], s[1..])) || Subsequence(r, s[1..])
  }

  /** Every element of a subsequence is an element of the sequence. */
  lemma {:induction false} SubsequenceMembers<T>(r: seq<T>, s: seq<T>)
    requires Subsequence(r, s)
    ensures forall x :: x in r ==> x in s
    decreases |s|
  {
    if r != [] {
      if r[0] == s[0] && Subsequence(r[1..], s[1..]) {
        SubsequenceMembers(r[1..], s[1..]);
        assert forall x :: x in r ==> x == r[0] || x in r[1..];
      } else {
        SubsequenceMembers(r, s[1..]);
      }
    }
  }

  /** No value occurs twice. */
  ghost predicate NoDuplicates<T>(s: seq<T>)
  {
    forall i, j :: 0 <= i < j < |s| ==> s[i] != s[j]
  }

  /** The set of elements of `s`. */
  ghost function Elems<T>(s: seq<T>): set<T>
  {
    set x | x in s
  }

  /** Without duplicates, a sequence has as many distinct elements as entries. */
  lemma {:induction false} ElemsCard<T>(s: seq<T>)
    requires NoDuplicates(s)
    ensures |Elems(s)| == |s|
  {
    if s != [] {
      assert NoDuplicates(s[1..]) by {
        forall i, j | 0 <= i < j < |s[1..]| ensures s[1..][i] != s[1..][j] {
          assert s[1..][i] == s[i + 1] && s[1..][j] == s[j + 1];
        }
      }
      ElemsCard(s[1..]);
      assert s[0] !in Elems(s[1..]);
      assert Elems(s) == {s[0]} + Elems(s[1..]);
    }
  }

  /** How `Array.prototype.slice` resolves an index against a length `n`: a
      negative index counts from the end, and the result is clamped to [0, n]. */
  function RelativeIndex(i: int, n: nat): (k: nat)
    ensures k <= n
  {
    if i < 0 then (if n + i < 0 then 0 else n + i)
    else if i > n then n
    else i
  }

  /** `s.slice(from, to)`: the entries from the resolved start up to, not
      including, the resolved end; empty when the end is not past the start. */
  function Slice<T>(s: seq<T>, from: int, to: int): (r: seq<T>)
    ensures var b, e := RelativeIndex(from, |s|), RelativeIndex(to, |s|);
      |r| == (if b < e then e - b else 0) &&
      forall k :: 0 <= k < |r| ==> r[k] == s[b + k]
  {
    var b, e := RelativeIndex(from, |s|), RelativeIndex(to, |s|);
    if b < e then s[b..e] else []
  }
}
