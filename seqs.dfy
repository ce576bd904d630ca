/** Sequence helpers shared by the models: distinctness, first-seen order
    (the key order of a Python dict filled by insertion), Python slicing and
    numpy fancy indexing. */
module Seqs {

  /** No element occurs twice. */
  predicate Distinct<T(==)>(s: seq<T>) {
    forall i, j :: 0 <= i < j < |s| ==> s[i] != s[j]
  }

  function Min(a: int, b: int): int {
    if a <= b then a else b
  }

  /** The position of the first occurrence of x in s. */
  function FirstIndex<T(==)>(s: seq<T>, x: T): (k: nat)
    requires x in s
    ensures k < |s| && s[k] == x
    ensures forall j :: 0 <= j < k ==> s[j] != x
  {
    if s[0] == x then 0 else 1 + FirstIndex(s[1..], x)
  }

  /** The distinct elements of s, in the order of their first occurrence:
      the key order of a dict into which s is inserted element by element. */
  function FirstSeen<T(==)>(s: seq<T>): (r: seq<T>)
    ensures forall k :: 0 <= k < |s| ==> s[k] in r
    ensures forall k :: 0 <= k < |r| ==> r[k] in s
    ensures Distinct(r)
  {
    if s == [] then []
    else
      var r0 := FirstSeen(s[..|s| - 1]);
      assert forall k :: 0 <= k < |s| - 1 ==> s[k] == s[..|s| - 1][k];
      if s[|s| - 1] in r0 then r0 else r0 + [s[|s| - 1]]
  }

  lemma FirstSeenMembers<T>(s: seq<T>, x: T)
    ensures x in FirstSeen(s) <==> x in s
  {
    if x in s {
      assert s[FirstIndex(s, x)] == x;
    }
    if x in FirstSeen(s) {
      var r := FirstSeen(s);
      assert r[FirstIndex(r, x)] == x;
    }
  }

  /** Inserting one more element adds it at the end unless already there. */
  lemma FirstSeenSnoc<T>(s: seq<T>, x: T)
    ensures FirstSeen(s + [x]) == if x in s then FirstSeen(s) else FirstSeen(s) + [x]
  {
    assert (s + [x])[..|s|] == s;
    FirstSeenMembers(s, x);
  }

  lemma FirstIndexOfPrefix<T>(s: seq<T>, y: T, x: T)
    requires x in s
    ensures x in s + [y] && FirstIndex(s + [y], x) == FirstIndex(s, x)
  {
    var k := FirstIndex(s, x);
    var k' := FirstIndex(s + [y], x);
    assert (s + [y])[k] == x;
    assert k' <= k;
    assert k' < |s| ==> s[k'] == x;
  }

  /** The elements of FirstSeen(s) appear in the order in which they first
      occur in s. */
  lemma {:induction false} FirstSeenOrder<T>(s: seq<T>)
    ensures forall a, b :: 0 <= a < b < |FirstSeen(s)| ==>
      FirstIndex(s, FirstSeen(s)[a]) < FirstIndex(s, FirstSeen(s)[b])
  {
    if s != [] {
      var p, y := s[..|s| - 1], s[|s| - 1];
      assert s == p + [y];
      FirstSeenOrder(p);
      var r0, r := FirstSeen(p), FirstSeen(s);
      forall a, b | 0 <= a < b < |r|
        ensures FirstIndex(s, r[a]) < FirstIndex(s, r[b])
      {
        assert r[a] == r0[a];
        FirstIndexOfPrefix(p, y, r0[a]);
        if b < |r0| {
          assert r[b] == r0[b];
          FirstIndexOfPrefix(p, y, r0[b]);
        } else {
          assert y !in p && r[b] == y;
          assert FirstIndex(s, y) == |p|;
        }
      }
    }
  }

  /** Python's s[a:b] for non-negative a and b: both bounds are clipped to
      the length, and an inverted range is empty. */
  function PySlice<T>(s: seq<T>, a: nat, b: nat): (r: seq<T>)
    ensures a <= b && a <= |s| ==> r == s[a..Min(b, |s|)]
    ensures a >= |s| || b <= a ==> r == []
  {
    var lo, hi := Min(a, |s|), Min(b, |s|);
    if lo <= hi then s[lo..hi] else []
  }

  /** Every index is within a sequence of length n. */
  predicate IndicesBelow(idx: seq<nat>, n: nat) {
    forall k :: 0 <= k < |idx| ==> idx[k] < n
  }

  /** numpy's s[idx] for an integer index array whose entries are in range. */
  function Gather<T>(s: seq<T>, idx: seq<nat>): (r: seq<T>)
    requires IndicesBelow(idx, |s|)
    ensures |r| == |idx| && forall k :: 0 <= k < |r| ==> r[k] == s[idx[k]]
  {
    seq(|idx|, k requires 0 <= k < |idx| => s[idx[k]])
  }
}
