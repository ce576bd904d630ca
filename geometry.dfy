/** Inter-chain contact detection: the pairs (i, j), i indexing the first
    chain's representative coordinates and j the second's, whose Euclidean
    distance is at most a threshold. numpy builds the whole distance matrix
    and calls argwhere on the off-diagonal block; argwhere lists the hits in
    row-major order, and so does Contacts below. */
module Geometry {
  import opened Seqs

  datatype Point = Point(x: real, y: real, z: real)

  /** The squared Euclidean distance. */
  function Dist2(p: Point, q: Point): (d: real)
    ensures d >= 0.0
  {
    (p.x - q.x) * (p.x - q.x) + (p.y - q.y) * (p.y - q.y) + (p.z - q.z) * (p.z - q.z)
  }

  /** sqrt(Dist2(p, q)) <= t, stated without the square root: for t >= 0
      it is Dist2(p, q) <= t * t, and a negative t admits no distance. */
  predicate Within(p: Point, q: Point, t: real) {
    0.0 <= t && Dist2(p, q) <= t * t
  }

  /** (i, j) comes before (i', j') in row-major order. */
  predicate RowMajorBefore(a: (nat, nat), b: (nat, nat)) {
    a.0 < b.0 || (a.0 == b.0 && a.1 < b.1)
  }

  /** The contacts of A[i] with B[..m], by increasing column. */
  function RowContacts(A: seq<Point>, B: seq<Point>, t: real, i: nat, m: nat): (r: seq<(nat, nat)>)
    requires i < |A| && m <= |B|
    ensures forall k :: 0 <= k < |r| ==> r[k].0 == i && r[k].1 < m
  {
    if m == 0 then []
    else
      RowContacts(A, B, t, i, m - 1) + (if Within(A[i], B[m - 1], t) then [(i, m - 1)] else [])
  }

  lemma {:induction false} RowContactsExactly(A: seq<Point>, B: seq<Point>, t: real, i: nat, m: nat, j: nat)
    requires i < |A| && m <= |B| && j < m
    ensures (i, j) in RowContacts(A, B, t, i, m) <==> Within(A[i], B[j], t)
  {
    var prev := RowContacts(A, B, t, i, m - 1);
    if j < m - 1 {
      RowContactsExactly(A, B, t, i, m - 1, j);
      assert (i, j) != (i, m - 1);
    } else {
      assert (i, j) !in prev;
    }
  }

  lemma {:induction false} RowContactsIncreasing(A: seq<Point>, B: seq<Point>, t: real, i: nat, m: nat)
    requires i < |A| && m <= |B|
    ensures forall a, b :: 0 <= a < b < |RowContacts(A, B, t, i, m)| ==>
      RowContacts(A, B, t, i, m)[a].1 < RowContacts(A, B, t, i, m)[b].1
  {
    if m > 0 {
      RowContactsIncreasing(A, B, t, i, m - 1);
    }
  }

  /** The contacts of the rows A[..n], in row-major order. */
  function RowsContacts(A: seq<Point>, B: seq<Point>, t: real, n: nat): (r: seq<(nat, nat)>)
    requires n <= |A|
    ensures forall k :: 0 <= k < |r| ==> r[k].0 < n && r[k].1 < |B|
  {
    if n == 0 then []
    else RowsContacts(A, B, t, n - 1) + RowContacts(A, B, t, n - 1, |B|)
  }

  lemma {:induction false} RowsContactsOrdered(A: seq<Point>, B: seq<Point>, t: real, n: nat)
    requires n <= |A|
    ensures forall a, b :: 0 <= a < b < |RowsContacts(A, B, t, n)| ==>
      RowMajorBefore(RowsContacts(A, B, t, n)[a], RowsContacts(A, B, t, n)[b])
  {
    if n > 0 {
      var prev, row := RowsContacts(A, B, t, n - 1), RowContacts(A, B, t, n - 1, |B|);
      var r := prev + row;
      RowsContactsOrdered(A, B, t, n - 1);
      RowContactsIncreasing(A, B, t, n - 1, |B|);
      forall a, b | 0 <= a < b < |r| ensures RowMajorBefore(r[a], r[b]) {
        if b < |prev| {
          assert r[a] == prev[a] && r[b] == prev[b];
        } else if a < |prev| {
          assert r[a] == prev[a] && r[b] == row[b - |prev|];
        } else {
          assert r[a] == row[a - |prev|] && r[b] == row[b - |prev|];
        }
      }
    }
  }

  /** The contact set of chains A and B at threshold t, as numpy's argwhere
      lists it: every listed pair indexes both chains (ContactsExactly says
      which pairs are listed). */
  function Contacts(A: seq<Point>, B: seq<Point>, t: real): (r: seq<(nat, nat)>)
    ensures forall k :: 0 <= k < |r| ==> r[k].0 < |A| && r[k].1 < |B|
  {
    RowsContacts(A, B, t, |A|)
  }

  /** Every listed pair is within the threshold. */
  lemma ContactsSound(A: seq<Point>, B: seq<Point>, t: real, k: nat)
    requires k < |Contacts(A, B, t)|
    ensures Within(A[Contacts(A, B, t)[k].0], B[Contacts(A, B, t)[k].1], t)
  {
    ContactRowsSound(A, B, t, |A|, k);
  }

  /** The listing is strictly increasing in row-major order, so no pair
      occurs twice. */
  lemma ContactsOrdered(A: seq<Point>, B: seq<Point>, t: real)
    ensures forall a, b :: 0 <= a < b < |Contacts(A, B, t)| ==>
      RowMajorBefore(Contacts(A, B, t)[a], Contacts(A, B, t)[b])
    ensures Distinct(Contacts(A, B, t))
  {
    var r := Contacts(A, B, t);
    RowsContactsOrdered(A, B, t, |A|);
    forall a, b | 0 <= a < b < |r| ensures r[a] != r[b] {
      assert RowMajorBefore(r[a], r[b]);
    }
  }

  lemma {:induction false} ContactRowsSound(A: seq<Point>, B: seq<Point>, t: real, n: nat, k: nat)
    requires n <= |A| && k < |RowsContacts(A, B, t, n)|
    ensures var p := RowsContacts(A, B, t, n)[k]; Within(A[p.0], B[p.1], t)
  {
    var prev := RowsContacts(A, B, t, n - 1);
    var row := RowContacts(A, B, t, n - 1, |B|);
    if k < |prev| {
      ContactRowsSound(A, B, t, n - 1, k);
    } else {
      var p := row[k - |prev|];
      assert p == (n - 1, p.1) && p in row;
      RowContactsExactly(A, B, t, n - 1, |B|, p.1);
    }
  }

  lemma {:induction false} ContactRowsComplete(A: seq<Point>, B: seq<Point>, t: real, n: nat, i: nat, j: nat)
    requires n <= |A| && i < n && j < |B| && Within(A[i], B[j], t)
    ensures (i, j) in RowsContacts(A, B, t, n)
  {
    if i < n - 1 {
      ContactRowsComplete(A, B, t, n - 1, i, j);
    } else {
      RowContactsExactly(A, B, t, n - 1, |B|, j);
    }
  }

  /** A pair is a contact exactly when both indices are in range and the two
      coordinates are within the threshold. */
  lemma ContactsExactly(A: seq<Point>, B: seq<Point>, t: real, i: nat, j: nat)
    ensures (i, j) in Contacts(A, B, t) <==> i < |A| && j < |B| && Within(A[i], B[j], t)
  {
    var cs := Contacts(A, B, t);
    if i < |A| && j < |B| && Within(A[i], B[j], t) {
      ContactRowsComplete(A, B, t, |A|, i, j);
    }
    if (i, j) in cs {
      var k :| 0 <= k < |cs| && cs[k] == (i, j);
      ContactsSound(A, B, t, k);
    }
  }

  /** Raising the threshold never loses a contact. */
  lemma ContactsMonotone(A: seq<Point>, B: seq<Point>, t: real, t': real, i: nat, j: nat)
    requires t <= t'
    requires (i, j) in Contacts(A, B, t)
    ensures (i, j) in Contacts(A, B, t')
  {
    ContactsExactly(A, B, t, i, j);
    assert 0.0 <= t <= t';
    assert t * t <= t' * t' by {
      assert t * t <= t * t' <= t' * t';
    }
    ContactsExactly(A, B, t', i, j);
  }

  /** Swapping the two chains swaps the indices of every contact. */
  lemma ContactsSymmetric(A: seq<Point>, B: seq<Point>, t: real, i: nat, j: nat)
    ensures (i, j) in Contacts(A, B, t) <==> (j, i) in Contacts(B, A, t)
  {
    ContactsExactly(A, B, t, i, j);
    ContactsExactly(B, A, t, j, i);
    if i < |A| && j < |B| {
      assert Dist2(A[i], B[j]) == Dist2(B[j], A[i]);
    }
  }

  /** The first, respectively second, index of every contact. */
  function Firsts(cs: seq<(nat, nat)>): (r: seq<nat>)
    ensures |r| == |cs| && forall k :: 0 <= k < |cs| ==> r[k] == cs[k].0
  {
    seq(|cs|, k requires 0 <= k < |cs| => cs[k].0)
  }

  function Seconds(cs: seq<(nat, nat)>): (r: seq<nat>)
    ensures |r| == |cs| && forall k :: 0 <= k < |cs| ==> r[k] == cs[k].1
  {
    seq(|cs|, k requires 0 <= k < |cs| => cs[k].1)
  }

  /** numpy's unique(s) for entries below n: the distinct entries of s, in
      increasing order. */
  function Unique(s: seq<nat>, n: nat): (r: seq<nat>)
    ensures forall k :: 0 <= k < |r| ==> r[k] < n && r[k] in s
    ensures forall x :: 0 <= x < n && x in s ==> x in r
    ensures forall a, b :: 0 <= a < b < |r| ==> r[a] < r[b]
  {
    if n == 0 then []
    else Unique(s, n - 1) + (if n - 1 in s then [n - 1] else [])
  }

  lemma UniqueMembers(s: seq<nat>, n: nat, x: nat)
    ensures x in Unique(s, n) <==> x < n && x in s
  {
  }

  /** The unique first indices of the contacts are exactly the residues of
      A that touch some residue of B. */
  lemma InterfaceRows(A: seq<Point>, B: seq<Point>, t: real, i: nat)
    ensures i in Unique(Firsts(Contacts(A, B, t)), |A|) <==>
      i < |A| && exists j :: 0 <= j < |B| && Within(A[i], B[j], t)
  {
    var cs := Contacts(A, B, t);
    var fs := Firsts(cs);
    UniqueMembers(fs, |A|, i);
    if i in fs {
      var k :| 0 <= k < |fs| && fs[k] == i;
      ContactsSound(A, B, t, k);
    }
    if i < |A| && exists j :: 0 <= j < |B| && Within(A[i], B[j], t) {
      var j :| 0 <= j < |B| && Within(A[i], B[j], t);
      ContactsExactly(A, B, t, i, j);
      var k :| 0 <= k < |cs| && cs[k] == (i, j);
      assert fs[k] == i;
    }
  }

  /** The unique second indices of the contacts are exactly the residues of
      B that touch some residue of A. */
  lemma InterfaceColumns(A: seq<Point>, B: seq<Point>, t: real, j: nat)
    ensures j in Unique(Seconds(Contacts(A, B, t)), |B|) <==>
      j < |B| && exists i :: 0 <= i < |A| && Within(A[i], B[j], t)
  {
    var cs := Contacts(A, B, t);
    var ss := Seconds(cs);
    UniqueMembers(ss, |B|, j);
    if j in ss {
      var k :| 0 <= k < |ss| && ss[k] == j;
      ContactsSound(A, B, t, k);
    }
    if j < |B| && exists i :: 0 <= i < |A| && Within(A[i], B[j], t) {
      var i :| 0 <= i < |A| && Within(A[i], B[j], t);
      ContactsExactly(A, B, t, i, j);
      var k :| 0 <= k < |cs| && cs[k] == (i, j);
      assert ss[k] == j;
    }
  }
}
