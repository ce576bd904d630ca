/** score_complex: the N-chain interface score of a predicted complex. Every
    ordered pair of distinct chains adds log10(contacts + 1) times the mean
    pLDDT over both ends of every contact between their interface
    representatives, at a distance of at most 8 Angstrom. */
module Scoring {
  import opened Wrappers
  import opened Seqs
  import opened Geometry
  import opened Pdb

  /** log10 and exp, which this model does not compute. */
  datatype Transcendentals = Transcendentals(log10: real -> real, exp: real -> real)

  /** The only facts the proofs use about them: exp is positive and
      non-decreasing, log10 vanishes at 1 and increases from there. */
  ghost predicate Lawful(ops: Transcendentals) {
    && (forall x :: ops.exp(x) > 0.0)
    && (forall x, y :: x <= y ==> ops.exp(x) <= ops.exp(y))
    && ops.log10(1.0) == 0.0
    && (forall x, y :: 1.0 <= x < y ==> ops.log10(x) < ops.log10(y))
  }

  function Sum(s: seq<real>): real {
    if s == [] then 0.0 else Sum(s[..|s| - 1]) + s[|s| - 1]
  }

  /** numpy's mean of a non-empty array. */
  function Mean(s: seq<real>): real
    requires |s| > 0
  {
    Sum(s) / |s| as real
  }

  lemma {:induction false} SumAtLeast(s: seq<real>, lo: real)
    requires forall k :: 0 <= k < |s| ==> lo <= s[k]
    ensures lo * |s| as real <= Sum(s)
  {
    if s != [] {
      var n := |s| - 1;
      SumAtLeast(s[..n], lo);
      assert lo * |s| as real == lo * n as real + lo;
    }
  }

  lemma {:induction false} SumAbove(s: seq<real>, lo: real)
    requires |s| > 0 && forall k :: 0 <= k < |s| ==> lo < s[k]
    ensures lo * |s| as real < Sum(s)
  {
    var n := |s| - 1;
    SumAtLeast(s[..n], lo);
    assert lo * |s| as real == lo * n as real + lo;
  }

  /** A mean is at least any lower bound of the entries, and above any
      strict one. */
  lemma MeanBelow(s: seq<real>, lo: real)
    requires |s| > 0
    ensures (forall k :: 0 <= k < |s| ==> lo <= s[k]) ==> lo <= Mean(s)
    ensures (forall k :: 0 <= k < |s| ==> lo < s[k]) ==> lo < Mean(s)
  {
    var n := |s| as real;
    assert Mean(s) * n == Sum(s);
    if forall k :: 0 <= k < |s| ==> lo <= s[k] {
      SumAtLeast(s, lo);
      assert lo * n <= Mean(s) * n;
    }
    if forall k :: 0 <= k < |s| ==> lo < s[k] {
      SumAbove(s, lo);
      assert lo * n < Mean(s) * n;
    }
  }

  /** log10(m + 1) for a positive count m is positive. */
  lemma LogOfCountPositive(ops: Transcendentals, m: nat)
    requires Lawful(ops) && m > 0
    ensures ops.log10((m + 1) as real) > 0.0
  {
    assert 1.0 < (m + 1) as real;
  }

  // The chains of one pair

  /** chain_coords[c][chain_CB_inds[c]]: the coordinates of chain c's
      interface representatives; None for numpy's IndexError when an index
      is past the chain's coordinates. */
  function RepCoords(t: ChainTable, c: char): Option<seq<Point>>
    requires Keyed(t) && c in t.order
  {
    if IndicesBelow(t.cbInds[c], |t.coords[c]|) then Some(Gather(t.coords[c], t.cbInds[c])) else None
  }

  /** Chain c can take part in the loop: its representatives' coordinates
      exist and it has a pLDDT array (a missing one is a KeyError). */
  predicate Ready(t: ChainTable, pc: map<char, seq<real>>, c: char)
    requires Keyed(t) && c in t.order
  {
    RepCoords(t, c).Some? && c in pc
  }

  predicate AllReady(t: ChainTable, pc: map<char, seq<real>>)
    requires Keyed(t)
  {
    forall k :: 0 <= k < |t.order| ==> Ready(t, pc, t.order[k])
  }

  /** The first r chains can take part in the loop. */
  predicate ReadyBefore(t: ChainTable, pc: map<char, seq<real>>, r: nat)
    requires Keyed(t) && r <= |t.order|
  {
    r == 0 || (ReadyBefore(t, pc, r - 1) && Ready(t, pc, t.order[r - 1]))
  }

  lemma {:induction false} ReadyBeforeAll(t: ChainTable, pc: map<char, seq<real>>, r: nat)
    requires Keyed(t) && r <= |t.order| && ReadyBefore(t, pc, r)
    ensures forall k :: 0 <= k < r ==> Ready(t, pc, t.order[k])
  {
    if r > 0 {
      ReadyBeforeAll(t, pc, r - 1);
    }
  }

  /** One turn of the inner loop, for chains A and B given by their
      representatives' coordinates and their pLDDT arrays. */
  function InterfaceTerm(A: seq<Point>, B: seq<Point>, pa: seq<real>, pb: seq<real>, ops: Transcendentals): Option<real> {
    ContactTerm(Contacts(A, B, 8.0), pa, pb, ops)
  }

  /** The increment for the contact list cs: 0 without contacts, otherwise
      log10 of the contact count plus one times the mean pLDDT over both ends
      of every contact (a residue counts once per contact it is in); None
      for numpy's IndexError when a contact index is past a pLDDT array. */
  function ContactTerm(cs: seq<(nat, nat)>, pa: seq<real>, pb: seq<real>, ops: Transcendentals): Option<real> {
    if |cs| == 0 then Some(0.0)
    else if !IndicesBelow(Firsts(cs), |pa|) || !IndicesBelow(Seconds(cs), |pb|) then None
    else Some(ops.log10((|cs| + 1) as real) * Mean(Gather(pa, Firsts(cs)) + Gather(pb, Seconds(cs))))
  }

  /** Every entry of s is at least lo. */
  predicate AtLeast(s: seq<real>, lo: real) {
    forall k :: 0 <= k < |s| ==> lo <= s[k]
  }

  lemma GatheredAtLeast(pa: seq<real>, pb: seq<real>, ia: seq<nat>, ib: seq<nat>, lo: real)
    requires IndicesBelow(ia, |pa|) && IndicesBelow(ib, |pb|) && AtLeast(pa, lo) && AtLeast(pb, lo)
    ensures AtLeast(Gather(pa, ia) + Gather(pb, ib), lo)
  {
    var s := Gather(pa, ia) + Gather(pb, ib);
    forall k | 0 <= k < |s| ensures lo <= s[k] {
      if k < |ia| {
        assert s[k] == pa[ia[k]];
      } else {
        assert s[k] == pb[ib[k - |ia|]];
      }
    }
  }

  /** With non-negative pLDDT values the increment is never negative; with
      positive ones it is positive exactly when there are contacts. */
  lemma ContactTermSign(cs: seq<(nat, nat)>, pa: seq<real>, pb: seq<real>, ops: Transcendentals, lo: real)
    requires Lawful(ops) && lo >= 0.0 && AtLeast(pa, lo) && AtLeast(pb, lo)
    requires ContactTerm(cs, pa, pb, ops).Some?
    ensures ContactTerm(cs, pa, pb, ops).value >= 0.0
    ensures lo > 0.0 ==> (ContactTerm(cs, pa, pb, ops).value == 0.0 <==> cs == [])
  {
    if |cs| > 0 {
      var s := Gather(pa, Firsts(cs)) + Gather(pb, Seconds(cs));
      GatheredAtLeast(pa, pb, Firsts(cs), Seconds(cs), lo);
      MeanBelow(s, lo);
      LogOfCountPositive(ops, |cs|);
      var w := ops.log10((|cs| + 1) as real);
      var m := Mean(s);
      assert ContactTerm(cs, pa, pb, ops).value == w * m;
      assert w > 0.0 && m >= 0.0;
      if lo > 0.0 {
        assert m > 0.0;
        assert w * m > 0.0;
      }
    }
  }

  // The pair loop

  /** The inner loop's pairs for outer index i, over the chain indices below
      m: np.setdiff1d lists every other index, in increasing order. */
  function RowPairs(i: nat, m: nat): seq<(nat, nat)> {
    if m == 0 then [] else RowPairs(i, m - 1) + (if m - 1 == i then [] else [(i, m - 1)])
  }

  /** Row i holds the pairs (i, j) with j below m and not i, with j
      increasing. */
  lemma {:induction false} RowPairsShape(i: nat, m: nat)
    ensures |RowPairs(i, m)| == if i < m then m - 1 else m
    ensures forall k :: 0 <= k < |RowPairs(i, m)| ==> RowPairs(i, m)[k].0 == i && RowPairs(i, m)[k].1 < m
    ensures forall k :: 0 <= k < |RowPairs(i, m)| ==> RowPairs(i, m)[k].1 != i
    ensures forall a, b :: 0 <= a < b < |RowPairs(i, m)| ==> RowPairs(i, m)[a].1 < RowPairs(i, m)[b].1
  {
    if m > 0 {
      RowPairsShape(i, m - 1);
    }
  }

  lemma {:induction false} RowPairsComplete(i: nat, m: nat, j: nat)
    requires j < m && j != i
    ensures (i, j) in RowPairs(i, m)
  {
    if j < m - 1 {
      RowPairsComplete(i, m - 1, j);
    } else {
      assert RowPairs(i, m) == RowPairs(i, m - 1) + [(i, j)];
    }
  }

  /** The pairs the first r turns of the outer loop visit, in visiting
      order. */
  function PairsBefore(n: nat, r: nat): seq<(nat, nat)>
    requires r <= n
  {
    if r == 0 then [] else PairsBefore(n, r - 1) + RowPairs(r - 1, n)
  }

  /** Every pair score_complex visits. */
  function OrderedPairs(n: nat): seq<(nat, nat)> {
    PairsBefore(n, n)
  }

  /** The first r rows hold r * (n - 1) pairs. */
  lemma {:induction false} PairsBeforeCount(n: nat, r: nat)
    requires r <= n
    ensures |PairsBefore(n, r)| == r * (n - 1)
  {
    if r > 0 {
      PairsBeforeCount(n, r - 1);
      RowPairsShape(r - 1, n);
      assert PairsBefore(n, r) == PairsBefore(n, r - 1) + RowPairs(r - 1, n);
      assert r * (n - 1) == (r - 1) * (n - 1) + (n - 1);
    }
  }

  /** They are pairs of distinct indices, the first below r and the second
      below n. */
  lemma {:induction false} PairsBeforeBounds(n: nat, r: nat)
    requires r <= n
    ensures forall k :: 0 <= k < |PairsBefore(n, r)| ==>
      PairsBefore(n, r)[k].0 < r && PairsBefore(n, r)[k].1 < n && PairsBefore(n, r)[k].0 != PairsBefore(n, r)[k].1
  {
    if r > 0 {
      var prev, row := PairsBefore(n, r - 1), RowPairs(r - 1, n);
      PairsBeforeBounds(n, r - 1);
      RowPairsShape(r - 1, n);
      var ps := prev + row;
      assert PairsBefore(n, r) == ps;
      forall k | 0 <= k < |ps| ensures ps[k].0 < r && ps[k].1 < n && ps[k].0 != ps[k].1 {
        if k < |prev| {
          assert ps[k] == prev[k];
        } else {
          assert ps[k] == row[k - |prev|];
        }
      }
    }
  }

  /** The visits run in row-major order. */
  lemma {:induction false} PairsBeforeOrdered(n: nat, r: nat)
    requires r <= n
    ensures forall a, b :: 0 <= a < b < |PairsBefore(n, r)| ==> RowMajorBefore(PairsBefore(n, r)[a], PairsBefore(n, r)[b])
  {
    if r > 0 {
      var prev, row := PairsBefore(n, r - 1), RowPairs(r - 1, n);
      PairsBeforeOrdered(n, r - 1);
      PairsBeforeBounds(n, r - 1);
      RowPairsShape(r - 1, n);
      var ps := prev + row;
      assert PairsBefore(n, r) == ps;
      forall a, b | 0 <= a < b < |ps| ensures RowMajorBefore(ps[a], ps[b]) {
        if b < |prev| {
          assert ps[a] == prev[a] && ps[b] == prev[b];
        } else if a < |prev| {
          assert ps[a] == prev[a] && ps[b] == row[b - |prev|];
        } else {
          assert ps[a] == row[a - |prev|] && ps[b] == row[b - |prev|];
        }
      }
    }
  }

  lemma {:induction false} PairsBeforeComplete(n: nat, r: nat, i: nat, j: nat)
    requires r <= n && i < r && j < n && i != j
    ensures (i, j) in PairsBefore(n, r)
  {
    var prev, row := PairsBefore(n, r - 1), RowPairs(r - 1, n);
    assert PairsBefore(n, r) == prev + row;
    if i < r - 1 {
      PairsBeforeComplete(n, r - 1, i, j);
      assert (i, j) in prev;
    } else {
      RowPairsComplete(i, n, j);
      assert (i, j) in row;
    }
  }

  /** score_complex visits exactly the ordered pairs of distinct chain
      indices. */
  lemma OrderedPairsExactly(n: nat, i: nat, j: nat)
    ensures (i, j) in OrderedPairs(n) <==> i < n && j < n && i != j
  {
    if i < n && j < n && i != j {
      PairsBeforeComplete(n, n, i, j);
    }
    if (i, j) in OrderedPairs(n) {
      PairsBeforeBounds(n, n);
    }
  }

  /** It visits each of them once, in row-major order: n * (n - 1) visits
      in all. */
  lemma OrderedPairsOnce(n: nat)
    ensures forall a, b :: 0 <= a < b < |OrderedPairs(n)| ==> RowMajorBefore(OrderedPairs(n)[a], OrderedPairs(n)[b])
    ensures Distinct(OrderedPairs(n))
    ensures |OrderedPairs(n)| == n * (n - 1)
  {
    var ps := OrderedPairs(n);
    PairsBeforeOrdered(n, n);
    PairsBeforeCount(n, n);
    forall a, b | 0 <= a < b < |ps| ensures ps[a] != ps[b] {
      assert RowMajorBefore(ps[a], ps[b]);
    }
  }

  /** A term function: the increment for each pair of chain indices. */
  type TermFn = ((nat, nat)) -> Option<real>

  /** Adding a term; None stands for the exception that ends the loop. */
  function Add(a: Option<real>, b: Option<real>): Option<real> {
    if a.Some? && b.Some? then Some(a.value + b.value) else None
  }

  /** complex_score after visiting the pairs ps in order, starting from 0,
      each adding its term under f. */
  function Visit(f: TermFn, ps: seq<(nat, nat)>): Option<real> {
    if ps == [] then Some(0.0) else Add(Visit(f, ps[..|ps| - 1]), f(ps[|ps| - 1]))
  }

  lemma VisitSnoc(f: TermFn, ps: seq<(nat, nat)>, p: (nat, nat))
    ensures Visit(f, ps + [p]) == Add(Visit(f, ps), f(p))
  {
    assert (ps + [p])[..|ps|] == ps;
  }

  /** A total of non-negative terms is non-negative, and it is 0 exactly
      when every term is 0. */
  lemma {:induction false} VisitSign(f: TermFn, ps: seq<(nat, nat)>)
    requires forall k :: 0 <= k < |ps| && f(ps[k]).Some? ==> f(ps[k]).value >= 0.0
    requires Visit(f, ps).Some?
    ensures Visit(f, ps).value >= 0.0
    ensures Visit(f, ps).value == 0.0 <==> forall k :: 0 <= k < |ps| ==> f(ps[k]) == Some(0.0)
  {
    if ps != [] {
      var n := |ps| - 1;
      var q := ps[..n];
      assert forall k :: 0 <= k < n ==> q[k] == ps[k];
      VisitSign(f, q);
      assert (forall k :: 0 <= k < |ps| ==> f(ps[k]) == Some(0.0)) <==>
        (forall k :: 0 <= k < n ==> f(q[k]) == Some(0.0)) && f(ps[n]) == Some(0.0);
    }
  }

  /** A total that is defined has every term defined. */
  lemma {:induction false} VisitDefined(f: TermFn, ps: seq<(nat, nat)>, k: nat)
    requires Visit(f, ps).Some? && k < |ps|
    ensures f(ps[k]).Some?
  {
    var n := |ps| - 1;
    if k < n {
      assert ps[..n][k] == ps[k];
      VisitDefined(f, ps[..n], k);
    }
  }

  /** complex_score after the inner loop for chain i has run over the chain
      indices below j, starting from acc: the terms f((i, j')) are added one
      at a time, in the loop's order. */
  function RowFold(f: TermFn, acc: Option<real>, i: nat, j: nat): Option<real> {
    if j == 0 then acc
    else if j - 1 == i then RowFold(f, acc, i, j - 1)
    else Add(RowFold(f, acc, i, j - 1), f((i, j - 1)))
  }

  /** complex_score after the first r turns of the outer loop over n chains. */
  function OuterFold(f: TermFn, n: nat, r: nat): Option<real> {
    if r == 0 then Some(0.0) else RowFold(f, OuterFold(f, n, r - 1), r - 1, n)
  }

  /** One turn of the inner loop extends the visited pairs by (i, j). */
  lemma VisitStep(f: TermFn, visited: seq<(nat, nat)>, i: nat, j: nat)
    requires i != j
    ensures Visit(f, visited + RowPairs(i, j + 1)) == Add(Visit(f, visited + RowPairs(i, j)), f((i, j)))
  {
    var ps := visited + RowPairs(i, j);
    assert ps + [(i, j)] == visited + RowPairs(i, j + 1);
    VisitSnoc(f, ps, (i, j));
  }

  /** The folds agree with the reference definition: the total of the terms
      of the visited pairs, listed in visiting order. */
  lemma {:induction false} RowFoldVisits(f: TermFn, visited: seq<(nat, nat)>, i: nat, j: nat)
    ensures RowFold(f, Visit(f, visited), i, j) == Visit(f, visited + RowPairs(i, j))
  {
    if j == 0 {
      assert visited + RowPairs(i, 0) == visited;
    } else {
      RowFoldVisits(f, visited, i, j - 1);
      RowTurnVisits(f, visited, i, j - 1);
    }
  }

  /** One turn of the inner loop, skipped or not, keeps the fold and the
      reference definition equal. */
  lemma RowTurnVisits(f: TermFn, visited: seq<(nat, nat)>, i: nat, j: nat)
    requires RowFold(f, Visit(f, visited), i, j) == Visit(f, visited + RowPairs(i, j))
    ensures RowFold(f, Visit(f, visited), i, j + 1) == Visit(f, visited + RowPairs(i, j + 1))
  {
    if j == i {
      assert RowPairs(i, j + 1) == RowPairs(i, j);
    } else {
      VisitStep(f, visited, i, j);
    }
  }

  lemma {:induction false} OuterFoldVisits(f: TermFn, n: nat, r: nat)
    requires r <= n
    ensures OuterFold(f, n, r) == Visit(f, PairsBefore(n, r))
  {
    if r > 0 {
      var prev := PairsBefore(n, r - 1);
      calc {
        OuterFold(f, n, r);
        RowFold(f, OuterFold(f, n, r - 1), r - 1, n);
        { OuterFoldVisits(f, n, r - 1); }
        RowFold(f, Visit(f, prev), r - 1, n);
        { RowFoldVisits(f, prev, r - 1, n); }
        Visit(f, prev + RowPairs(r - 1, n));
      }
    }
  }

  /** An exception ends the loops for good: once the running score is None
      it stays None. */
  lemma {:induction false} RowFoldStaysNone(f: TermFn, acc: Option<real>, i: nat, j: nat, m: nat)
    requires j <= m && RowFold(f, acc, i, j).None?
    ensures RowFold(f, acc, i, m).None?
  {
    if j < m {
      RowFoldStaysNone(f, acc, i, j, m - 1);
    }
  }

  lemma {:induction false} OuterFoldStaysNone(f: TermFn, n: nat, r: nat, m: nat)
    requires r <= m && OuterFold(f, n, r).None?
    ensures OuterFold(f, n, m).None?
  {
    if r < m {
      OuterFoldStaysNone(f, n, r, m - 1);
      RowFoldStaysNone(f, OuterFold(f, n, m - 1), m - 1, 0, n);
    }
  }

  /** complex_score's increment for the pair of chain indices p (None for
      indices past the chains, which the loops never reach). */
  function PairTerm(t: ChainTable, pc: map<char, seq<real>>, ops: Transcendentals, p: (nat, nat)): Option<real>
    requires Keyed(t)
  {
    if p.0 < |t.order| && p.1 < |t.order| && Ready(t, pc, t.order[p.0]) && Ready(t, pc, t.order[p.1]) then
      var ci, cj := t.order[p.0], t.order[p.1];
      InterfaceTerm(RepCoords(t, ci).value, RepCoords(t, cj).value, pc[ci], pc[cj], ops)
    else None
  }

  /** PairTerm as a term function for the folds. */
  function TermOf(t: ChainTable, pc: map<char, seq<real>>, ops: Transcendentals): TermFn
    requires Keyed(t)
  {
    p => PairTerm(t, pc, ops, p)
  }

  /** score_complex's result: None when a chain cannot be scored (a missing
      representative coordinate or pLDDT array raises) or a term raises. */
  function ScoreSpec(t: ChainTable, pc: map<char, seq<real>>, ops: Transcendentals): Option<real>
    requires Keyed(t)
  {
    if AllReady(t, pc) then OuterFold(TermOf(t, pc, ops), |t.order|, |t.order|) else None
  }

  /** f gives every pair the increment PairTerm gives it. The trigger keeps
      the loops' proofs from unfolding PairTerm where only f is needed. */
  ghost predicate Agrees(f: TermFn, t: ChainTable, pc: map<char, seq<real>>, ops: Transcendentals)
    requires Keyed(t)
  {
    forall p {:trigger PairTerm(t, pc, ops, p)} :: f(p) == PairTerm(t, pc, ops, p)
  }

  lemma TermOfAgrees(t: ChainTable, pc: map<char, seq<real>>, ops: Transcendentals)
    requires Keyed(t)
    ensures Agrees(TermOf(t, pc, ops), t, pc, ops)
  {
  }

  /** Folds of term functions that agree on every pair agree. */
  lemma {:induction false} RowFoldsAgree(f: TermFn, g: TermFn, acc: Option<real>, i: nat, j: nat)
    requires forall p :: f(p) == g(p)
    ensures RowFold(f, acc, i, j) == RowFold(g, acc, i, j)
  {
    if j > 0 {
      RowFoldsAgree(f, g, acc, i, j - 1);
    }
  }

  lemma {:induction false} OuterFoldsAgree(f: TermFn, g: TermFn, n: nat, r: nat)
    requires forall p :: f(p) == g(p)
    ensures OuterFold(f, n, r) == OuterFold(g, n, r)
  {
    if r > 0 {
      OuterFoldsAgree(f, g, n, r - 1);
      RowFoldsAgree(f, g, OuterFold(f, n, r - 1), r - 1, n);
    }
  }

  lemma ScoreOfAgreeing(f: TermFn, t: ChainTable, pc: map<char, seq<real>>, ops: Transcendentals)
    requires Keyed(t) && Agrees(f, t, pc, ops)
    ensures ScoreSpec(t, pc, ops) == if AllReady(t, pc) then OuterFold(f, |t.order|, |t.order|) else None
  {
    var g := TermOf(t, pc, ops);
    forall p ensures f(p) == g(p) {
      assert f(p) == PairTerm(t, pc, ops, p);
    }
    OuterFoldsAgree(f, g, |t.order|, |t.order|);
  }

  /** score_complex: the outer loop over the chains in key order, the inner
      loop (ScoreRow) over every other chain; it also returns the number of
      chains. */
  method ScoreComplex(t: ChainTable, pc: map<char, seq<real>>, ops: Transcendentals)
    returns (score: Option<real>, numChains: nat)
    requires Keyed(t)
    ensures score == ScoreSpec(t, pc, ops) && numChains == |t.order|
  {
    TermOfAgrees(t, pc, ops);
    ghost var f :| Agrees(f, t, pc, ops);
    var chains := t.order;
    var n := |chains|;
    var complexScore: Option<real> := Some(0.0);
    var i: nat := 0;
    while i < n
      invariant i <= n && ReadyBefore(t, pc, i)
      invariant complexScore == OuterFold(f, n, i)
    {
      var chainI := chains[i];
      var coordsI := RepCoords(t, chainI);
      if coordsI.None? || chainI !in pc {
        ScoreOfAgreeing(f, t, pc, ops);
        return None, n;
      }
      complexScore := ScoreRow(t, pc, ops, f, i, coordsI.value, pc[chainI], complexScore);
      if complexScore.None? {
        OuterFoldStaysNone(f, n, i + 1, n);
        ScoreOfAgreeing(f, t, pc, ops);
        return None, n;
      }
      assert OuterFold(f, n, i + 1) == RowFold(f, OuterFold(f, n, i), i, n);
      i := i + 1;
    }
    ReadyBeforeAll(t, pc, n);
    ScoreOfAgreeing(f, t, pc, ops);
    return complexScore, n;
  }

  /** The inner loop of score_complex for chain i, whose representatives'
      coordinates and pLDDT array are given: it adds the term of every pair
      (i, j) with j != i to acc, and stops at the first exception. */
  method ScoreRow(t: ChainTable, pc: map<char, seq<real>>, ops: Transcendentals, ghost f: TermFn, i: nat,
                  coordsI: seq<Point>, plddtI: seq<real>, acc: Option<real>)
    returns (rowScore: Option<real>)
    requires RowOf(t, pc, i, coordsI, plddtI) && Agrees(f, t, pc, ops)
    ensures rowScore == RowFold(f, acc, i, |t.order|)
  {
    var n := |t.order|;
    rowScore := acc;
    var j: nat := 0;
    while j < n
      invariant j <= n && rowScore == RowFold(f, acc, i, j)
    {
      rowScore := RowTurn(t, pc, ops, f, i, j, coordsI, plddtI, acc, rowScore);
      if rowScore.None? {
        RowFoldStaysNone(f, acc, i, j + 1, n);
        return None;
      }
      j := j + 1;
    }
  }

  /** The arguments of ScoreRow: chain i exists and can take part, and its
      representatives' coordinates and pLDDT array are the ones given. */
  predicate RowOf(t: ChainTable, pc: map<char, seq<real>>, i: nat, coordsI: seq<Point>, plddtI: seq<real>) {
    && Keyed(t) && i < |t.order| && Ready(t, pc, t.order[i])
    && coordsI == RepCoords(t, t.order[i]).value && plddtI == pc[t.order[i]]
  }

  /** One turn of the inner loop: it adds the term of chains i and j unless
      j is i; a missing representative coordinate or pLDDT array of chain j
      raises, which gives None. */
  method RowTurn(t: ChainTable, pc: map<char, seq<real>>, ops: Transcendentals, ghost f: TermFn, i: nat, j: nat,
                 coordsI: seq<Point>, plddtI: seq<real>, ghost acc: Option<real>, rowScore: Option<real>)
    returns (next: Option<real>)
    requires RowOf(t, pc, i, coordsI, plddtI) && Agrees(f, t, pc, ops) && j < |t.order|
    requires rowScore == RowFold(f, acc, i, j)
    ensures next == RowFold(f, acc, i, j + 1)
  {
    if j == i {
      return rowScore;
    }
    var chainJ := t.order[j];
    var coordsJ := RepCoords(t, chainJ);
    if coordsJ.None? || chainJ !in pc {
      assert PairTerm(t, pc, ops, (i, j)) == None;
      return None;
    }
    var term := InterfaceTerm(coordsI, coordsJ.value, plddtI, pc[chainJ], ops);
    assert PairTerm(t, pc, ops, (i, j)) == term;
    return Add(rowScore, term);
  }

  lemma PairTermOf(t: ChainTable, pc: map<char, seq<real>>, ops: Transcendentals, i: nat, j: nat)
    requires Keyed(t) && i < |t.order| && j < |t.order| && Ready(t, pc, t.order[i]) && Ready(t, pc, t.order[j])
    ensures TermOf(t, pc, ops)((i, j))
      == InterfaceTerm(RepCoords(t, t.order[i]).value, RepCoords(t, t.order[j]).value, pc[t.order[i]], pc[t.order[j]], ops)
  {
  }

  /** score_complex's result is the total, in visiting order, of the terms of
      every ordered pair of distinct chains (OrderedPairsExactly and
      OrderedPairsOnce say which pairs those are). */
  lemma ScoreByPairs(t: ChainTable, pc: map<char, seq<real>>, ops: Transcendentals)
    requires Keyed(t) && AllReady(t, pc)
    ensures ScoreSpec(t, pc, ops) == Visit(TermOf(t, pc, ops), OrderedPairs(|t.order|))
  {
    OuterFoldVisits(TermOf(t, pc, ops), |t.order|, |t.order|);
  }

  // What the score says

  /** The contacts score_complex finds between the chains of pair p. */
  function PairContacts(t: ChainTable, pc: map<char, seq<real>>, p: (nat, nat)): seq<(nat, nat)>
    requires Keyed(t) && AllReady(t, pc) && p.0 < |t.order| && p.1 < |t.order|
  {
    Contacts(RepCoords(t, t.order[p.0]).value, RepCoords(t, t.order[p.1]).value, 8.0)
  }

  /** Every pLDDT value is at least lo. */
  predicate PlddtAtLeast(pc: map<char, seq<real>>, lo: real) {
    forall c :: c in pc ==> AtLeast(pc[c], lo)
  }

  /** One pair's increment: never negative, and with positive pLDDT values
      0 exactly when the two chains have no contacts. */
  lemma PairTermSign(t: ChainTable, pc: map<char, seq<real>>, ops: Transcendentals, p: (nat, nat), lo: real)
    requires Keyed(t) && AllReady(t, pc) && p.0 < |t.order| && p.1 < |t.order|
    requires Lawful(ops) && lo >= 0.0 && PlddtAtLeast(pc, lo)
    ensures PairTerm(t, pc, ops, p).Some? ==> PairTerm(t, pc, ops, p).value >= 0.0
    ensures lo > 0.0 && PairTerm(t, pc, ops, p).Some? ==>
      (PairTerm(t, pc, ops, p).value == 0.0 <==> PairContacts(t, pc, p) == [])
  {
    var ci, cj := t.order[p.0], t.order[p.1];
    assert Ready(t, pc, ci) && Ready(t, pc, cj);
    var cs := PairContacts(t, pc, p);
    assert PairTerm(t, pc, ops, p) == ContactTerm(cs, pc[ci], pc[cj], ops);
    if PairTerm(t, pc, ops, p).Some? {
      ContactTermSign(cs, pc[ci], pc[cj], ops, lo);
    }
  }

  /** With non-negative pLDDT values the complex score is never negative. */
  lemma ScoreNonNegative(t: ChainTable, pc: map<char, seq<real>>, ops: Transcendentals)
    requires Keyed(t) && Lawful(ops) && PlddtAtLeast(pc, 0.0)
    requires ScoreSpec(t, pc, ops).Some?
    ensures ScoreSpec(t, pc, ops).value >= 0.0
  {
    var f, ps := TermOf(t, pc, ops), OrderedPairs(|t.order|);
    ScoreByPairs(t, pc, ops);
    PairsBeforeBounds(|t.order|, |t.order|);
    TermsNonNegative(t, pc, ops, ps, 0.0);
    VisitSign(f, ps);
  }

  /** With pLDDT values of at least lo >= 0 no visited pair has a negative
      term, and with lo > 0 a pair's term is 0 exactly when the pair has no
      contacts. */
  lemma TermsNonNegative(t: ChainTable, pc: map<char, seq<real>>, ops: Transcendentals, ps: seq<(nat, nat)>, lo: real)
    requires Keyed(t) && AllReady(t, pc) && Lawful(ops) && lo >= 0.0 && PlddtAtLeast(pc, lo)
    requires forall k :: 0 <= k < |ps| ==> ps[k].0 < |t.order| && ps[k].1 < |t.order|
    ensures forall k :: 0 <= k < |ps| && TermOf(t, pc, ops)(ps[k]).Some? ==> TermOf(t, pc, ops)(ps[k]).value >= 0.0
    ensures lo > 0.0 ==> forall k :: 0 <= k < |ps| && TermOf(t, pc, ops)(ps[k]).Some? ==>
      (TermOf(t, pc, ops)(ps[k]) == Some(0.0) <==> PairContacts(t, pc, ps[k]) == [])
  {
    forall k | 0 <= k < |ps| {
      PairTermSign(t, pc, ops, ps[k], lo);
    }
  }

  /** With positive pLDDT values the complex score is 0 exactly when no two
      chains touch: a pair without contacts adds nothing, and a pair with
      contacts adds a positive amount. */
  lemma ScoreZeroExactly(t: ChainTable, pc: map<char, seq<real>>, ops: Transcendentals, lo: real)
    requires Keyed(t) && Lawful(ops) && lo > 0.0 && PlddtAtLeast(pc, lo)
    requires ScoreSpec(t, pc, ops).Some?
    ensures ScoreSpec(t, pc, ops).value == 0.0 <==> NoContacts(t, pc)
  {
    var f, ps := TermOf(t, pc, ops), OrderedPairs(|t.order|);
    ScoreByPairs(t, pc, ops);
    PairsBeforeBounds(|t.order|, |t.order|);
    TermsNonNegative(t, pc, ops, ps, lo);
    VisitSign(f, ps);
    forall k | 0 <= k < |ps| ensures f(ps[k]).Some? {
      VisitDefined(f, ps, k);
    }
    assert (forall k :: 0 <= k < |ps| ==> f(ps[k]) == Some(0.0)) <==>
      (forall k :: 0 <= k < |ps| ==> var p := ps[k]; p.0 < |t.order| && p.1 < |t.order| && PairContacts(t, pc, p) == []);
    NoContactsByPairs(t, pc);
  }

  /** No two distinct chains have a contact. */
  predicate NoContacts(t: ChainTable, pc: map<char, seq<real>>)
    requires Keyed(t) && AllReady(t, pc)
  {
    forall i, j :: 0 <= i < |t.order| && 0 <= j < |t.order| && i != j ==> PairContacts(t, pc, (i, j)) == []
  }

  /** NoContacts says the same of the pairs score_complex visits. */
  lemma NoContactsByPairs(t: ChainTable, pc: map<char, seq<real>>)
    requires Keyed(t) && AllReady(t, pc)
    ensures NoContacts(t, pc) <==> forall k :: 0 <= k < |OrderedPairs(|t.order|)| ==>
      var p := OrderedPairs(|t.order|)[k]; p.0 < |t.order| && p.1 < |t.order| && PairContacts(t, pc, p) == []
  {
    var n, ps := |t.order|, OrderedPairs(|t.order|);
    PairsBeforeBounds(n, n);
    forall i, j | 0 <= i < n && 0 <= j < n && i != j
      ensures (i, j) in ps
    {
      OrderedPairsExactly(n, i, j);
    }
  }
}
