/** The DockQ estimate of a predicted complex: mpDockQ, a logistic curve in
    score_complex, for more than two chains, and pDockQ, a logistic curve in
    the interface of the pair, for exactly two; and main's choice between
    them. */
module DockQ {
  import opened Wrappers
  import opened Seqs
  import opened Geometry
  import opened Pdb
  import opened Plddt
  import opened Scoring

  // The logistic curves

  /** l / (1 + exp(-k (x - x0))) + b. */
  function Logistic(ops: Transcendentals, l: real, x0: real, k: real, b: real, x: real): real
    requires Lawful(ops)
  {
    l / (1.0 + ops.exp(-k * (x - x0))) + b
  }

  lemma MulLe(a: real, b: real, c: real)
    requires a <= b && c >= 0.0
    ensures a * c <= b * c
  {
  }

  lemma QuotientBelow(l: real, d: real)
    requires l > 0.0 && d > 1.0
    ensures 0.0 < l / d < l
  {
    MulLe(1.0, d, l);
  }

  lemma QuotientAntitone(l: real, d: real, e: real)
    requires l >= 0.0 && 0.0 < d <= e
    ensures l / e <= l / d
  {
    MulLe(d, e, l / d);
    assert l / d * d == l;
  }

  /** With l > 0 the curve stays strictly between b and l + b. */
  lemma LogisticBounds(ops: Transcendentals, l: real, x0: real, k: real, b: real, x: real)
    requires Lawful(ops) && l > 0.0
    ensures b < Logistic(ops, l, x0, k, b, x) < l + b
  {
    QuotientBelow(l, 1.0 + ops.exp(-k * (x - x0)));
  }

  /** With l >= 0 and k >= 0 the curve does not decrease. */
  lemma LogisticMonotone(ops: Transcendentals, l: real, x0: real, k: real, b: real, x: real, y: real)
    requires Lawful(ops) && l >= 0.0 && k >= 0.0 && x <= y
    ensures Logistic(ops, l, x0, k, b, x) <= Logistic(ops, l, x0, k, b, y)
  {
    var u, v := -k * (x - x0), -k * (y - x0);
    MulLe(0.0, k, y - x);
    assert v + k * (y - x) == u;
    assert v <= u;
    assert ops.exp(v) <= ops.exp(u);
    QuotientAntitone(l, 1.0 + ops.exp(v), 1.0 + ops.exp(u));
  }

  /** calculate_mpDockQ: the curve fitted for complexes of more than two
      chains (L = 0.827, x0 = 261.398, k = 0.036, b = 0.221). */
  function MpDockQ(ops: Transcendentals, complexScore: real): (q: real)
    requires Lawful(ops)
    ensures 0.221 < q < 1.048
  {
    LogisticBounds(ops, 0.827, 261.398, 0.036, 0.221, complexScore);
    Logistic(ops, 0.827, 261.398, 0.036, 0.221, complexScore)
  }

  /** A higher complex score never lowers mpDockQ. */
  lemma MpDockQMonotone(ops: Transcendentals, s: real, s': real)
    requires Lawful(ops) && s <= s'
    ensures MpDockQ(ops, s) <= MpDockQ(ops, s')
  {
    LogisticMonotone(ops, 0.827, 261.398, 0.036, 0.221, s, s');
  }

  /** The curve of calc_pdockq (L = 0.724, x0 = 152.611, k = 0.052,
      b = 0.018). */
  function PDockQ(ops: Transcendentals, x: real): (q: real)
    requires Lawful(ops)
    ensures 0.018 < q < 0.742
  {
    LogisticBounds(ops, 0.724, 152.611, 0.052, 0.018, x);
    Logistic(ops, 0.724, 152.611, 0.052, 0.018, x)
  }

  /** A larger interface value never lowers pDockQ. */
  lemma PDockQMonotone(ops: Transcendentals, x: real, y: real)
    requires Lawful(ops) && x <= y
    ensures PDockQ(ops, x) <= PDockQ(ops, y)
  {
    LogisticMonotone(ops, 0.724, 152.611, 0.052, 0.018, x, y);
  }

  // calc_pdockq

  /** np.unique of the contacts' first column: all of them are rows of A,
      so Unique with bound |A| lists each once, in increasing order. A
      contact list that is not empty has at least one. */
  lemma InterfaceRowsNonEmpty(A: seq<Point>, B: seq<Point>, thr: real)
    requires |Contacts(A, B, thr)| > 0
    ensures |Unique(Firsts(Contacts(A, B, thr)), |A|)| > 0
  {
    var cs := Contacts(A, B, thr);
    var i := cs[0].0;
    assert Firsts(cs)[0] == i;
    assert i in Unique(Firsts(cs), |A|);
  }

  /** calc_pdockq for the two chains' representatives A and B and their
      B-factor arrays: 0 without contacts; otherwise the curve at the mean
      B-factor of the interface residues of both chains (each counted once)
      times log10 of the number of contacts; None for numpy's IndexError
      when an interface residue is past its B-factor array. */
  function PairPdockq(A: seq<Point>, B: seq<Point>, pa: seq<real>, pb: seq<real>, thr: real,
                      ops: Transcendentals): Option<real>
    requires Lawful(ops)
  {
    var cs := Contacts(A, B, thr);
    if |cs| < 1 then Some(0.0)
    else
      var ia, ib := Unique(Firsts(cs), |A|), Unique(Seconds(cs), |B|);
      if !IndicesBelow(ia, |pa|) || !IndicesBelow(ib, |pb|) then None
      else
        InterfaceRowsNonEmpty(A, B, thr);
        var avg := Mean(Gather(pa, ia) + Gather(pb, ib));
        Some(PDockQ(ops, avg * ops.log10(|cs| as real)))
  }

  /** calc_pdockq on read_pdb_pdockq's dictionaries: unpacking the keys
      into two names is a ValueError (None) unless there are exactly two
      chains. */
  function CalcPdockq(t: RepTable, thr: real, ops: Transcendentals): Option<real>
    requires RepWellFormed(t) && Lawful(ops)
  {
    if |t.order| != 2 then None
    else
      var c1, c2 := t.order[0], t.order[1];
      PairPdockq(t.coords[c1], t.coords[c2], t.plddt[c1], t.plddt[c2], thr, ops)
  }

  /** The contacts calc_pdockq counts: those between the first and the
      second chain. */
  function PairContactsOf(t: RepTable, thr: real): seq<(nat, nat)>
    requires RepWellFormed(t) && |t.order| == 2
  {
    Contacts(t.coords[t.order[0]], t.coords[t.order[1]], thr)
  }

  /** pDockQ is defined only for two chains, and is then 0 without
      contacts and strictly between 0.018 and 0.742 with them. */
  lemma PdockqRange(t: RepTable, thr: real, ops: Transcendentals)
    requires RepWellFormed(t) && Lawful(ops)
    requires CalcPdockq(t, thr, ops).Some?
    ensures |t.order| == 2
    ensures CalcPdockq(t, thr, ops).value == 0.0 <==> PairContactsOf(t, thr) == []
    ensures PairContactsOf(t, thr) != [] ==> 0.018 < CalcPdockq(t, thr, ops).value < 0.742
  {
  }

  /** On read_pdb_pdockq's own dictionaries with two chains calc_pdockq
      never raises: every chain has one B-factor per representative. */
  lemma PdockqDefinedOnReads(recs: seq<AtomRecord>, thr: real, ops: Transcendentals)
    requires Lawful(ops) && |BuildRep(recs).order| == 2
    ensures CalcPdockq(BuildRep(recs), thr, ops).Some?
  {
    var t := BuildRep(recs);
    var c1, c2 := t.order[0], t.order[1];
    RepLengths(recs, c1);
    RepLengths(recs, c2);
    var A, B := t.coords[c1], t.coords[c2];
    var cs := Contacts(A, B, thr);
    if |cs| >= 1 {
      assert IndicesBelow(Unique(Firsts(cs), |A|), |t.plddt[c1]|);
      assert IndicesBelow(Unique(Seconds(cs), |B|), |t.plddt[c2]|);
    }
  }

  // The reader's finding, seen by score_complex

  /** On the leaked-counter input of LeakedCounter, read_pdb's table makes
      score_complex raise an IndexError for any pLDDT arrays: chain A's
      representative index 2 is past A's two coordinates. The chain-local
      reader's table has A's representative in range. */
  lemma LeakedCounterCrashes(a0: AtomRecord, b0: AtomRecord, b1: AtomRecord, a1: AtomRecord,
                             pc: map<char, seq<real>>, ops: Transcendentals)
    requires a0.chain == a1.chain && b0.chain == b1.chain && a0.chain != b0.chain
    requires IsRepresentative(a1)
    ensures ScoreSpec(Build([a0, b0, b1, a1]).table, pc, ops) == None
    ensures a0.chain in CorrectedBuild([a0, b0, b1, a1]).order
    ensures RepCoords(CorrectedBuild([a0, b0, b1, a1]), a0.chain).Some?
  {
    var recs := [a0, b0, b1, a1];
    var t, a := Build(recs).table, a0.chain;
    LeakedCounter(a0, b0, b1, a1);
    assert a in t.order;
    var k :| 0 <= k < |t.order| && t.order[k] == a;
    assert !IndicesBelow(t.cbInds[a], |t.coords[a]|) by {
      assert t.cbInds[a][0] == 2;
    }
    assert !Ready(t, pc, t.order[k]);
    CorrectedRepsReady(recs, [], a);
  }

  /** With the chain-local reader every chain's representatives are among
      its coordinates, and read_plddt_per_chain gives every chain an array:
      score_complex can then fail only through a pLDDT array shorter than
      its chain's contacts need. */
  lemma CorrectedRepsReady(recs: seq<AtomRecord>, plddt: seq<real>, c: char)
    requires c in CorrectedBuild(recs).order
    ensures RepCoords(CorrectedBuild(recs), c).Some?
    ensures Ready(CorrectedBuild(recs), PlddtPerChain(plddt, CorrectedBuild(recs)), c)
  {
    var t := CorrectedBuild(recs);
    CorrectedIndicesValid(recs, c);
    PerChainKeys(t.order, Slices(plddt, ChainLengths(t)), c);
  }

  lemma CorrectedAllReady(recs: seq<AtomRecord>, plddt: seq<real>)
    ensures AllReady(CorrectedBuild(recs), PlddtPerChain(plddt, CorrectedBuild(recs)))
  {
    var t := CorrectedBuild(recs);
    forall k | 0 <= k < |t.order| ensures Ready(t, PlddtPerChain(plddt, t), t.order[k]) {
      CorrectedRepsReady(recs, plddt, t.order[k]);
    }
  }

  // main's choice

  /** The DockQ estimate main records for one complex. */
  datatype Quality = MultimerDockQ(mpDockQ: real) | PairDockQ(pDockQ: real)

  /** One turn of main's loop on a complex's structure file and its flat
      pLDDT array: read the chains with the given counter (AsWritten is
      main as written), split the pLDDT, score the complex; with more than
      two chains the result is mpDockQ of the score, with two chains the
      file is read again for calc_pdockq at threshold 8; None where the
      turn raises (a malformed line, score_complex's IndexError,
      calc_pdockq's ValueError or IndexError, and np.round of None for
      fewer than two chains). */
  function Assess(rd: Reader, lines: seq<string>, plddt: seq<real>, nums: Numerals, ops: Transcendentals): Option<Quality>
    requires Lawful(ops)
  {
    match ReadPdbWith(rd, lines, nums)
    case Failure(_) => None
    case Success(t) =>
      match ScoreSpec(t, PlddtPerChain(plddt, t), ops)
      case None => None
      case Some(score) =>
        if |t.order| > 2 then Some(MultimerDockQ(MpDockQ(ops, score)))
        else if |t.order| == 2 then
          match ReadPdbPdockqSpec(lines, nums)
          case Failure(_) => None
          case Success(rt) =>
            match CalcPdockq(rt, 8.0, ops)
            case None => None
            case Some(q) => Some(PairDockQ(q))
        else None
  }

  /** A recorded estimate comes from a file that reads and has at least two
      chains; it is mpDockQ exactly when there are more than two. The
      other reader reads the same file and finds the same chains. */
  lemma AssessKinds(rd: Reader, lines: seq<string>, plddt: seq<real>, nums: Numerals, ops: Transcendentals)
    requires Lawful(ops) && Assess(rd, lines, plddt, nums, ops).Some?
    ensures ReadPdbSpec(lines, nums).Success? && CorrectedReadPdbSpec(lines, nums).Success?
    ensures ReadPdbSpec(lines, nums).value.order == CorrectedReadPdbSpec(lines, nums).value.order
    ensures |ReadPdbWith(rd, lines, nums).value.order| >= 2
    ensures Assess(rd, lines, plddt, nums, ops).value.MultimerDockQ?
      <==> |ReadPdbWith(rd, lines, nums).value.order| > 2
  {
    ReadersSameShape(lines, nums);
  }

  /** mpDockQ lies strictly between 0.221 and 1.048; pDockQ is 0 or lies
      strictly between 0.018 and 0.742. */
  lemma AssessBounds(rd: Reader, lines: seq<string>, plddt: seq<real>, nums: Numerals, ops: Transcendentals)
    requires Lawful(ops) && Assess(rd, lines, plddt, nums, ops).Some?
    ensures match Assess(rd, lines, plddt, nums, ops).value
      case MultimerDockQ(q) => 0.221 < q < 1.048
      case PairDockQ(q) => q == 0.0 || 0.018 < q < 0.742
  {
    var t := ReadPdbWith(rd, lines, nums).value;
    if |t.order| == 2 {
      var rt := ReadPdbPdockqSpec(lines, nums).value;
      PdockqRange(rt, 8.0, ops);
    }
  }

  /** On a file with contiguous chains main as written and the chain-local
      reader record the same estimate, or both raise. */
  lemma AssessAgree(lines: seq<string>, plddt: seq<real>, nums: Numerals, ops: Transcendentals)
    requires Lawful(ops) && ContiguousFile(lines, nums)
    ensures Assess(AsWritten, lines, plddt, nums, ops) == Assess(ChainLocal, lines, plddt, nums, ops)
  {
    ContiguousFileReadsAgree(lines, nums);
  }

  /** The chain-local reader's tables, and read_pdb's on a file with
      contiguous chains, are ready for the loop: the complex score exists
      unless a pLDDT array is too short for a contact, and then a complex
      of more than two chains gets mpDockQ of it. */
  lemma AssessMultimer(rd: Reader, lines: seq<string>, plddt: seq<real>, nums: Numerals, ops: Transcendentals)
    requires Lawful(ops) && ReadPdbWith(rd, lines, nums).Success?
    requires rd.AsWritten? ==> ContiguousFile(lines, nums)
    requires |ReadPdbWith(rd, lines, nums).value.order| > 2
    ensures var t := ReadPdbWith(rd, lines, nums).value;
      AllReady(t, PlddtPerChain(plddt, t))
      && Assess(rd, lines, plddt, nums, ops) == match ScoreSpec(t, PlddtPerChain(plddt, t), ops)
        case None => None
        case Some(score) => Some(MultimerDockQ(MpDockQ(ops, score)))
  {
    if rd.AsWritten? {
      ContiguousFileReadsAgree(lines, nums);
    }
    var recs := ParseLines(lines, Parser(nums), HasAtom).value;
    CorrectedAllReady(recs, plddt);
  }

  /** An mpDockQ that main records is the curve at the complex score. */
  lemma MultimerScore(rd: Reader, lines: seq<string>, plddt: seq<real>, nums: Numerals, ops: Transcendentals)
    requires Lawful(ops) && Assess(rd, lines, plddt, nums, ops).Some?
    requires Assess(rd, lines, plddt, nums, ops).value.MultimerDockQ?
    ensures var t := ReadPdbWith(rd, lines, nums).value;
      && ScoreSpec(t, PlddtPerChain(plddt, t), ops).Some?
      && Assess(rd, lines, plddt, nums, ops).value.mpDockQ == MpDockQ(ops, ScoreSpec(t, PlddtPerChain(plddt, t), ops).value)
  {
  }

  /** For a complex with a score at most another's, both of more than two
      chains, main records an mpDockQ at most the other's. */
  lemma AssessMultimerMonotone(rd: Reader, lines: seq<string>, plddt: seq<real>, lines': seq<string>, plddt': seq<real>,
                               nums: Numerals, ops: Transcendentals)
    requires Lawful(ops)
    requires Assess(rd, lines, plddt, nums, ops).Some? && Assess(rd, lines', plddt', nums, ops).Some?
    requires Assess(rd, lines, plddt, nums, ops).value.MultimerDockQ?
    requires Assess(rd, lines', plddt', nums, ops).value.MultimerDockQ?
    requires var t, t' := ReadPdbWith(rd, lines, nums).value, ReadPdbWith(rd, lines', nums).value;
      ScoreSpec(t, PlddtPerChain(plddt, t), ops).Some? && ScoreSpec(t', PlddtPerChain(plddt', t'), ops).Some?
      && ScoreSpec(t, PlddtPerChain(plddt, t), ops).value <= ScoreSpec(t', PlddtPerChain(plddt', t'), ops).value
    ensures Assess(rd, lines, plddt, nums, ops).value.mpDockQ <= Assess(rd, lines', plddt', nums, ops).value.mpDockQ
  {
    var t, t' := ReadPdbWith(rd, lines, nums).value, ReadPdbWith(rd, lines', nums).value;
    var s, s' := ScoreSpec(t, PlddtPerChain(plddt, t), ops), ScoreSpec(t', PlddtPerChain(plddt', t'), ops);
    MultimerScore(rd, lines, plddt, nums, ops);
    MultimerScore(rd, lines', plddt', nums, ops);
    MpDockQMonotone(ops, s.value, s'.value);
  }

  /** For two chains the second read, with read_pdb_pdockq, cannot fail
      where the first succeeded (it parses a subset of the same lines), and
      main records calc_pdockq at threshold 8 on its dictionaries, which is
      defined whenever both chains have a representative. */
  lemma AssessPair(rd: Reader, lines: seq<string>, plddt: seq<real>, nums: Numerals, ops: Transcendentals)
    requires Lawful(ops) && ReadPdbWith(rd, lines, nums).Success?
    requires var t := ReadPdbWith(rd, lines, nums).value;
      |t.order| == 2 && ScoreSpec(t, PlddtPerChain(plddt, t), ops).Some?
    ensures ReadPdbPdockqSpec(lines, nums).Success?
    ensures var rt := ReadPdbPdockqSpec(lines, nums).value;
      && Assess(rd, lines, plddt, nums, ops) == (match CalcPdockq(rt, 8.0, ops)
        case None => None
        case Some(q) => Some(PairDockQ(q)))
      && (|rt.order| == 2 ==> Assess(rd, lines, plddt, nums, ops).Some?)
  {
    ReadersSameShape(lines, nums);
    PdockqReadSucceeds(lines, nums);
    var t := ReadPdbWith(rd, lines, nums).value;
    var rt := ReadPdbPdockqSpec(lines, nums).value;
    assert Assess(rd, lines, plddt, nums, ops) == (match CalcPdockq(rt, 8.0, ops)
        case None => None
        case Some(q) => Some(PairDockQ(q)));
    var recs := ParseLines(lines, Parser(nums), StartsWithAtom).value;
    if |BuildRep(recs).order| == 2 {
      PdockqDefinedOnReads(recs, 8.0, ops);
    }
  }

  // main's loop

  /** One complex as main's loop sees it: its id, its structure file's
      lines, and what its scores file gives (the flat pLDDT array, its
      average, and pTM and ipTM, None where the file has no such key). */
  datatype Complex = Complex(id: string, lines: seq<string>, plddt: seq<real>, plddtAvg: real,
                             ptm: Option<real>, iptm: Option<real>)

  /** One row of the scores table. */
  datatype Row = Row(id: string, plddtAvg: real, ptm: Option<real>, iptm: Option<real>, dockq: Quality)

  function RowOf(c: Complex, q: Quality): Row {
    Row(c.id, c.plddtAvg, c.ptm, c.iptm, q)
  }
  /** The rows main collects from the complexes and their turns' outcomes,
      in order; None once a turn raises, since the exception ends main. */
  function Collect(cs: seq<Complex>, qs: seq<Option<Quality>>): Option<seq<Row>>
    requires |cs| == |qs|
  {
    if cs == [] then Some([])
    else
      var n := |cs| - 1;
      match Collect(cs[..n], qs[..n])
      case None => None
      case Some(rows) =>
        match qs[n]
        case None => None
        case Some(q) => Some(rows + [RowOf(cs[n], q)])
  }

  /** Each complex's turn, in order. */
  function Outcomes(rd: Reader, cs: seq<Complex>, nums: Numerals, ops: Transcendentals): (qs: seq<Option<Quality>>)
    requires Lawful(ops)
  {
    seq(|cs|, k requires 0 <= k < |cs| => Assess(rd, cs[k].lines, cs[k].plddt, nums, ops))
  }

  function AssessAll(rd: Reader, cs: seq<Complex>, nums: Numerals, ops: Transcendentals): Option<seq<Row>>
    requires Lawful(ops)
  {
    Collect(cs, Outcomes(rd, cs, nums, ops))
  }

  /** One more complex's outcome extends the run, or ends it. */
  lemma CollectStep(cs: seq<Complex>, qs: seq<Option<Quality>>, i: nat)
    requires |cs| == |qs| && i < |cs|
    ensures Collect(cs[..i + 1], qs[..i + 1]) ==
      match Collect(cs[..i], qs[..i])
      case None => None
      case Some(rows) => if qs[i].None? then None else Some(rows + [RowOf(cs[i], qs[i].value)])
  {
    assert cs[..i + 1][..i] == cs[..i] && qs[..i + 1][..i] == qs[..i];
  }

  /** main's loop over the complexes, appending one row per complex; with
      AsWritten it is main as written. */
  method ScoreComplexes(rd: Reader, cs: seq<Complex>, nums: Numerals, ops: Transcendentals) returns (rows: Option<seq<Row>>)
    requires Lawful(ops)
    ensures rows == AssessAll(rd, cs, nums, ops)
  {
    var acc: seq<Row> := [];
    ghost var qs := Outcomes(rd, cs, nums, ops);
    var i := 0;
    while i < |cs|
      invariant 0 <= i <= |cs|
      invariant Collect(cs[..i], qs[..i]) == Some(acc)
    {
      var q := Assess(rd, cs[i].lines, cs[i].plddt, nums, ops);
      CollectStep(cs, qs, i);
      if q.None? {
        StaysFailed(cs, qs, i + 1);
        return None;
      }
      acc := acc + [RowOf(cs[i], q.value)];
      i := i + 1;
    }
    assert cs[..i] == cs && qs[..i] == qs;
    rows := Some(acc);
  }

  /** A prefix that raises makes the whole run raise. */
  lemma {:induction false} StaysFailed(cs: seq<Complex>, qs: seq<Option<Quality>>, i: nat)
    requires |cs| == |qs| && i <= |cs| && Collect(cs[..i], qs[..i]) == None
    ensures Collect(cs, qs) == None
  {
    if i < |cs| {
      var n := |cs| - 1;
      assert cs[..n][..i] == cs[..i] && qs[..n][..i] == qs[..i];
      StaysFailed(cs[..n], qs[..n], i);
    } else {
      assert cs[..i] == cs && qs[..i] == qs;
    }
  }

  /** A run that finishes has one row per complex, built from its outcome. */
  lemma {:induction false} CollectRows(cs: seq<Complex>, qs: seq<Option<Quality>>, k: nat)
    requires |cs| == |qs| && Collect(cs, qs).Some? && k < |cs|
    ensures |Collect(cs, qs).value| == |cs|
    ensures qs[k].Some? && Collect(cs, qs).value[k] == RowOf(cs[k], qs[k].value)
  {
    var n := |cs| - 1;
    if k < n {
      CollectRows(cs[..n], qs[..n], k);
      assert cs[..n][k] == cs[k] && qs[..n][k] == qs[k];
    } else if n > 0 {
      CollectRows(cs[..n], qs[..n], 0);
    }
  }

  /** A run raises exactly when some outcome is None. */
  lemma {:induction false} CollectFails(cs: seq<Complex>, qs: seq<Option<Quality>>)
    requires |cs| == |qs|
    ensures Collect(cs, qs) == None <==> exists k :: 0 <= k < |qs| && qs[k] == None
  {
    if cs != [] {
      var n := |cs| - 1;
      CollectFails(cs[..n], qs[..n]);
      if exists k :: 0 <= k < n && qs[..n][k] == None {
        var k :| 0 <= k < n && qs[..n][k] == None;
        assert qs[k] == None;
      }
      if exists k :: 0 <= k < |qs| && qs[k] == None {
        var k :| 0 <= k < |qs| && qs[k] == None;
        if k < n {
          assert qs[..n][k] == None;
        }
      }
    }
  }

  /** When main finishes, it has one row per complex, in order: the
      complex's id and JSON scores with its DockQ estimate. */
  lemma AssessAllRows(rd: Reader, cs: seq<Complex>, nums: Numerals, ops: Transcendentals, k: nat)
    requires Lawful(ops) && AssessAll(rd, cs, nums, ops).Some? && k < |cs|
    ensures |AssessAll(rd, cs, nums, ops).value| == |cs|
    ensures Assess(rd, cs[k].lines, cs[k].plddt, nums, ops).Some?
    ensures AssessAll(rd, cs, nums, ops).value[k] == RowOf(cs[k], Assess(rd, cs[k].lines, cs[k].plddt, nums, ops).value)
  {
    CollectRows(cs, Outcomes(rd, cs, nums, ops), k);
  }

  /** main raises exactly when some complex's turn raises. */
  lemma AssessAllFails(rd: Reader, cs: seq<Complex>, nums: Numerals, ops: Transcendentals)
    requires Lawful(ops)
    ensures AssessAll(rd, cs, nums, ops) == None
      <==> exists k :: 0 <= k < |cs| && Assess(rd, cs[k].lines, cs[k].plddt, nums, ops) == None
  {
    var qs := Outcomes(rd, cs, nums, ops);
    CollectFails(cs, qs);
    assert forall k :: 0 <= k < |cs| ==> qs[k] == Assess(rd, cs[k].lines, cs[k].plddt, nums, ops);
  }

  /** When every structure file keeps its chains contiguous, main as
      written produces the same table as with chain-local indices. */
  lemma AssessAllAgree(cs: seq<Complex>, nums: Numerals, ops: Transcendentals)
    requires Lawful(ops)
    requires forall k :: 0 <= k < |cs| ==> ContiguousFile(cs[k].lines, nums)
    ensures AssessAll(AsWritten, cs, nums, ops) == AssessAll(ChainLocal, cs, nums, ops)
  {
    var qs, qs' := Outcomes(AsWritten, cs, nums, ops), Outcomes(ChainLocal, cs, nums, ops);
    forall k | 0 <= k < |cs| ensures qs[k] == qs'[k] {
      AssessAgree(cs[k].lines, cs[k].plddt, nums, ops);
    }
    assert qs == qs';
  }
}
