/** Splitting the flat per-residue confidence array of a predicted complex
    into per-chain arrays: chain k, in key order, gets the next run of as
    many entries as it has CA atoms. */
module Plddt {
  import opened Seqs
  import opened Pdb

  /** The number of CA indices of each of the first n chains, in key order:
      the values of read_plddt_per_chain's chain_lengths dictionary. */
  function CALengths(t: ChainTable, n: nat): (lens: seq<nat>)
    requires Keyed(t) && n <= |t.order|
    ensures |lens| == n
  {
    if n == 0 then [] else CALengths(t, n - 1) + [|t.caInds[t.order[n - 1]]|]
  }

  function ChainLengths(t: ChainTable): seq<nat>
    requires Keyed(t)
  {
    CALengths(t, |t.order|)
  }

  /** Entry k is chain k's CA count. */
  lemma {:induction false} CALengthsAt(t: ChainTable, n: nat, k: nat)
    requires Keyed(t) && n <= |t.order| && k < n
    ensures CALengths(t, n)[k] == |t.caInds[t.order[k]]|
  {
    if k < n - 1 {
      CALengthsAt(t, n - 1, k);
    }
  }

  function Total(lens: seq<nat>): nat {
    if lens == [] then 0 else Total(lens[..|lens| - 1]) + lens[|lens| - 1]
  }

  /** The consecutive runs of the given lengths from the start of plddt,
      each clipped at the end of the array as a numpy slice is. */
  function Slices(plddt: seq<real>, lens: seq<nat>): (ss: seq<seq<real>>)
    ensures |ss| == |lens|
  {
    if lens == [] then []
    else
      var n := |lens| - 1;
      var start := Total(lens[..n]);
      Slices(plddt, lens[..n]) + [PySlice(plddt, start, start + lens[n])]
  }

  function Flatten(ss: seq<seq<real>>): seq<real> {
    if ss == [] then [] else Flatten(ss[..|ss| - 1]) + ss[|ss| - 1]
  }

  /** The dictionary that maps each key to its slice; a later key with the
      same name would overwrite an earlier one. */
  function PerChain(order: seq<char>, ss: seq<seq<real>>): map<char, seq<real>>
    requires |order| == |ss|
  {
    if order == [] then map[]
    else
      var n := |order| - 1;
      PerChain(order[..n], ss[..n])[order[n] := ss[n]]
  }

  lemma TotalStep(lens: seq<nat>, i: nat)
    requires i < |lens|
    ensures Total(lens[..i + 1]) == Total(lens[..i]) + lens[i]
  {
    assert lens[..i + 1][..i] == lens[..i];
  }

  /** Slice k starts where the earlier chains' runs end and runs for chain
      k's CA count, clipped at the end of the array. */
  lemma {:induction false} SlicesAt(plddt: seq<real>, lens: seq<nat>, k: nat)
    requires k < |lens|
    ensures Slices(plddt, lens)[k] == PySlice(plddt, Total(lens[..k]), Total(lens[..k]) + lens[k])
  {
    var n := |lens| - 1;
    if k < n {
      assert lens[..n][..k] == lens[..k];
      SlicesAt(plddt, lens[..n], k);
    }
  }

  lemma RunAt(plddt: seq<real>, lens: seq<nat>, i: nat, offset: nat)
    requires i < |lens| && offset == Total(lens[..i])
    ensures Slices(plddt, lens)[i] == PySlice(plddt, offset, offset + lens[i])
  {
    SlicesAt(plddt, lens, i);
  }

  /** Joined in order the slices give back the start of the array: as many
      entries as the chains have CA atoms, or all of it if there are fewer. */
  lemma {:induction false} SlicesCover(plddt: seq<real>, lens: seq<nat>)
    ensures Flatten(Slices(plddt, lens)) == plddt[..Min(Total(lens), |plddt|)]
  {
    if lens != [] {
      var n := |lens| - 1;
      var a := Total(lens[..n]);
      SlicesCover(plddt, lens[..n]);
      var ss := Slices(plddt, lens);
      assert ss[..n] == Slices(plddt, lens[..n]);
      assert plddt[..Min(a, |plddt|)] + PySlice(plddt, a, a + lens[n]) == plddt[..Min(a + lens[n], |plddt|)];
    }
  }

  /** The dictionary's keys are exactly the chain ids. */
  lemma {:induction false} PerChainKeys(order: seq<char>, ss: seq<seq<real>>, c: char)
    requires |order| == |ss|
    ensures c in PerChain(order, ss) <==> c in order
  {
    if order != [] {
      var n := |order| - 1;
      PerChainKeys(order[..n], ss[..n], c);
      assert order == order[..n] + [order[n]];
    }
  }

  lemma PerChainStep(order: seq<char>, ss: seq<seq<real>>, i: nat)
    requires |order| == |ss| && i < |order|
    ensures PerChain(order[..i + 1], ss[..i + 1]) == PerChain(order[..i], ss[..i])[order[i] := ss[i]]
  {
    assert order[..i + 1][..i] == order[..i] && ss[..i + 1][..i] == ss[..i];
  }

  /** With distinct keys each chain's entry is its own slice. */
  lemma {:induction false} PerChainAt(order: seq<char>, ss: seq<seq<real>>, k: nat)
    requires |order| == |ss| && Distinct(order) && k < |order|
    ensures order[k] in PerChain(order, ss) && PerChain(order, ss)[order[k]] == ss[k]
  {
    var n := |order| - 1;
    var m := PerChain(order[..n], ss[..n]);
    assert PerChain(order, ss) == m[order[n] := ss[n]];
    if k < n {
      assert Distinct(order[..n]) by {
        forall a, b | 0 <= a < b < n ensures order[..n][a] != order[..n][b] {
          assert order[..n][a] == order[a] && order[..n][b] == order[b];
        }
      }
      PerChainAt(order[..n], ss[..n], k);
      assert order[..n][k] == order[k] && ss[..n][k] == ss[k];
      assert order[n] != order[k];
    }
  }

  /** read_plddt_per_chain on the chain table's CA indices. */
  function PlddtPerChain(plddt: seq<real>, t: ChainTable): map<char, seq<real>>
    requires WellFormed(t)
  {
    PerChain(t.order, Slices(plddt, ChainLengths(t)))
  }

  /** read_plddt_per_chain: the first loop counts each chain's CA indices,
      the second (SliceRuns) cuts the array with a running offset. */
  method ReadPlddtPerChain(plddt: seq<real>, t: ChainTable) returns (perChain: map<char, seq<real>>)
    requires WellFormed(t)
    ensures perChain == PlddtPerChain(plddt, t)
  {
    var lens: seq<nat> := [];
    var i := 0;
    while i < |t.order|
      invariant 0 <= i <= |t.order|
      invariant lens == CALengths(t, i)
    {
      lens := lens + [|t.caInds[t.order[i]]|];
      i := i + 1;
    }
    perChain := SliceRuns(plddt, t.order, lens);
  }

  /** The second loop of read_plddt_per_chain: chain order[i] gets the run
      of lens[i] entries that starts at the running offset. */
  method SliceRuns(plddt: seq<real>, order: seq<char>, lens: seq<nat>) returns (perChain: map<char, seq<real>>)
    requires |order| == |lens|
    ensures perChain == PerChain(order, Slices(plddt, lens))
  {
    ghost var ss := Slices(plddt, lens);
    perChain := map[];
    var currLen: nat := 0;
    var i := 0;
    while i < |lens|
      invariant 0 <= i <= |lens|
      invariant currLen == Total(lens[..i])
      invariant perChain == PerChain(order[..i], ss[..i])
    {
      PerChainStep(order, ss, i);
      RunAt(plddt, lens, i, currLen);
      TotalStep(lens, i);
      perChain := perChain[order[i] := PySlice(plddt, currLen, currLen + lens[i])];
      currLen := currLen + lens[i];
      i := i + 1;
    }
    assert ss[..i] == ss && order[..i] == order;
  }

  /** The number of CA atoms of the chains before chain k in key order. */
  function CAsBefore(t: ChainTable, k: nat): nat
    requires WellFormed(t) && k <= |t.order|
  {
    Total(ChainLengths(t)[..k])
  }

  /** With distinct keys, key k's entry is the run of lens[k] entries that
      starts after the runs of the keys before it. */
  lemma RunOfKey(plddt: seq<real>, order: seq<char>, lens: seq<nat>, k: nat)
    requires |order| == |lens| && Distinct(order) && k < |order|
    ensures order[k] in PerChain(order, Slices(plddt, lens))
    ensures PerChain(order, Slices(plddt, lens))[order[k]]
      == PySlice(plddt, Total(lens[..k]), Total(lens[..k]) + lens[k])
  {
    PerChainAt(order, Slices(plddt, lens), k);
    SlicesAt(plddt, lens, k);
  }

  /** Chain k's pLDDT array is the run of the flat array that starts after
      the earlier chains' CA atoms and is as long as chain k's CA count
      (CALengthsAt), clipped at the end of the array. */
  lemma PlddtOfChain(plddt: seq<real>, t: ChainTable, k: nat)
    requires WellFormed(t) && k < |t.order|
    ensures t.order[k] in PlddtPerChain(plddt, t)
    ensures PlddtPerChain(plddt, t)[t.order[k]]
      == PySlice(plddt, CAsBefore(t, k), CAsBefore(t, k) + ChainLengths(t)[k])
  {
    var lens := ChainLengths(t);
    assert PlddtPerChain(plddt, t) == PerChain(t.order, Slices(plddt, lens));
    assert CAsBefore(t, k) == Total(lens[..k]);
    RunOfKey(plddt, t.order, lens, k);
  }
}
