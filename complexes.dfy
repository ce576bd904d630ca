/** Pairing each complex's structure file with its scores file: the join
    part of load_protein_complex_files. The directory listing and the two
    file-name patterns are not modelled; the input is the sequence of
    files whose name matched a pattern, in listing order, each with the
    complex id the pattern captured. */
module Complexes {
  import opened Wrappers
  import opened Seqs

  /** Which rank-1 pattern a file name matched. */
  datatype Kind = PdbFile | ScoresFile

  /** A file whose name matched: the captured complex id, the pattern and
      the file's path. */
  datatype Match = Match(id: string, kind: Kind, path: string)

  /** One entry of id_to_files: the path stored under 'pdb' and under
      'scores', if any. */
  datatype Slots = Slots(pdb: Option<string>, scores: Option<string>)

  const NoSlots := Slots(None, None)

  /** Storing a matched file overwrites the entry's slot for its kind. */
  function Fill(s: Slots, m: Match): Slots {
    match m.kind
    case PdbFile => s.(pdb := Some(m.path))
    case ScoresFile => s.(scores := Some(m.path))
  }

  /** id_to_files: its keys in insertion order and its entries. */
  datatype Index = Index(keys: seq<string>, slots: map<string, Slots>)

  ghost predicate IndexKeyed(ix: Index) {
    forall c :: c in ix.slots <==> c in ix.keys
  }

  /** id_to_files after the first loop over the matches. */
  function Indexed(ms: seq<Match>): (ix: Index)
    ensures IndexKeyed(ix)
  {
    if ms == [] then Index([], map[])
    else
      var ix, m := Indexed(ms[..|ms| - 1]), ms[|ms| - 1];
      if m.id in ix.slots then Index(ix.keys, ix.slots[m.id := Fill(ix.slots[m.id], m)])
      else Index(ix.keys + [m.id], ix.slots[m.id := Fill(NoSlots, m)])
  }

  /** The captured ids in listing order. */
  function Ids(ms: seq<Match>): (ids: seq<string>)
    ensures |ids| == |ms|
  {
    if ms == [] then [] else Ids(ms[..|ms| - 1]) + [ms[|ms| - 1].id]
  }

  /** The reference: the path of the last file listed with this id and
      kind. */
  function LastPath(ms: seq<Match>, id: string, kind: Kind): Option<string> {
    if ms == [] then None
    else
      var m := ms[|ms| - 1];
      if m.id == id && m.kind == kind then Some(m.path) else LastPath(ms[..|ms| - 1], id, kind)
  }

  /** The second loop: the keys, in order, whose entry has both paths. */
  function JoinKeys(keys: seq<string>, slots: map<string, Slots>): (out: seq<(string, string, string)>)
    requires forall k :: 0 <= k < |keys| ==> keys[k] in slots
  {
    if keys == [] then []
    else
      var n := |keys| - 1;
      var d := slots[keys[n]];
      JoinKeys(keys[..n], slots)
        + (if d.pdb.Some? && d.scores.Some? then [(keys[n], d.pdb.value, d.scores.value)] else [])
  }

  /** load_protein_complex_files' result on the matched files. */
  function Join(ms: seq<Match>): seq<(string, string, string)> {
    var ix := Indexed(ms);
    JoinKeys(ix.keys, ix.slots)
  }

  /** load_protein_complex_files after the directory listing: the first
      loop fills id_to_files, the second keeps the ids with both files and
      skips the others. */
  method LoadComplexFiles(ms: seq<Match>) returns (output: seq<(string, string, string)>)
    ensures output == Join(ms)
  {
    var keys: seq<string> := [];
    var slots: map<string, Slots> := map[];
    for i := 0 to |ms|
      invariant Index(keys, slots) == Indexed(ms[..i])
    {
      assert ms[..i + 1][..i] == ms[..i];
      var m := ms[i];
      var d := if m.id in slots then slots[m.id] else NoSlots;
      if m.id !in slots {
        keys := keys + [m.id];
      }
      slots := slots[m.id := Fill(d, m)];
    }
    assert ms[..|ms|] == ms;
    assert forall k :: 0 <= k < |keys| ==> keys[k] in slots;
    output := [];
    for i := 0 to |keys|
      invariant output == JoinKeys(keys[..i], slots)
    {
      assert keys[..i + 1][..i] == keys[..i];
      var d := slots[keys[i]];
      if d.pdb.None? {
        // no structure file: skipped
      } else if d.scores.None? {
        // no scores file: skipped
      } else {
        output := output + [(keys[i], d.pdb.value, d.scores.value)];
      }
    }
    assert keys[..|keys|] == keys;
  }

  // The partner properties

  /** The keys are the captured ids in first-seen order. */
  lemma {:induction false} IndexedKeys(ms: seq<Match>)
    ensures Indexed(ms).keys == FirstSeen(Ids(ms))
  {
    if ms != [] {
      var p, m := ms[..|ms| - 1], ms[|ms| - 1];
      IndexedKeys(p);
      FirstSeenMembers(Ids(p), m.id);
      FirstSeenSnoc(Ids(p), m.id);
    }
  }

  /** Each entry holds the last path of each kind listed under its id. */
  lemma {:induction false} IndexedSlots(ms: seq<Match>, id: string)
    requires id in Indexed(ms).slots
    ensures Indexed(ms).slots[id] == Slots(LastPath(ms, id, PdbFile), LastPath(ms, id, ScoresFile))
  {
    var p, m := ms[..|ms| - 1], ms[|ms| - 1];
    if id in Indexed(p).slots {
      IndexedSlots(p, id);
    } else {
      assert m.id == id;
      NoPathUnlisted(p, id, PdbFile);
      NoPathUnlisted(p, id, ScoresFile);
    }
  }

  /** An id with no entry has no file of either kind. */
  lemma {:induction false} NoPathUnlisted(ms: seq<Match>, id: string, kind: Kind)
    requires id !in Indexed(ms).slots
    ensures LastPath(ms, id, kind) == None
  {
    if ms != [] {
      NoPathUnlisted(ms[..|ms| - 1], id, kind);
    }
  }

  lemma {:induction false} JoinKeysExactly(keys: seq<string>, slots: map<string, Slots>, id: string, pdb: string, scores: string)
    requires forall k :: 0 <= k < |keys| ==> keys[k] in slots
    ensures (id, pdb, scores) in JoinKeys(keys, slots)
      <==> id in keys && slots[id] == Slots(Some(pdb), Some(scores))
  {
    if keys != [] {
      var n := |keys| - 1;
      JoinKeysExactly(keys[..n], slots, id, pdb, scores);
      assert keys == keys[..n] + [keys[n]];
    }
  }

  /** An id is returned with paths p and s exactly when p is the last
      structure file and s the last scores file listed under it; ids that
      lack either are skipped. */
  lemma JoinExactly(ms: seq<Match>, id: string, pdb: string, scores: string)
    ensures (id, pdb, scores) in Join(ms)
      <==> LastPath(ms, id, PdbFile) == Some(pdb) && LastPath(ms, id, ScoresFile) == Some(scores)
  {
    var ix := Indexed(ms);
    JoinKeysExactly(ix.keys, ix.slots, id, pdb, scores);
    if id in ix.slots {
      IndexedSlots(ms, id);
    } else {
      NoPathUnlisted(ms, id, PdbFile);
    }
  }

  lemma {:induction false} JoinKeysOrder(keys: seq<string>, slots: map<string, Slots>)
    requires Distinct(keys) && forall k :: 0 <= k < |keys| ==> keys[k] in slots
    ensures forall k :: 0 <= k < |JoinKeys(keys, slots)| ==> JoinKeys(keys, slots)[k].0 in keys
    ensures forall a, b :: 0 <= a < b < |JoinKeys(keys, slots)| ==>
      FirstIndex(keys, JoinKeys(keys, slots)[a].0) < FirstIndex(keys, JoinKeys(keys, slots)[b].0)
  {
    if keys != [] {
      var n := |keys| - 1;
      var prev, out := JoinKeys(keys[..n], slots), JoinKeys(keys, slots);
      assert Distinct(keys[..n]) by {
        forall a, b | 0 <= a < b < n ensures keys[..n][a] != keys[..n][b] {
          assert keys[..n][a] == keys[a] && keys[..n][b] == keys[b];
        }
      }
      JoinKeysOrder(keys[..n], slots);
      assert keys == keys[..n] + [keys[n]];
      forall k | 0 <= k < |prev| ensures out[k] == prev[k] && prev[k].0 in keys[..n]
        && FirstIndex(keys, prev[k].0) == FirstIndex(keys[..n], prev[k].0) < n
      {
        FirstIndexOfPrefix(keys[..n], keys[n], prev[k].0);
      }
      if |out| > |prev| {
        assert out[|prev|].0 == keys[n];
        assert keys[n] !in keys[..n];
        assert FirstIndex(keys, keys[n]) == n;
      }
    }
  }

  /** Rows ordered by position among the first-seen keys are ordered by
      first occurrence among the ids themselves. */
  lemma OrderedByFirstSeen(ids: seq<string>, out: seq<(string, string, string)>)
    requires forall k :: 0 <= k < |out| ==> out[k].0 in FirstSeen(ids)
    requires forall a, b :: 0 <= a < b < |out| ==>
      FirstIndex(FirstSeen(ids), out[a].0) < FirstIndex(FirstSeen(ids), out[b].0)
    ensures forall k :: 0 <= k < |out| ==> out[k].0 in ids
    ensures forall a, b :: 0 <= a < b < |out| ==> FirstIndex(ids, out[a].0) < FirstIndex(ids, out[b].0)
  {
    var r := FirstSeen(ids);
    FirstSeenOrder(ids);
    forall k | 0 <= k < |out| ensures out[k].0 in ids {
      FirstSeenMembers(ids, out[k].0);
    }
    forall a, b | 0 <= a < b < |out| ensures FirstIndex(ids, out[a].0) < FirstIndex(ids, out[b].0) {
      var i, j := FirstIndex(r, out[a].0), FirstIndex(r, out[b].0);
      assert r[i] == out[a].0 && r[j] == out[b].0;
    }
  }

  /** The returned ids come in the order of their first listing, so none
      is returned twice. */
  lemma JoinOrder(ms: seq<Match>)
    ensures forall k :: 0 <= k < |Join(ms)| ==> Join(ms)[k].0 in Ids(ms)
    ensures forall a, b :: 0 <= a < b < |Join(ms)| ==>
      FirstIndex(Ids(ms), Join(ms)[a].0) < FirstIndex(Ids(ms), Join(ms)[b].0)
    ensures forall a, b :: 0 <= a < b < |Join(ms)| ==> Join(ms)[a].0 != Join(ms)[b].0
  {
    var ix := Indexed(ms);
    IndexedKeys(ms);
    JoinKeysOrder(ix.keys, ix.slots);
    OrderedByFirstSeen(Ids(ms), Join(ms));
  }
}
