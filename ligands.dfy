/** The ligand library of a ligand pulldown: reading the id and SMILES
    columns of the ligands CSV (parse_ligands_csv), and deriving one job
    specification per ligand from the bait's specification
    (save_json_specs). The CSV is taken as its rows of fields; the JSON
    specification as the fields the derivation touches. */
module Ligands {
  import opened Wrappers
  import opened Seqs
  import opened Text

  // parse_ligands_csv

  /** The ValueErrors of the header check, and the IndexError of a data row
      too short for one of the two columns (row counts from 0 at the
      header). */
  datatype CsvError = NoIdColumn(idCol: string) | NoSmilesColumn(smilesCol: string) | ShortRow(row: nat)

  /** ligands_dict: its keys in insertion order and its entries. */
  datatype LigandTable = LigandTable(ids: seq<string>, smiles: map<string, string>)

  const NoLigands := LigandTable([], map[])

  ghost predicate TableKeyed(t: LigandTable) {
    Distinct(t.ids) && forall id :: id in t.smiles <==> id in t.ids
  }

  /** ligands_dict[id] = smiles: a new id is appended to the key order, a
      known one keeps its place and takes the new value. */
  function Insert(t: LigandTable, id: string, smiles: string): LigandTable {
    if id in t.smiles then LigandTable(t.ids, t.smiles[id := smiles])
    else LigandTable(t.ids + [id], t.smiles[id := smiles])
  }

  /** A data row holds both columns. */
  predicate Holds(row: seq<string>, i: nat, j: nat) {
    i < |row| && j < |row|
  }

  /** The data rows' entries, with the id in column i and the SMILES in
      column j; the first row too short raises. rows[k] is row k + 1 of the
      file. */
  function Entries(rows: seq<seq<string>>, i: nat, j: nat): Result<LigandTable, CsvError> {
    if rows == [] then Success(NoLigands)
    else
      var n := |rows| - 1;
      match Entries(rows[..n], i, j)
      case Failure(e) => Failure(e)
      case Success(t) =>
        if !Holds(rows[n], i, j) then Failure(ShortRow(n + 1))
        else Success(Insert(t, rows[n][i], Strip(rows[n][j])))
  }

  /** parse_ligands_csv on the CSV's rows: the first row is the header, in
      which the id column must occur, then the SMILES column; each column's
      index is its first occurrence. An empty file gives no ligands. */
  function ParseLigandsSpec(rows: seq<seq<string>>, idCol: string, smilesCol: string): Result<LigandTable, CsvError> {
    if rows == [] then Success(NoLigands)
    else
      var header := rows[0];
      if idCol !in header then Failure(NoIdColumn(idCol))
      else if smilesCol !in header then Failure(NoSmilesColumn(smilesCol))
      else Entries(rows[1..], FirstIndex(header, idCol), FirstIndex(header, smilesCol))
  }

  /** parse_ligands_csv's loop: the header is taken and checked at the
      first row, every later row is stored. */
  method ParseLigandsCsv(rows: seq<seq<string>>, idCol: string, smilesCol: string)
    returns (r: Result<LigandTable, CsvError>)
    ensures r == ParseLigandsSpec(rows, idCol, smilesCol)
  {
    var header: Option<seq<string>> := None;
    var idIndex: nat := 0;
    var smilesIndex: nat := 0;
    var ids: seq<string> := [];
    var dict: map<string, string> := map[];
    for k := 0 to |rows|
      invariant k == 0 <==> header.None?
      invariant k == 0 ==> ids == [] && dict == map[]
      invariant k > 0 ==> header == Some(rows[0]) && idCol in rows[0] && smilesCol in rows[0]
      invariant k > 0 ==> idIndex == FirstIndex(rows[0], idCol) && smilesIndex == FirstIndex(rows[0], smilesCol)
      invariant k > 0 ==> Entries(rows[1..][..k - 1], idIndex, smilesIndex) == Success(LigandTable(ids, dict))
    {
      var row := rows[k];
      if header.None? {
        header := Some(row);
        if idCol !in row {
          return Failure(NoIdColumn(idCol));
        } else if smilesCol !in row {
          return Failure(NoSmilesColumn(smilesCol));
        }
        idIndex := FirstIndex(row, idCol);
        smilesIndex := FirstIndex(row, smilesCol);
        assert rows[1..][..0] == [];
      } else {
        EntriesSnoc(rows[1..], idIndex, smilesIndex, k - 1);
        if !(idIndex < |row| && smilesIndex < |row|) {
          ShortRowStaysFailed(rows[1..], idIndex, smilesIndex, k - 1, k);
          return Failure(ShortRow(k));
        }
        var id, smiles := row[idIndex], Strip(row[smilesIndex]);
        if id !in dict {
          ids := ids + [id];
        }
        dict := dict[id := smiles];
      }
    }
    if rows == [] {
      return Success(NoLigands);
    }
    assert rows[1..][..|rows| - 1] == rows[1..];
    r := Success(LigandTable(ids, dict));
  }

  lemma EntriesSnoc(rows: seq<seq<string>>, i: nat, j: nat, k: nat)
    requires k < |rows|
    ensures Entries(rows[..k + 1], i, j) == match Entries(rows[..k], i, j)
      case Failure(e) => Failure(e)
      case Success(t) =>
        if !Holds(rows[k], i, j) then Failure(ShortRow(k + 1))
        else Success(Insert(t, rows[k][i], Strip(rows[k][j])))
  {
    assert rows[..k + 1][..k] == rows[..k];
  }

  /** Once a row is too short the whole read fails at that row. */
  lemma {:induction false} ShortRowStaysFailed(rows: seq<seq<string>>, i: nat, j: nat, k: nat, row: nat)
    requires k < |rows| && Entries(rows[..k + 1], i, j) == Failure(ShortRow(row))
    ensures Entries(rows, i, j) == Failure(ShortRow(row))
    decreases |rows|
  {
    if k + 1 < |rows| {
      var n := |rows| - 1;
      assert rows[..n][..k + 1] == rows[..k + 1];
      ShortRowStaysFailed(rows[..n], i, j, k, row);
      assert Entries(rows[..n], i, j).Failure?;
    } else {
      assert rows[..k + 1] == rows;
    }
  }

  // The partner properties of parse_ligands_csv

  ghost predicate AllHold(rows: seq<seq<string>>, i: nat, j: nat) {
    forall k :: 0 <= k < |rows| ==> Holds(rows[k], i, j)
  }

  /** The ids of the rows, in file order. */
  function IdColumn(rows: seq<seq<string>>, i: nat): seq<string> {
    if rows == [] then []
    else
      var n := |rows| - 1;
      IdColumn(rows[..n], i) + (if i < |rows[n]| then [rows[n][i]] else [])
  }

  /** The reference: the stripped SMILES of the last row carrying this id. */
  function LastSmiles(rows: seq<seq<string>>, i: nat, j: nat, id: string): Option<string> {
    if rows == [] then None
    else
      var n := |rows| - 1;
      if Holds(rows[n], i, j) && rows[n][i] == id then Some(Strip(rows[n][j]))
      else LastSmiles(rows[..n], i, j, id)
  }

  /** The data rows are read exactly when all of them hold both columns. */
  lemma {:induction false} EntriesSucceed(rows: seq<seq<string>>, i: nat, j: nat)
    ensures Entries(rows, i, j).Success? <==> AllHold(rows, i, j)
  {
    if rows != [] {
      var n := |rows| - 1;
      var p := rows[..n];
      EntriesSucceed(p, i, j);
      if AllHold(rows, i, j) {
        assert AllHold(p, i, j) by {
          forall k | 0 <= k < n ensures Holds(p[k], i, j) {
            assert p[k] == rows[k];
          }
        }
      } else {
        var k :| 0 <= k < |rows| && !Holds(rows[k], i, j);
        if k < n {
          assert p[k] == rows[k];
        }
      }
    }
  }

  /** A failed read names the first data row that lacks a column. */
  lemma {:induction false} EntriesFailAt(rows: seq<seq<string>>, i: nat, j: nat)
    requires Entries(rows, i, j).Failure?
    ensures var e := Entries(rows, i, j).error;
      && e.ShortRow? && 1 <= e.row <= |rows| && !Holds(rows[e.row - 1], i, j)
      && forall k :: 0 <= k < e.row - 1 ==> Holds(rows[k], i, j)
  {
    var n := |rows| - 1;
    assert forall k :: 0 <= k < n ==> rows[..n][k] == rows[k];
    if Entries(rows[..n], i, j).Failure? {
      EntriesFailAt(rows[..n], i, j);
    } else {
      EntriesSucceed(rows[..n], i, j);
    }
  }

  /** The table lists each id of the data rows once, in first-seen order,
      so it has at most one entry per data row. */
  lemma {:induction false} EntriesTable(rows: seq<seq<string>>, i: nat, j: nat)
    requires Entries(rows, i, j).Success?
    ensures var t := Entries(rows, i, j).value;
      TableKeyed(t) && t.ids == FirstSeen(IdColumn(rows, i)) && |t.ids| <= |rows|
  {
    if rows != [] {
      var n := |rows| - 1;
      EntriesTable(rows[..n], i, j);
      var t := Entries(rows[..n], i, j).value;
      var id := rows[n][i];
      FirstSeenMembers(IdColumn(rows[..n], i), id);
      FirstSeenSnoc(IdColumn(rows[..n], i), id);
    }
  }

  /** For a repeated id the later row's SMILES wins. */
  lemma {:induction false} EntriesLastWins(rows: seq<seq<string>>, i: nat, j: nat, id: string)
    requires Entries(rows, i, j).Success?
    ensures var t := Entries(rows, i, j).value;
      && (id in t.smiles <==> LastSmiles(rows, i, j, id).Some?)
      && (id in t.smiles ==> t.smiles[id] == LastSmiles(rows, i, j, id).value)
  {
    if rows != [] {
      EntriesLastWins(rows[..|rows| - 1], i, j, id);
    }
  }

  /** parse_ligands_csv checks the id column before the SMILES column, and
      only then reads the data rows; the header row never becomes an
      entry. */
  lemma ParseLigandsOutcome(rows: seq<seq<string>>, idCol: string, smilesCol: string)
    ensures ParseLigandsSpec(rows, idCol, smilesCol) == Failure(NoIdColumn(idCol))
      <==> rows != [] && idCol !in rows[0]
    ensures ParseLigandsSpec(rows, idCol, smilesCol) == Failure(NoSmilesColumn(smilesCol))
      <==> rows != [] && idCol in rows[0] && smilesCol !in rows[0]
    ensures rows != [] && idCol in rows[0] && smilesCol in rows[0] ==>
      ParseLigandsSpec(rows, idCol, smilesCol) == Entries(rows[1..], FirstIndex(rows[0], idCol), FirstIndex(rows[0], smilesCol))
    ensures |rows| <= 1 && ParseLigandsSpec(rows, idCol, smilesCol).Success? ==>
      ParseLigandsSpec(rows, idCol, smilesCol) == Success(NoLigands)
  {
    if rows != [] && idCol in rows[0] && smilesCol in rows[0] {
      var i, j := FirstIndex(rows[0], idCol), FirstIndex(rows[0], smilesCol);
      if Entries(rows[1..], i, j).Failure? {
        EntriesFailAt(rows[1..], i, j);
      }
    }
  }

  // save_json_specs

  /** One entry of a specification's sequences: a ligand, or any other
      entity (a protein chain with its alignments, say), which is copied
      unchanged. */
  datatype Entity = LigandEntity(id: string, smiles: string) | OtherEntity(json: string)

  /** A job specification: the fields the derivation touches, and the
      others (dialect, version, ...) as key and serialized value. */
  datatype Spec = Spec(name: string, modelSeeds: seq<int>, sequences: seq<Entity>, rest: seq<(string, string)>)

  /** The derived specification of ligand id with the given SMILES and
      seeds, as save_json_specs edits its deep copy of the base. */
  function LigandSpec(base: Spec, id: string, smiles: string, seeds: seq<int>): Spec {
    var spec := base.(name := base.name + "__" + id);
    var spec := spec.(modelSeeds := seeds);
    spec.(sequences := spec.sequences + [LigandEntity("Z", smiles)])
  }

  /** The file name and the derived specification of the first n ligands,
      in the table's key order; seeds[k] stands for the seeds drawn for
      ligand k. */
  function SpecFiles(base: Spec, t: LigandTable, seeds: seq<seq<int>>, n: nat): (files: seq<(string, Spec)>)
    requires n <= |t.ids| == |seeds| && forall k :: 0 <= k < |t.ids| ==> t.ids[k] in t.smiles
    ensures |files| == n
  {
    if n == 0 then []
    else
      var id := t.ids[n - 1];
      SpecFiles(base, t, seeds, n - 1) + [(id + ".json", LigandSpec(base, id, t.smiles[id], seeds[n - 1]))]
  }

  /** save_json_specs without the file writes: one derived specification per
      ligand, each from its own copy of the base. The seeds, drawn at random
      by gen_model_seeds, are a parameter. */
  method SaveJsonSpecs(base: Spec, t: LigandTable, seeds: seq<seq<int>>) returns (files: seq<(string, Spec)>)
    requires TableKeyed(t) && |t.ids| == |seeds|
    ensures files == SpecFiles(base, t, seeds, |t.ids|)
  {
    files := [];
    for k := 0 to |t.ids|
      invariant files == SpecFiles(base, t, seeds, k)
    {
      var id := t.ids[k];
      var spec := base;
      spec := spec.(name := base.name + "__" + id);
      spec := spec.(modelSeeds := seeds[k]);
      spec := spec.(sequences := spec.sequences + [LigandEntity("Z", t.smiles[id])]);
      files := files + [(id + ".json", spec)];
    }
  }

  /** File k is ligand k's: named after the ligand, its specification is the
      base renamed with the ligand id, with the ligand's seeds, and with the
      base's sequences followed by exactly one ligand entry "Z" holding the
      ligand's SMILES; everything else is the base's. */
  lemma {:induction false} SpecFileOf(base: Spec, t: LigandTable, seeds: seq<seq<int>>, n: nat, k: nat)
    requires n <= |t.ids| == |seeds| && forall k :: 0 <= k < |t.ids| ==> t.ids[k] in t.smiles
    requires k < n
    ensures var (file, spec) := SpecFiles(base, t, seeds, n)[k];
      && file == t.ids[k] + ".json"
      && spec.name == base.name + "__" + t.ids[k]
      && spec.modelSeeds == seeds[k]
      && |spec.sequences| == |base.sequences| + 1
      && spec.sequences[..|base.sequences|] == base.sequences
      && spec.sequences[|base.sequences|] == LigandEntity("Z", t.smiles[t.ids[k]])
      && spec.rest == base.rest
  {
    if k < n - 1 {
      SpecFileOf(base, t, seeds, n - 1, k);
    } else {
      var spec := LigandSpec(base, t.ids[k], t.smiles[t.ids[k]], seeds[k]);
      assert spec.sequences[..|base.sequences|] == base.sequences;
    }
  }

  lemma JsonSuffixCancels(a: string, b: string)
    requires a + ".json" == b + ".json"
    ensures a == b
  {
    assert |a| == |b|;
    assert a == (a + ".json")[..|a|] && b == (b + ".json")[..|b|];
  }

  /** Distinct ligand ids give distinct file names, so no file overwrites
      another. */
  lemma SpecFileNamesDistinct(base: Spec, t: LigandTable, seeds: seq<seq<int>>)
    requires TableKeyed(t) && |t.ids| == |seeds|
    ensures forall a, b :: 0 <= a < b < |t.ids| ==>
      SpecFiles(base, t, seeds, |t.ids|)[a].0 != SpecFiles(base, t, seeds, |t.ids|)[b].0
  {
    var files := SpecFiles(base, t, seeds, |t.ids|);
    forall a, b | 0 <= a < b < |t.ids| ensures files[a].0 != files[b].0 {
      SpecFileOf(base, t, seeds, |t.ids|, a);
      SpecFileOf(base, t, seeds, |t.ids|, b);
      if files[a].0 == files[b].0 {
        JsonSuffixCancels(t.ids[a], t.ids[b]);
      }
    }
  }
}
