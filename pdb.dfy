/** Reading a predicted structure: one fixed-column ATOM record per line,
    grouped by chain in first-seen order. Two readers share the record
    parser: the one behind the N-chain score (every atom, with the indices
    of the CA atoms and of the interface representatives) and the one behind
    the two-chain score (representatives only, each with its B-factor). */
module Pdb {
  import opened Wrappers
  import opened Seqs
  import opened Text
  import opened Geometry

  /** Python's int() and float() on a column's text, which this model does
      not reimplement: None stands for the ValueError they raise. */
  datatype Numerals = Numerals(toInt: string -> Option<int>, toReal: string -> Option<real>)

  /** One parsed ATOM line; b is the B-factor column, which carries the
      per-residue confidence in predicted structures. */
  datatype AtomRecord = AtomRecord(
    name: string, atmNo: int, atmName: string, atmAlt: char, resName: string,
    chain: char, resNo: int, insert: string, resid: string,
    x: real, y: real, z: real, occ: real, b: real)

  /** The ValueError of a numeric column (identified by its first offset), or
      the IndexError of a single-character read past the end of the line. */
  datatype ParseError = InvalidNumber(column: nat) | LineTooShort(offset: nat)

  /** Every numeric column of the line converts. */
  predicate NumbersConvert(line: string, nums: Numerals) {
    && nums.toInt(Strip(PySlice(line, 6, 11))).Some?
    && nums.toInt(Strip(PySlice(line, 22, 26))).Some?
    && nums.toReal(PySlice(line, 30, 38)).Some?
    && nums.toReal(PySlice(line, 38, 46)).Some?
    && nums.toReal(PySlice(line, 46, 54)).Some?
    && nums.toReal(PySlice(line, 54, 60)).Some?
    && nums.toReal(PySlice(line, 60, 66)).Some?
  }

  /** parse_atm_record: the fields are read from fixed columns, in the order
      Python evaluates them, so the first failing read decides the error. */
  function ParseAtmRecord(line: string, nums: Numerals): (r: Result<AtomRecord, ParseError>)
    ensures r.Success? <==> |line| > 26 && NumbersConvert(line, nums)
    ensures r.Success? ==>
      && r.value.chain == line[21]
      && r.value.atmName == Strip(PySlice(line, 12, 16))
      && r.value.resName == Strip(PySlice(line, 17, 20))
      && nums.toReal(PySlice(line, 30, 38)) == Some(r.value.x)
      && nums.toReal(PySlice(line, 38, 46)) == Some(r.value.y)
      && nums.toReal(PySlice(line, 46, 54)) == Some(r.value.z)
      && nums.toReal(PySlice(line, 60, 66)) == Some(r.value.b)
    ensures r.Failure? && r.error.LineTooShort? ==> |line| <= r.error.offset
  {
    var atmNo := nums.toInt(Strip(PySlice(line, 6, 11)));
    if atmNo.None? then Failure(InvalidNumber(6))
    else if |line| <= 17 then Failure(LineTooShort(17))
    else if |line| <= 21 then Failure(LineTooShort(21))
    else
      var resNo := nums.toInt(Strip(PySlice(line, 22, 26)));
      if resNo.None? then Failure(InvalidNumber(22))
      else if |line| <= 26 then Failure(LineTooShort(26))
      else
        var x := nums.toReal(PySlice(line, 30, 38));
        var y := nums.toReal(PySlice(line, 38, 46));
        var z := nums.toReal(PySlice(line, 46, 54));
        var occ := nums.toReal(PySlice(line, 54, 60));
        var b := nums.toReal(PySlice(line, 60, 66));
        if x.None? then Failure(InvalidNumber(30))
        else if y.None? then Failure(InvalidNumber(38))
        else if z.None? then Failure(InvalidNumber(46))
        else if occ.None? then Failure(InvalidNumber(54))
        else if b.None? then Failure(InvalidNumber(60))
        else
          Success(AtomRecord(
            Strip(PySlice(line, 0, 6)), atmNo.value, Strip(PySlice(line, 12, 16)), line[17],
            Strip(PySlice(line, 17, 20)), line[21], resNo.value, Strip([line[26]]),
            PySlice(line, 22, 29), x.value, y.value, z.value, occ.value, b.value))
  }

  /** read_pdb keeps the lines that contain "ATOM" anywhere. */
  predicate HasAtom(line: string) {
    Contains(line, "ATOM")
  }

  /** read_pdb_pdockq keeps the lines that start with "ATOM". */
  predicate StartsWithAtom(line: string) {
    StartsWith(line, "ATOM")
  }

  /** A record parser for whole lines. */
  type LineParser = string -> Result<AtomRecord, ParseError>

  /** parse_atm_record with the given numeric conversions. */
  function Parser(nums: Numerals): LineParser {
    line => ParseAtmRecord(line, nums)
  }

  /** The records of the selected lines, in file order; the first line that
      fails to parse aborts the read. */
  function ParseLines(lines: seq<string>, parse: LineParser, sel: string -> bool): Result<seq<AtomRecord>, ParseError>
  {
    if lines == [] then Success([])
    else
      match ParseLines(lines[..|lines| - 1], parse, sel)
      case Failure(e) => Failure(e)
      case Success(recs) =>
        var line := lines[|lines| - 1];
        if !sel(line) then Success(recs)
        else
          match parse(line)
          case Failure(e) => Failure(e)
          case Success(rec) => Success(recs + [rec])
  }

  /** The lines a reader looks at. */
  function Selected(lines: seq<string>, sel: string -> bool): seq<string> {
    if lines == [] then []
    else Selected(lines[..|lines| - 1], sel) + (if sel(lines[|lines| - 1]) then [lines[|lines| - 1]] else [])
  }

  /** A successful read has one record per selected line, each that line's
      parse; and the read fails only if some selected line fails to parse. */
  lemma {:induction false} ParseLinesRecords(lines: seq<string>, parse: LineParser, sel: string -> bool)
    ensures ParseLines(lines, parse, sel).Success? <==>
      forall k :: 0 <= k < |Selected(lines, sel)| ==> parse(Selected(lines, sel)[k]).Success?
    ensures ParseLines(lines, parse, sel).Success? ==>
      var recs, sl := ParseLines(lines, parse, sel).value, Selected(lines, sel);
      |recs| == |sl| && forall k :: 0 <= k < |sl| ==> parse(sl[k]) == Success(recs[k])
  {
    if lines != [] {
      var p := lines[..|lines| - 1];
      ParseLinesRecords(p, parse, sel);
      var sp := Selected(p, sel);
      var line := lines[|lines| - 1];
      var sl := Selected(lines, sel);
      if sel(line) {
        assert sl == sp + [line];
        assert forall k :: 0 <= k < |sp| ==> sl[k] == sp[k];
        assert sl[|sp|] == line;
        if ParseLines(p, parse, sel).Success? && parse(line).Success? {
          var recs := ParseLines(lines, parse, sel).value;
          assert recs == ParseLines(p, parse, sel).value + [parse(line).value];
          forall k | 0 <= k < |sl| ensures parse(sl[k]) == Success(recs[k]) {
            if k < |sp| {
              assert recs[k] == ParseLines(p, parse, sel).value[k];
            }
          }
        } else if ParseLines(p, parse, sel).Failure? {
          var k :| 0 <= k < |sp| && parse(sp[k]).Failure?;
          assert parse(sl[k]).Failure?;
        } else {
          assert parse(sl[|sp|]).Failure?;
        }
      } else {
        assert sl == sp;
      }
    }
  }

  /** Once a prefix of the file fails to parse, the whole read fails with
      the same error. */
  lemma {:induction false} ParseLinesFailureSticks(lines: seq<string>, parse: LineParser, sel: string -> bool, n: nat)
    requires n <= |lines| && ParseLines(lines[..n], parse, sel).Failure?
    ensures ParseLines(lines, parse, sel) == ParseLines(lines[..n], parse, sel)
    decreases |lines|
  {
    if n < |lines| {
      var p := lines[..|lines| - 1];
      assert p[..n] == lines[..n];
      ParseLinesFailureSticks(p, parse, sel, n);
    } else {
      assert lines[..n] == lines;
    }
  }

  // ---------------------------------------------------------------------
  // read_pdb

  /** The per-chain dictionaries of read_pdb: chain identifiers in
      first-seen order, each chain's coordinates, and the indices into them
      of the CA atoms and of the interface representatives (CB, or CA for
      glycine). */
  datatype ChainTable = ChainTable(
    order: seq<char>,
    coords: map<char, seq<Point>>,
    caInds: map<char, seq<nat>>,
    cbInds: map<char, seq<nat>>)

  /** The dictionaries share their keys, listed once each by order. */
  predicate WellFormed(t: ChainTable) {
    Distinct(t.order) && Keyed(t)
  }

  /** Each dictionary has an entry for exactly the chains listed. */
  predicate Keyed(t: ChainTable) {
    && (forall c :: c in t.coords <==> c in t.order)
    && (forall c :: c in t.caInds <==> c in t.order)
    && (forall c :: c in t.cbInds <==> c in t.order)
  }

  /** The reader's state: the table so far and the coord_ind counter. */
  datatype ReadState = ReadState(table: ChainTable, coordInd: nat)

  const EmptyTable: ChainTable := ChainTable([], map[], map[], map[])

  function PointOf(r: AtomRecord): Point {
    Point(r.x, r.y, r.z)
  }

  predicate IsCA(r: AtomRecord) {
    r.atmName == "CA"
  }

  /** The interface-geometry representative of a residue: its CB atom, or
      its CA atom for glycine. */
  predicate IsRepresentative(r: AtomRecord) {
    r.atmName == "CB" || (r.atmName == "CA" && r.resName == "GLY")
  }

  function Extend(inds: seq<nat>, mark: bool, k: nat): seq<nat> {
    if mark then inds + [k] else inds
  }

  /** A record of an already seen chain: its coordinates are appended, and
      index ind is recorded if it is a CA atom or a representative. */
  function Append(t: ChainTable, r: AtomRecord, ind: nat): (t': ChainTable)
    requires WellFormed(t) && r.chain in t.order
    ensures WellFormed(t')
  {
    var c := r.chain;
    ChainTable(t.order, t.coords[c := t.coords[c] + [PointOf(r)]],
               t.caInds[c := Extend(t.caInds[c], IsCA(r), ind)],
               t.cbInds[c := Extend(t.cbInds[c], IsRepresentative(r), ind)])
  }

  /** The first record of a chain opens it with its coordinates; it is never
      checked for being a CA atom or a representative. */
  function Open(t: ChainTable, r: AtomRecord): (t': ChainTable)
    requires WellFormed(t) && r.chain !in t.order
    ensures WellFormed(t')
  {
    var c := r.chain;
    ChainTable(t.order + [c], t.coords[c := [PointOf(r)]], t.caInds[c := []], t.cbInds[c := []])
  }

  /** One record as read_pdb handles it: coord_ind is reset when a chain is
      first seen and otherwise incremented, whichever chain it last counted. */
  function Step(st: ReadState, r: AtomRecord): (st': ReadState)
    requires WellFormed(st.table)
    ensures WellFormed(st'.table)
  {
    if r.chain in st.table.order then ReadState(Append(st.table, r, st.coordInd + 1), st.coordInd + 1)
    else ReadState(Open(st.table, r), 0)
  }

  /** read_pdb's state after the given records. */
  function Build(recs: seq<AtomRecord>): (st: ReadState)
    ensures WellFormed(st.table)
  {
    if recs == [] then ReadState(EmptyTable, 0)
    else Step(Build(recs[..|recs| - 1]), recs[|recs| - 1])
  }

  lemma BuildSnoc(recs: seq<AtomRecord>, r: AtomRecord)
    ensures Build(recs + [r]) == Step(Build(recs), r)
  {
    assert (recs + [r])[..|recs|] == recs;
  }

  /** read_pdb on a whole file. */
  function ReadPdbSpec(lines: seq<string>, nums: Numerals): Result<ChainTable, ParseError> {
    match ParseLines(lines, Parser(nums), HasAtom)
    case Success(recs) => Success(Build(recs).table)
    case Failure(e) => Failure(e)
  }

  /** The body of read_pdb's loop for one parsed ATOM record: the record's
      chain is opened on first sight, and otherwise its coordinates are
      appended and the CA and representative indices recorded. */
  method AddAtom(chains0: seq<char>, coords0: map<char, seq<Point>>, caInds0: map<char, seq<nat>>,
                 cbInds0: map<char, seq<nat>>, coordInd0: nat, record: AtomRecord)
    returns (chains: seq<char>, chainCoords: map<char, seq<Point>>, chainCAInds: map<char, seq<nat>>,
             chainCBInds: map<char, seq<nat>>, coordInd: nat)
    requires WellFormed(ChainTable(chains0, coords0, caInds0, cbInds0))
    ensures ReadState(ChainTable(chains, chainCoords, chainCAInds, chainCBInds), coordInd)
         == Step(ReadState(ChainTable(chains0, coords0, caInds0, cbInds0), coordInd0), record)
  {
    chains, chainCoords, chainCAInds, chainCBInds, coordInd := chains0, coords0, caInds0, cbInds0, coordInd0;
    var c := record.chain;
    if c in chains {
      chainCoords := chainCoords[c := chainCoords[c] + [PointOf(record)]];
      coordInd := coordInd + 1;
      if IsCA(record) {
        chainCAInds := chainCAInds[c := chainCAInds[c] + [coordInd]];
      }
      if IsRepresentative(record) {
        chainCBInds := chainCBInds[c := chainCBInds[c] + [coordInd]];
      }
    } else {
      chains := chains + [c];
      chainCoords := chainCoords[c := [PointOf(record)]];
      chainCAInds := chainCAInds[c := []];
      chainCBInds := chainCBInds[c := []];
      coordInd := 0;
    }
  }

  /** read_pdb, with its dictionaries and its coord_ind counter. pdb_chains
      (the raw lines per chain) is not kept: its only caller discards it. */
  method ReadPdb(lines: seq<string>, nums: Numerals) returns (r: Result<ChainTable, ParseError>)
    ensures r == ReadPdbSpec(lines, nums)
  {
    var chains: seq<char> := [];
    var chainCoords: map<char, seq<Point>> := map[];
    var chainCAInds: map<char, seq<nat>> := map[];
    var chainCBInds: map<char, seq<nat>> := map[];
    var coordInd: nat := 0;
    ghost var recs: seq<AtomRecord> := [];
    var i := 0;
    while i < |lines|
      invariant 0 <= i <= |lines|
      invariant ParseLines(lines[..i], Parser(nums), HasAtom) == Success(recs)
      invariant Build(recs) == ReadState(ChainTable(chains, chainCoords, chainCAInds, chainCBInds), coordInd)
    {
      var line := lines[i];
      assert lines[..i + 1][..i] == lines[..i];
      if HasAtom(line) {
        var parsed := Parser(nums)(line);
        if parsed.Failure? {
          ParseLinesFailureSticks(lines, Parser(nums), HasAtom, i + 1);
          return Failure(parsed.error);
        }
        var record := parsed.value;
        BuildSnoc(recs, record);
        chains, chainCoords, chainCAInds, chainCBInds, coordInd :=
          AddAtom(chains, chainCoords, chainCAInds, chainCBInds, coordInd, record);
        recs := recs + [record];
      }
      i := i + 1;
    }
    assert lines[..|lines|] == lines;
    r := Success(ChainTable(chains, chainCoords, chainCAInds, chainCBInds));
  }

  // ---------------------------------------------------------------------
  // The records, chain by chain

  /** The chain of each record, in file order. */
  function ChainIds(recs: seq<AtomRecord>): (ids: seq<char>)
    ensures |ids| == |recs| && forall k :: 0 <= k < |recs| ==> ids[k] == recs[k].chain
  {
    seq(|recs|, k requires 0 <= k < |recs| => recs[k].chain)
  }

  lemma ChainIdsSnoc(recs: seq<AtomRecord>, r: AtomRecord)
    ensures ChainIds(recs + [r]) == ChainIds(recs) + [r.chain]
  {
  }

  /** The records of chain c, in file order. */
  function ChainAtoms(recs: seq<AtomRecord>, c: char): (atoms: seq<AtomRecord>)
    ensures forall k :: 0 <= k < |atoms| ==> atoms[k].chain == c
  {
    if recs == [] then []
    else ChainAtoms(recs[..|recs| - 1], c) + (if recs[|recs| - 1].chain == c then [recs[|recs| - 1]] else [])
  }

  lemma ChainAtomsSnoc(recs: seq<AtomRecord>, r: AtomRecord, c: char)
    ensures ChainAtoms(recs + [r], c) == ChainAtoms(recs, c) + (if r.chain == c then [r] else [])
  {
    assert (recs + [r])[..|recs|] == recs;
  }

  /** A chain has records exactly when some record names it. */
  lemma {:induction false} ChainAtomsEmpty(recs: seq<AtomRecord>, c: char)
    ensures ChainAtoms(recs, c) == [] <==> c !in ChainIds(recs)
  {
    if recs != [] {
      var p, r := recs[..|recs| - 1], recs[|recs| - 1];
      assert recs == p + [r];
      ChainAtomsEmpty(p, c);
      ChainIdsSnoc(p, r);
    }
  }

  /** The coordinates of the given atoms. */
  function Points(atoms: seq<AtomRecord>): (ps: seq<Point>)
    ensures |ps| == |atoms| && forall k :: 0 <= k < |atoms| ==> ps[k] == PointOf(atoms[k])
  {
    seq(|atoms|, k requires 0 <= k < |atoms| => PointOf(atoms[k]))
  }

  /** The B-factors of the given atoms. */
  function BValues(atoms: seq<AtomRecord>): (bs: seq<real>)
    ensures |bs| == |atoms| && forall k :: 0 <= k < |atoms| ==> bs[k] == atoms[k].b
  {
    seq(|atoms|, k requires 0 <= k < |atoms| => atoms[k].b)
  }

  /** The two kinds of atom whose positions read_pdb records. */
  datatype Mark = CAAtom | Representative

  predicate HasMark(r: AtomRecord, m: Mark) {
    match m
    case CAAtom => IsCA(r)
    case Representative => IsRepresentative(r)
  }

  /** inds lists, in increasing order, exactly the positions of the atoms
      after the first one that carry mark m. */
  predicate Marks(inds: seq<nat>, atoms: seq<AtomRecord>, m: Mark) {
    && (forall k :: 0 <= k < |inds| ==> 1 <= inds[k] < |atoms| && HasMark(atoms[inds[k]], m))
    && (forall k, l :: 0 <= k < l < |inds| ==> inds[k] < inds[l])
    && (forall j :: 1 <= j < |atoms| && HasMark(atoms[j], m) ==> j in inds)
  }

  /** The positions of the atoms after the first one that carry mark m. */
  function MarkedIndices(atoms: seq<AtomRecord>, m: Mark): seq<nat> {
    if |atoms| <= 1 then []
    else
      var n := |atoms| - 1;
      MarkedIndices(atoms[..n], m) + (if HasMark(atoms[n], m) then [n] else [])
  }

  lemma {:induction false} MarkedIndicesMarks(atoms: seq<AtomRecord>, m: Mark)
    ensures Marks(MarkedIndices(atoms, m), atoms, m)
  {
    if |atoms| > 1 {
      var n := |atoms| - 1;
      MarkedIndicesMarks(atoms[..n], m);
      assert forall j :: 0 <= j < n ==> atoms[..n][j] == atoms[j];
    }
  }

  lemma MarkedIndicesSnoc(atoms: seq<AtomRecord>, r: AtomRecord, m: Mark)
    requires |atoms| >= 1
    ensures MarkedIndices(atoms + [r], m) == MarkedIndices(atoms, m) + (if HasMark(r, m) then [|atoms|] else [])
  {
    assert (atoms + [r])[..|atoms|] == atoms;
  }

  lemma PointsSnoc(atoms: seq<AtomRecord>, r: AtomRecord)
    ensures Points(atoms + [r]) == Points(atoms) + [PointOf(r)]
  {
  }

  lemma BValuesSnoc(atoms: seq<AtomRecord>, r: AtomRecord)
    ensures BValues(atoms + [r]) == BValues(atoms) + [r.b]
  {
  }

  /** The chain keys after one more record are the first-seen chains of the
      longer file. */
  lemma OrderSnoc(order: seq<char>, recs: seq<AtomRecord>, r: AtomRecord)
    requires order == FirstSeen(ChainIds(recs))
    ensures (if r.chain in order then order else order + [r.chain]) == FirstSeen(ChainIds(recs + [r]))
    ensures r.chain in order <==> ChainAtoms(recs, r.chain) != []
  {
    ChainIdsSnoc(recs, r);
    FirstSeenSnoc(ChainIds(recs), r.chain);
    FirstSeenMembers(ChainIds(recs), r.chain);
    ChainAtomsEmpty(recs, r.chain);
  }

  /** One step of read_pdb keeps chain c's coordinates equal to those of
      its records, the record read being appended to them if it belongs to
      c. */
  lemma StepCoords(st: ReadState, r: AtomRecord, c: char, atoms: seq<AtomRecord>)
    requires WellFormed(st.table)
    requires c in st.table.order ==> st.table.coords[c] == Points(atoms)
    requires c !in st.table.order ==> atoms == []
    requires c in Step(st, r).table.order
    ensures Step(st, r).table.coords[c] == Points(atoms + (if r.chain == c then [r] else []))
  {
    if c != r.chain {
      assert atoms + [] == atoms;
    } else {
      PointsSnoc(atoms, r);
    }
  }

  /** Chain keys and coordinates of read_pdb: the chains in first-seen
      order, each with one coordinate per record of that chain, in file
      order. */
  lemma {:induction false} BuildChains(recs: seq<AtomRecord>)
    ensures Build(recs).table.order == FirstSeen(ChainIds(recs))
    ensures forall c :: c in Build(recs).table.order ==> Build(recs).table.coords[c] == Points(ChainAtoms(recs, c))
  {
    if recs != [] {
      var p, r := recs[..|recs| - 1], recs[|recs| - 1];
      assert recs == p + [r];
      BuildChains(p);
      OrderSnoc(Build(p).table.order, p, r);
      forall c | c in Build(recs).table.order ensures Build(recs).table.coords[c] == Points(ChainAtoms(recs, c)) {
        ChainAtomsSnoc(p, r, c);
        ChainAtomsEmpty(p, c);
        StepCoords(Build(p), r, c, ChainAtoms(p, c));
      }
    }
  }

  // ---------------------------------------------------------------------
  // A chain-local counter

  /** One record with the index taken from the chain's own coordinate list
      (its length before the append) instead of the shared counter. */
  function CorrectedStep(t: ChainTable, r: AtomRecord): (t': ChainTable)
    requires WellFormed(t)
    ensures WellFormed(t')
  {
    if r.chain in t.order then Append(t, r, |t.coords[r.chain]|) else Open(t, r)
  }

  /** The table after the given records, with chain-local indices. */
  function CorrectedBuild(recs: seq<AtomRecord>): (t: ChainTable)
    ensures WellFormed(t)
  {
    if recs == [] then EmptyTable
    else CorrectedStep(CorrectedBuild(recs[..|recs| - 1]), recs[|recs| - 1])
  }

  /** Chain c's entry of the table describes the atoms: their coordinates
      and the positions of their CA atoms and of their representatives. */
  predicate Describes(t: ChainTable, c: char, atoms: seq<AtomRecord>)
    requires WellFormed(t) && c in t.order
  {
    && t.coords[c] == Points(atoms)
    && t.caInds[c] == MarkedIndices(atoms, CAAtom)
    && t.cbInds[c] == MarkedIndices(atoms, Representative)
  }

  /** One chain-local step keeps chain c described by its records, the
      record read being appended to them if it belongs to c. */
  lemma CorrectedStepDescribes(t: ChainTable, r: AtomRecord, c: char, atoms: seq<AtomRecord>)
    requires WellFormed(t)
    requires c in t.order ==> atoms != [] && Describes(t, c, atoms)
    requires c !in t.order ==> atoms == []
    requires c in CorrectedStep(t, r).order
    ensures Describes(CorrectedStep(t, r), c, atoms + (if r.chain == c then [r] else []))
  {
    var t' := CorrectedStep(t, r);
    if c != r.chain {
      assert atoms + [] == atoms;
      assert t'.coords[c] == t.coords[c] && t'.caInds[c] == t.caInds[c] && t'.cbInds[c] == t.cbInds[c];
    } else if c in t.order {
      assert |t.coords[c]| == |atoms|;
      PointsSnoc(atoms, r);
      MarkedIndicesSnoc(atoms, r, CAAtom);
      MarkedIndicesSnoc(atoms, r, Representative);
    } else {
      assert atoms + [r] == [r];
      assert t'.coords[c] == [PointOf(r)] && t'.caInds[c] == [] && t'.cbInds[c] == [];
    }
  }

  /** With chain-local indices every chain's CA and representative lists
      mark exactly its CA atoms and its representatives, except the chain's
      first atom, which opens the chain without being examined. */
  lemma {:induction false} CorrectedBuildChains(recs: seq<AtomRecord>)
    ensures CorrectedBuild(recs).order == FirstSeen(ChainIds(recs))
    ensures forall c :: c in CorrectedBuild(recs).order ==> Describes(CorrectedBuild(recs), c, ChainAtoms(recs, c))
  {
    if recs != [] {
      var p, r := recs[..|recs| - 1], recs[|recs| - 1];
      assert recs == p + [r];
      CorrectedBuildChains(p);
      OrderSnoc(CorrectedBuild(p).order, p, r);
      forall c | c in CorrectedBuild(recs).order ensures Describes(CorrectedBuild(recs), c, ChainAtoms(recs, c)) {
        ChainAtomsSnoc(p, r, c);
        ChainAtomsEmpty(p, c);
        CorrectedStepDescribes(CorrectedBuild(p), r, c, ChainAtoms(p, c));
      }
    }
  }

  /** Chain c's CA and representative indices from the chain-local reader
      are valid, strictly increasing indices into its coordinates, and each
      points at a CA atom (respectively a representative) of that chain. */
  lemma CorrectedIndicesValid(recs: seq<AtomRecord>, c: char)
    requires c in CorrectedBuild(recs).order
    ensures |CorrectedBuild(recs).coords[c]| == |ChainAtoms(recs, c)|
    ensures Marks(CorrectedBuild(recs).caInds[c], ChainAtoms(recs, c), CAAtom)
    ensures Marks(CorrectedBuild(recs).cbInds[c], ChainAtoms(recs, c), Representative)
  {
    CorrectedBuildChains(recs);
    MarkedIndicesMarks(ChainAtoms(recs, c), CAAtom);
    MarkedIndicesMarks(ChainAtoms(recs, c), Representative);
  }

  /** read_pdb on a whole file, with chain-local indices. */
  function CorrectedReadPdbSpec(lines: seq<string>, nums: Numerals): Result<ChainTable, ParseError> {
    match ParseLines(lines, Parser(nums), HasAtom)
    case Success(recs) => Success(CorrectedBuild(recs))
    case Failure(e) => Failure(e)
  }

  /** Each chain's records form one block of the file. */
  predicate Contiguous(ids: seq<char>) {
    forall i, j, k :: 0 <= i < j < k < |ids| && ids[i] == ids[k] ==> ids[j] == ids[i]
  }

  /** A contiguous sequence stays so without its last element, and that
      element, if seen before, continues the last block. */
  lemma ContiguousSnoc(ids: seq<char>, x: char)
    requires Contiguous(ids + [x])
    ensures Contiguous(ids)
    ensures x in ids ==> ids[|ids| - 1] == x
  {
    var s := ids + [x];
    assert forall k :: 0 <= k < |ids| ==> s[k] == ids[k];
    if x in ids {
      var i :| 0 <= i < |ids| && ids[i] == x;
      if i < |ids| - 1 {
        assert s[i] == s[|ids|];
      }
    }
  }

  /** The chain-local table keys exactly the chains of the records. */
  lemma CorrectedKeys(recs: seq<AtomRecord>, c: char)
    ensures c in CorrectedBuild(recs).order <==> c in ChainIds(recs)
  {
    CorrectedBuildChains(recs);
    FirstSeenMembers(ChainIds(recs), c);
  }

  /** When each chain's records are contiguous, the shared counter always
      equals the last index of the chain being read, so read_pdb builds the
      chain-local table. */
  lemma {:induction false} ContiguousReadsAgree(recs: seq<AtomRecord>)
    requires Contiguous(ChainIds(recs))
    ensures Build(recs).table == CorrectedBuild(recs)
    ensures recs != [] ==>
      var c := recs[|recs| - 1].chain;
      c in CorrectedBuild(recs).order && Build(recs).coordInd + 1 == |CorrectedBuild(recs).coords[c]|
  {
    if recs != [] {
      var p, r := recs[..|recs| - 1], recs[|recs| - 1];
      assert recs == p + [r];
      ChainIdsSnoc(p, r);
      ContiguousSnoc(ChainIds(p), r.chain);
      ContiguousReadsAgree(p);
      CorrectedKeys(p, r.chain);
      var st, t := Build(p), CorrectedBuild(p);
      if r.chain in t.order {
        assert p[|p| - 1].chain == ChainIds(p)[|p| - 1] == r.chain;
        assert st.coordInd + 1 == |t.coords[r.chain]|;
        assert |CorrectedBuild(recs).coords[r.chain]| == |t.coords[r.chain]| + 1;
      } else {
        assert CorrectedBuild(recs).coords[r.chain] == [PointOf(r)];
      }
    }
  }

  /** read_pdb on a file whose chains are contiguous: its CA and
      representative indices are valid and point at the right atoms. */
  lemma ReadPdbIndicesValid(recs: seq<AtomRecord>, c: char)
    requires Contiguous(ChainIds(recs))
    requires c in Build(recs).table.order
    ensures |Build(recs).table.coords[c]| == |ChainAtoms(recs, c)|
    ensures Marks(Build(recs).table.caInds[c], ChainAtoms(recs, c), CAAtom)
    ensures Marks(Build(recs).table.cbInds[c], ChainAtoms(recs, c), Representative)
  {
    ContiguousReadsAgree(recs);
    CorrectedIndicesValid(recs, c);
  }

  /** Which counter a read keeps: read_pdb's shared coord_ind as written,
      or one per chain. */
  datatype Reader = AsWritten | ChainLocal

  /** read_pdb on a whole file with the given counter. */
  function ReadPdbWith(rd: Reader, lines: seq<string>, nums: Numerals): Result<ChainTable, ParseError> {
    match rd
    case AsWritten => ReadPdbSpec(lines, nums)
    case ChainLocal => CorrectedReadPdbSpec(lines, nums)
  }

  /** A file whose ATOM records, if they parse, keep each chain in one
      block. */
  predicate ContiguousFile(lines: seq<string>, nums: Numerals) {
    ParseLines(lines, Parser(nums), HasAtom).Success? ==> Contiguous(ChainIds(ParseLines(lines, Parser(nums), HasAtom).value))
  }

  /** Both readers fail on the same files, with the same error, and
      otherwise key the same chains in the same order. */
  lemma ReadersSameShape(lines: seq<string>, nums: Numerals)
    ensures ReadPdbSpec(lines, nums).Success? <==> CorrectedReadPdbSpec(lines, nums).Success?
    ensures ReadPdbSpec(lines, nums).Failure? ==> ReadPdbSpec(lines, nums) == CorrectedReadPdbSpec(lines, nums)
    ensures ReadPdbSpec(lines, nums).Success? ==>
      ReadPdbSpec(lines, nums).value.order == CorrectedReadPdbSpec(lines, nums).value.order
  {
    var pr := ParseLines(lines, Parser(nums), HasAtom);
    if pr.Success? {
      BuildChains(pr.value);
      CorrectedBuildChains(pr.value);
    }
  }

  /** On a file with contiguous chains read_pdb as written gives exactly
      the chain-local table. */
  lemma ContiguousFileReadsAgree(lines: seq<string>, nums: Numerals)
    requires ContiguousFile(lines, nums)
    ensures ReadPdbSpec(lines, nums) == CorrectedReadPdbSpec(lines, nums)
  {
    var pr := ParseLines(lines, Parser(nums), HasAtom);
    if pr.Success? {
      ContiguousReadsAgree(pr.value);
    }
  }

  /** The first record of a chain opens it with no recorded index and
      resets the counter. */
  lemma StepOpens(st: ReadState, r: AtomRecord)
    requires WellFormed(st.table) && r.chain !in st.table.order
    ensures Step(st, r).coordInd == 0 && r.chain in Step(st, r).table.order
    ensures Step(st, r).table.coords[r.chain] == [PointOf(r)] && Step(st, r).table.cbInds[r.chain] == []
  {
  }

  /** A record of one chain leaves every other chain's entries alone, but
      advances the shared counter if its chain was seen before. */
  lemma StepKeeps(st: ReadState, r: AtomRecord, c: char)
    requires WellFormed(st.table) && c in st.table.order && c != r.chain
    ensures Step(st, r).coordInd == if r.chain in st.table.order then st.coordInd + 1 else 0
    ensures c in Step(st, r).table.order
    ensures Step(st, r).table.coords[c] == st.table.coords[c]
    ensures Step(st, r).table.caInds[c] == st.table.caInds[c] && Step(st, r).table.cbInds[c] == st.table.cbInds[c]
  {
  }

  /** A later record of a chain is recorded at the incremented counter. */
  lemma StepAppends(st: ReadState, r: AtomRecord)
    requires WellFormed(st.table) && r.chain in st.table.order
    ensures Step(st, r).coordInd == st.coordInd + 1
    ensures Step(st, r).table.coords[r.chain] == st.table.coords[r.chain] + [PointOf(r)]
    ensures Step(st, r).table.cbInds[r.chain] == Extend(st.table.cbInds[r.chain], IsRepresentative(r), st.coordInd + 1)
  {
  }

  lemma BuildFour(r0: AtomRecord, r1: AtomRecord, r2: AtomRecord, r3: AtomRecord)
    ensures Build([r0, r1, r2, r3]) == Step(Step(Step(Step(ReadState(EmptyTable, 0), r0), r1), r2), r3)
  {
    assert [r0] == [] + [r0] && [r0, r1] == [r0] + [r1] && [r0, r1, r2] == [r0, r1] + [r2];
    assert [r0, r1, r2, r3] == [r0, r1, r2] + [r3];
    BuildSnoc([], r0);
    BuildSnoc([r0], r1);
    BuildSnoc([r0, r1], r2);
    BuildSnoc([r0, r1, r2], r3);
  }

  lemma BuildFive(r0: AtomRecord, r1: AtomRecord, r2: AtomRecord, r3: AtomRecord, r4: AtomRecord)
    ensures Build([r0, r1, r2, r3, r4]) == Step(Step(Step(Step(Step(ReadState(EmptyTable, 0), r0), r1), r2), r3), r4)
  {
    BuildFour(r0, r1, r2, r3);
    assert [r0, r1, r2, r3, r4] == [r0, r1, r2, r3] + [r4];
    BuildSnoc([r0, r1, r2, r3], r4);
  }

  /** read_pdb's steps on a chain A atom, two chain B atoms and a chain A
      representative: the counter carries B's count into A. */
  lemma LeakedCounterSteps(a0: AtomRecord, b0: AtomRecord, b1: AtomRecord, a1: AtomRecord)
    requires a0.chain == a1.chain && b0.chain == b1.chain && a0.chain != b0.chain
    requires IsRepresentative(a1)
    ensures var s := Step(Step(Step(Step(ReadState(EmptyTable, 0), a0), b0), b1), a1);
      s.table.cbInds[a0.chain] == [2] && |s.table.coords[a0.chain]| == 2
  {
    var s0 := ReadState(EmptyTable, 0);
    var s1 := Step(s0, a0);
    StepOpens(s0, a0);
    var s2 := Step(s1, b0);
    StepKeeps(s1, b0, a0.chain);
    StepOpens(s1, b0);
    var s3 := Step(s2, b1);
    StepKeeps(s2, b1, a0.chain);
    StepAppends(s3, a1);
  }

  /** The chain-local reader on the same records indexes A's
      representative within A. */
  lemma CorrectedCounterExample(a0: AtomRecord, b0: AtomRecord, b1: AtomRecord, a1: AtomRecord)
    requires a0.chain == a1.chain && b0.chain == b1.chain && a0.chain != b0.chain
    requires IsRepresentative(a1)
    ensures CorrectedBuild([a0, b0, b1, a1]).cbInds[a0.chain] == [1]
  {
    var a := a0.chain;
    var recs := [a0, b0, b1, a1];
    assert [a0] == [] + [a0] && [a0, b0] == [a0] + [b0] && [a0, b0, b1] == [a0, b0] + [b1];
    assert recs == [a0, b0, b1] + [a1];
    ChainAtomsSnoc([], a0, a);
    ChainAtomsSnoc([a0], b0, a);
    ChainAtomsSnoc([a0, b0], b1, a);
    ChainAtomsSnoc([a0, b0, b1], a1, a);
    assert ChainAtoms(recs, a) == [a0] + [a1];
    MarkedIndicesSnoc([a0], a1, Representative);
    CorrectedKeys(recs, a);
    assert ChainIds(recs)[0] == a;
    CorrectedBuildChains(recs);
  }

  /** A chain's atoms around another chain's: with a first atom of chain A,
      a first and a second atom of chain B, and a representative of chain A,
      read_pdb records A's representative at index 2, past the end of A's
      two coordinates, where the chain-local counter gives 1. */
  lemma LeakedCounter(a0: AtomRecord, b0: AtomRecord, b1: AtomRecord, a1: AtomRecord)
    requires a0.chain == a1.chain && b0.chain == b1.chain && a0.chain != b0.chain
    requires IsRepresentative(a1)
    ensures Build([a0, b0, b1, a1]).table.cbInds[a0.chain] == [2]
    ensures |Build([a0, b0, b1, a1]).table.coords[a0.chain]| == 2
    ensures CorrectedBuild([a0, b0, b1, a1]).cbInds[a0.chain] == [1]
  {
    BuildFour(a0, b0, b1, a1);
    LeakedCounterSteps(a0, b0, b1, a1);
    CorrectedCounterExample(a0, b0, b1, a1);
  }

  /** Three atoms of one chain, none of the later two a representative. */
  lemma OneChainSteps(a0: AtomRecord, a1: AtomRecord, a2: AtomRecord)
    requires a1.chain == a0.chain && a2.chain == a0.chain
    requires !IsRepresentative(a1) && !IsRepresentative(a2)
    ensures var t := Step(Step(Step(ReadState(EmptyTable, 0), a0), a1), a2).table;
      && t.order == [a0.chain] && t.cbInds[a0.chain] == []
      && t.coords[a0.chain] == [PointOf(a0), PointOf(a1), PointOf(a2)]
  {
    var s0 := ReadState(EmptyTable, 0);
    var s1 := Step(s0, a0);
    StepOpens(s0, a0);
    var s2 := Step(s1, a1);
    StepAppends(s1, a1);
    StepAppends(s2, a2);
  }

  /** A new chain's atom resets the counter, so the next representative of
      an earlier chain is recorded at index 1. */
  lemma ResetThenAppend(st: ReadState, b0: AtomRecord, a3: AtomRecord)
    requires WellFormed(st.table) && st.table.order == [a3.chain] && b0.chain != a3.chain
    requires st.table.cbInds[a3.chain] == [] && IsRepresentative(a3)
    ensures var t := Step(Step(st, b0), a3).table;
      t.cbInds[a3.chain] == [1] && t.coords[a3.chain] == st.table.coords[a3.chain] + [PointOf(a3)]
  {
    StepOpens(st, b0);
    StepKeeps(st, b0, a3.chain);
    StepAppends(Step(st, b0), a3);
  }

  /** read_pdb's steps on chain A atoms a0, a1 and a2, a chain B atom, and
      a chain A representative a3: the counter, reset by B, records a3 at
      index 1. */
  lemma WrongAtomSteps(a0: AtomRecord, a1: AtomRecord, a2: AtomRecord, b0: AtomRecord, a3: AtomRecord)
    requires a1.chain == a0.chain && a2.chain == a0.chain && a3.chain == a0.chain && b0.chain != a0.chain
    requires !IsRepresentative(a1) && !IsRepresentative(a2) && IsRepresentative(a3)
    ensures var t := Step(Step(Step(Step(Step(ReadState(EmptyTable, 0), a0), a1), a2), b0), a3).table;
      && t.cbInds[a0.chain] == [1] && t.coords[a0.chain] == [PointOf(a0), PointOf(a1), PointOf(a2), PointOf(a3)]
  {
    OneChainSteps(a0, a1, a2);
    ResetThenAppend(Step(Step(Step(ReadState(EmptyTable, 0), a0), a1), a2), b0, a3);
  }

  /** read_pdb on chain A atoms a0, a1 and a2, a chain B atom, and a chain A
      representative a3, where a1 and a2 are not representatives: A gets
      the four coordinates in order and CB index list [1]. The index is in
      range, so no error is raised, but it names a1's coordinates rather
      than a3's. */
  lemma LeakedCounterWrongAtom(a0: AtomRecord, a1: AtomRecord, a2: AtomRecord, b0: AtomRecord, a3: AtomRecord)
    requires a1.chain == a0.chain && a2.chain == a0.chain && a3.chain == a0.chain && b0.chain != a0.chain
    requires !IsRepresentative(a1) && !IsRepresentative(a2) && IsRepresentative(a3)
    ensures var t := Build([a0, a1, a2, b0, a3]).table;
      t.cbInds[a0.chain] == [1] && t.coords[a0.chain] == [PointOf(a0), PointOf(a1), PointOf(a2), PointOf(a3)]
  {
    BuildFive(a0, a1, a2, b0, a3);
    WrongAtomSteps(a0, a1, a2, b0, a3);
  }

  // ---------------------------------------------------------------------
  // read_pdb_pdockq

  /** The per-chain dictionaries of read_pdb_pdockq: the chains in the
      order their first representative appears, each with its
      representatives' coordinates and B-factors. */
  datatype RepTable = RepTable(order: seq<char>, coords: map<char, seq<Point>>, plddt: map<char, seq<real>>)

  predicate RepWellFormed(t: RepTable) {
    && Distinct(t.order)
    && (forall c :: c in t.coords <==> c in t.order)
    && (forall c :: c in t.plddt <==> c in t.order)
  }

  const EmptyRepTable: RepTable := RepTable([], map[], map[])

  /** One record as read_pdb_pdockq handles it: only representatives are
      kept, each with its coordinates and its B-factor. */
  function AddRep(t: RepTable, r: AtomRecord): (t': RepTable)
    requires RepWellFormed(t)
    ensures RepWellFormed(t')
  {
    var c := r.chain;
    if !IsRepresentative(r) then t
    else if c in t.order then RepTable(t.order, t.coords[c := t.coords[c] + [PointOf(r)]], t.plddt[c := t.plddt[c] + [r.b]])
    else RepTable(t.order + [c], t.coords[c := [PointOf(r)]], t.plddt[c := [r.b]])
  }

  /** read_pdb_pdockq's dictionaries after the given records. */
  function BuildRep(recs: seq<AtomRecord>): (t: RepTable)
    ensures RepWellFormed(t)
  {
    if recs == [] then EmptyRepTable
    else AddRep(BuildRep(recs[..|recs| - 1]), recs[|recs| - 1])
  }

  lemma BuildRepSnoc(recs: seq<AtomRecord>, r: AtomRecord)
    ensures BuildRep(recs + [r]) == AddRep(BuildRep(recs), r)
  {
    assert (recs + [r])[..|recs|] == recs;
  }

  /** The representatives among the records, in file order. */
  function Representatives(recs: seq<AtomRecord>): (reps: seq<AtomRecord>)
    ensures forall k :: 0 <= k < |reps| ==> IsRepresentative(reps[k])
  {
    if recs == [] then []
    else Representatives(recs[..|recs| - 1]) + (if IsRepresentative(recs[|recs| - 1]) then [recs[|recs| - 1]] else [])
  }

  lemma RepresentativesSnoc(recs: seq<AtomRecord>, r: AtomRecord)
    ensures Representatives(recs + [r]) == Representatives(recs) + (if IsRepresentative(r) then [r] else [])
  {
    assert (recs + [r])[..|recs|] == recs;
  }

  /** Adding a representative keeps chain c's entries equal to the
      coordinates and B-factors of its representatives. */
  lemma AddRepChain(t: RepTable, r: AtomRecord, c: char, atoms: seq<AtomRecord>)
    requires RepWellFormed(t) && IsRepresentative(r)
    requires c in t.order ==> t.coords[c] == Points(atoms) && t.plddt[c] == BValues(atoms)
    requires c !in t.order ==> atoms == []
    requires c in AddRep(t, r).order
    ensures var atoms' := atoms + (if r.chain == c then [r] else []);
      AddRep(t, r).coords[c] == Points(atoms') && AddRep(t, r).plddt[c] == BValues(atoms')
  {
    if c != r.chain {
      assert atoms + [] == atoms;
    } else {
      PointsSnoc(atoms, r);
      BValuesSnoc(atoms, r);
    }
  }

  /** Chain keys, coordinates and B-factors of t are those of the given
      representatives. */
  predicate RepDescribes(t: RepTable, reps: seq<AtomRecord>)
    requires RepWellFormed(t)
  {
    && t.order == FirstSeen(ChainIds(reps))
    && forall c :: c in t.order ==>
      t.coords[c] == Points(ChainAtoms(reps, c)) && t.plddt[c] == BValues(ChainAtoms(reps, c))
  }

  lemma AddRepDescribes(t: RepTable, reps: seq<AtomRecord>, r: AtomRecord)
    requires RepWellFormed(t) && RepDescribes(t, reps) && IsRepresentative(r)
    ensures RepDescribes(AddRep(t, r), reps + [r])
  {
    OrderSnoc(t.order, reps, r);
    var t' := AddRep(t, r);
    forall c | c in t'.order
      ensures t'.coords[c] == Points(ChainAtoms(reps + [r], c)) && t'.plddt[c] == BValues(ChainAtoms(reps + [r], c))
    {
      ChainAtomsSnoc(reps, r, c);
      ChainAtomsEmpty(reps, c);
      AddRepChain(t, r, c, ChainAtoms(reps, c));
    }
  }

  /** read_pdb_pdockq keys the chains of the representatives in first-seen
      order and gives each chain the coordinates and the B-factors of its
      representatives, in file order. */
  lemma {:induction false} BuildRepChains(recs: seq<AtomRecord>)
    ensures RepDescribes(BuildRep(recs), Representatives(recs))
  {
    if recs != [] {
      var p, r := recs[..|recs| - 1], recs[|recs| - 1];
      assert recs == p + [r];
      BuildRepChains(p);
      RepresentativesSnoc(p, r);
      BuildRepSnoc(p, r);
      var t, reps := BuildRep(p), Representatives(p);
      if IsRepresentative(r) {
        AddRepDescribes(t, reps, r);
        assert BuildRep(recs) == AddRep(t, r) && Representatives(recs) == reps + [r];
      } else {
        assert BuildRep(recs) == t && Representatives(recs) == reps;
      }
    } else {
      assert ChainIds([]) == [];
    }
  }

  /** Every chain of read_pdb_pdockq has as many B-factors as coordinates,
      and at least one of each. */
  lemma RepLengths(recs: seq<AtomRecord>, c: char)
    requires c in BuildRep(recs).order
    ensures |BuildRep(recs).coords[c]| == |BuildRep(recs).plddt[c]| > 0
  {
    BuildRepChains(recs);
    FirstSeenMembers(ChainIds(Representatives(recs)), c);
    ChainAtomsEmpty(Representatives(recs), c);
  }

  /** read_pdb_pdockq on a whole file. */
  function ReadPdbPdockqSpec(lines: seq<string>, nums: Numerals): Result<RepTable, ParseError> {
    match ParseLines(lines, Parser(nums), StartsWithAtom)
    case Success(recs) => Success(BuildRep(recs))
    case Failure(e) => Failure(e)
  }

  /** The body of read_pdb_pdockq's loop for one parsed ATOM record. */
  method KeepRepresentative(chains0: seq<char>, coords0: map<char, seq<Point>>, plddt0: map<char, seq<real>>,
                            record: AtomRecord)
    returns (chains: seq<char>, chainCoords: map<char, seq<Point>>, chainPlddt: map<char, seq<real>>)
    requires RepWellFormed(RepTable(chains0, coords0, plddt0))
    ensures RepTable(chains, chainCoords, chainPlddt) == AddRep(RepTable(chains0, coords0, plddt0), record)
  {
    chains, chainCoords, chainPlddt := chains0, coords0, plddt0;
    var c := record.chain;
    if IsRepresentative(record) {
      if c in chains {
        chainCoords := chainCoords[c := chainCoords[c] + [PointOf(record)]];
        chainPlddt := chainPlddt[c := chainPlddt[c] + [record.b]];
      } else {
        chains := chains + [c];
        chainCoords := chainCoords[c := [PointOf(record)]];
        chainPlddt := chainPlddt[c := [record.b]];
      }
    }
  }

  /** read_pdb_pdockq: the lines starting with "ATOM" are parsed, and the
      representatives are kept per chain. */
  method ReadPdbPdockq(lines: seq<string>, nums: Numerals) returns (r: Result<RepTable, ParseError>)
    ensures r == ReadPdbPdockqSpec(lines, nums)
  {
    var chains: seq<char> := [];
    var chainCoords: map<char, seq<Point>> := map[];
    var chainPlddt: map<char, seq<real>> := map[];
    ghost var recs: seq<AtomRecord> := [];
    var i := 0;
    while i < |lines|
      invariant 0 <= i <= |lines|
      invariant ParseLines(lines[..i], Parser(nums), StartsWithAtom) == Success(recs)
      invariant BuildRep(recs) == RepTable(chains, chainCoords, chainPlddt)
    {
      var line := lines[i];
      assert lines[..i + 1][..i] == lines[..i];
      if StartsWithAtom(line) {
        var parsed := Parser(nums)(line);
        if parsed.Failure? {
          ParseLinesFailureSticks(lines, Parser(nums), StartsWithAtom, i + 1);
          return Failure(parsed.error);
        }
        var record := parsed.value;
        BuildRepSnoc(recs, record);
        chains, chainCoords, chainPlddt := KeepRepresentative(chains, chainCoords, chainPlddt, record);
        recs := recs + [record];
      }
      i := i + 1;
    }
    assert lines[..|lines|] == lines;
    r := Success(RepTable(chains, chainCoords, chainPlddt));
  }

  /** A line that starts with "ATOM" contains it. */
  lemma StartsWithAtomHasAtom(line: string)
    requires StartsWithAtom(line)
    ensures HasAtom(line)
  {
    assert OccursAt(line, "ATOM", 0);
  }

  /** Reading fewer lines cannot fail where reading more succeeds. */
  lemma {:induction false} ParseLinesFewer(lines: seq<string>, parse: LineParser, sel: string -> bool, sel': string -> bool)
    requires forall line :: sel'(line) ==> sel(line)
    requires ParseLines(lines, parse, sel).Success?
    ensures ParseLines(lines, parse, sel').Success?
  {
    if lines != [] {
      ParseLinesFewer(lines[..|lines| - 1], parse, sel, sel');
    }
  }

  /** Once read_pdb has read a file, read_pdb_pdockq reads it too: every
      line it parses is one read_pdb parsed. */
  lemma PdockqReadSucceeds(lines: seq<string>, nums: Numerals)
    requires ReadPdbSpec(lines, nums).Success?
    ensures ReadPdbPdockqSpec(lines, nums).Success?
  {
    forall line | StartsWithAtom(line) ensures HasAtom(line) {
      StartsWithAtomHasAtom(line);
    }
    ParseLinesFewer(lines, Parser(nums), HasAtom, StartsWithAtom);
  }
}
