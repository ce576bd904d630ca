/** The input of a bait-versus-target pulldown: one FASTA file per bait,
    holding one paired record per target (the fan-out of
    make_input_fasta's main), and the target library's name taken from its
    file name. FASTA parsing and writing are not modelled: the baits and
    the targets are the parsed records in file order. */
module Fasta {
  import opened Seqs
  import opened Text

  datatype SeqRecord = SeqRecord(id: string, name: string, description: string, sequence: string)

  /** One output file: its name and its records, in order. */
  datatype PulldownFile = PulldownFile(fileName: string, records: seq<SeqRecord>)

  // target_name

  /** target_name as written: every ".fasta", then every ".fa", then every
      ".faa" is removed. */
  function TargetName(fileName: string): string {
    RemoveAll(RemoveAll(RemoveAll(fileName, ".fasta"), ".fa"), ".faa")
  }

  /** On "<stem>.faa" the ".fa" step has already cut the extension to "a"
      by the time the ".faa" step runs, so the name keeps a stray "a". */
  lemma TargetNameKeepsA(stem: string)
    requires '.' !in stem
    ensures TargetName(stem + ".faa") == stem + "a"
  {
    RemoveAllSkipsDotFree(stem, ".faa", ".fasta");
    assert RemoveAll(".faa", ".fasta") == ".faa";
    RemoveAllSkipsDotFree(stem, ".faa", ".fa");
    assert RemoveAll(".faa", ".fa") == "a" by {
      assert ".faa"[..3] == ".fa" && ".faa"[3..] == "a";
    }
    RemoveAllSkipsDotFree(stem, "a", ".faa");
    assert RemoveAll("a", ".faa") == "a";
  }

  /** The concrete case: "targets.faa" names the library "targetsa". */
  lemma TargetNameCounterExample()
    ensures TargetName("targets.faa") == "targetsa"
  {
    assert '.' !in "targets";
    TargetNameKeepsA("targets");
    assert "targets" + ".faa" == "targets.faa" && "targets" + "a" == "targetsa";
  }

  /** The evidently intended name: the longer ".faa" is removed before its
      prefix ".fa". */
  function CorrectedTargetName(fileName: string): string {
    RemoveAll(RemoveAll(RemoveAll(fileName, ".fasta"), ".faa"), ".fa")
  }

  lemma RemoveAllShort(s: string, p: string)
    requires 0 < |p| && |s| < |p|
    ensures RemoveAll(s, p) == s
  {
  }

  lemma RemoveAllWhole(p: string)
    requires 0 < |p|
    ensures RemoveAll(p, p) == ""
  {
    assert p[|p|..] == "";
  }

  /** Removing a dotted p from a dot-free stem followed by t only touches t. */
  lemma RemoveFromTail(stem: string, t: string, p: string, r: string)
    requires |p| > 0 && p[0] == '.' && '.' !in stem && RemoveAll(t, p) == r
    ensures RemoveAll(stem + t, p) == stem + r
  {
    RemoveAllSkipsDotFree(stem, t, p);
  }

  /** A dot-free stem with any of the three FASTA extensions, or none,
      is named by the stem alone. */
  lemma CorrectedTargetNameStem(stem: string, ext: string)
    requires '.' !in stem && ext in [".fasta", ".faa", ".fa", ""]
    ensures CorrectedTargetName(stem + ext) == stem
  {
    assert stem + "" == stem;
    if ext == ".fasta" {
      RemoveAllWhole(".fasta");
      RemoveFromTail(stem, ".fasta", ".fasta", "");
      RemoveFromTail(stem, "", ".faa", "");
      RemoveFromTail(stem, "", ".fa", "");
    } else if ext == ".faa" {
      RemoveAllWhole(".faa");
      RemoveFromTail(stem, ".faa", ".fasta", ".faa");
      RemoveFromTail(stem, ".faa", ".faa", "");
      RemoveFromTail(stem, "", ".fa", "");
    } else if ext == ".fa" {
      RemoveAllWhole(".fa");
      RemoveFromTail(stem, ".fa", ".fasta", ".fa");
      RemoveFromTail(stem, ".fa", ".faa", ".fa");
      RemoveFromTail(stem, ".fa", ".fa", "");
    } else {
      RemoveFromTail(stem, "", ".fasta", "");
      RemoveFromTail(stem, "", ".faa", "");
      RemoveFromTail(stem, "", ".fa", "");
    }
  }

  /** The written and the corrected name agree except on ".faa". */
  lemma TargetNamesAgree(stem: string, ext: string)
    requires '.' !in stem && ext in [".fasta", ".fa", ""]
    ensures TargetName(stem + ext) == CorrectedTargetName(stem + ext) == stem
  {
    CorrectedTargetNameStem(stem, ext);
    assert stem + "" == stem;
    if ext == ".fasta" {
      RemoveAllWhole(".fasta");
      RemoveFromTail(stem, ".fasta", ".fasta", "");
      RemoveFromTail(stem, "", ".fa", "");
      RemoveFromTail(stem, "", ".faa", "");
    } else if ext == ".fa" {
      RemoveAllWhole(".fa");
      RemoveFromTail(stem, ".fa", ".fasta", ".fa");
      RemoveFromTail(stem, ".fa", ".fa", "");
      RemoveFromTail(stem, "", ".faa", "");
    } else {
      RemoveFromTail(stem, "", ".fasta", "");
      RemoveFromTail(stem, "", ".fa", "");
      RemoveFromTail(stem, "", ".faa", "");
    }
  }

  // The fan-out

  function PulldownFileName(baitId: string, targetName: string): string {
    baitId + "_" + targetName + "_pulldown.fasta"
  }

  /** The paired record of a bait and a target. */
  function PairRecord(bait: SeqRecord, target: SeqRecord): SeqRecord {
    SeqRecord(bait.id + "__" + target.id, "", "", Upper(bait.sequence) + ":" + Upper(target.sequence))
  }

  /** The bait's records for the first n targets. */
  function BaitRecords(bait: SeqRecord, targets: seq<SeqRecord>, n: nat): (rs: seq<SeqRecord>)
    requires n <= |targets|
    ensures |rs| == n
  {
    if n == 0 then [] else BaitRecords(bait, targets, n - 1) + [PairRecord(bait, targets[n - 1])]
  }

  /** The files of the first n baits. */
  function Pulldowns(baits: seq<SeqRecord>, targets: seq<SeqRecord>, targetName: string, n: nat): (fs: seq<PulldownFile>)
    requires n <= |baits|
    ensures |fs| == n
  {
    if n == 0 then []
    else
      var bait := baits[n - 1];
      Pulldowns(baits, targets, targetName, n - 1)
        + [PulldownFile(PulldownFileName(bait.id, targetName), BaitRecords(bait, targets, |targets|))]
  }

  /** make_input_fasta's main after parsing: for each bait, in order, the
      records for all targets, in order. The library is named by
      target_name as written. */
  method MakePulldowns(baits: seq<SeqRecord>, targets: seq<SeqRecord>, targetFileName: string)
    returns (files: seq<PulldownFile>)
    ensures files == Pulldowns(baits, targets, TargetName(targetFileName), |baits|)
  {
    var targetName := TargetName(targetFileName);
    files := [];
    for b := 0 to |baits|
      invariant files == Pulldowns(baits, targets, targetName, b)
    {
      var bait := baits[b];
      var outputPath := PulldownFileName(bait.id, targetName);
      var records: seq<SeqRecord> := [];
      var baitSeq := Upper(bait.sequence);
      for t := 0 to |targets|
        invariant records == BaitRecords(bait, targets, t)
      {
        var target := targets[t];
        var targetSeq := Upper(target.sequence);
        records := records + [SeqRecord(bait.id + "__" + target.id, "", "", baitSeq + ":" + targetSeq)];
      }
      files := files + [PulldownFile(outputPath, records)];
    }
  }

  // The partner properties

  lemma {:induction false} BaitRecordAt(bait: SeqRecord, targets: seq<SeqRecord>, n: nat, k: nat)
    requires k < n <= |targets|
    ensures BaitRecords(bait, targets, n)[k] == PairRecord(bait, targets[k])
  {
    if k < n - 1 {
      BaitRecordAt(bait, targets, n - 1, k);
    }
  }

  lemma {:induction false} PulldownAt(baits: seq<SeqRecord>, targets: seq<SeqRecord>, targetName: string, n: nat, k: nat)
    requires k < n <= |baits|
    ensures Pulldowns(baits, targets, targetName, n)[k]
      == PulldownFile(PulldownFileName(baits[k].id, targetName), BaitRecords(baits[k], targets, |targets|))
  {
    if k < n - 1 {
      PulldownAt(baits, targets, targetName, n - 1, k);
    }
  }

  /** File b belongs to bait b and is named after it and the library; its
      record t pairs bait b with target t: the id joins the two ids with
      "__", the sequence joins the upper-cased sequences with ":", and the
      name and description are empty. */
  lemma PulldownRecord(baits: seq<SeqRecord>, targets: seq<SeqRecord>, targetName: string, b: nat, t: nat)
    requires b < |baits| && t < |targets|
    ensures var f := Pulldowns(baits, targets, targetName, |baits|)[b];
      && f.fileName == baits[b].id + "_" + targetName + "_pulldown.fasta"
      && |f.records| == |targets|
      && f.records[t].id == baits[b].id + "__" + targets[t].id
      && f.records[t].sequence == Upper(baits[b].sequence) + ":" + Upper(targets[t].sequence)
      && f.records[t].name == "" && f.records[t].description == ""
  {
    PulldownAt(baits, targets, targetName, |baits|, b);
    BaitRecordAt(baits[b], targets, |targets|, t);
  }

  function RecordCount(fs: seq<PulldownFile>): nat {
    if fs == [] then 0 else RecordCount(fs[..|fs| - 1]) + |fs[|fs| - 1].records|
  }

  /** The n first baits' files hold n times as many records as there are
      targets. */
  lemma {:induction false} PulldownCount(baits: seq<SeqRecord>, targets: seq<SeqRecord>, targetName: string, n: nat)
    requires n <= |baits|
    ensures RecordCount(Pulldowns(baits, targets, targetName, n)) == n * |targets|
  {
    if n > 0 {
      var fs := Pulldowns(baits, targets, targetName, n);
      PulldownCount(baits, targets, targetName, n - 1);
      assert fs[..n - 1] == Pulldowns(baits, targets, targetName, n - 1);
      assert n * |targets| == (n - 1) * |targets| + |targets|;
    }
  }

  lemma PrefixCancels(p: string, a: string, b: string)
    requires p + a == p + b
    ensures a == b
  {
    assert a == (p + a)[|p|..] && b == (p + b)[|p|..];
  }

  lemma SuffixCancels(a: string, b: string, q: string)
    requires a + q == b + q
    ensures a == b
  {
    assert |a| == |b|;
    assert a == (a + q)[..|a|] && b == (b + q)[..|b|];
  }

  /** Within a file the record ids are distinct when the target ids are. */
  lemma RecordIdsDistinct(baits: seq<SeqRecord>, targets: seq<SeqRecord>, targetName: string, b: nat)
    requires b < |baits|
    requires forall i, j :: 0 <= i < j < |targets| ==> targets[i].id != targets[j].id
    ensures var rs := Pulldowns(baits, targets, targetName, |baits|)[b].records;
      forall i, j :: 0 <= i < j < |rs| ==> rs[i].id != rs[j].id
  {
    var rs := Pulldowns(baits, targets, targetName, |baits|)[b].records;
    PulldownAt(baits, targets, targetName, |baits|, b);
    forall i, j | 0 <= i < j < |rs| ensures rs[i].id != rs[j].id {
      PulldownRecord(baits, targets, targetName, b, i);
      PulldownRecord(baits, targets, targetName, b, j);
      if rs[i].id == rs[j].id {
        assert baits[b].id + "__" + targets[i].id == (baits[b].id + "__") + targets[i].id;
        assert baits[b].id + "__" + targets[j].id == (baits[b].id + "__") + targets[j].id;
        PrefixCancels(baits[b].id + "__", targets[i].id, targets[j].id);
      }
    }
  }

  /** The file names are distinct when the bait ids are, so no bait's file
      overwrites another's. */
  lemma FileNamesDistinct(baits: seq<SeqRecord>, targets: seq<SeqRecord>, targetName: string)
    requires forall i, j :: 0 <= i < j < |baits| ==> baits[i].id != baits[j].id
    ensures var fs := Pulldowns(baits, targets, targetName, |baits|);
      forall i, j :: 0 <= i < j < |fs| ==> fs[i].fileName != fs[j].fileName
  {
    var fs := Pulldowns(baits, targets, targetName, |baits|);
    var q := "_" + targetName + "_pulldown.fasta";
    forall i, j | 0 <= i < j < |fs| ensures fs[i].fileName != fs[j].fileName {
      PulldownAt(baits, targets, targetName, |baits|, i);
      PulldownAt(baits, targets, targetName, |baits|, j);
      if fs[i].fileName == fs[j].fileName {
        assert PulldownFileName(baits[i].id, targetName) == baits[i].id + q;
        assert PulldownFileName(baits[j].id, targetName) == baits[j].id + q;
        SuffixCancels(baits[i].id, baits[j].id, q);
      }
    }
  }
}
