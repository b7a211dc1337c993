/**
  `spell_check_mcf`: check every node of every MCF file with one dictionary
  and flatten the errors into records keyed 0, 1, 2, ... in discovery order.
 */
module CorpusChecker {
  import opened Strings
  import opened SpellConfig
  import opened Dictionary
  import opened NodeChecker

  /** One row of the report: a property of a node of a file, and its error list. */
  datatype Record = Record(file: string, dcid: string, property: string, spellErrors: string)

  /** An MCF file: its name and its nodes as (dcid, node), in file order. */
  type McfFile = (string, seq<(string, Node)>)

  /** The records of one node's `misspelled_pvs`. */
  ghost function PairRecords(file: string, dcid: string, pvs: PropErrors): seq<Record>
  {
    if pvs == [] then []
    else
      var (prop, errors) := pvs[|pvs| - 1];
      PairRecords(file, dcid, pvs[..|pvs| - 1]) + [Record(file, dcid, prop, errors)]
  }

  /** The records of one file's `node_errors`. */
  ghost function FileRecords(file: string, nodeErrors: NodeErrors): seq<Record>
  {
    if nodeErrors == [] then []
    else
      var (dcid, pvs) := nodeErrors[|nodeErrors| - 1];
      FileRecords(file, nodeErrors[..|nodeErrors| - 1]) + PairRecords(file, dcid, pvs)
  }

  /** The records of files already checked: each file name with its `node_errors`. */
  ghost function Flatten(checked: seq<(string, NodeErrors)>): seq<Record>
  {
    if checked == [] then []
    else
      var (file, nodeErrors) := checked[|checked| - 1];
      Flatten(checked[..|checked| - 1]) + FileRecords(file, nodeErrors)
  }

  /** Each file name with the `node_errors` of its nodes. */
  ghost function CheckedFiles(files: seq<McfFile>, errorsOf: PropertyValue -> set<string>): (checked: seq<(string, NodeErrors)>)
    ensures |checked| == |files|
  {
    if files == [] then []
    else
      var (file, nodes) := files[|files| - 1];
      CheckedFiles(files[..|files| - 1], errorsOf) + [(file, NodesReport(nodes, errorsOf))]
  }

  /** The records of all files, checked against the dictionary's words. */
  ghost function CorpusRecords(files: seq<McfFile>, errorsOf: PropertyValue -> set<string>): seq<Record>
  {
    Flatten(CheckedFiles(files, errorsOf))
  }

  /** The map holds the records under the keys 0 .. |records| - 1, in order, and nothing else. */
  ghost predicate DenseKeys(m: map<nat, Record>, records: seq<Record>)
  {
    && |m| == |records|
    && (forall k: nat :: k in m <==> k < |records|)
    && (forall k: nat :: k < |records| ==> m[k] == records[k])
  }

  /** Storing a record under the next key keeps the keys dense. */
  lemma AppendRecord(m: map<nat, Record>, records: seq<Record>, row: Record)
    requires DenseKeys(m, records)
    ensures DenseKeys(m[|m| := row], records + [row])
  {
    var m' := m[|m| := row];
    var records' := records + [row];
    assert |m| !in m;
    forall k: nat | k < |records'| ensures m'[k] == records'[k] {
      if k < |records| {
        assert records'[k] == records[k];
      }
    }
  }

  lemma PairRecordsStep(file: string, dcid: string, pvs: PropErrors, p: int)
    requires 0 <= p < |pvs|
    ensures PairRecords(file, dcid, pvs[..p + 1]) == PairRecords(file, dcid, pvs[..p]) + [Record(file, dcid, pvs[p].0, pvs[p].1)]
  {
    assert pvs[..p + 1][..p] == pvs[..p];
  }

  lemma FileRecordsStep(file: string, nodeErrors: NodeErrors, d: int)
    requires 0 <= d < |nodeErrors|
    ensures FileRecords(file, nodeErrors[..d + 1]) == FileRecords(file, nodeErrors[..d]) + PairRecords(file, nodeErrors[d].0, nodeErrors[d].1)
  {
    assert nodeErrors[..d + 1][..d] == nodeErrors[..d];
  }

  lemma CheckedFilesStep(files: seq<McfFile>, errorsOf: PropertyValue -> set<string>, f: int)
    requires 0 <= f < |files|
    ensures CheckedFiles(files[..f + 1], errorsOf)
            == CheckedFiles(files[..f], errorsOf) + [(files[f].0, NodesReport(files[f].1, errorsOf))]
  {
    assert files[..f + 1][..f] == files[..f];
  }

  lemma FlattenStep(checked: seq<(string, NodeErrors)>, file: string, nodeErrors: NodeErrors)
    ensures Flatten(checked + [(file, nodeErrors)]) == Flatten(checked) + FileRecords(file, nodeErrors)
  {
    assert (checked + [(file, nodeErrors)])[..|checked|] == checked;
  }

  /**
    The innermost loop of `spell_check_mcf`: stores each (property, errors)
    of one node's `misspelled_pvs` under the next free key.
   */
  method AddNodeRecords(nodesMisspelled: map<nat, Record>, ghost records: seq<Record>, mcfFile: string, dcid: string, errorPvs: PropErrors)
    returns (extended: map<nat, Record>)
    requires DenseKeys(nodesMisspelled, records)
    ensures DenseKeys(extended, records + PairRecords(mcfFile, dcid, errorPvs))
  {
    extended := nodesMisspelled;
    ghost var current := records;
    for p := 0 to |errorPvs|
      invariant current == records + PairRecords(mcfFile, dcid, errorPvs[..p])
      invariant DenseKeys(extended, current)
    {
      PairRecordsStep(mcfFile, dcid, errorPvs, p);
      var (prop, errors) := errorPvs[p];
      var row := Record(mcfFile, dcid, prop, errors);
      AppendRecord(extended, current, row);
      extended := extended[|extended| := row];
      current := current + [row];
    }
    assert errorPvs[..|errorPvs|] == errorPvs;
  }

  /** The two flattening loops of `spell_check_mcf` for one file's `node_errors`. */
  method AddFileRecords(nodesMisspelled: map<nat, Record>, ghost records: seq<Record>, mcfFile: string, nodeErrors: NodeErrors)
    returns (extended: map<nat, Record>)
    requires DenseKeys(nodesMisspelled, records)
    ensures DenseKeys(extended, records + FileRecords(mcfFile, nodeErrors))
  {
    extended := nodesMisspelled;
    ghost var current := records;
    for d := 0 to |nodeErrors|
      invariant current == records + FileRecords(mcfFile, nodeErrors[..d])
      invariant DenseKeys(extended, current)
    {
      ghost var rows := PairRecords(mcfFile, nodeErrors[d].0, nodeErrors[d].1);
      FileRecordsStep(mcfFile, nodeErrors, d);
      assert records + FileRecords(mcfFile, nodeErrors[..d + 1]) == current + rows;
      extended := AddNodeRecords(extended, current, mcfFile, nodeErrors[d].0, nodeErrors[d].1);
      current := current + rows;
    }
    assert nodeErrors[..|nodeErrors|] == nodeErrors;
  }

  /**
    `spell_check_mcf`: `files` are the matched MCF files with their loaded
    nodes. Builds the dictionary as `get_spell_checker` does, checks every
    file's nodes with it, and numbers the error records densely in file,
    node and property order; the report is written when there is at least
    one record and an output file is configured.
   */
  method SpellCheckMcf(files: seq<McfFile>, config: Config, ext: Externals, lexicon: set<string>, allowFiles: seq<seq<string>>)
    returns (nodesMisspelled: map<nat, Record>, writeReport: bool)
    ensures DenseKeys(nodesMisspelled, CorpusRecords(files, Misspelled(AllowListVocabulary(config, lexicon, allowFiles), config, ext)))
    ensures writeReport <==> |nodesMisspelled| > 0 && config.output != []
  {
    var checker, _ := GetSpellChecker(config, lexicon, allowFiles);
    ghost var known := checker.known;
    ghost var errorsOf := Misspelled(known, config, ext);

    // One dictionary for every file; records are numbered across files.
    nodesMisspelled := map[];
    ghost var checked: seq<(string, NodeErrors)> := [];
    for f := 0 to |files|
      invariant checker.known == known
      invariant checked == CheckedFiles(files[..f], errorsOf)
      invariant DenseKeys(nodesMisspelled, Flatten(checked))
    {
      CheckedFilesStep(files, errorsOf, f);
      var nodeErrors := SpellCheckNodes(files[f].1, config, Some(checker), ext, lexicon, allowFiles);
      nodesMisspelled := AddFileRecords(nodesMisspelled, Flatten(checked), files[f].0, nodeErrors);
      FlattenStep(checked, files[f].0, nodeErrors);
      checked := checked + [(files[f].0, nodeErrors)];
    }
    assert files[..|files|] == files;

    writeReport := |nodesMisspelled| > 0 && config.output != [];
  }

  // ---------------------------------------------------------------------
  // Which records there are.

  /** The records of a node are its `misspelled_pvs` entries, labelled with file and dcid. */
  lemma {:induction false} InPairRecords(file: string, dcid: string, pvs: PropErrors, r: Record)
    ensures r in PairRecords(file, dcid, pvs) <==> r.file == file && r.dcid == dcid && (r.property, r.spellErrors) in pvs
    decreases |pvs|
  {
    if pvs != [] {
      var init := pvs[..|pvs| - 1];
      var (prop, errors) := pvs[|pvs| - 1];
      InPairRecords(file, dcid, init, r);
      assert pvs == init + [(prop, errors)];
      assert PairRecords(file, dcid, pvs) == PairRecords(file, dcid, init) + [Record(file, dcid, prop, errors)];
    }
  }

  /** Each record of a file comes from an entry of its `node_errors`; returns the entry's index. */
  lemma {:induction false} FileRecordOrigin(file: string, nodeErrors: NodeErrors, r: Record) returns (d: int)
    requires r in FileRecords(file, nodeErrors)
    ensures 0 <= d < |nodeErrors| && r.file == file && r.dcid == nodeErrors[d].0
    ensures (r.property, r.spellErrors) in nodeErrors[d].1
    decreases |nodeErrors|
  {
    var init := nodeErrors[..|nodeErrors| - 1];
    var last := nodeErrors[|nodeErrors| - 1];
    if r in FileRecords(file, init) {
      d := FileRecordOrigin(file, init, r);
      assert nodeErrors[d] == init[d];
    } else {
      InPairRecords(file, last.0, last.1, r);
      d := |nodeErrors| - 1;
    }
  }

  /** Every entry of a file's `node_errors` yields its records. */
  lemma {:induction false} FileRecordComplete(file: string, nodeErrors: NodeErrors, d: int, r: Record)
    requires 0 <= d < |nodeErrors| && r.file == file && r.dcid == nodeErrors[d].0
    requires (r.property, r.spellErrors) in nodeErrors[d].1
    ensures r in FileRecords(file, nodeErrors)
    decreases |nodeErrors|
  {
    var init := nodeErrors[..|nodeErrors| - 1];
    var last := nodeErrors[|nodeErrors| - 1];
    if d < |nodeErrors| - 1 {
      assert init[d] == nodeErrors[d];
      FileRecordComplete(file, init, d, r);
    } else {
      InPairRecords(file, last.0, last.1, r);
    }
  }

  /** Each record of checked files comes from one of them; returns its index. */
  lemma {:induction false} FlattenOrigin(checked: seq<(string, NodeErrors)>, r: Record) returns (f: int)
    requires r in Flatten(checked)
    ensures 0 <= f < |checked| && r in FileRecords(checked[f].0, checked[f].1)
    decreases |checked|
  {
    var init := checked[..|checked| - 1];
    if r in Flatten(init) {
      f := FlattenOrigin(init, r);
      assert checked[f] == init[f];
    } else {
      f := |checked| - 1;
    }
  }

  /** Every record of a checked file is among the records of all checked files. */
  lemma {:induction false} FlattenComplete(checked: seq<(string, NodeErrors)>, f: int, r: Record)
    requires 0 <= f < |checked| && r in FileRecords(checked[f].0, checked[f].1)
    ensures r in Flatten(checked)
    decreases |checked|
  {
    var init := checked[..|checked| - 1];
    if f < |checked| - 1 {
      assert init[f] == checked[f];
      FlattenComplete(init, f, r);
    }
  }

  /** The checked form of file f is its name and the `node_errors` of its nodes. */
  lemma {:induction false} CheckedFilesAt(files: seq<McfFile>, errorsOf: PropertyValue -> set<string>, f: int)
    requires 0 <= f < |files|
    ensures CheckedFiles(files, errorsOf)[f] == (files[f].0, NodesReport(files[f].1, errorsOf))
    decreases |files|
  {
    if f < |files| - 1 {
      var init := files[..|files| - 1];
      CheckedFilesAt(init, errorsOf, f);
      assert init[f] == files[f];
    }
  }

  /** Where a record comes from: a file, a node of it, and an entry of that node's report. */
  lemma RecordOrigin(files: seq<McfFile>, errorsOf: PropertyValue -> set<string>, r: Record)
    returns (f: int, i: int, k: int)
    requires r in CorpusRecords(files, errorsOf)
    ensures 0 <= f < |files| && 0 <= i < |files[f].1|
    ensures r.file == files[f].0 && r.dcid == files[f].1[i].0
    ensures 0 <= k < |NodeReport(files[f].1[i].1, errorsOf)|
    ensures NodeReport(files[f].1[i].1, errorsOf)[k] == (r.property, r.spellErrors)
  {
    var checked := CheckedFiles(files, errorsOf);
    f := FlattenOrigin(checked, r);
    CheckedFilesAt(files, errorsOf, f);
    var nodes := files[f].1;
    var nodeErrors := NodesReport(nodes, errorsOf);
    var d := FileRecordOrigin(files[f].0, nodeErrors, r);
    i := NodesReportSound(nodes, errorsOf, d);
    var report := NodeReport(nodes[i].1, errorsOf);
    k :| 0 <= k < |report| && report[k] == (r.property, r.spellErrors);
  }

  /**
    Every record names a file, one of its nodes and one of that node's
    pairs with misspelled words, and carries the sorted list of those words.
   */
  lemma RecordSound(files: seq<McfFile>, errorsOf: PropertyValue -> set<string>, r: Record)
    requires r in CorpusRecords(files, errorsOf)
    ensures exists f, i, j :: (
      && 0 <= f < |files| && 0 <= i < |files[f].1| && 0 <= j < |files[f].1[i].1|
      && errorsOf(files[f].1[i].1[j]) != {}
      && r == Record(files[f].0, files[f].1[i].0, files[f].1[i].1[j].prop, ErrorList(errorsOf(files[f].1[i].1[j]))))
  {
    var f, i, k := RecordOrigin(files, errorsOf, r);
    var j := NodeReportSound(files[f].1[i].1, errorsOf, k);
    assert r == Record(files[f].0, files[f].1[i].0, files[f].1[i].1[j].prop, ErrorList(errorsOf(files[f].1[i].1[j])));
  }

  /** Every pair with misspelled words, in any node of any file, has its record. */
  lemma RecordComplete(files: seq<McfFile>, errorsOf: PropertyValue -> set<string>, f: int, i: int, j: int)
    requires 0 <= f < |files| && 0 <= i < |files[f].1| && 0 <= j < |files[f].1[i].1|
    requires errorsOf(files[f].1[i].1[j]) != {}
    ensures Record(files[f].0, files[f].1[i].0, files[f].1[i].1[j].prop, ErrorList(errorsOf(files[f].1[i].1[j])))
            in CorpusRecords(files, errorsOf)
  {
    var nodes := files[f].1;
    var node := nodes[i].1;
    var pv := node[j];
    var r := Record(files[f].0, nodes[i].0, pv.prop, ErrorList(errorsOf(pv)));
    NodeReportComplete(node, errorsOf, j);
    var w :| w in errorsOf(pv);
    NodeErrorWordsUnion(node, errorsOf, w);
    NodesReportComplete(nodes, errorsOf, i);
    var nodeErrors := NodesReport(nodes, errorsOf);
    var d :| 0 <= d < |nodeErrors| && nodeErrors[d] == (nodes[i].0, NodeReport(node, errorsOf));
    FileRecordComplete(files[f].0, nodeErrors, d, r);
    CheckedFilesAt(files, errorsOf, f);
    FlattenComplete(CheckedFiles(files, errorsOf), f, r);
  }

  /** No record of the checker's report has an empty error list. */
  lemma RecordErrorsNonEmpty(files: seq<McfFile>, known: set<string>, config: Config, ext: Externals, r: Record)
    requires r in CorpusRecords(files, Misspelled(known, config, ext))
    ensures r.spellErrors != []
  {
    var f, i, k := RecordOrigin(files, Misspelled(known, config, ext), r);
    ReportErrorListsNonEmpty(files[f].1[i].1, known, config, ext, k);
  }

  /** Without any misspelled pair there are no records, so no report is written. */
  lemma CleanCorpusHasNoRecords(files: seq<McfFile>, errorsOf: PropertyValue -> set<string>)
    requires forall f, i, j :: 0 <= f < |files| && 0 <= i < |files[f].1| && 0 <= j < |files[f].1[i].1|
               ==> errorsOf(files[f].1[i].1[j]) == {}
    ensures CorpusRecords(files, errorsOf) == []
  {
    var records := CorpusRecords(files, errorsOf);
    if records != [] {
      var f, i, k := RecordOrigin(files, errorsOf, records[0]);
      var j := NodeReportSound(files[f].1[i].1, errorsOf, k);
    }
  }
}
