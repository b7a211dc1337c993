/**
  `spell_check_pvs` and `spell_check_nodes`: check every property:value pair
  of a node against the dictionary, and keep the nodes that have errors.
 */
module NodeChecker {
  import opened Strings
  import opened SpellConfig
  import opened Tokenizer
  import opened IgnorePolicy
  import opened Dictionary

  datatype PropertyValue = PropertyValue(prop: string, value: string)

  /** A node's property:value pairs in the node's own order (its dictionary items). */
  type Node = seq<PropertyValue>

  /** A dictionary has each key once. */
  predicate DistinctProps(node: Node)
  {
    forall i, j :: 0 <= i < j < |node| ==> node[i].prop != node[j].prop
  }

  /** `misspelled_pvs`: property and its error list, in insertion order. */
  type PropErrors = seq<(string, string)>

  /** `node_errors`: dcid and its `misspelled_pvs`, in insertion order. */
  type NodeErrors = seq<(string, PropErrors)>

  /**
    `pv_words`: the words of the property name unless in text-only mode or
    the name is known as a whole, plus the words of the value (namespace
    stripped) unless the value is known as a whole.
   */
  function Candidates(prop: string, value: string, known: set<string>, config: Config, ext: Externals): (candidates: set<string>)
  {
    (if !config.textOnly && prop !in known then Elems(Words(prop)) else {})
    + (if value !in known then Elems(Words(ext.stripNamespace(value))) else {})
  }

  /** The misspelled words of one pair: none if the pair is ignored, else its unknown candidates. */
  function PvErrorWords(pv: PropertyValue, known: set<string>, config: Config, ext: Externals): (errors: set<string>)
  {
    if ShouldIgnoreSpellPv(pv.prop, pv.value, config, ext) then {}
    else set w | w in Candidates(pv.prop, pv.value, known, config, ext) && w !in known
  }

  /**
    The misspelled words of each pair under one dictionary and configuration.
    The node- and corpus-level definitions below take this as a parameter,
    so what they say about order and membership holds whatever the pair
    rules are.
   */
  function Misspelled(known: set<string>, config: Config, ext: Externals): PropertyValue -> set<string>
  {
    pv => PvErrorWords(pv, known, config, ext)
  }

  /** `', '.join(sorted(errors))`. */
  ghost function ErrorList(errors: set<string>): string
  {
    Join(SortedOf(errors), ", ")
  }

  /** The `misspelled_pvs` a node yields: one entry per pair with misspelled words, in node order. */
  ghost function NodeReport(node: Node, errorsOf: PropertyValue -> set<string>): PropErrors
  {
    if node == [] then []
    else
      var pv := node[|node| - 1];
      NodeReport(node[..|node| - 1], errorsOf) + (if errorsOf(pv) == {} then [] else [(pv.prop, ErrorList(errorsOf(pv)))])
  }

  /** The misspelled words of a node: the union over its pairs. */
  ghost function NodeErrorWords(node: Node, errorsOf: PropertyValue -> set<string>): set<string>
  {
    if node == [] then {}
    else NodeErrorWords(node[..|node| - 1], errorsOf) + errorsOf(node[|node| - 1])
  }

  /** The words `spell_check_pvs` gathers from one property and its value. */
  method PvWords(prop: string, value: string, checker: SpellChecker, config: Config, ext: Externals)
    returns (pvWords: set<string>)
    ensures pvWords == Candidates(prop, value, checker.known, config, ext)
  {
    pvWords := {};
    if !config.textOnly {
      if checker.Unknown({prop}) != {} {
        // The property is not allowed as a whole: check all its words.
        var propWords := GetWords(prop);
        pvWords := Elems(propWords);
      }
    }
    if checker.Unknown({value}) != {} {
      // The value is not allowed as a whole: check all its words.
      var valueWords := GetWords(ext.stripNamespace(value));
      pvWords := pvWords + Elems(valueWords);
    }
  }

  /** `spell_check_pvs`: the node's `misspelled_pvs` and its set of misspelled words. */
  method SpellCheckPvs(node: Node, checker: SpellChecker, config: Config, ext: Externals)
    returns (misspelledPvs: PropErrors, wordsMisspelled: set<string>)
    ensures misspelledPvs == NodeReport(node, Misspelled(checker.known, config, ext))
    ensures wordsMisspelled == NodeErrorWords(node, Misspelled(checker.known, config, ext))
  {
    ghost var errorsOf := Misspelled(checker.known, config, ext);
    misspelledPvs, wordsMisspelled := [], {};
    for i := 0 to |node|
      invariant misspelledPvs == NodeReport(node[..i], errorsOf)
      invariant wordsMisspelled == NodeErrorWords(node[..i], errorsOf)
    {
      assert node[..i + 1][..i] == node[..i];
      var prop, value := node[i].prop, node[i].value;
      if !ShouldIgnoreSpellPv(prop, value, config, ext) {
        var pvWords := PvWords(prop, value, checker, config, ext);
        // Some candidate words: keep the unknown ones.
        if pvWords != {} {
          var errorWords := checker.Unknown(pvWords);
          assert errorWords == errorsOf(node[i]);
          if errorWords != {} {
            wordsMisspelled := wordsMisspelled + errorWords;
            var sortedWords := SortedWords(errorWords);
            misspelledPvs := misspelledPvs + [(prop, Join(sortedWords, ", "))];
          }
        } else {
          assert errorsOf(node[i]) == {};
        }
      } else {
        assert errorsOf(node[i]) == {};
      }
    }
    assert node[..|node|] == node;
  }

  /** The `node_errors` of a list of (dcid, node): the report of each node that has misspelled words. */
  ghost function NodesReport(nodes: seq<(string, Node)>, errorsOf: PropertyValue -> set<string>): NodeErrors
  {
    if nodes == [] then []
    else
      var (dcid, node) := nodes[|nodes| - 1];
      NodesReport(nodes[..|nodes| - 1], errorsOf)
        + (if NodeErrorWords(node, errorsOf) != {} then [(dcid, NodeReport(node, errorsOf))] else [])
  }

  /** The loop of `spell_check_nodes`: check each node with the dictionary given. */
  method CheckNodes(nodes: seq<(string, Node)>, config: Config, checker: SpellChecker, ext: Externals)
    returns (nodeErrors: NodeErrors)
    ensures nodeErrors == NodesReport(nodes, Misspelled(checker.known, config, ext))
  {
    ghost var errorsOf := Misspelled(checker.known, config, ext);
    nodeErrors := [];
    for i := 0 to |nodes|
      invariant nodeErrors == NodesReport(nodes[..i], errorsOf)
    {
      assert nodes[..i + 1][..i] == nodes[..i];
      var (dcid, node) := nodes[i];
      var misspelledPvs, misspelledWords := SpellCheckPvs(node, checker, config, ext);
      if misspelledWords != {} {
        // The node has errors: store its report under its dcid.
        nodeErrors := nodeErrors + [(dcid, misspelledPvs)];
      }
    }
    assert nodes[..|nodes|] == nodes;
  }

  /**
    `spell_check_nodes`: checks with the dictionary given, or, without one,
    with the dictionary `get_spell_checker` builds from the configuration
    (`lexicon` and `allowFiles` as there).
   */
  method SpellCheckNodes(nodes: seq<(string, Node)>, config: Config, spellChecker: Option<SpellChecker>, ext: Externals,
                         lexicon: set<string>, allowFiles: seq<seq<string>>)
    returns (nodeErrors: NodeErrors)
    ensures spellChecker.Some? ==> nodeErrors == NodesReport(nodes, Misspelled(spellChecker.value.known, config, ext))
    ensures spellChecker.None? ==>
      nodeErrors == NodesReport(nodes, Misspelled(AllowListVocabulary(config, lexicon, allowFiles), config, ext))
  {
    var checker: SpellChecker;
    if spellChecker.None? {
      // No dictionary given: build one from the configuration.
      var numWords;
      checker, numWords := GetSpellChecker(config, lexicon, allowFiles);
    } else {
      checker := spellChecker.value;
    }
    nodeErrors := CheckNodes(nodes, config, checker, ext);
  }

  // ---------------------------------------------------------------------
  // One pair.

  /** In text-only mode the property name never contributes candidate words. */
  lemma TextOnlySkipsPropertyName(prop: string, value: string, known: set<string>, config: Config, ext: Externals)
    requires config.textOnly
    ensures Candidates(prop, value, known, config, ext) <= Elems(Words(ext.stripNamespace(value)))
  {
  }

  /** A value the dictionary knows verbatim contributes no words. */
  lemma KnownValueNotTokenized(prop: string, value: string, known: set<string>, config: Config, ext: Externals)
    requires value in known
    ensures Candidates(prop, value, known, config, ext) <= Elems(Words(prop))
  {
  }

  /**
    The misspelled words of a pair are unknown words of two letters or more,
    made of letters only, none of them an acronym; an ignored pair has none.
   */
  lemma PvErrorWordsAreWords(pv: PropertyValue, known: set<string>, config: Config, ext: Externals, w: string)
    requires w in PvErrorWords(pv, known, config, ext)
    ensures !ShouldIgnoreSpellPv(pv.prop, pv.value, config, ext)
    ensures w !in known && AllLetters(w) && IsTextWord(w)
  {
    WordsAreText(pv.prop);
    WordsAreText(ext.stripNamespace(pv.value));
  }

  /** `Join` is at least as long as its first part. */
  lemma JoinLongerThanFirst(parts: seq<string>, sep: string)
    requires parts != []
    ensures |Join(parts, sep)| >= |parts[0]|
  {
  }

  /** An error list is the ascending listing of the words, and it is never empty. */
  lemma ErrorListListsWords(errors: set<string>, sortedWords: seq<string>)
    requires StrictlySorted(sortedWords) && Elems(sortedWords) == errors
    requires errors != {} && forall w :: w in errors ==> w != []
    ensures ErrorList(errors) == Join(sortedWords, ", ")
    ensures ErrorList(errors) != []
  {
    SortedUnique(sortedWords, SortedOf(errors));
    assert sortedWords[0] in errors;
    JoinLongerThanFirst(sortedWords, ", ");
  }

  // ---------------------------------------------------------------------
  // One node.

  /** The node's misspelled words are the union of its pairs' misspelled words. */
  lemma {:induction false} NodeErrorWordsUnion(node: Node, errorsOf: PropertyValue -> set<string>, w: string)
    ensures w in NodeErrorWords(node, errorsOf) <==> exists i :: 0 <= i < |node| && w in errorsOf(node[i])
    decreases |node|
  {
    if node != [] {
      var init := node[..|node| - 1];
      NodeErrorWordsUnion(init, errorsOf, w);
      if i :| 0 <= i < |init| && w in errorsOf(init[i]) {
        assert node[i] == init[i];
      }
      if i :| 0 <= i < |node| - 1 && w in errorsOf(node[i]) {
        assert init[i] == node[i];
      }
    }
  }

  /** A node has misspelled words exactly when its report has an entry. */
  lemma {:induction false} NoErrorWordsIffEmptyReport(node: Node, errorsOf: PropertyValue -> set<string>)
    ensures NodeErrorWords(node, errorsOf) == {} <==> NodeReport(node, errorsOf) == []
    decreases |node|
  {
    if node != [] {
      NoErrorWordsIffEmptyReport(node[..|node| - 1], errorsOf);
    }
  }

  /** Every report entry is a pair of the node with misspelled words, with their sorted list; returns the pair's index. */
  lemma {:induction false} NodeReportSound(node: Node, errorsOf: PropertyValue -> set<string>, k: int) returns (i: int)
    requires 0 <= k < |NodeReport(node, errorsOf)|
    ensures 0 <= i < |node| && errorsOf(node[i]) != {}
    ensures NodeReport(node, errorsOf)[k] == (node[i].prop, ErrorList(errorsOf(node[i])))
    decreases |node|
  {
    var init := node[..|node| - 1];
    var pv := node[|node| - 1];
    var before := NodeReport(init, errorsOf);
    var added := if errorsOf(pv) == {} then [] else [(pv.prop, ErrorList(errorsOf(pv)))];
    assert NodeReport(node, errorsOf) == before + added;
    if k < |before| {
      i := NodeReportSound(init, errorsOf, k);
      assert node[i] == init[i];
    } else {
      i := |node| - 1;
    }
  }

  /** Every pair with misspelled words has its entry in the report. */
  lemma {:induction false} NodeReportComplete(node: Node, errorsOf: PropertyValue -> set<string>, i: int)
    requires 0 <= i < |node| && errorsOf(node[i]) != {}
    ensures (node[i].prop, ErrorList(errorsOf(node[i]))) in NodeReport(node, errorsOf)
    decreases |node|
  {
    var init := node[..|node| - 1];
    if i < |node| - 1 {
      assert init[i] == node[i];
      NodeReportComplete(init, errorsOf, i);
    }
  }

  /** With distinct property names, a property is a key of the report exactly when its pair has misspelled words. */
  lemma ReportKeysAreErroneousPairs(node: Node, errorsOf: PropertyValue -> set<string>, i: int)
    requires DistinctProps(node) && 0 <= i < |node|
    ensures (exists k :: 0 <= k < |NodeReport(node, errorsOf)| && NodeReport(node, errorsOf)[k].0 == node[i].prop)
            <==> errorsOf(node[i]) != {}
  {
    var report := NodeReport(node, errorsOf);
    if errorsOf(node[i]) != {} {
      NodeReportComplete(node, errorsOf, i);
      var k :| 0 <= k < |report| && report[k] == (node[i].prop, ErrorList(errorsOf(node[i])));
    }
    forall k | 0 <= k < |report| && report[k].0 == node[i].prop
      ensures errorsOf(node[i]) != {}
    {
      var j := NodeReportSound(node, errorsOf, k);
    }
  }

  /** A pair the ignore rules exempt is never a key of its node's report. */
  lemma IgnoredPairNotReported(node: Node, known: set<string>, config: Config, ext: Externals, i: int)
    requires DistinctProps(node) && 0 <= i < |node|
    requires ShouldIgnoreSpellPv(node[i].prop, node[i].value, config, ext)
    ensures forall k :: 0 <= k < |NodeReport(node, Misspelled(known, config, ext))| ==>
      NodeReport(node, Misspelled(known, config, ext))[k].0 != node[i].prop
  {
    var errorsOf := Misspelled(known, config, ext);
    assert errorsOf(node[i]) == {};
    ReportKeysAreErroneousPairs(node, errorsOf, i);
  }

  /** Each error list in the report is non-empty. */
  lemma ReportErrorListsNonEmpty(node: Node, known: set<string>, config: Config, ext: Externals, k: int)
    requires 0 <= k < |NodeReport(node, Misspelled(known, config, ext))|
    ensures NodeReport(node, Misspelled(known, config, ext))[k].1 != []
  {
    var errorsOf := Misspelled(known, config, ext);
    var i := NodeReportSound(node, errorsOf, k);
    var errors := errorsOf(node[i]);
    forall w | w in errors ensures w != [] {
      PvErrorWordsAreWords(node[i], known, config, ext, w);
    }
    ErrorListListsWords(errors, SortedOf(errors));
  }

  // ---------------------------------------------------------------------
  // Many nodes.

  /** Every entry of `node_errors` is a node with misspelled words, with that node's report; returns the node's index. */
  lemma {:induction false} NodesReportSound(nodes: seq<(string, Node)>, errorsOf: PropertyValue -> set<string>, k: int)
    returns (i: int)
    requires 0 <= k < |NodesReport(nodes, errorsOf)|
    ensures 0 <= i < |nodes| && NodeErrorWords(nodes[i].1, errorsOf) != {}
    ensures NodesReport(nodes, errorsOf)[k] == (nodes[i].0, NodeReport(nodes[i].1, errorsOf))
    decreases |nodes|
  {
    var init := nodes[..|nodes| - 1];
    var before := NodesReport(init, errorsOf);
    if k < |before| {
      i := NodesReportSound(init, errorsOf, k);
      assert nodes[i] == init[i];
    } else {
      i := |nodes| - 1;
    }
  }

  /** Every node with misspelled words has its entry in `node_errors`. */
  lemma {:induction false} NodesReportComplete(nodes: seq<(string, Node)>, errorsOf: PropertyValue -> set<string>, i: int)
    requires 0 <= i < |nodes| && NodeErrorWords(nodes[i].1, errorsOf) != {}
    ensures (nodes[i].0, NodeReport(nodes[i].1, errorsOf)) in NodesReport(nodes, errorsOf)
    decreases |nodes|
  {
    var init := nodes[..|nodes| - 1];
    if i < |nodes| - 1 {
      assert init[i] == nodes[i];
      NodesReportComplete(init, errorsOf, i);
    }
  }

  /**
    With distinct dcids, a node is in `node_errors` exactly when it has
    misspelled words, and no entry is an empty report.
   */
  lemma NodesWithoutErrorsAbsent(nodes: seq<(string, Node)>, errorsOf: PropertyValue -> set<string>, i: int)
    requires 0 <= i < |nodes|
    requires forall a, b :: 0 <= a < b < |nodes| ==> nodes[a].0 != nodes[b].0
    ensures (exists k :: 0 <= k < |NodesReport(nodes, errorsOf)| && NodesReport(nodes, errorsOf)[k].0 == nodes[i].0)
            <==> NodeErrorWords(nodes[i].1, errorsOf) != {}
    ensures forall k :: 0 <= k < |NodesReport(nodes, errorsOf)| ==> NodesReport(nodes, errorsOf)[k].1 != []
  {
    var report := NodesReport(nodes, errorsOf);
    if NodeErrorWords(nodes[i].1, errorsOf) != {} {
      NodesReportComplete(nodes, errorsOf, i);
      var k :| 0 <= k < |report| && report[k] == (nodes[i].0, NodeReport(nodes[i].1, errorsOf));
    }
    forall k | 0 <= k < |report|
      ensures report[k].1 != []
      ensures report[k].0 == nodes[i].0 ==> NodeErrorWords(nodes[i].1, errorsOf) != {}
    {
      var j := NodesReportSound(nodes, errorsOf, k);
      NoErrorWordsIffEmptyReport(nodes[j].1, errorsOf);
    }
  }
}
