/**
  The spell checker's dictionary and `get_spell_checker`, which seeds it with
  a base lexicon and then loads the words of the allow-list files and the
  configured allow-words into it.
 */
module Dictionary {
  import opened Strings
  import opened SpellConfig

  /**
    The dictionary object the checker queries, reduced to the set of words
    it knows: loading words adds to the set, and `unknown` returns the
    queried words that are not in it.
   */
  class SpellChecker {
    var known: set<string>

    constructor (lexicon: set<string>)
      ensures known == lexicon
    {
      known := lexicon;
    }

    /** `unknown(words)`: exactly the queried words the dictionary does not know. */
    function Unknown(words: set<string>): (r: set<string>)
      reads this
      ensures r <= words && r !! known
      ensures forall w :: w in words && w !in known ==> w in r
    {
      set w | w in words && w !in known
    }

    /** `word_frequency.unique_words`. */
    function UniqueWords(): nat
      reads this
    {
      |known|
    }

    /** `word_frequency.load_words(words)`; a loaded allow-list file is the list of its words. */
    method LoadWords(words: seq<string>)
      modifies this
      ensures known == old(known) + Elems(words)
    {
      known := known + Elems(words);
    }
  }

  /** The default of `spell_allow_words`. */
  const DefaultAllowWords: seq<string> := ["dcs", "dcid"]

  /**
    The allow-words that get loaded: the default list when the key is
    absent, a configured list as it is, and a non-empty string split on
    commas without trimming (an empty string or list loads nothing).
   */
  function AllowWordsToLoad(setting: Option<AllowWords>): (words: seq<string>)
    ensures setting == None ==> words == DefaultAllowWords
    ensures setting.Some? && setting.value.WordText? && setting.value.text != [] ==>
      && Join(words, [',']) == setting.value.text
      && forall k :: 0 <= k < |words| ==> ',' !in words[k]
  {
    var allowWords := match setting case None => WordList(DefaultAllowWords) case Some(w) => w;
    match allowWords
    case WordList(ws) => ws
    case WordText(text) =>
      if text == [] then []
      else
        JoinSplit(text, ',');
        SplitPiecesFree(text, ',');
        Split(text, ',')
  }

  /** All words of the allow-list files. */
  function FileWords(allowFiles: seq<seq<string>>): set<string>
  {
    if allowFiles == [] then {}
    else FileWords(allowFiles[..|allowFiles| - 1]) + Elems(allowFiles[|allowFiles| - 1])
  }

  /** The words the dictionary knows once `get_spell_checker` has loaded everything. */
  function AllowListVocabulary(config: Config, lexicon: set<string>, allowFiles: seq<seq<string>>): set<string>
  {
    lexicon + FileWords(allowFiles) + Elems(AllowWordsToLoad(config.allowWords))
  }

  /** A subset is no larger. */
  lemma {:induction false} SubsetNoLarger<T>(a: set<T>, b: set<T>)
    requires a <= b
    ensures |a| <= |b|
    decreases a
  {
    if a != {} {
      var x :| x in a;
      SubsetNoLarger(a - {x}, b - {x});
    }
  }

  /**
    `get_spell_checker`: `allowFiles` holds the words of each file the
    allow-list pattern matches, in match order. Returns the dictionary and
    the number of distinct words loading added to the lexicon.
   */
  method GetSpellChecker(config: Config, lexicon: set<string>, allowFiles: seq<seq<string>>)
    returns (checker: SpellChecker, numWords: int)
    ensures checker.known == AllowListVocabulary(config, lexicon, allowFiles)
    ensures lexicon <= checker.known
    ensures numWords == |checker.known| - |lexicon| && numWords >= 0
  {
    checker := new SpellChecker(lexicon);
    var initialWords := checker.UniqueWords();

    for i := 0 to |allowFiles|
      invariant checker.known == lexicon + FileWords(allowFiles[..i])
    {
      assert allowFiles[..i + 1][..i] == allowFiles[..i];
      checker.LoadWords(allowFiles[i]);
    }
    assert allowFiles[..|allowFiles|] == allowFiles;

    var allowWords := AllowWordsToLoad(config.allowWords);
    if allowWords != [] {
      checker.LoadWords(allowWords);
    }

    numWords := checker.UniqueWords() - initialWords;
    SubsetNoLarger(lexicon, checker.known);
  }

  // ---------------------------------------------------------------------
  // Consequences.

  /** The words of every file are among the file words. */
  lemma {:induction false} InFileWords(allowFiles: seq<seq<string>>, i: int, w: string)
    requires 0 <= i < |allowFiles| && w in allowFiles[i]
    ensures w in FileWords(allowFiles)
    decreases |allowFiles|
  {
    if i < |allowFiles| - 1 {
      var init := allowFiles[..|allowFiles| - 1];
      assert init[i] == allowFiles[i];
      InFileWords(init, i, w);
    }
  }

  /** Every allow-listed word, from a file or from the configuration, is known. */
  lemma AllowListedWordsKnown(config: Config, lexicon: set<string>, allowFiles: seq<seq<string>>, w: string)
    requires (exists i :: 0 <= i < |allowFiles| && w in allowFiles[i]) || w in AllowWordsToLoad(config.allowWords)
    ensures w in AllowListVocabulary(config, lexicon, allowFiles)
  {
    if i :| 0 <= i < |allowFiles| && w in allowFiles[i] {
      InFileWords(allowFiles, i, w);
    }
  }

  /** Without a `spell_allow_words` setting, `dcs` and `dcid` are known. */
  lemma DefaultAllowWordsKnown(config: Config, lexicon: set<string>, allowFiles: seq<seq<string>>)
    requires config.allowWords == None
    ensures "dcs" in AllowListVocabulary(config, lexicon, allowFiles)
    ensures "dcid" in AllowListVocabulary(config, lexicon, allowFiles)
  {
    assert "dcs" in DefaultAllowWords;
    assert "dcid" in DefaultAllowWords;
  }

  /** The comma-separated form is not trimmed: `'geoId, dcs'` loads `geoId` and ` dcs`. */
  lemma AllowWordsNotTrimmed()
    ensures AllowWordsToLoad(Some(WordText("geoId, dcs"))) == ["geoId", " dcs"]
  {
    var parts := ["geoId", " dcs"];
    assert Join(parts[1..], [',']) == " dcs";
    assert Join(parts, [',']) == "geoId" + [','] + " dcs" == "geoId, dcs";
    SplitJoin(parts, ',');
  }
}
