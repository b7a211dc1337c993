# Schema spell checker

A model of the spell checker for schema MCF nodes in
`tools/statvar_importer/schema/schema_spell_checker.py`. It covers these parts:

- **Tokenizer** (`get_words`). It blanks every character that is not an ASCII
  letter and splits on spaces. It cuts each token at its CamelCase boundaries.
  It keeps the pieces of two letters or more that are not acronyms.
- **Ignore policy** (`should_ignore_spell_pv`, with `_DEFAULT_IGNORE_SPELL_PROPS`).
  It decides whether a property:value pair is exempt from checking.
- **Node checker** (`spell_check_pvs`, `spell_check_nodes`). For each pair it
  gathers the candidate words, asks the dictionary which are unknown, and
  records their sorted, comma-separated list under the property. It keeps only
  the nodes that have errors.
- **Corpus checker** (the flattening loop of `spell_check_mcf`). It numbers one
  record per (file, dcid, property) error densely from 0, in iteration order.
  It decides whether the report is written.
- **Dictionary** (`get_spell_checker`). It loads allow-list words and the
  configured allow-words into the checker's vocabulary.

Modules, one per file:

- `Strings` (`strings.dfy`): Python's `split`, `join` and `sorted` on strings.
- `Tokenizer` (`tokenizer.dfy`).
- `SpellConfig` (`spell_config.dfy`): the configuration keys that are read, and
  the two property-value utilities the checker calls.
- `IgnorePolicy` (`ignore_policy.dfy`).
- `Dictionary` (`dictionary.dfy`).
- `NodeChecker` (`node_checker.dfy`).
- `CorpusChecker` (`corpus_checker.dfy`).

How the model is built:

- **The dictionary** is a class `SpellChecker`. Its field `known` is the set of
  words it knows. Loading words adds to that set. `unknown` is set difference.
- **Ordered dictionaries.** The per-node error map and the per-file node map are
  Python dicts in insertion order. They become sequences of pairs.
- **The record map** `nodes_misspelled` is a `map<nat, Record>`.
- **Specification functions.** The methods are the source's loops. Each one is
  proved equal to a specification function:
  - `NodeReport` and `NodeErrorWords` for a node;
  - `NodesReport` for a list of nodes;
  - `CorpusRecords` for all files.
- **Rules as a parameter.** The node-level and corpus-level specifications take
  the per-pair error rule as a parameter. Their order and membership lemmas
  therefore hold whatever the rule is. The checker's own rule is
  `NodeChecker.Misspelled(known, config, ext)`.

The CamelCase regular expression `[^A-Z][A-Z0-9]` has a digit alternative. By
the time the expression runs, every digit has already been blanked to a space,
so that alternative never matches. The model keeps the expression as written.
`Tokenizer.CamelCutsExact` proves that on the letter-only tokens it actually
sees, a cut falls exactly before a capital whose predecessor is not a capital.

## Model

| member | source | states |
|---|---|---|
| Strings.SortedWords | tools/statvar_importer/schema/schema_spell_checker.py:232 | `sorted(error_words)`: the result is strictly ascending in code-point order, holds exactly the given words, and is the unique such listing |
| Strings.SortedUnique | tools/statvar_importer/schema/schema_spell_checker.py:232 | two strictly ascending lists with the same elements are equal, so the sorted error list depends only on the set of words |
| Strings.JoinSplit | tools/statvar_importer/schema/schema_spell_checker.py:356 | joining the pieces of `s.split(sep)` with `sep` gives back `s` |
| Strings.SplitPiecesFree | tools/statvar_importer/schema/schema_spell_checker.py:356 | no piece of `s.split(sep)` contains `sep` |
| Strings.SplitJoin | tools/statvar_importer/schema/schema_spell_checker.py:356 | splitting the join of separator-free pieces gives back exactly those pieces |
| Strings.SplitAround | tools/statvar_importer/schema/schema_spell_checker.py:102 | splitting `a + sep + b` gives the pieces of `a` followed by the pieces of `b` |
| Tokenizer.GetWords | tools/statvar_importer/schema/schema_spell_checker.py:90-119 | `get_words`: the result equals `Words(value)`, and every word is ASCII letters only, at least two long, and not an acronym |
| Tokenizer.CamelCutsExact | tools/statvar_importer/schema/schema_spell_checker.py:107-109 | on a letter-only token, the non-overlapping scan of `[^A-Z][A-Z0-9]` cuts exactly before each capital whose predecessor is not a capital |
| Tokenizer.SplitPositionsExact | tools/statvar_importer/schema/schema_spell_checker.py:107-110 | `split_pos` starts at 0, ends at `len(w)`, and its inner positions are exactly the lowercase-to-capital steps of the token |
| Tokenizer.CamelPiecesPartition | tools/statvar_importer/schema/schema_spell_checker.py:106-112 | the CamelCase pieces of a non-empty letter-only token are non-empty, letter-only, and concatenate back to the token |
| Tokenizer.CamelPieceBoundaries | tools/statvar_importer/schema/schema_spell_checker.py:106-112 | each piece after the first starts with a capital that follows a non-capital, and no piece has a lowercase-to-capital step inside it |
| Tokenizer.TokensAreLetters | tools/statvar_importer/schema/schema_spell_checker.py:100-102 | every space-separated token of the blanked value is made of ASCII letters only |
| Tokenizer.KeepTextWordsMembers | tools/statvar_importer/schema/schema_spell_checker.py:114-118 | a piece survives the acronym filter exactly when it has two or more characters and its first two are not both capitals |
| Tokenizer.WordsAreText | tools/statvar_importer/schema/schema_spell_checker.py:100-118 | every word returned is letters only, at least two long, and does not start with two capitals |
| Tokenizer.AcronymsDropped | tools/statvar_importer/schema/schema_spell_checker.py:114-118 | a word whose first two characters are capitals is never returned |
| Tokenizer.WordsAround | tools/statvar_importer/schema/schema_spell_checker.py:100-119 | the words of text around a non-letter are the words of the left part followed by the words of the right part, in order and with duplicates kept |
| Tokenizer.WordsOfCamelCase | tools/statvar_importer/schema/schema_spell_checker.py:100-119 | `get_words('geoStateId')` is `['geo', 'State', 'Id']` |
| IgnorePolicy.ShouldIgnoreSpellPv | tools/statvar_importer/schema/schema_spell_checker.py:122-186 | a pair is ignored exactly when a property rule holds (empty, `#`, invalid, in the ignore set, outside a non-empty check list), or the value is non-empty and a value heuristic holds (`dc/` with no capital, `@`, unquoted in text-only mode, a standalone `E<digits>` token) |
| IgnorePolicy.SearchENumberExact | tools/statvar_importer/schema/schema_spell_checker.py:184 | the left-to-right scan finds a match exactly when `\bE[0-9]+\b` matches somewhere in the value |
| IgnorePolicy.ENumberStartsAtExact | tools/statvar_importer/schema/schema_spell_checker.py:184 | the test at one start position succeeds exactly when a match of `\bE[0-9]+\b` starts there |
| IgnorePolicy.EmptyValueByPropertyOnly | tools/statvar_importer/schema/schema_spell_checker.py:142-164 | an empty value is judged by the property rules alone |
| IgnorePolicy.DefaultIgnoredProperty | tools/statvar_importer/schema/schema_spell_checker.py:152-157 | with no ignore list configured, each property of `_DEFAULT_IGNORE_SPELL_PROPS` is ignored whatever its value |
| IgnorePolicy.ConfiguredIgnoreListReplacesDefault | tools/statvar_importer/schema/schema_spell_checker.py:152-157 | a configured ignore list, even an empty one, replaces the default: under any configuration whose list omits `url` and whose check list is empty, a valid `url` is ignored exactly when its non-empty value meets a value heuristic |
| IgnorePolicy.LargerIgnoreListIgnoresMore | tools/statvar_importer/schema/schema_spell_checker.py:152-157 | an ignore list that contains the effective one ignores at least as much |
| IgnorePolicy.CheckPropsScoping | tools/statvar_importer/schema/schema_spell_checker.py:159-162 | with a non-empty `spell_check_props`, every other property is ignored |
| IgnorePolicy.TextOnlyIgnoresMore | tools/statvar_importer/schema/schema_spell_checker.py:178-180 | turning on text-only mode never un-ignores a pair |
| IgnorePolicy.TextOnlyChecksQuotedValues | tools/statvar_importer/schema/schema_spell_checker.py:178-180 | in text-only mode a checked non-empty value starts with a double quote |
| IgnorePolicy.GeneratedDcidIgnored | tools/statvar_importer/schema/schema_spell_checker.py:165-172 | `dc/vp8cbt6k79t94` is ignored under every property and configuration |
| IgnorePolicy.HumanDcidChecked | tools/statvar_importer/schema/schema_spell_checker.py:165-172 | `dc/g/Root` is not ignored under any configuration that is not text-only and whose property rules do not exempt the property |
| IgnorePolicy.NodeReferenceIgnored | tools/statvar_importer/schema/schema_spell_checker.py:182-185 | `E0/45f0043e` is ignored under every property and configuration |
| Dictionary.SpellChecker.constructor | tools/statvar_importer/schema/schema_spell_checker.py:340 | a new checker knows exactly the base lexicon |
| Dictionary.SpellChecker.Unknown | tools/statvar_importer/schema/schema_spell_checker.py:226 | `unknown(words)` returns exactly the queried words that are not known |
| Dictionary.SpellChecker.LoadWords | tools/statvar_importer/schema/schema_spell_checker.py:357 | loading adds exactly the given words to the known set |
| Dictionary.AllowWordsToLoad | tools/statvar_importer/schema/schema_spell_checker.py:344-356 | the default allow-words are `['dcs', 'dcid']`; a non-empty string is split on commas into pieces that join back to it and contain no comma |
| Dictionary.GetSpellChecker | tools/statvar_importer/schema/schema_spell_checker.py:337-365 | the vocabulary is the lexicon plus every allow-list file word plus the allow-words; the count is final minus initial unique words and is never negative |
| Dictionary.InFileWords | tools/statvar_importer/schema/schema_spell_checker.py:348-350 | every word of every allow-list file is loaded |
| Dictionary.AllowListedWordsKnown | tools/statvar_importer/schema/schema_spell_checker.py:347-357 | every allow-listed word, from a file or from the configuration, is known |
| Dictionary.DefaultAllowWordsKnown | tools/statvar_importer/schema/schema_spell_checker.py:344 | without `spell_allow_words`, `dcs` and `dcid` are known |
| Dictionary.AllowWordsNotTrimmed | tools/statvar_importer/schema/schema_spell_checker.py:355-356 | the comma form is not trimmed: `'geoId, dcs'` loads `geoId` and ` dcs` |
| NodeChecker.PvWords | tools/statvar_importer/schema/schema_spell_checker.py:215-223 | the candidates are the property's words unless in text-only mode or the property is known whole, plus the stripped value's words unless the value is known whole |
| NodeChecker.TextOnlySkipsPropertyName | tools/statvar_importer/schema/schema_spell_checker.py:216-219 | in text-only mode the property name contributes no candidate words |
| NodeChecker.KnownValueNotTokenized | tools/statvar_importer/schema/schema_spell_checker.py:221-223 | a value known verbatim contributes no candidate words |
| NodeChecker.PvErrorWordsAreWords | tools/statvar_importer/schema/schema_spell_checker.py:209-226 | a misspelled word comes from a pair that is not ignored, is unknown, letters only, and not an acronym |
| NodeChecker.SpellCheckPvs | tools/statvar_importer/schema/schema_spell_checker.py:189-237 | `spell_check_pvs`: returns the node's report and its misspelled-word set, as the specification functions define them |
| NodeChecker.ErrorListListsWords | tools/statvar_importer/schema/schema_spell_checker.py:232 | the error list is `', '.join` of the ascending listing of the words, and it is never empty |
| NodeChecker.NodeErrorWordsUnion | tools/statvar_importer/schema/schema_spell_checker.py:231 | the node's misspelled words are exactly the union of its pairs' misspelled words |
| NodeChecker.NoErrorWordsIffEmptyReport | tools/statvar_importer/schema/schema_spell_checker.py:226-232 | a node has no misspelled words exactly when its report is empty |
| NodeChecker.NodeReportSound | tools/statvar_importer/schema/schema_spell_checker.py:226-232 | each report entry is a pair of the node with misspelled words, holding their sorted list |
| NodeChecker.NodeReportComplete | tools/statvar_importer/schema/schema_spell_checker.py:226-232 | each pair with misspelled words has its entry in the report |
| NodeChecker.ReportKeysAreErroneousPairs | tools/statvar_importer/schema/schema_spell_checker.py:226-232 | with distinct property names, a property is a key of the report exactly when its pair has misspelled words |
| NodeChecker.IgnoredPairNotReported | tools/statvar_importer/schema/schema_spell_checker.py:210-213 | an ignored pair is never a key of the report |
| NodeChecker.ReportErrorListsNonEmpty | tools/statvar_importer/schema/schema_spell_checker.py:232 | every error list in a report is non-empty |
| NodeChecker.CheckNodes | tools/statvar_importer/schema/schema_spell_checker.py:264-280 | the loop of `spell_check_nodes` returns `NodesReport` of the nodes under the dictionary's words |
| NodeChecker.SpellCheckNodes | tools/statvar_importer/schema/schema_spell_checker.py:240-280 | `spell_check_nodes`: uses the given dictionary, or the one `get_spell_checker` builds when none is given |
| NodeChecker.NodesReportSound | tools/statvar_importer/schema/schema_spell_checker.py:267-274 | each `node_errors` entry is a node with misspelled words, paired with that node's report |
| NodeChecker.NodesReportComplete | tools/statvar_importer/schema/schema_spell_checker.py:267-274 | each node with misspelled words has its entry |
| NodeChecker.NodesWithoutErrorsAbsent | tools/statvar_importer/schema/schema_spell_checker.py:264-280 | with distinct dcids, a dcid is a key exactly when its node has misspelled words, and no entry is an empty report |
| CorpusChecker.AppendRecord | tools/statvar_importer/schema/schema_spell_checker.py:317 | storing a record under key `len(nodes_misspelled)` keeps the keys dense |
| CorpusChecker.AddNodeRecords | tools/statvar_importer/schema/schema_spell_checker.py:316-322 | one node's entries are appended as records under the next keys, in order |
| CorpusChecker.AddFileRecords | tools/statvar_importer/schema/schema_spell_checker.py:315-322 | one file's `node_errors` are appended as records under the next keys, in order |
| CorpusChecker.SpellCheckMcf | tools/statvar_importer/schema/schema_spell_checker.py:303-334 | the result holds exactly the corpus records under keys 0 to n-1 in iteration order; the report is written exactly when there is a record and an output path |
| CorpusChecker.InPairRecords | tools/statvar_importer/schema/schema_spell_checker.py:316-322 | a node's records are exactly its report entries, labelled with file and dcid |
| CorpusChecker.FileRecordOrigin | tools/statvar_importer/schema/schema_spell_checker.py:315-322 | each record of a file comes from an entry of its `node_errors` |
| CorpusChecker.FileRecordComplete | tools/statvar_importer/schema/schema_spell_checker.py:315-322 | each entry of a file's `node_errors` yields its records |
| CorpusChecker.FlattenOrigin | tools/statvar_importer/schema/schema_spell_checker.py:308-322 | each record comes from one of the files checked |
| CorpusChecker.FlattenComplete | tools/statvar_importer/schema/schema_spell_checker.py:308-322 | each record of a checked file is among all the records |
| CorpusChecker.RecordOrigin | tools/statvar_importer/schema/schema_spell_checker.py:308-322 | each record names a file, one of its nodes, and an entry of that node's report |
| CorpusChecker.RecordSound | tools/statvar_importer/schema/schema_spell_checker.py:308-322 | each record is (file, dcid, property, sorted error list) of a pair with misspelled words |
| CorpusChecker.RecordComplete | tools/statvar_importer/schema/schema_spell_checker.py:308-322 | each pair with misspelled words, in any node of any file, has its record |
| CorpusChecker.RecordErrorsNonEmpty | tools/statvar_importer/schema/schema_spell_checker.py:317-322 | no record has an empty error list |
| CorpusChecker.CleanCorpusHasNoRecords | tools/statvar_importer/schema/schema_spell_checker.py:325-326 | with no misspelled pair there are no records, so no report is written |

## Left out

- Counters and logging are observational only, so they are left out. This includes the `error_words` union in `spell_check_nodes`, which is only logged and counted.
- The `dcid` argument of `spell_check_pvs` is used only in a log message, so the model drops it.
- File I/O is left out:
  - globbing the input and allow-list patterns;
  - `load_mcf_nodes` and `load_text_file`;
  - `file_write_py_dict`.
- The model takes I/O results as inputs instead:
  - the MCF files as their names with their loaded nodes;
  - the allow-list files as the lists of their words.
- Writing the report becomes the returned `writeReport` flag.
- The `pyspellchecker` library is not shown. The base English vocabulary is the parameter `lexicon`. The dictionary is a set of exact strings, so the library's case folding in `unknown` and `load_words`, its word frequencies, and the tokenizing inside `load_text_file` are not modelled.
- `is_valid_property` and `strip_namespace` are not part of this model. They are function-valued fields of `SpellConfig.Externals`.
- Node values are strings. `str(value)` on other types, and the `isinstance(value, str)` test, are not modelled.
- `str.isupper` is Unicode-aware and the regular expression's `\b` uses Unicode word characters. The model uses ASCII: capitals `A`-`Z`, and word characters `[A-Za-z0-9_]`.
- The configuration is always present. Two fallbacks are not modelled:
  - the fallback for a missing or empty configuration map, including the flag defaults of `get_default_spell_config`;
  - the crash of `spell_check_pvs` when it is called without a configuration.
- Dicts keyed by property and by dcid are sequences of pairs. Their keys are distinct in the source. The lemmas that need this assume it (`DistinctProps`, distinct dcids). The methods themselves append in order.
- Command-line flags, `main` and the HTTP form launcher are left out.
