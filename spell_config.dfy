/**
  The settings the spell checker reads from its configuration map, and the
  two property-value utilities it calls but does not define.
 */
module SpellConfig {

  datatype Option<+T> = None | Some(value: T)

  /** `spell_allow_words`: a list of words, or one string of comma-separated words. */
  datatype AllowWords = WordList(words: seq<string>) | WordText(text: string)

  /**
    The configuration map, one field per key the checker reads. A key that
    is absent is `None` where the checker distinguishes absence from an
    empty value, and the checker's own default otherwise.
   */
  datatype Config = Config(
    checkProps: set<string>,              // 'spell_check_props', default []
    ignoreProps: Option<set<string>>,     // 'spell_check_ignore_props', None when absent
    textOnly: bool,                       // 'spell_check_text_only', default False
    allowWords: Option<AllowWords>,       // 'spell_allow_words', None when absent
    output: string                        // 'spell_check_output', default ''
  )

  /** A configuration map with none of the keys set. */
  const EmptyConfig := Config({}, None, false, None, "")

  /**
    The property-value utilities used as black boxes: the property-name
    validity check and the namespace-prefix stripper.
   */
  datatype Externals = Externals(isValidProperty: string -> bool, stripNamespace: string -> string)
}
