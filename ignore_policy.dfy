/**
  `should_ignore_spell_pv`: whether a property:value pair is exempt from
  spell checking. Property-level exemptions come first, then heuristics on
  non-empty values that recognise generated identifiers and tagged text.
 */
module IgnorePolicy {
  import opened Strings
  import opened SpellConfig

  /** `_DEFAULT_IGNORE_SPELL_PROPS`: language-tagged, URL-valued, JSON-valued and key properties. */
  const DefaultIgnoreSpellProps: set<string> := {
    "nameWithLanguage",
    "url", "descriptionUrl", "license", "sourceDataUrl", "cachedSourceDataUrl", "dataTransformationLogic",
    "geoJsonCoordinates", "geoJsonCoodinatesDP1", "geoJsonCoodinatesDP2", "geoJsonCoodinatesDP3",
    "keyString"
  }

  /** The configured ignore set, or the default one when the key is absent. */
  function EffectiveIgnoreProps(config: Config): set<string>
  {
    match config.ignoreProps
    case None => DefaultIgnoreSpellProps
    case Some(props) => props
  }

  /** `pat` occurs in `s` at position i. */
  predicate OccursAt(s: string, pat: string, i: int)
  {
    0 <= i && i + |pat| <= |s| && s[i..i + |pat|] == pat
  }

  /** `pat in s` for strings. */
  predicate Contains(s: string, pat: string)
  {
    exists i | 0 <= i <= |s| - |pat| :: OccursAt(s, pat, i)
  }

  /** Some character is a capital letter. */
  predicate HasUpper(s: string)
  {
    exists i | 0 <= i < |s| :: IsUpper(s[i])
  }

  /**
    `\bE[0-9]+\b` matches `value[a..b]`: an `E` that starts a word, then one
    or more digits, then the end of the word.
   */
  ghost predicate ENumberAt(value: string, a: int, b: int)
  {
    && 0 <= a && a + 1 < b <= |value|
    && value[a] == 'E'
    && (a == 0 || !IsWordChar(value[a - 1]))
    && (forall k :: a < k < b ==> IsDigit(value[k]))
    && (b == |value| || !IsWordChar(value[b]))
  }

  /** `re.search(r'\bE[0-9]+\b', value)` finds a match. */
  ghost predicate HasENumberToken(value: string)
  {
    exists a, b :: ENumberAt(value, a, b)
  }

  /** The end of the run of digits that starts at j. */
  function DigitRunEnd(value: string, j: nat): (e: nat)
    requires j <= |value|
    ensures j <= e <= |value|
    ensures forall k :: j <= k < e ==> IsDigit(value[k])
    ensures e == |value| || !IsDigit(value[e])
    decreases |value| - j
  {
    if j < |value| && IsDigit(value[j]) then DigitRunEnd(value, j + 1) else j
  }

  /** Whether a match of `\bE[0-9]+\b` starts at i: the digit run after the `E` must end a word. */
  predicate ENumberStartsAt(value: string, i: nat)
    requires i < |value|
  {
    && value[i] == 'E'
    && (i == 0 || !IsWordChar(value[i - 1]))
    && var e := DigitRunEnd(value, i + 1);
       e > i + 1 && (e == |value| || !IsWordChar(value[e]))
  }

  /** The regular-expression search, scanning start positions from i on. */
  function SearchENumber(value: string, i: nat): bool
    requires i <= |value|
    decreases |value| - i
  {
    if i == |value| then false
    else if ENumberStartsAt(value, i) then true
    else SearchENumber(value, i + 1)
  }

  /** A match starts at i exactly when the scan's test at i succeeds. */
  lemma ENumberStartsAtExact(value: string, i: nat)
    requires i < |value|
    ensures ENumberStartsAt(value, i) <==> exists b :: ENumberAt(value, i, b)
  {
    var e := DigitRunEnd(value, i + 1);
    if ENumberStartsAt(value, i) {
      assert ENumberAt(value, i, e);
    }
    if b :| ENumberAt(value, i, b) {
      // The digits run exactly to b: a digit at b would not end the word.
      assert e == b;
    }
  }

  /** The scan from i finds a match exactly when some match starts at i or later. */
  lemma {:induction false} SearchENumberExact(value: string, i: nat)
    requires i <= |value|
    ensures SearchENumber(value, i) <==> exists a, b :: i <= a && ENumberAt(value, a, b)
    decreases |value| - i
  {
    if i < |value| {
      ENumberStartsAtExact(value, i);
      SearchENumberExact(value, i + 1);
      if exists a, b :: i <= a && ENumberAt(value, a, b) {
        var a, b :| i <= a && ENumberAt(value, a, b);
        if a > i {
          assert exists a', b' :: i + 1 <= a' && ENumberAt(value, a', b');
        }
      }
    }
  }

  /** Exemptions that depend on the property alone (and the configuration). */
  ghost predicate PropertyExempt(prop: string, config: Config, ext: Externals)
  {
    || prop == []
    || prop[0] == '#'
    || !ext.isValidProperty(prop)
    || prop in EffectiveIgnoreProps(config)
    || (config.checkProps != {} && prop !in config.checkProps)
  }

  /** Exemptions that the value heuristics add for a non-empty value. */
  ghost predicate ValueExempt(value: string, config: Config)
  {
    || (Contains(value, "dc/") && !HasUpper(value))
    || '@' in value
    || (config.textOnly && value != [] && value[0] != '"')
    || HasENumberToken(value)
  }

  /**
    `should_ignore_spell_pv`. The pair is exempt exactly when one of the
    property rules holds, or the value is non-empty and one of the value
    heuristics holds; the E-number heuristic is the regular expression's
    meaning, not the scan that implements it.
   */
  function ShouldIgnoreSpellPv(prop: string, value: string, config: Config, ext: Externals): (ignore: bool)
    ensures ignore <==> PropertyExempt(prop, config, ext) || (value != [] && ValueExempt(value, config))
  {
    if prop == [] then true
    // Comment-like and invalid property names are exempt.
    else if prop[0] == '#' then true
    else if !ext.isValidProperty(prop) then true
    // Exempt by the configured or default ignore set.
    else if prop in EffectiveIgnoreProps(config) then true
    // A non-empty check list exempts everything outside it.
    else if config.checkProps != {} && prop !in config.checkProps then true
    else if value != [] then
      // Generated ids such as dc/vp8cbt6k79t94 have no capital letters.
      if Contains(value, "dc/") && !HasUpper(value) then true
      // Language-tagged values.
      else if '@' in value then true
      else if config.textOnly && value[0] != '"' then true
      // Generated node references such as E0/45f0043e.
      else
        SearchENumberExact(value, 0);
        SearchENumber(value, 0)
    else false
  }

  // ---------------------------------------------------------------------
  // Consequences.

  /** An empty value is judged by the property rules alone. */
  lemma EmptyValueByPropertyOnly(prop: string, config: Config, ext: Externals)
    ensures ShouldIgnoreSpellPv(prop, "", config, ext) <==> PropertyExempt(prop, config, ext)
  {
  }

  /** With no ignore list configured, every default ignored property is exempt, whatever its value. */
  lemma DefaultIgnoredProperty(prop: string, value: string, config: Config, ext: Externals)
    requires config.ignoreProps == None && prop in DefaultIgnoreSpellProps
    ensures ShouldIgnoreSpellPv(prop, value, config, ext)
  {
  }

  /**
    A configured ignore list replaces the default one: a valid `url` that the
    list does not name, with no check list, is judged by its value alone.
   */
  lemma ConfiguredIgnoreListReplacesDefault(value: string, config: Config, props: set<string>, ext: Externals)
    requires ext.isValidProperty("url")
    requires config.ignoreProps == Some(props) && "url" !in props && config.checkProps == {}
    ensures !ShouldIgnoreSpellPv("url", value, config, ext) <==> value == [] || !ValueExempt(value, config)
  {
  }

  /** With a non-empty list of properties to check, any other property is exempt. */
  lemma CheckPropsScoping(prop: string, value: string, config: Config, ext: Externals)
    requires config.checkProps != {} && prop !in config.checkProps
    ensures ShouldIgnoreSpellPv(prop, value, config, ext)
  {
  }

  /** Text-only mode never checks a pair that the normal mode ignores. */
  lemma TextOnlyIgnoresMore(prop: string, value: string, config: Config, ext: Externals)
    requires ShouldIgnoreSpellPv(prop, value, config, ext)
    ensures ShouldIgnoreSpellPv(prop, value, config.(textOnly := true), ext)
  {
  }

  /** In text-only mode a non-empty value that is checked begins with a double quote. */
  lemma TextOnlyChecksQuotedValues(prop: string, value: string, config: Config, ext: Externals)
    requires config.textOnly && value != []
    requires !ShouldIgnoreSpellPv(prop, value, config, ext)
    ensures value[0] == '"'
  {
  }

  /** A larger ignore list ignores at least as much. */
  lemma LargerIgnoreListIgnoresMore(prop: string, value: string, config: Config, more: set<string>, ext: Externals)
    requires EffectiveIgnoreProps(config) <= more
    requires ShouldIgnoreSpellPv(prop, value, config, ext)
    ensures ShouldIgnoreSpellPv(prop, value, config.(ignoreProps := Some(more)), ext)
  {
  }

  /** A generated id such as `dc/vp8cbt6k79t94` is exempt under every property and setting. */
  lemma GeneratedDcidIgnored(prop: string, config: Config, ext: Externals)
    ensures ShouldIgnoreSpellPv(prop, "dc/vp8cbt6k79t94", config, ext)
  {
    var v := "dc/vp8cbt6k79t94";
    assert OccursAt(v, "dc/", 0);
    assert !HasUpper(v);
  }

  /** A node reference such as `E0/45f0043e` is exempt under every property and setting. */
  lemma NodeReferenceIgnored(prop: string, config: Config, ext: Externals)
    ensures ShouldIgnoreSpellPv(prop, "E0/45f0043e", config, ext)
  {
    assert ENumberAt("E0/45f0043e", 0, 2);
  }

  /**
    A human-made id such as `dc/g/Root` is checked under every property and
    configuration that exempt nothing by property and are not text-only.
   */
  lemma HumanDcidChecked(prop: string, config: Config, ext: Externals)
    requires !PropertyExempt(prop, config, ext) && !config.textOnly
    ensures !ShouldIgnoreSpellPv(prop, "dc/g/Root", config, ext)
  {
    var v := "dc/g/Root";
    assert IsUpper(v[5]);
    forall a, b ensures !ENumberAt(v, a, b) {
      if 0 <= a < |v| { assert v[a] != 'E'; }
    }
  }
}
