/**
 * The client translation hook: the language atom, `_t` over it, and the
 * `toggle` between English and Bangla that also stores the choice through
 * the `setLanguage` server action.
 */
module UseTranslation {

  import opened Common
  import I18n

  /** `lang === "en" ? "bn" : "en"`. */
  function ToggledLang(lang: string): (r: string)
    ensures lang == "en" <==> r == "bn"
    ensures r == "en" || r == "bn"
  {
    if lang == "en" then "bn" else "en"
  }

  /** `lang || "en"`. */
  function EffectiveLang(lang: string): (r: string)
    ensures r != ""
    ensures lang != "" ==> r == lang
  {
    if lang == "" then "en" else lang
  }

  function Translate(bn: map<string, string>, lang: string, key: string, values: seq<I18n.Placeholder>): string {
    I18n.SubstituteAll(I18n.Lookup(bn, EffectiveLang(lang), key), values)
  }

  class Translator {
    /** The `i18nLangAtom` value. */
    var lang: string
    /** The language last handed to `setLanguage`, if any. */
    var stored: Option<string>
    /** The `bn` dictionary. */
    const bn: map<string, string>

    constructor(lang0: string, bn0: map<string, string>)
      ensures lang == lang0 && stored.None? && bn == bn0
    {
      lang := lang0;
      stored := None;
      bn := bn0;
    }

    /** `_t(key, placeholderValues)`. */
    method T(key: string, values: seq<I18n.Placeholder>) returns (translation: string)
      ensures translation == Translate(bn, lang, key, values)
    {
      var template := I18n.Lookup(bn, EffectiveLang(lang), key);
      translation := I18n.Substitute(template, values);
    }

    /** `toggle()`: the atom and the stored language both become the other language. */
    method Toggle()
      modifies this
      ensures lang == ToggledLang(old(lang))
      ensures stored == Some(ToggledLang(old(lang)))
    {
      var next := ToggledLang(lang);
      lang := next;
      stored := Some(next);
    }
  }

  /** Toggling from `en` or `bn` twice comes back; from any other value it settles on `bn` via `en`. */
  lemma ToggleTwice(lang: string)
    ensures lang == "en" || lang == "bn" ==> ToggledLang(ToggledLang(lang)) == lang
    ensures lang != "en" && lang != "bn" ==> ToggledLang(lang) == "en" && ToggledLang(ToggledLang(lang)) == "bn"
  {
  }

  /** With no placeholder values the translation is the dictionary entry or the key. */
  lemma NoValuesIsLookup(bn: map<string, string>, lang: string, key: string)
    ensures Translate(bn, lang, key, []) == I18n.Lookup(bn, EffectiveLang(lang), key)
    ensures lang == "" || lang == "en" ==> Translate(bn, lang, key, []) == key
  {
  }
}
