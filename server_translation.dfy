/**
 * The server translation helper: the language comes from the `language`
 * cookie (default `en`) and the lookup and placeholder filling are the
 * client's.
 */
module ServerTranslation {

  import opened Common
  import I18n
  import UseTranslation

  /** `cookies().get("language")?.value || "en"`. */
  function GetLang(cookie: Option<string>): (r: string)
    ensures r != ""
    ensures cookie.None? || cookie == Some("") ==> r == "en"
    ensures cookie.Some? && cookie.value != "" ==> r == cookie.value
  {
    if cookie.Some? && cookie.value != "" then cookie.value else "en"
  }

  /** The server `_t(key, placeholderValues)`. */
  method T(cookie: Option<string>, bn: map<string, string>, key: string, values: seq<I18n.Placeholder>)
    returns (translation: string)
    ensures translation == I18n.SubstituteAll(I18n.Lookup(bn, GetLang(cookie), key), values)
  {
    var lang := GetLang(cookie);
    var template := I18n.Lookup(bn, lang, key);
    translation := I18n.Substitute(template, values);
  }

  /**
   * The server and the client translate alike once the client's language is
   * the cookie's. Both are built on the one `I18n` lookup and substitution,
   * as `_t` and `useTranslation` share the dictionaries and the `$` filling,
   * so the first two clauses hold by construction. Whatever the cookie
   * holds, a language other than Bengali, or a key the catalogue lacks or
   * leaves empty, is translated as the key itself with the values filled in.
   */
  lemma AgreesWithClient(cookie: Option<string>, bn: map<string, string>, key: string, values: seq<I18n.Placeholder>)
    ensures I18n.SubstituteAll(I18n.Lookup(bn, GetLang(cookie), key), values)
         == UseTranslation.Translate(bn, GetLang(cookie), key, values)
    ensures cookie.Some? && cookie.value != "" ==>
      UseTranslation.Translate(bn, cookie.value, key, values) == I18n.SubstituteAll(I18n.Lookup(bn, GetLang(cookie), key), values)
    ensures GetLang(cookie) != "bn" || key !in bn || bn[key] == "" ==>
      I18n.SubstituteAll(I18n.Lookup(bn, GetLang(cookie), key), values) == I18n.SubstituteAll(key, values)
  {
  }
}
