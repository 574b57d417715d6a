/** The site's locale list and the request configuration that picks the locale
    and the message catalogue for a request. */
module I18n {
  import opened Wrappers

  /** The supported locale codes, in their listed order. */
  const Locales: seq<string> := ["zh", "en", "es", "vi", "id", "fr", "ms", "ar"]

  /** The locale used when the requested one is unusable. */
  const DefaultLocale: string := "zh"

  /** The URL path separator. */
  const Slash: char := '/'

  /** `locales.includes(s)`. Every listed code is two characters long and free
      of the path separator, so it is a single URL path segment. */
  predicate IsLocale(s: string)
    ensures IsLocale(s) ==> |s| == 2 && Slash !in s
  {
    s in Locales
  }

  /** The eight locale codes are pairwise distinct and the default comes first. */
  lemma LocalesWellFormed()
    ensures |Locales| == 8
    ensures forall i, j :: 0 <= i < j < |Locales| ==> Locales[i] != Locales[j]
    ensures IsLocale(DefaultLocale) && Locales[0] == DefaultLocale
  {
  }

  /** The locale a request is served in: the requested one when it is listed,
      the default otherwise (also when no locale was requested). */
  function ValidLocale(requested: Option<string>): (locale: string)
    ensures IsLocale(locale)
    ensures requested.Some? && IsLocale(requested.value) ==> locale == requested.value
    ensures requested.None? || !IsLocale(requested.value) ==> locale == DefaultLocale
  {
    if requested.Some? && IsLocale(requested.value) then requested.value else DefaultLocale
  }

  /** Validating an already valid locale changes nothing. */
  lemma ValidLocaleIdempotent(requested: Option<string>)
    ensures ValidLocale(Some(ValidLocale(requested))) == ValidLocale(requested)
  {
  }

  /** The configuration handed to the i18n library: the locale and the module
      path of the message catalogue that was loaded for it. */
  datatype RequestConfig = RequestConfig(locale: string, messages: string)

  /** Module path of the message catalogue of `locale`. */
  function MessagesPath(locale: string): (path: string)
    ensures |path| == |locale| + 17
    ensures path[..12] == "../messages/" && path[|path| - 5..] == ".json"
    ensures path[12..|path| - 5] == locale
  {
    "../messages/" + locale + ".json"
  }

  /** Distinct locales load distinct catalogues. */
  lemma MessagesPathInjective(a: string, b: string)
    requires MessagesPath(a) == MessagesPath(b)
    ensures a == b
  {
    assert a == MessagesPath(a)[12..|MessagesPath(a)| - 5];
  }

  /** The request configuration. `loadFails` says whether importing the
      catalogue of the validated locale failed; the import itself is not part
      of this model. */
  function GetRequestConfig(requested: Option<string>, loadFails: bool): (config: RequestConfig)
    ensures IsLocale(config.locale)
    ensures config.messages == MessagesPath(config.locale)
    ensures loadFails ==> config.locale == DefaultLocale
    ensures !loadFails && requested.Some? && IsLocale(requested.value) ==>
      config.locale == requested.value
    ensures !loadFails && (requested.None? || !IsLocale(requested.value)) ==>
      config.locale == DefaultLocale
  {
    var validLocale := ValidLocale(requested);
    if !loadFails then
      RequestConfig(validLocale, MessagesPath(validLocale))
    else
      RequestConfig(DefaultLocale, "../messages/zh.json")
  }

  /** The locale served is the requested one exactly when it is listed and its
      catalogue loads; in every other case it is the default. */
  lemma RequestConfigKeepsRequest(requested: Option<string>, loadFails: bool)
    ensures GetRequestConfig(requested, loadFails).locale == DefaultLocale
      || (requested.Some? && GetRequestConfig(requested, loadFails).locale == requested.value)
    ensures requested.Some? && requested.value != DefaultLocale ==>
      (GetRequestConfig(requested, loadFails).locale == requested.value
       <==> !loadFails && IsLocale(requested.value))
  {
  }
}
