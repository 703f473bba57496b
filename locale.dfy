/** `src/main/locale.ts`: choosing and loading the main process's message table. Reading
    and parsing `_locales/<name>/messages.json` is a parameter, `read`, from the on-disk
    directory name to the parsed table or the error thrown. */
module Locale {
  import opened Wrappers
  import Strings
  import I18n

  const AppLocaleRequired := "`appLocale` is required"

  /** What `loadLocale` returns. */
  datatype LoadedLocale = LoadedLocale(i18n: I18n.Translator, locale: string, messages: map<string, string>)

  /** `normalizeLocaleName`: every English variant is plain English. */
  function NormalizeLocaleName(locale: string): (r: string)
    ensures "en-" <= locale ==> r == "en"
    ensures !("en-" <= locale) ==> r == locale
  {
    if |locale| >= 3 && locale[..3] == "en-" then "en" else locale
  }

  /** The directory name of a locale: `locale.replace("-", "_")`. */
  function OnDiskName(locale: string): string
  {
    Strings.ReplaceFirstChar(locale, '-', '_')
  }

  /** Only the first '-' becomes '_'; every other character stays where it was. */
  lemma {:induction false} OnDiskNameMeans(locale: string)
    ensures |OnDiskName(locale)| == |locale|
    ensures '-' !in locale ==> OnDiskName(locale) == locale
    ensures '-' in locale ==> var i := Strings.IndexOf(locale, '-');
      && OnDiskName(locale)[i] == '_'
      && '-' !in OnDiskName(locale)[..i]
      && forall k :: 0 <= k < |locale| && k != i ==> OnDiskName(locale)[k] == locale[k]
  {
    if '-' in locale {
      var i := Strings.IndexOf(locale, '-');
      var r := OnDiskName(locale);
      assert r == locale[..i] + ['_'] + locale[i + 1..];
      assert r[..i] == locale[..i];
    }
  }

  /** `lodash.merge(english, messages)` on message tables: the locale's message wins key
      by key, and English fills in the rest. */
  function Overlay(english: map<string, string>, messages: map<string, string>): (r: map<string, string>)
    ensures r.Keys == english.Keys + messages.Keys
    ensures forall k :: k in messages ==> r[k] == messages[k]
    ensures forall k :: k in english && k !in messages ==> r[k] == english[k]
  {
    english + messages
  }

  /** `loadLocale`. A falsy app locale throws, and so does an English table that cannot be
      read; a locale table that cannot be read falls back to English under the name "en".
      The translator is set up with the app locale as given. */
  method LoadLocale(appLocale: string, read: string -> Result<map<string, string>>) returns (r: Result<LoadedLocale>)
    ensures appLocale == "" ==> r == Err(AppLocaleRequired)
    ensures appLocale != "" && read(OnDiskName("en")).Err? ==> r == Err(read(OnDiskName("en")).error)
    ensures appLocale != "" && read(OnDiskName("en")).Ok? ==>
      r.Ok? && r.value.i18n.locale == appLocale && r.value.i18n.messages == r.value.messages
    ensures appLocale != "" && read(OnDiskName("en")).Ok? && read(OnDiskName(NormalizeLocaleName(appLocale))).Ok? ==>
      && r.value.locale == NormalizeLocaleName(appLocale)
      && r.value.messages == Overlay(read(OnDiskName("en")).value, read(OnDiskName(NormalizeLocaleName(appLocale))).value)
    ensures appLocale != "" && read(OnDiskName("en")).Ok? && read(OnDiskName(NormalizeLocaleName(appLocale))).Err? ==>
      r.value.locale == "en" && r.value.messages == read(OnDiskName("en")).value
  {
    if appLocale == "" {
      return Err(AppLocaleRequired);
    }
    var englishRead := read(OnDiskName("en"));
    if englishRead.Err? {
      return Err(englishRead.error);
    }
    var english := englishRead.value;
    var localeName := NormalizeLocaleName(appLocale);
    var messages: map<string, string>;
    var attempt := read(OnDiskName(localeName));
    if attempt.Ok? {
      messages := Overlay(english, attempt.value);
    } else {
      localeName := "en";
      messages := english;
    }
    var i18n := I18n.Setup(appLocale, Some(messages));
    return Ok(LoadedLocale(i18n.value, localeName, messages));
  }

  /** For an English app locale the English table is read twice and overlaid on itself,
      which changes nothing. */
  lemma EnglishOverlaysItself(english: map<string, string>)
    ensures Overlay(english, english) == english
  {
  }
}
