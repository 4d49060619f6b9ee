/**
 * `VideoUpdater.update_video` up to, not including, the API call: the
 * request body it submits, with one localization per supported language.
 */
module VideoUpdater {

  /** The `languages` list: every tag a localization is written for. */
  const Languages: seq<string> :=
    ["ab", "aa", "af", "ak", "akk", "sq", "ase", "am", "ar", "arc", "hy", "as", "ay", "az", "bm", "bn", "bn-IN"] +
    ["ba", "eu", "be", "bh", "bi", "brx", "bs", "br", "bg", "my", "yue", "yue-HK", "ca", "chr", "zh", "zh-CN"] +
    ["zh-HK", "zh-Hans", "zh-SG", "zh-TW", "zh-Hant", "cho", "cop", "co", "cr", "hr", "cs", "da", "doi", "nl"] +
    ["nl-BE", "nl-NL", "dz", "en", "en-AU", "en-CA", "en-IN", "en-IE", "en-GB", "en-US", "eo", "et", "ee", "fo"] +
    ["fj", "fil", "fi", "fr", "fr-BE", "fr-CA", "fr-FR", "fr-CH", "ff", "gl", "lg", "ka", "de", "de-AT", "de-DE"] +
    ["de-CH", "el", "gn", "gu", "guz", "ht", "hak", "hak-TW", "bgc", "ha", "haw", "iw", "hi", "hi-Latn", "ho"] +
    ["hu", "is", "ig", "id", "ia", "ie", "iu", "ik", "ga", "it", "ja", "jv", "kl", "kln", "kam", "kn", "ks", "kk"] +
    ["km", "ki", "rw", "tlh", "kok", "ko", "ku", "ky", "lad", "lo", "la", "lv", "ln", "lt", "dsb", "lu", "luo"] +
    ["lb", "luy", "mk", "mai", "mg", "ms", "ms-SG", "ml", "mt", "mni", "mi", "mr", "mas", "mer", "nan", "nan-TW"] +
    ["mxp", "lus", "mn", "mn-Mong", "na", "nv", "ne", "pcm", "nd", "nso", "no", "oc", "or", "om", "pap", "ps"] +
    ["fa", "fa-AF", "fa-IR", "pl", "pt", "pt-BR", "pt-PT", "pa", "qu", "ro", "mo", "rm", "rn", "ru", "ru-Latn"] +
    ["sm", "sg", "sa", "sat", "sc", "gd", "sr", "sr-Cyrl", "sr-Latn", "sh", "sdp", "sn", "scn", "sd", "si", "sk"] +
    ["sl", "so", "nr", "st", "es", "es-419", "es-MX", "es-ES", "es-US", "su", "sw", "ss", "sv", "tl", "tg", "ta"] +
    ["tt", "te", "th", "bo", "ti", "tpi", "tok", "to", "ts", "tn", "tr", "tk", "tw", "uk", "hsb", "ur", "ug"] +
    ["uz", "ve", "vi", "vo", "vro", "cy", "fy", "wal", "wo", "xh", "yi", "yo", "zu"]

  /** The list's length and landmarks: first and last tag, and English at index 50. */
  lemma LanguagesListed()
    ensures |Languages| == 235
    ensures Languages[0] == "ab" && Languages[50] == "en" && Languages[234] == "zu"
  {
  }

  /** The fixed snippet fields: category 22 and default language English. */
  const CategoryId: string := "22"
  const DefaultLanguage: string := "en"

  /** One entry of the `localizations` dictionary. */
  datatype Localization = Localization(title: string, description: string)

  /** The `snippet` part of the body. */
  datatype Snippet = Snippet(title: string, description: string, categoryId: string, defaultLanguage: string)

  /** The request body: `id`, `snippet` and `localizations`. */
  datatype UpdateRequest = UpdateRequest(id: string, snippet: Snippet, localizations: map<string, Localization>)

  /** The invariant every body keeps: one localization per supported tag and
      no other, each a copy of the snippet's title and description. */
  ghost predicate IsUniformBroadcast(r: UpdateRequest) {
    (forall lang :: lang in r.localizations <==> lang in Languages)
    && forall lang :: lang in r.localizations ==>
         r.localizations[lang] == Localization(r.snippet.title, r.snippet.description)
  }

  /** The dictionary comprehension over `languages`. */
  function Localizations(title: string, description: string): (m: map<string, Localization>)
    ensures forall i :: 0 <= i < |Languages| ==> Languages[i] in m
    ensures forall lang :: lang in m ==> lang in Languages && m[lang] == Localization(title, description)
  {
    map lang | lang in Languages :: Localization(title, description)
  }

  /** The body `update_video(video_id, title, description)` submits. */
  function BuildRequest(videoId: string, title: string, description: string): (r: UpdateRequest)
    ensures r.id == videoId
    ensures r.snippet.title == title && r.snippet.description == description
    ensures r.snippet.categoryId == "22" && r.snippet.defaultLanguage == "en"
    ensures IsUniformBroadcast(r)
  {
    UpdateRequest(videoId, Snippet(title, description, CategoryId, DefaultLanguage),
                  Localizations(title, description))
  }

  /** The default language is itself among the localized ones. */
  lemma DefaultLanguageLocalized(videoId: string, title: string, description: string)
    ensures DefaultLanguage in BuildRequest(videoId, title, description).localizations
    ensures BuildRequest(videoId, title, description).localizations[DefaultLanguage]
              == Localization(title, description)
  {
  }

  /** The title and description can be read back from any localization of the body. */
  lemma LocalizationRoundTrip(videoId: string, title: string, description: string, lang: string)
    requires lang in Languages
    ensures var r := BuildRequest(videoId, title, description);
            lang in r.localizations
            && r.localizations[lang].title == title && r.localizations[lang].description == description
  {
  }

  /** Different titles or descriptions give different localization maps. */
  lemma BuildRequestInjective(videoId: string, t1: string, d1: string, t2: string, d2: string)
    requires BuildRequest(videoId, t1, d1).localizations == BuildRequest(videoId, t2, d2).localizations
    ensures t1 == t2 && d1 == d2
  {
    DefaultLanguageLocalized(videoId, t1, d1);
    DefaultLanguageLocalized(videoId, t2, d2);
  }
}
