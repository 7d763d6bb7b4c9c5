/**
 * `normalizeLanguageCode`: turns the interface language code into the
 * name of an Uppy locale pack. A two-letter code is looked up in a fixed
 * table (undefined when absent); any other code has its first `-`
 * replaced by `_`.
 */
module UppyLocale {
  import opened Wrappers

  /** The table of two-letter codes and the locale each one selects. */
  const LangMapping: map<string, string> := map[
    "ar" := "ar_SA", "bg" := "bg_BG", "ca" := "ca_ES", "cs" := "cs_CZ",
    "da" := "da_DK", "de" := "de_DE", "el" := "el_GR", "en" := "en_US",
    "es" := "es_ES", "fa" := "fa_IR", "fi" := "fi_FI", "fr" := "fr_FR",
    "gl" := "gl_ES", "he" := "he_IL", "hi" := "hi_IN", "hr" := "hr_HR",
    "hu" := "hu_HU", "id" := "id_ID", "is" := "is_IS", "it" := "it_IT",
    "ja" := "ja_JP", "ko" := "ko_KR", "nb" := "nb_NO", "nl" := "nl_NL",
    "pl" := "pl_PL", "pt" := "pt_BR", "ro" := "ro_RO", "ru" := "ru_RU",
    "sk" := "sk_SK", "sr" := "sr_RS_Latin", "sv" := "sv_SE", "th" := "th_TH",
    "tr" := "tr_TR", "uk" := "uk_UA", "uz" := "uz_UZ", "vi" := "vi_VN",
    "zh" := "zh_CN"
  ]

  /** The index of the first `c` in `s`, or -1, as `indexOf` finds it. */
  function IndexOf(s: string, c: char): (i: int)
    ensures -1 <= i < |s|
    ensures i >= 0 ==> s[i] == c && forall j :: 0 <= j < i ==> s[j] != c
    ensures i == -1 ==> forall j :: 0 <= j < |s| ==> s[j] != c
  {
    if s == [] then -1
    else if s[0] == c then 0
    else
      var i := IndexOf(s[1..], c);
      if i == -1 then -1 else i + 1
  }

  /** `s.replace(from, to)` with a one-character string pattern: only the first occurrence. */
  function ReplaceFirst(s: string, from: char, to: char): (r: string)
    ensures |r| == |s|
    ensures forall j :: 0 <= j < |s| && j != IndexOf(s, from) ==> r[j] == s[j]
    ensures IndexOf(s, from) >= 0 ==> r[IndexOf(s, from)] == to
  {
    var i := IndexOf(s, from);
    if i < 0 then s else s[..i] + [to] + s[i + 1..]
  }

  /** `normalizeLanguageCode(code)`; None stands for `undefined`. */
  function NormalizeLanguageCode(code: string): (r: Option<string>)
    ensures |code| == 2 ==> (r.Some? <==> code in LangMapping)
    ensures |code| == 2 && code in LangMapping ==> r == Some(LangMapping[code])
    ensures |code| != 2 ==> r.Some? && |r.value| == |code|
  {
    if |code| == 2 then
      if code in LangMapping then Some(LangMapping[code]) else None
    else Some(ReplaceFirst(code, '-', '_'))
  }

  /** A code of another length without `-` is returned unchanged. */
  lemma NoDashUnchanged(code: string)
    requires |code| != 2 && forall j :: 0 <= j < |code| ==> code[j] != '-'
    ensures NormalizeLanguageCode(code) == Some(code)
  {
  }

  /**
   * Only the first `-` of a longer code is replaced: up to it the code is
   * kept, it becomes `_`, and everything after it, other dashes included,
   * is kept.
   */
  lemma FirstDashOnly(code: string, i: nat)
    requires |code| != 2 && i < |code| && code[i] == '-'
    requires forall j :: 0 <= j < i ==> code[j] != '-'
    ensures var r := NormalizeLanguageCode(code).value;
      r[..i] == code[..i] && r[i] == '_' && r[i + 1..] == code[i + 1..]
  {
    assert IndexOf(code, '-') == i;
  }

  /** The cases the table's comments single out, and an unknown two-letter code. */
  lemma Examples()
    ensures NormalizeLanguageCode("en") == Some("en_US")
    ensures NormalizeLanguageCode("pt") == Some("pt_BR")
    ensures NormalizeLanguageCode("zh") == Some("zh_CN")
    ensures NormalizeLanguageCode("xx") == None
  {
  }

  /** A region code with a dash: `pt-PT` becomes `pt_PT`. */
  lemma RegionExample()
    ensures NormalizeLanguageCode("pt-PT") == Some("pt_PT")
  {
    assert IndexOf("pt-PT", '-') == 2;
    assert "pt-PT"[..2] + ['_'] + "pt-PT"[3..] == "pt_PT";
  }
}
