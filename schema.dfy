/**
 * The build configuration: its sections and their defaults, the script/font warnings
 * recorded when a configuration is built, and the deterministic output filename (which the
 * book id is derived from).
 */
module Schema {
  import opened Wrappers
  import opened Text
  import opened Registry

  datatype BookConfig = BookConfig(title: string, language: string)
  datatype QuranConfig = QuranConfig(script: string, source: string)
  datatype FontConfig = FontConfig(arabic: string)
  datatype LayoutConfig = LayoutConfig(structure: string, showAyahNumbers: bool, showBismillah: bool)
  datatype TranslationConfig = TranslationConfig(resourceId: int, language: string, name: string, abbreviation: string)
  /** `filename` empty means: derive it from the rest of the configuration. */
  datatype OutputConfig = OutputConfig(filename: string, directory: string)

  /** The whole configuration; `translation` absent means an Arabic-only book. */
  datatype BuildConfig = BuildConfig(
    book: BookConfig,
    quran: QuranConfig,
    font: FontConfig,
    translation: Option<TranslationConfig>,
    layout: LayoutConfig,
    output: OutputConfig)

  /** The default book title, "القرآن الكريم". */
  const DefaultTitle: string := "\U{0627}\U{0644}\U{0642}\U{0631}\U{0622}\U{0646} \U{0627}\U{0644}\U{0643}\U{0631}\U{064A}\U{0645}"

  const DefaultBook := BookConfig(DefaultTitle, "ar")
  const DefaultQuran := QuranConfig("qpc_uthmani_hafs", "quran_api")
  const DefaultFont := FontConfig("kfgqpc_uthmanic_hafs")
  const DefaultLayout := LayoutConfig("by_surah", true, true)
  const DefaultTranslation := TranslationConfig(20, "en", "Sahih International", "sahih")
  const DefaultOutput := OutputConfig("", "output")
  const DefaultConfig := BuildConfig(DefaultBook, DefaultQuran, DefaultFont, None, DefaultLayout, DefaultOutput)

  /**
   * `warnings`: building a configuration runs the pairing check and stores its warnings only
   * when there are some; reading them back yields the stored list or an empty one.
   */
  function Warnings(c: BuildConfig): (ws: seq<Warning>)
    ensures ws == ValidateScriptFontPair(c.quran.script, c.font.arabic)
    ensures |ws| <= 1
  {
    var found := ValidateScriptFontPair(c.quran.script, c.font.arabic);
    var stored: Option<seq<Warning>> := if found != [] then Some(found) else None;
    stored.GetOr([])
  }

  /** The layout key used in the filename: any translated book counts as bilingual. */
  function LayoutKey(c: BuildConfig): string {
    if c.translation.Some? then "bilingual_interleaved" else c.layout.structure
  }

  /** The language part of the filename: "{book}-{translation}-{abbreviation}" when translated. */
  function LangPart(c: BuildConfig): string {
    match c.translation
    case Some(t) => c.book.language + "-" + t.language + "-" + t.abbreviation
    case None => c.book.language
  }

  /** The filename parts joined with "_" behind "quran". */
  function NameFromParts(riwayah: string, font: string, layout: string, lang: string): (r: string)
    ensures r == "quran" + "_" + riwayah + "_" + font + "_" + layout + "_" + lang
  {
    JoinCons("_", "quran", [riwayah, font, layout, lang]);
    JoinCons("_", riwayah, [font, layout, lang]);
    JoinCons("_", font, [layout, lang]);
    JoinCons("_", layout, [lang]);
    assert ["quran", riwayah, font, layout, lang] == ["quran"] + [riwayah, font, layout, lang];
    assert [riwayah, font, layout, lang] == [riwayah] + [font, layout, lang];
    assert [font, layout, lang] == [font] + [layout, lang];
    assert [layout, lang] == [layout] + [lang];
    Join("_", ["quran", riwayah, font, layout, lang])
  }

  /** `auto_filename`: "quran", riwayah, font code, layout code and language joined with "_". */
  function AutoFilename(c: BuildConfig): (r: string)
    ensures r == "quran" + "_" + Riwayah(c.quran.script) + "_" + Abbreviate("font", c.font.arabic) + "_"
               + Abbreviate("layout", LayoutKey(c)) + "_" + LangPart(c)
  {
    NameFromParts(Riwayah(c.quran.script), Abbreviate("font", c.font.arabic), Abbreviate("layout", LayoutKey(c)), LangPart(c))
  }

  /** `output_filename`: the configured name when it is non-empty, else the derived one. */
  function OutputFilename(c: BuildConfig): (r: string)
    ensures c.output.filename != "" ==> r == c.output.filename
    ensures c.output.filename == "" ==> r == AutoFilename(c)
    ensures r != ""
  {
    if c.output.filename != "" then c.output.filename else AutoFilename(c)
  }

  /**
   * A translated book's filename always reads "quran_hafs_{font}_bilin_{book}-{lang}-{abbrev}",
   * whatever layout structure is configured.
   */
  lemma TranslatedFilename(c: BuildConfig)
    requires c.translation.Some?
    ensures AutoFilename(c) == "quran" + "_" + "hafs" + "_" + Abbreviate("font", c.font.arabic) + "_" + "bilin" + "_"
      + (c.book.language + "-" + c.translation.value.language + "-" + c.translation.value.abbreviation)
  {
    RiwayahAlwaysHafs(c.quran.script);
    AbbreviationsUsed();
  }

  /** An Arabic-only book's filename is "quran_hafs_{font}_{layout}_{book language}". */
  lemma ArabicOnlyFilename(c: BuildConfig)
    requires c.translation.None?
    ensures AutoFilename(c) == "quran" + "_" + "hafs" + "_" + Abbreviate("font", c.font.arabic) + "_"
      + Abbreviate("layout", c.layout.structure) + "_" + c.book.language
  {
    RiwayahAlwaysHafs(c.quran.script);
  }

  /** The parts of a configuration the derived filename is computed from. */
  predicate SameNamingInputs(c1: BuildConfig, c2: BuildConfig) {
    && c1.quran.script == c2.quran.script
    && c1.font.arabic == c2.font.arabic
    && c1.book.language == c2.book.language
    && c1.translation.Some? == c2.translation.Some?
    && (c1.translation.None? ==> c1.layout.structure == c2.layout.structure)
    && (c1.translation.Some? ==>
          c1.translation.value.language == c2.translation.value.language &&
          c1.translation.value.abbreviation == c2.translation.value.abbreviation)
  }

  /**
   * The derived filename depends on nothing else: not on the title, the source, the
   * translation's resource id or name, the display flags or the output directory, and for a
   * translated book not on the layout structure either.
   */
  lemma AutoFilenameDependsOnlyOnNamingInputs(c1: BuildConfig, c2: BuildConfig)
    requires SameNamingInputs(c1, c2)
    ensures AutoFilename(c1) == AutoFilename(c2)
  {
    assert LayoutKey(c1) == LayoutKey(c2);
    assert LangPart(c1) == LangPart(c2);
  }

  /** The all-defaults configuration passes the pairing check. */
  lemma DefaultConfigHasNoWarnings()
    ensures Warnings(DefaultConfig) == []
  {
    assert Lookup(ScriptFontPairs, "qpc_uthmani_hafs") == Some(["kfgqpc_uthmanic_hafs", "amiri_quran"]);
    DefaultFontValidates("qpc_uthmani_hafs");
  }

  /** The all-defaults configuration is named quran_hafs_kfgqpc_ayah_ar. */
  lemma DefaultConfigFilename()
    ensures OutputFilename(DefaultConfig) == "quran" + "_" + "hafs" + "_" + "kfgqpc" + "_" + "ayah" + "_" + "ar"
  {
    var c := DefaultConfig;
    assert c.output.filename == "" && c.translation.None?;
    assert c.font.arabic == "kfgqpc_uthmanic_hafs" && c.layout.structure == "by_surah" && c.book.language == "ar";
    ArabicOnlyFilename(c);
    AbbreviationsUsed();
  }
}
