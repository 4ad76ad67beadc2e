/**
 * `build_epub`: from a configuration and the corpus its data source loaded to the list of
 * ZIP entries. The corpus is checked first (the build stops on any violation), the page
 * markers are stamped, the fonts are resolved, and the files are written in a fixed order:
 * container, display options, cover, the layout's chapters (and endnotes), table of
 * contents, stylesheet, fonts, package document. In a validated corpus no file replaces
 * another, so the archive lists exactly those paths, in that order.
 */
module Epub {
  import opened Wrappers
  import opened Models
  import opened Registry
  import opened Files
  import opened Builder
  import Schema
  import Validate
  import Navigation
  import Package

  datatype BuildError =
    | TranslationNeedsQuranApi
    | UnknownSource(source: string)
    | InvalidCorpus(errors: seq<Validate.Violation>)
    | UnregisteredFont(key: string)
    | LayoutNeedsTranslation(message: string)

  /** The font used for symbols the Arabic text fonts lack. */
  const SymbolFontKey: string := "scheherazade_new"

  const ContainerPath: string := "META-INF/" + "container.xml"
  const IbooksPath: string := "META-INF/" + "com.apple.ibooks." + "display-options.xml"
  const CoverPath: string := "OEBPS/" + "cover.xhtml"
  const TocPath: string := "OEBPS/" + "toc.xhtml"
  const CssPath: string := "OEBPS/" + "styles/base.css"
  const OpfPath: string := "OEBPS/" + "package.opf"

  function FontPath(filename: string): string {
    "OEBPS/" + "fonts/" + filename
  }

  /**
   * The data-source check: the Quran.com source takes any configuration; the Tanzil source
   * has no translations, so a translation with a non-zero resource id is refused; any other
   * source is unknown.
   */
  function SourceError(config: Schema.BuildConfig): Option<BuildError> {
    if config.quran.source == "quran_api" then None
    else if config.quran.source == "tanzil" then
      if config.translation.Some? && config.translation.value.resourceId != 0 then Some(TranslationNeedsQuranApi) else None
    else Some(UnknownSource(config.quran.source))
  }

  /** Why a build stops, checked in the order the build meets the conditions; `None` when it succeeds. */
  function BuildFailure(config: Schema.BuildConfig, m: Mushaf): Option<BuildError> {
    if SourceError(config).Some? then SourceError(config)
    else if Validate.ValidationErrors(m) != [] then Some(InvalidCorpus(Validate.ValidationErrors(m)))
    else if Lookup(Fonts, config.font.arabic).None? then Some(UnregisteredFont(config.font.arabic))
    else if SelectLayout(config).Err? then Some(LayoutNeedsTranslation(SelectLayout(config).error))
    else None
  }

  /** The symbol font is registered. */
  lemma SymbolFontRegistered()
    ensures Lookup(Fonts, SymbolFontKey) == Some(Fonts[1].1)
  {
    assert Fonts[0].0 != SymbolFontKey && Fonts[1].0 == SymbolFontKey;
  }

  function TemplateOf(layout: Layout): Template {
    match layout
    case BySurah => ChapterTemplate
    case Continuous => InlineTemplate
    case Interactive => InteractiveTemplate
    case Bilingual => BilingualTemplate
  }

  /** The interactive layout always writes endnotes; the bilingual one when some ayah has a footnote. */
  predicate HasEndnotes(layout: Layout, surahs: seq<Surah>) {
    layout.Interactive? || (layout.Bilingual? && EndnoteFootnotes(surahs) != [])
  }

  /** The chapter items a layout builder returns. */
  function LayoutItems(layout: Layout, surahs: seq<Surah>): seq<(string, string)> {
    ChapterItems(surahs) + (if HasEndnotes(layout, surahs) then [EndnotesItem] else [])
  }

  /** The `files` dictionary after a layout builder ran on `t`. */
  function LayoutFiles(t: Table<Doc>, layout: Layout, surahs: seq<Surah>): Table<Doc> {
    var chapters := AssignAll(t, ChapterFiles(surahs, TemplateOf(layout)));
    match layout
    case Interactive => Assign(chapters, EndnotesPath, EndnotesPage(TranslationNotes(Reading(surahs)), []))
    case Bilingual =>
      if EndnoteFootnotes(surahs) != [] then Assign(chapters, EndnotesPath, EndnotesPage([], EndnoteFootnotes(surahs)))
      else chapters
    case _ => chapters
  }

  /** The layout dispatch of `build_epub`, once the layout is known to be available. */
  method RenderLayout(files: FileSet, layout: Layout, surahs: seq<Surah>) returns (items: seq<(string, string)>)
    modifies files
    ensures items == LayoutItems(layout, surahs)
    ensures files.entries == LayoutFiles(old(files.entries), layout, surahs)
  {
    match layout
    case Interactive =>
      items := BuildInteractive(files, surahs);
    case Bilingual =>
      items := BuildBilingual(files, surahs);
    case Continuous =>
      items := RenderChapters(files, surahs, InlineTemplate);
    case BySurah =>
      items := RenderChapters(files, surahs, ChapterTemplate);
  }

  /** The filenames of the fonts shipped: the text font, and the symbol font when it is another file. */
  function FontFilenames(primary: FontInfo, symbol: FontInfo): seq<string> {
    [primary.filename] + (if symbol.filename != primary.filename then [symbol.filename] else [])
  }

  function ChapterPaths(surahs: seq<Surah>): seq<string> {
    seq(|surahs|, i requires 0 <= i < |surahs| => ChapterPath(surahs[i].number))
  }

  /** The paths a successful build writes, in order. */
  function BookPaths(layout: Layout, surahs: seq<Surah>, primary: FontInfo, symbol: FontInfo): seq<string> {
    [ContainerPath, IbooksPath, CoverPath]
    + ChapterPaths(surahs)
    + (if HasEndnotes(layout, surahs) then [EndnotesPath] else [])
    + [TocPath, CssPath]
    + FontPaths(primary, symbol)
    + [OpfPath]
  }

  /** The package document of a successful build. */
  function BookOpf(
    config: Schema.BuildConfig, layout: Layout, surahs: seq<Surah>, primary: FontInfo, symbol: FontInfo,
    uuid5: (string, string) -> string, riwayahArabic: Table<string>, layoutLabels: Table<(string, string)>): Package.Opf
  {
    var items := LayoutItems(layout, surahs);
    Package.Opf(
      Package.BookId(config, uuid5),
      DescriptiveTitle(config, riwayahArabic, layoutLabels),
      Package.Languages(config),
      Package.Manifest(items, FontFilenames(primary, symbol)),
      Package.Spine(items))
  }

  function Names(zip: seq<ZipEntry>): seq<string> {
    seq(|zip|, i requires 0 <= i < |zip| => zip[i].name)
  }

  // ---------------------------------------------------------------------------------------
  // Paths do not collide
  // ---------------------------------------------------------------------------------------

  /**
   * The kind of a path, told by one or two characters: the two META-INF files, then under
   * OEBPS the cover, the chapters, the endnotes, the table of contents, the stylesheet, the
   * fonts and the package document. Paths of different kinds differ.
   */
  function PathKind(path: string): nat {
    if |path| > 11 && path[0] == 'M' then (if path[11] == 'n' then 0 else 1)
    else if |path| > 7 && path[6] == 'c' then (if path[7] == 'o' then 2 else 3)
    else if |path| > 6 && path[6] == 'e' then 4
    else if |path| > 6 && path[6] == 't' then 5
    else if |path| > 6 && path[6] == 's' then 6
    else if |path| > 6 && path[6] == 'f' then 7
    else 8
  }

  lemma PrefixAt(p: string, q: string, i: nat)
    requires i < |q|
    ensures (p + q)[|p| + i] == q[i] && |p + q| > |p| + i
  {
  }

  lemma PathKinds(n: int, f: string)
    ensures PathKind(ContainerPath) == 0 && PathKind(IbooksPath) == 1 && PathKind(CoverPath) == 2
    ensures PathKind(ChapterPath(n)) == 3 && PathKind(EndnotesPath) == 4 && PathKind(TocPath) == 5
    ensures PathKind(CssPath) == 6 && PathKind(FontPath(f)) == 7 && PathKind(OpfPath) == 8
  {
    MetaInfKinds();
    ContentKinds(n);
    SupportKinds(f);
  }

  lemma MetaInfKinds()
    ensures PathKind(ContainerPath) == 0 && PathKind(IbooksPath) == 1
  {
    PrefixAt("META-INF/", "container.xml", 2);
    assert ContainerPath[0] == 'M';
    PrefixAt("META-INF/", "com.apple.ibooks." + "display-options.xml", 2);
    assert IbooksPath[0] == 'M';
  }

  lemma ContentKinds(n: int)
    ensures PathKind(CoverPath) == 2 && PathKind(ChapterPath(n)) == 3 && PathKind(EndnotesPath) == 4 && PathKind(TocPath) == 5
  {
    PrefixAt("OEBPS/", "cover.xhtml", 0);
    PrefixAt("OEBPS/", "cover.xhtml", 1);
    var href := Navigation.ChapterHref(n);
    assert href[0] == 'c' && href[1] == 'h' && |href| > 2;
    PrefixAt("OEBPS/", href, 0);
    PrefixAt("OEBPS/", href, 1);
    PrefixAt("OEBPS/", "endnotes.xhtml", 0);
    PrefixAt("OEBPS/", "toc.xhtml", 0);
  }

  lemma SupportKinds(f: string)
    ensures PathKind(CssPath) == 6 && PathKind(FontPath(f)) == 7 && PathKind(OpfPath) == 8
  {
    PrefixAt("OEBPS/", "styles/base.css", 0);
    PrefixAt("OEBPS/", "fonts/" + f, 0);
    PrefixAt("OEBPS/", "package.opf", 0);
  }

  /** Every stored path is of a kind below `g`. */
  predicate KindsBelow(t: Table<Doc>, g: nat) {
    forall i :: 0 <= i < |t| ==> PathKind(t[i].0) < g
  }

  /** Storing a path of a kind not stored yet appends it, and no path is stored twice. */
  lemma PutNewKind(t: Table<Doc>, k: string, v: Doc, g: nat)
    requires DistinctKeys(t) && KindsBelow(t, g) && PathKind(k) == g
    ensures Assign(t, k, v) == t + [(k, v)]
    ensures DistinctKeys(t + [(k, v)]) && KindsBelow(t + [(k, v)], g + 1)
  {
    assert k !in Keys(t);
    var t' := t + [(k, v)];
    assert forall i :: 0 <= i < |t| ==> t'[i] == t[i];
  }

  /** Storing a path not stored yet appends it. */
  lemma PutNew(t: Table<Doc>, k: string, v: Doc)
    requires DistinctKeys(t) && k !in Keys(t)
    ensures Assign(t, k, v) == t + [(k, v)] && DistinctKeys(t + [(k, v)])
  {
    var t' := t + [(k, v)];
    assert forall i :: 0 <= i < |t| ==> t'[i] == t[i];
  }

  /** On a validated corpus the chapter files are appended, each under a new path. */
  lemma ChapterFilesAppend(t: Table<Doc>, surahs: seq<Surah>, tpl: Template)
    requires DistinctKeys(t) && KindsBelow(t, 3)
    requires Validate.SurahsInOrder(surahs)
    ensures AssignAll(t, ChapterFiles(surahs, tpl)) == t + ChapterFiles(surahs, tpl)
    ensures Keys(t + ChapterFiles(surahs, tpl)) == Keys(t) + ChapterPaths(surahs)
    ensures DistinctKeys(t + ChapterFiles(surahs, tpl)) && KindsBelow(t + ChapterFiles(surahs, tpl), 4)
  {
    var cf := ChapterFiles(surahs, tpl);
    ChapterFilesAt(surahs, tpl);
    ChapterFilesDistinct(surahs, tpl);
    forall i | 0 <= i < |cf| ensures PathKind(cf[i].0) == 3 {
      PathKinds(surahs[i].number, "");
    }
    KindAppend(t, cf, 3);
    DistinctKeysAppend(t, cf);
    AssignAllFresh(t, cf);
    KeysAppend(t, cf);
  }

  /** Entries all of kind `g` appended after entries of lower kinds: no key is shared, and all kinds stay below `g + 1`. */
  lemma KindAppend(t: Table<Doc>, u: Table<Doc>, g: nat)
    requires KindsBelow(t, g) && forall i :: 0 <= i < |u| ==> PathKind(u[i].0) == g
    ensures forall i, j :: 0 <= i < |t| && 0 <= j < |u| ==> t[i].0 != u[j].0
    ensures KindsBelow(t + u, g + 1)
  {
    var w := t + u;
    forall i | 0 <= i < |w| ensures PathKind(w[i].0) < g + 1 {
      if i < |t| { assert w[i] == t[i]; } else { assert w[i] == u[i - |t|]; }
    }
  }

  /**
   * On a validated corpus, a layout builder appends its chapter files (and endnotes) to a
   * dictionary that holds only files of the earlier kinds.
   */
  lemma LayoutFilesAppend(t: Table<Doc>, layout: Layout, surahs: seq<Surah>)
    requires DistinctKeys(t) && KindsBelow(t, 3)
    requires Validate.SurahsInOrder(surahs)
    ensures Keys(LayoutFiles(t, layout, surahs)) == Keys(t) + ChapterPaths(surahs) + (if HasEndnotes(layout, surahs) then [EndnotesPath] else [])
    ensures DistinctKeys(LayoutFiles(t, layout, surahs)) && KindsBelow(LayoutFiles(t, layout, surahs), 5)
  {
    var u := t + ChapterFiles(surahs, TemplateOf(layout));
    ChapterFilesAppend(t, surahs, TemplateOf(layout));
    if layout.Interactive? {
      EndnotesAppend(u, EndnotesPage(TranslationNotes(Reading(surahs)), []));
    } else if layout.Bilingual? && EndnoteFootnotes(surahs) != [] {
      EndnotesAppend(u, EndnotesPage([], EndnoteFootnotes(surahs)));
    } else {
      assert LayoutFiles(t, layout, surahs) == u;
      assert KindsBelow(u, 5);
    }
  }

  /** The endnotes file goes in last, under a path not stored before. */
  lemma EndnotesAppend(u: Table<Doc>, doc: Doc)
    requires DistinctKeys(u) && KindsBelow(u, 4)
    ensures Keys(Assign(u, EndnotesPath, doc)) == Keys(u) + [EndnotesPath]
    ensures DistinctKeys(Assign(u, EndnotesPath, doc)) && KindsBelow(Assign(u, EndnotesPath, doc), 5)
  {
    PathKinds(0, "");
    PutNewKind(u, EndnotesPath, doc, 4);
    KeysAppend(u, [(EndnotesPath, doc)]);
  }

  // ---------------------------------------------------------------------------------------
  // The marker pass keeps what the layout builders look at
  // ---------------------------------------------------------------------------------------

  /** Stamping page markers changes no footnote. */
  lemma {:induction false} MarkedFootnotes(xs: seq<(int, Ayah)>)
    ensures AllFootnotes(Navigation.MarkedReading(xs)) == AllFootnotes(xs)
    decreases |xs|
  {
    if |xs| > 0 {
      var init, x := xs[..|xs| - 1], xs[|xs| - 1];
      MarkedFootnotes(init);
      var y := (x.0, Navigation.Mark(x.1, Navigation.LastPage(init)));
      assert Navigation.MarkedReading(xs) == Navigation.MarkedReading(init) + [y];
      AllFootnotesSnoc(Navigation.MarkedReading(init), y);
      AllFootnotesSnoc(init, x);
      assert xs == init + [x];
    }
  }

  /** The surahs after the marker pass have the same numbers, so the same chapter paths and items. */
  lemma SameShapePaths(before: seq<Surah>, after: seq<Surah>)
    requires Navigation.SameShape(before, after)
    ensures ChapterPaths(after) == ChapterPaths(before)
    ensures ChapterItems(after) == ChapterItems(before)
  {
    ChapterItemsAt(before);
    ChapterItemsAt(after);
    assert forall j :: 0 <= j < |before| ==> after[j].number == before[j].number;
  }

  lemma SameShapeInOrder(before: seq<Surah>, after: seq<Surah>)
    requires Navigation.SameShape(before, after) && Validate.SurahsInOrder(before)
    ensures Validate.SurahsInOrder(after)
  {
    assert forall j :: 0 <= j < |before| ==> after[j].number == before[j].number;
  }

  // ---------------------------------------------------------------------------------------
  // The build
  // ---------------------------------------------------------------------------------------

  /** `files[path] = doc` for a path of a kind not stored yet: the entry is appended. */
  method PutNewKindIn(files: FileSet, path: string, doc: Doc, ghost g: nat)
    modifies files
    requires DistinctKeys(files.entries) && KindsBelow(files.entries, g) && PathKind(path) == g
    ensures files.entries == old(files.entries) + [(path, doc)]
    ensures Keys(files.entries) == Keys(old(files.entries)) + [path]
    ensures DistinctKeys(files.entries) && KindsBelow(files.entries, g + 1)
  {
    PutNewKind(files.entries, path, doc, g);
    files.Put(path, doc);
  }

  /** The container description, the display options and the cover, into an empty dictionary. */
  method WriteFront(files: FileSet, title: string, primary: FontInfo)
    modifies files
    requires files.entries == []
    ensures Keys(files.entries) == [ContainerPath, IbooksPath, CoverPath]
    ensures DistinctKeys(files.entries) && KindsBelow(files.entries, 3)
  {
    PathKinds(0, "");
    PutNewKindIn(files, ContainerPath, ContainerXml, 0);
    PutNewKindIn(files, IbooksPath, IbooksOptions, 1);
    PutNewKindIn(files, CoverPath, CoverPage(title, primary.family, primary.filename), 2);
  }

  /** The archive paths of the fonts shipped. */
  function FontPaths(primary: FontInfo, symbol: FontInfo): seq<string> {
    if symbol.filename != primary.filename then [FontPath(primary.filename), FontPath(symbol.filename)]
    else [FontPath(primary.filename)]
  }

  /**
   * The table of contents, the stylesheet and the fonts, after the layout's files; the
   * symbol font is shipped only when it is another file than the text font.
   */
  method WriteTail(files: FileSet, toc: Doc, css: Doc, primaryKey: string, primary: FontInfo, symbol: FontInfo)
    returns (fontFilenames: seq<string>)
    modifies files
    requires DistinctKeys(files.entries) && KindsBelow(files.entries, 5)
    ensures fontFilenames == FontFilenames(primary, symbol)
    ensures Keys(files.entries) == Keys(old(files.entries)) + [TocPath, CssPath] + FontPaths(primary, symbol)
    ensures DistinctKeys(files.entries) && KindsBelow(files.entries, 8)
  {
    ghost var front := files.entries;
    PathKinds(0, "");
    PutNewKindIn(files, TocPath, toc, 5);
    PutNewKindIn(files, CssPath, css, 6);
    fontFilenames := WriteFonts(files, primaryKey, primary, symbol);
    ghost var tail := [(TocPath, toc), (CssPath, css)] + FontEntries(primaryKey, primary, symbol);
    assert files.entries == front + tail;
    assert Keys(tail) == [TocPath, CssPath] + FontPaths(primary, symbol);
    KeysAppend(front, tail);
  }

  /** The font files: the text font, then the symbol font when it is another file. */
  function FontEntries(primaryKey: string, primary: FontInfo, symbol: FontInfo): (t: Table<Doc>)
    ensures Keys(t) == FontPaths(primary, symbol)
  {
    [(FontPath(primary.filename), FontFile(primaryKey))]
    + (if symbol.filename != primary.filename then [(FontPath(symbol.filename), FontFile(SymbolFontKey))] else [])
  }

  /** The fonts step of `build_epub`; the font list names exactly the font files written. */
  method WriteFonts(files: FileSet, primaryKey: string, primary: FontInfo, symbol: FontInfo) returns (fontFilenames: seq<string>)
    modifies files
    requires DistinctKeys(files.entries) && KindsBelow(files.entries, 7)
    ensures fontFilenames == FontFilenames(primary, symbol)
    ensures files.entries == old(files.entries) + FontEntries(primaryKey, primary, symbol)
    ensures DistinctKeys(files.entries) && KindsBelow(files.entries, 8)
  {
    ghost var beforeFonts := files.entries;
    PathKinds(0, primary.filename);
    PutNewKindIn(files, FontPath(primary.filename), FontFile(primaryKey), 7);
    fontFilenames := [primary.filename];
    if symbol.filename != primary.filename {
      PutSecondFont(beforeFonts, primary, FontFile(primaryKey), symbol, FontFile(SymbolFontKey));
      files.Put(FontPath(symbol.filename), FontFile(SymbolFontKey));
      fontFilenames := fontFilenames + [symbol.filename];
      assert files.entries == beforeFonts + FontEntries(primaryKey, primary, symbol);
    }
  }

  /**
   * After the text font, a symbol font with another file name goes in under a new path of the
   * same kind.
   */
  lemma PutSecondFont(t: Table<Doc>, primary: FontInfo, primaryDoc: Doc, symbol: FontInfo, v: Doc)
    requires DistinctKeys(t + [(FontPath(primary.filename), primaryDoc)]) && KindsBelow(t, 7)
    requires symbol.filename != primary.filename
    ensures Assign(t + [(FontPath(primary.filename), primaryDoc)], FontPath(symbol.filename), v)
      == t + [(FontPath(primary.filename), primaryDoc)] + [(FontPath(symbol.filename), v)]
    ensures DistinctKeys(t + [(FontPath(primary.filename), primaryDoc)] + [(FontPath(symbol.filename), v)])
    ensures KindsBelow(t + [(FontPath(primary.filename), primaryDoc)] + [(FontPath(symbol.filename), v)], 8)
  {
    var t', k := t + [(FontPath(primary.filename), primaryDoc)], FontPath(symbol.filename);
    PathKinds(0, primary.filename);
    PathKinds(0, symbol.filename);
    assert k != FontPath(primary.filename) by {
      assert k[12..] == symbol.filename;
      assert FontPath(primary.filename)[12..] == primary.filename;
    }
    assert k !in Keys(t') by {
      assert forall i :: 0 <= i < |t| ==> t'[i] == t[i];
    }
    PutNew(t', k, v);
    var t'' := t' + [(k, v)];
    assert forall i :: 0 <= i < |t| ==> t''[i] == t[i];
  }

  /** The archive lists "mimetype" and then the dictionary's paths; every entry after the first is deflated. */
  lemma ArchiveNames(files: Table<Doc>)
    ensures Names(Archive(files)) == ["mimetype"] + Keys(files)
    ensures Archive(files)[0] == MimetypeEntry
    ensures forall k :: 1 <= k < |Archive(files)| ==> Archive(files)[k].compression == Deflated
    ensures |files| > 0 ==> Archive(files)[|files|].payload == Document(files[|files| - 1].1)
  {
    ArchiveLayout(files);
    var names := Names(Archive(files));
    assert forall k :: 1 <= k < |names| ==> names[k] == Archive(files)[(k - 1) + 1].name;
  }

  /**
   * The archive of a successful build: "mimetype" stored first, then every path of the book in
   * the order it was written, deflated, with the package document last.
   */
  predicate BookArchive(
    zip: seq<ZipEntry>, config: Schema.BuildConfig, layout: Layout, surahs: seq<Surah>, primary: FontInfo, symbol: FontInfo,
    uuid5: (string, string) -> string, riwayahArabic: Table<string>, layoutLabels: Table<(string, string)>)
  {
    && Names(zip) == ["mimetype"] + BookPaths(layout, surahs, primary, symbol)
    && zip[0] == MimetypeEntry
    && (forall k :: 1 <= k < |zip| ==> zip[k].compression == Deflated)
    && zip[|zip| - 1].payload == Document(PackageDocument(BookOpf(config, layout, surahs, primary, symbol, uuid5, riwayahArabic, layoutLabels)))
  }

  /**
   * The writing half of `build_epub`, once the checks passed: every file goes into the
   * dictionary in order, the package document last.
   */
  method WriteBookFiles(
    config: Schema.BuildConfig, m: Mushaf, layout: Layout, primary: FontInfo, symbol: FontInfo,
    uuid5: (string, string) -> string, riwayahArabic: Table<string>, layoutLabels: Table<(string, string)>)
    returns (files: FileSet)
    requires Validate.SurahsInOrder(m.surahs)
    ensures Keys(files.entries) == BookPaths(layout, m.surahs, primary, symbol)
    ensures |files.entries| > 0
    ensures files.entries[|files.entries| - 1].1 == PackageDocument(BookOpf(config, layout, m.surahs, primary, symbol, uuid5, riwayahArabic, layoutLabels))
  {
    var marked := Navigation.ComputePageMarkers(m);
    files := new FileSet();
    WriteFront(files, config.book.title, primary);
    ghost var front := files.entries;

    SameShapeInOrder(m.surahs, marked.surahs);
    SameShapePaths(m.surahs, marked.surahs);
    assert EndnoteFootnotes(marked.surahs) == EndnoteFootnotes(m.surahs) by {
      MarkedFootnotes(Reading(m.surahs));
    }
    var items := RenderLayout(files, layout, marked.surahs);
    LayoutFilesAppend(front, layout, marked.surahs);

    var juz := Navigation.ComputeJuzEntries(marked.surahs);
    var pages := Navigation.ComputePageList(marked.surahs);
    var toc := TocPage(marked.surahs, juz, pages, config.translation.Some?);
    var css := Stylesheet(primary.family, primary.filename, symbol.family, symbol.filename);
    var fontFilenames := WriteTail(files, toc, css, config.font.arabic, primary, symbol);
    var title := DescriptiveTitle(config, riwayahArabic, layoutLabels);
    var opf := Package.RenderPackageOpf(config, items, fontFilenames, title, uuid5);
    PathKinds(0, "");
    PutNewKindIn(files, OpfPath, PackageDocument(opf), 8);

    assert opf == BookOpf(config, layout, m.surahs, primary, symbol, uuid5, riwayahArabic, layoutLabels);
  }

  /** The files of the book, zipped. */
  method WriteBook(
    config: Schema.BuildConfig, m: Mushaf, layout: Layout, primary: FontInfo, symbol: FontInfo,
    uuid5: (string, string) -> string, riwayahArabic: Table<string>, layoutLabels: Table<(string, string)>)
    returns (zip: seq<ZipEntry>)
    requires Validate.SurahsInOrder(m.surahs)
    ensures BookArchive(zip, config, layout, m.surahs, primary, symbol, uuid5, riwayahArabic, layoutLabels)
  {
    var files := WriteBookFiles(config, m, layout, primary, symbol, uuid5, riwayahArabic, layoutLabels);
    ghost var entries := files.entries;
    BookArchiveOf(entries, config, layout, m.surahs, primary, symbol, uuid5, riwayahArabic, layoutLabels);
    zip := AssembleEpub(files);
  }

  /** Zipping the files of a book, the package document last, gives the book's archive. */
  lemma BookArchiveOf(
    files: Table<Doc>, config: Schema.BuildConfig, layout: Layout, surahs: seq<Surah>, primary: FontInfo, symbol: FontInfo,
    uuid5: (string, string) -> string, riwayahArabic: Table<string>, layoutLabels: Table<(string, string)>)
    requires Keys(files) == BookPaths(layout, surahs, primary, symbol) && |files| > 0
    requires files[|files| - 1].1 == PackageDocument(BookOpf(config, layout, surahs, primary, symbol, uuid5, riwayahArabic, layoutLabels))
    ensures BookArchive(Archive(files), config, layout, surahs, primary, symbol, uuid5, riwayahArabic, layoutLabels)
  {
    var zip := Archive(files);
    ArchiveNames(files);
    assert |zip| == |Names(zip)| == |files| + 1;
    assert zip[|zip| - 1].payload == Document(files[|files| - 1].1);
  }

  /**
   * The checks `build_epub` makes before it writes anything, in the order it makes them: the
   * source, the validator, the font registry and the layout. On success, the chosen layout,
   * the primary font and the symbol font.
   */
  method CheckBuild(config: Schema.BuildConfig, m: Mushaf) returns (r: Result<(Layout, FontInfo, FontInfo), BuildError>)
    ensures r.Err? <==> BuildFailure(config, m).Some?
    ensures r.Err? ==> r.error == BuildFailure(config, m).value
    ensures r.Ok? ==> SelectLayout(config).Ok? && Lookup(Fonts, config.font.arabic).Some?
    ensures r.Ok? ==> r.value == (SelectLayout(config).value, Lookup(Fonts, config.font.arabic).value, Fonts[1].1)
    ensures r.Ok? ==> Validate.SurahsInOrder(m.surahs)
  {
    var sourceError := SourceError(config);
    if sourceError.Some? {
      return Err(sourceError.value);
    }
    var errors := Validate.ValidateMushaf(m);
    if errors != [] {
      return Err(InvalidCorpus(errors));
    }
    Validate.ValidIffWellFormed(m);
    var fontInfo := Lookup(Fonts, config.font.arabic);
    if fontInfo.None? {
      return Err(UnregisteredFont(config.font.arabic));
    }
    SymbolFontRegistered();
    var symbol := Lookup(Fonts, SymbolFontKey).value;
    var selected := SelectLayout(config);
    if selected.Err? {
      return Err(LayoutNeedsTranslation(selected.error));
    }
    return Ok((selected.value, fontInfo.value, symbol));
  }

  /**
   * `build_epub` from the corpus the configured source loaded. The UUID function and the
   * riwayah and layout label tables are parameters.
   */
  method BuildEpub(
    config: Schema.BuildConfig, m: Mushaf,
    uuid5: (string, string) -> string, riwayahArabic: Table<string>, layoutLabels: Table<(string, string)>)
    returns (r: Result<seq<ZipEntry>, BuildError>)
    ensures r.Err? <==> BuildFailure(config, m).Some?
    ensures r.Err? ==> r.error == BuildFailure(config, m).value
    ensures r.Ok? ==> SelectLayout(config).Ok? && Lookup(Fonts, config.font.arabic).Some? && BookArchive(
      r.value, config, SelectLayout(config).value, m.surahs, Lookup(Fonts, config.font.arabic).value, Fonts[1].1,
      uuid5, riwayahArabic, layoutLabels)
  {
    var checked := CheckBuild(config, m);
    if checked.Err? {
      return Err(checked.error);
    }
    var layout, primary, symbol := checked.value.0, checked.value.1, checked.value.2;
    assert layout == SelectLayout(config).value && primary == Lookup(Fonts, config.font.arabic).value && symbol == Fonts[1].1;
    var zip := WriteBook(config, m, layout, primary, symbol, uuid5, riwayahArabic, layoutLabels);
    r := Ok(zip);
  }
}
