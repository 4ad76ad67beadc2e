/**
 * The OPF package document of the book, reduced to what decides the reading system's view
 * of it: the book id, the title and languages, the manifest (every resource with its media
 * type) and the spine (the reading order, where the endnotes are out of the linear flow).
 * The book id is the version-5 UUID of the output filename under a fixed namespace; the
 * UUID function itself is a parameter.
 */
module Package {
  import opened Wrappers
  import opened Text
  import Schema

  /** The namespace UUID the book ids are derived under. */
  const Namespace: string := "d4f76c9a-3b1e-4f2d-9a5c-8b7e6d1c2f3a"

  datatype ManifestItem = ManifestItem(id: string, href: string, mediaType: string, properties: Option<string>)

  /** An `itemref` of the spine; `linear` false is `linear="no"`. */
  datatype SpineItem = SpineItem(idref: string, linear: bool)

  datatype Opf = Opf(
    bookId: string,
    title: string,
    languages: seq<string>,
    manifest: seq<ManifestItem>,
    spine: seq<SpineItem>)

  const XhtmlType: string := "application/xhtml+xml"

  /** The navigation document, which is also a readable page. */
  const NavItem: ManifestItem := ManifestItem("toc", "toc.xhtml", XhtmlType, Some("nav"))
  const CoverItem: ManifestItem := ManifestItem("cover", "cover.xhtml", XhtmlType, None)
  const CssItem: ManifestItem := ManifestItem("css", "styles/base.css", "text/css", None)

  /** The id of the endnotes document, the one spine entry outside the linear reading order. */
  const EndnotesId: string := "endnotes"

  /** The book id: the UUID of the output filename, so the same configuration always gets the same id. */
  function BookId(config: Schema.BuildConfig, uuid5: (string, string) -> string): string {
    uuid5(Namespace, Schema.OutputFilename(config))
  }

  /** The id of the `i`-th font: the first is the Arabic text font, the others symbol fonts. */
  function FontId(i: nat): string {
    if i == 0 then "font-arabic" else "font-symbol-" + IntToString(i)
  }

  function FontItem(i: nat, filename: string): ManifestItem {
    ManifestItem(FontId(i), "fonts/" + filename, "font/ttf", None)
  }

  function ChapterManifestItem(item: (string, string)): ManifestItem {
    ManifestItem(item.0, item.1, XhtmlType, None)
  }

  function ChapterSpineItem(item: (string, string)): SpineItem {
    SpineItem(item.0, item.0 != EndnotesId)
  }

  /** The manifest entries of the chapter items, in order. */
  function ChapterManifest(items: seq<(string, string)>): seq<ManifestItem>
    decreases |items|
  {
    if |items| == 0 then [] else ChapterManifest(items[..|items| - 1]) + [ChapterManifestItem(items[|items| - 1])]
  }

  /** The spine entries of the chapter items, in order. */
  function ChapterSpine(items: seq<(string, string)>): seq<SpineItem>
    decreases |items|
  {
    if |items| == 0 then [] else ChapterSpine(items[..|items| - 1]) + [ChapterSpineItem(items[|items| - 1])]
  }

  /** The manifest entries of the fonts, numbered from 0 in order. */
  function FontManifest(fonts: seq<string>): seq<ManifestItem>
    decreases |fonts|
  {
    if |fonts| == 0 then [] else FontManifest(fonts[..|fonts| - 1]) + [FontItem(|fonts| - 1, fonts[|fonts| - 1])]
  }

  /** The manifest: navigation document, cover, chapter items, stylesheet, fonts. */
  function Manifest(items: seq<(string, string)>, fonts: seq<string>): seq<ManifestItem> {
    [NavItem, CoverItem] + ChapterManifest(items) + [CssItem] + FontManifest(fonts)
  }

  /** The spine: cover, the table of contents, then the chapter items. */
  function Spine(items: seq<(string, string)>): seq<SpineItem> {
    [SpineItem("cover", true), SpineItem("toc", true)] + ChapterSpine(items)
  }

  /** `dc:language` entries: the book's language, then the translation's when there is one. */
  function Languages(config: Schema.BuildConfig): seq<string> {
    [config.book.language] + (if config.translation.Some? then [config.translation.value.language] else [])
  }

  /** `_render_package_opf`: the manifest and spine are built by appending in loops. */
  method RenderPackageOpf(
    config: Schema.BuildConfig,
    chapterItems: seq<(string, string)>,
    fontFilenames: seq<string>,
    title: string,
    uuid5: (string, string) -> string)
    returns (opf: Opf)
    ensures opf == Opf(BookId(config, uuid5), title, Languages(config), Manifest(chapterItems, fontFilenames), Spine(chapterItems))
  {
    var bookId := uuid5(Namespace, Schema.OutputFilename(config));
    var manifest := [NavItem, CoverItem];
    var spine := [SpineItem("cover", true), SpineItem("toc", true)];
    var i := 0;
    while i < |chapterItems|
      invariant 0 <= i <= |chapterItems|
      invariant manifest == [NavItem, CoverItem] + ChapterManifest(chapterItems[..i])
      invariant spine == [SpineItem("cover", true), SpineItem("toc", true)] + ChapterSpine(chapterItems[..i])
    {
      var (itemId, href) := chapterItems[i];
      assert chapterItems[..i + 1][..i] == chapterItems[..i];
      manifest := manifest + [ManifestItem(itemId, href, XhtmlType, None)];
      if itemId == EndnotesId {
        spine := spine + [SpineItem(itemId, false)];
      } else {
        spine := spine + [SpineItem(itemId, true)];
      }
      i := i + 1;
    }
    assert chapterItems[..i] == chapterItems;
    manifest := manifest + [CssItem];
    var k := 0;
    while k < |fontFilenames|
      invariant 0 <= k <= |fontFilenames|
      invariant manifest == [NavItem, CoverItem] + ChapterManifest(chapterItems) + [CssItem] + FontManifest(fontFilenames[..k])
    {
      assert fontFilenames[..k + 1][..k] == fontFilenames[..k];
      var fontId := if k == 0 then "font-arabic" else "font-symbol-" + IntToString(k);
      manifest := manifest + [ManifestItem(fontId, "fonts/" + fontFilenames[k], "font/ttf", None)];
      k := k + 1;
    }
    assert fontFilenames[..k] == fontFilenames;
    var languages := [config.book.language];
    if config.translation.Some? {
      languages := languages + [config.translation.value.language];
    }
    opf := Opf(bookId, title, languages, manifest, spine);
  }

  lemma {:induction false} ChapterManifestAt(items: seq<(string, string)>)
    ensures |ChapterManifest(items)| == |items|
    ensures forall k :: 0 <= k < |items| ==> ChapterManifest(items)[k] == ChapterManifestItem(items[k])
    decreases |items|
  {
    if |items| > 0 {
      ChapterManifestAt(items[..|items| - 1]);
    }
  }

  lemma {:induction false} ChapterSpineAt(items: seq<(string, string)>)
    ensures |ChapterSpine(items)| == |items|
    ensures forall k :: 0 <= k < |items| ==> ChapterSpine(items)[k] == ChapterSpineItem(items[k])
    decreases |items|
  {
    if |items| > 0 {
      ChapterSpineAt(items[..|items| - 1]);
    }
  }

  lemma {:induction false} FontManifestAt(fonts: seq<string>)
    ensures |FontManifest(fonts)| == |fonts|
    ensures forall i :: 0 <= i < |fonts| ==> FontManifest(fonts)[i] == FontItem(i, fonts[i])
    decreases |fonts|
  {
    if |fonts| > 0 {
      FontManifestAt(fonts[..|fonts| - 1]);
    }
  }

  /**
   * The reading order is the cover, the table of contents, then the chapter items in the
   * given order; only the item with id "endnotes" is kept out of the linear flow.
   */
  lemma SpineOrder(items: seq<(string, string)>)
    ensures |Spine(items)| == |items| + 2
    ensures Spine(items)[0] == SpineItem("cover", true) && Spine(items)[1] == SpineItem("toc", true)
    ensures forall k :: 0 <= k < |items| ==> Spine(items)[k + 2].idref == items[k].0
    ensures forall k :: 0 <= k < |Spine(items)| ==> (!Spine(items)[k].linear <==> Spine(items)[k].idref == EndnotesId)
  {
    ChapterSpineAt(items);
  }

  /** The `k`-th chapter item is declared in the manifest at position `k + 2`, with its own href, as XHTML. */
  lemma ManifestLayout(items: seq<(string, string)>, fonts: seq<string>)
    ensures |Manifest(items, fonts)| == |items| + |fonts| + 3
    ensures Manifest(items, fonts)[0] == NavItem && Manifest(items, fonts)[1] == CoverItem
    ensures forall k :: 0 <= k < |items| ==> Manifest(items, fonts)[k + 2] == ManifestItem(items[k].0, items[k].1, XhtmlType, None)
    ensures Manifest(items, fonts)[|items| + 2] == CssItem
    ensures forall i :: 0 <= i < |fonts| ==> Manifest(items, fonts)[|items| + 3 + i] == FontItem(i, fonts[i])
  {
    ChapterManifestAt(items);
    FontManifestAt(fonts);
    ManifestParts([NavItem, CoverItem], ChapterManifest(items), CssItem, FontManifest(fonts));
  }

  /** Where each piece of a manifest sits once the pieces are joined. */
  lemma ManifestParts(head: seq<ManifestItem>, chapters: seq<ManifestItem>, css: ManifestItem, fontItems: seq<ManifestItem>)
    requires |head| == 2
    ensures |head + chapters + [css] + fontItems| == |chapters| + |fontItems| + 3
    ensures (head + chapters + [css] + fontItems)[0] == head[0] && (head + chapters + [css] + fontItems)[1] == head[1]
    ensures forall k :: 0 <= k < |chapters| ==> (head + chapters + [css] + fontItems)[k + 2] == chapters[k]
    ensures (head + chapters + [css] + fontItems)[|chapters| + 2] == css
    ensures forall i :: 0 <= i < |fontItems| ==> (head + chapters + [css] + fontItems)[|chapters| + 3 + i] == fontItems[i]
  {
  }

  /** `id` names an entry of the manifest. */
  predicate Declared(manifest: seq<ManifestItem>, id: string) {
    exists m :: 0 <= m < |manifest| && manifest[m].id == id
  }

  /** Every entry of the spine refers to a document the manifest declares. */
  lemma SpineInManifest(items: seq<(string, string)>, fonts: seq<string>)
    ensures forall k :: 0 <= k < |Spine(items)| ==> Declared(Manifest(items, fonts), Spine(items)[k].idref)
  {
    forall k | 0 <= k < |Spine(items)| ensures Declared(Manifest(items, fonts), Spine(items)[k].idref) {
      SpineEntryDeclared(items, fonts, k);
    }
  }

  /** The manifest entry that declares the `k`-th entry of the spine. */
  lemma SpineEntryDeclared(items: seq<(string, string)>, fonts: seq<string>, k: nat)
    requires k < |Spine(items)|
    ensures Declared(Manifest(items, fonts), Spine(items)[k].idref)
  {
    SpineOrder(items);
    ManifestLayout(items, fonts);
    var manifest, idref := Manifest(items, fonts), Spine(items)[k].idref;
    var m := if k == 0 then 1 else if k == 1 then 0 else k;
    if k >= 2 {
      assert manifest[(k - 2) + 2].id == items[k - 2].0 == Spine(items)[(k - 2) + 2].idref;
    }
    assert manifest[m].id == idref;
  }

  /** Distinct font positions get distinct manifest ids. */
  lemma FontIdsDistinct(i: nat, j: nat)
    requires i != j
    ensures FontId(i) != FontId(j)
  {
    if i != 0 && j != 0 {
      if FontId(i) == FontId(j) {
        assert IntToString(i) == FontId(i)[|"font-symbol-"|..] == FontId(j)[|"font-symbol-"|..] == IntToString(j);
        IntToStringInjective(i, j);
      }
    } else if i == 0 {
      assert FontId(j)[5] == 's' && FontId(i)[5] == 'a';
    } else {
      assert FontId(i)[5] == 's' && FontId(j)[5] == 'a';
    }
  }

  /**
   * The book id depends on nothing but the output filename: two configurations that leave the
   * filename unset and agree on the parts the filename is derived from (whatever their
   * titles, sources, translation resource ids and names, display flags or output
   * directories) give the same book id.
   */
  lemma BookIdDependsOnlyOnNamingInputs(c1: Schema.BuildConfig, c2: Schema.BuildConfig, uuid5: (string, string) -> string)
    requires c1.output.filename == c2.output.filename
    requires Schema.SameNamingInputs(c1, c2)
    ensures BookId(c1, uuid5) == BookId(c2, uuid5)
  {
    Schema.AutoFilenameDependsOnlyOnNamingInputs(c1, c2);
  }
}
