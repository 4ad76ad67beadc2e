/**
 * The book's files before they are zipped: an insertion-ordered dictionary from archive path
 * to document, filled in place by the build steps, and the ZIP archive as an ordered list of
 * entries. Rendered documents are not bytes here: each is named by what it is rendered
 * from, which is all the build logic decides about it.
 */
module Files {
  import opened Wrappers
  import opened Models
  import opened Registry
  import Navigation
  import Package

  /** The chapter template of each layout. */
  datatype Template = ChapterTemplate | InlineTemplate | InteractiveTemplate | BilingualTemplate

  /** The popup of one translated ayah in the interactive layout: its translation and its translator footnotes. */
  datatype TranslationNote = TranslationNote(surah: int, ayah: int, text: string, footnotes: seq<Footnote>)

  /** A document of the book, named by what it is rendered from. */
  datatype Doc =
    | ContainerXml
    | IbooksOptions
    | CoverPage(title: string, fontFamily: string, fontFilename: string)
    | ChapterPage(template: Template, surah: Surah)
    | EndnotesPage(notes: seq<TranslationNote>, footnotes: seq<Footnote>)
    | TocPage(surahs: seq<Surah>, juz: seq<Navigation.JuzEntry>, pages: seq<Navigation.PageEntry>, bilingual: bool)
    | Stylesheet(fontFamily: string, fontFilename: string, symbolFamily: string, symbolFilename: string)
    | FontFile(key: string)
    | PackageDocument(opf: Package.Opf)

  /** The `files` dictionary of a build. */
  class FileSet {
    var entries: Table<Doc>

    constructor()
      ensures entries == []
    {
      entries := [];
    }

    /** `files[name] = doc`. */
    method Put(name: string, doc: Doc)
      modifies this
      ensures entries == Assign(old(entries), name, doc)
    {
      entries := Assign(entries, name, doc);
    }
  }

  datatype Compression = Stored | Deflated

  /** The content of a ZIP entry: literal text, or the bytes of a document. */
  datatype Payload = Text(text: string) | Document(doc: Doc)

  /** A ZIP entry: its name, how it is compressed, its extra field and its content. */
  datatype ZipEntry = ZipEntry(name: string, compression: Compression, extra: seq<bv8>, payload: Payload)

  /** The media-type entry every EPUB container starts with. */
  const MimetypeEntry: ZipEntry := ZipEntry("mimetype", Stored, [], Text("application/epub+zip"))

  /** The file entry for `files[name] = doc`, compressed with the archive's default. */
  function FileEntry(kv: (string, Doc)): ZipEntry {
    ZipEntry(kv.0, Deflated, [], Document(kv.1))
  }

  /** The archive of a file dictionary: the media-type entry, then the files in dictionary order. */
  function Archive(files: Table<Doc>): seq<ZipEntry>
    decreases |files|
  {
    if |files| == 0 then [MimetypeEntry]
    else Archive(files[..|files| - 1]) + [FileEntry(files[|files| - 1])]
  }

  /** `_assemble_epub`: the media-type entry is written first, then every file in order. */
  method AssembleEpub(files: FileSet) returns (zip: seq<ZipEntry>)
    ensures zip == Archive(files.entries)
  {
    zip := [ZipEntry("mimetype", Stored, [], Text("application/epub+zip"))];
    var i := 0;
    while i < |files.entries|
      invariant 0 <= i <= |files.entries|
      invariant zip == Archive(files.entries[..i])
    {
      var (path, content) := files.entries[i];
      assert files.entries[..i + 1][..i] == files.entries[..i];
      zip := zip + [ZipEntry(path, Deflated, [], Document(content))];
      i := i + 1;
    }
    assert files.entries[..i] == files.entries;
  }

  /**
   * The archive's first entry is "mimetype", stored uncompressed with an empty extra field
   * and the EPUB media type as content; after it come all the files, in dictionary order,
   * deflated.
   */
  lemma {:induction false} ArchiveLayout(files: Table<Doc>)
    ensures |Archive(files)| == |files| + 1
    ensures Archive(files)[0] == ZipEntry("mimetype", Stored, [], Text("application/epub+zip"))
    ensures forall k :: 0 <= k < |files| ==>
      Archive(files)[k + 1] == ZipEntry(files[k].0, Deflated, [], Document(files[k].1))
    decreases |files|
  {
    if |files| > 0 {
      ArchiveLayout(files[..|files| - 1]);
    }
  }
}
