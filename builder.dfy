/**
 * The EPUB build: which layout builder a configuration selects, what each builder puts in the
 * `files` dictionary and in the list of chapter items (the manifest/spine entries in reading
 * order), the interactive layout's translation popups, the de-duplicated footnote list of the
 * bilingual endnotes, the descriptive title, and the whole build from a loaded corpus to the
 * list of ZIP entries.
 */
module Builder {
  import opened Wrappers
  import opened Text
  import opened Models
  import opened Registry
  import opened Files
  import Schema
  import Validate
  import Navigation
  import Noteref
  import Package

  // ---------------------------------------------------------------------------------------
  // Chapter items and chapter files
  // ---------------------------------------------------------------------------------------

  /** The manifest id and href of the chapter of surah `n`. */
  function ChapterItem(n: int): (string, string) {
    ("chapter-" + IntToString(n), Navigation.ChapterHref(n))
  }

  /** The archive path of the chapter of surah `n`. */
  function ChapterPath(n: int): string {
    "OEBPS/" + Navigation.ChapterHref(n)
  }

  const EndnotesPath: string := "OEBPS/" + "endnotes.xhtml"
  const EndnotesItem: (string, string) := (Package.EndnotesId, "endnotes.xhtml")

  /** The chapter items of the surahs, in surah order. */
  function ChapterItems(surahs: seq<Surah>): seq<(string, string)>
    decreases |surahs|
  {
    if |surahs| == 0 then [] else ChapterItems(surahs[..|surahs| - 1]) + [ChapterItem(surahs[|surahs| - 1].number)]
  }

  /** The chapter files of the surahs rendered with template `tpl`, in surah order. */
  function ChapterFiles(surahs: seq<Surah>, tpl: Template): Table<Doc>
    decreases |surahs|
  {
    if |surahs| == 0 then []
    else
      var s := surahs[|surahs| - 1];
      ChapterFiles(surahs[..|surahs| - 1], tpl) + [(ChapterPath(s.number), ChapterPage(tpl, s))]
  }

  /**
   * The chapter loop every layout builder runs: each surah is rendered into its own file and
   * gets a chapter item.
   */
  method RenderChapters(files: FileSet, surahs: seq<Surah>, tpl: Template) returns (items: seq<(string, string)>)
    modifies files
    ensures items == ChapterItems(surahs)
    ensures files.entries == AssignAll(old(files.entries), ChapterFiles(surahs, tpl))
  {
    items := [];
    var s := 0;
    while s < |surahs|
      invariant 0 <= s <= |surahs|
      invariant items == ChapterItems(surahs[..s])
      invariant files.entries == AssignAll(old(files.entries), ChapterFiles(surahs[..s], tpl))
    {
      var surah := surahs[s];
      ChapterSnoc(surahs, s, tpl);
      AssignAllSnoc(old(files.entries), ChapterFiles(surahs[..s], tpl), (ChapterPath(surah.number), ChapterPage(tpl, surah)));
      files.Put(ChapterPath(surah.number), ChapterPage(tpl, surah));
      items := items + [ChapterItem(surah.number)];
      s := s + 1;
    }
    assert surahs[..s] == surahs;
  }

  lemma ChapterSnoc(surahs: seq<Surah>, s: nat, tpl: Template)
    requires s < |surahs|
    ensures ChapterItems(surahs[..s + 1]) == ChapterItems(surahs[..s]) + [ChapterItem(surahs[s].number)]
    ensures ChapterFiles(surahs[..s + 1], tpl) == ChapterFiles(surahs[..s], tpl) + [(ChapterPath(surahs[s].number), ChapterPage(tpl, surahs[s]))]
  {
    assert surahs[..s + 1][..s] == surahs[..s];
  }

  /** The `k`-th chapter item names surah `surahs[k]`: id `chapter-{n}`, href `chapter-{n}.xhtml`. */
  lemma {:induction false} ChapterItemsAt(surahs: seq<Surah>)
    ensures |ChapterItems(surahs)| == |surahs|
    ensures forall k :: 0 <= k < |surahs| ==>
      ChapterItems(surahs)[k] == ("chapter-" + IntToString(surahs[k].number), "chapter-" + IntToString(surahs[k].number) + ".xhtml")
    decreases |surahs|
  {
    if |surahs| > 0 {
      ChapterItemsAt(surahs[..|surahs| - 1]);
    }
  }

  /** The `k`-th chapter file is the rendering of `surahs[k]`, stored under its chapter path. */
  lemma {:induction false} ChapterFilesAt(surahs: seq<Surah>, tpl: Template)
    ensures |ChapterFiles(surahs, tpl)| == |surahs|
    ensures forall k :: 0 <= k < |surahs| ==> ChapterFiles(surahs, tpl)[k] == (ChapterPath(surahs[k].number), ChapterPage(tpl, surahs[k]))
    decreases |surahs|
  {
    if |surahs| > 0 {
      ChapterFilesAt(surahs[..|surahs| - 1], tpl);
    }
  }

  /** For a validated corpus the chapter items are `chapter-1` .. `chapter-N` in order. */
  lemma ChapterItemsNumbered(surahs: seq<Surah>)
    requires Validate.SurahsInOrder(surahs)
    ensures |ChapterItems(surahs)| == |surahs|
    ensures forall k :: 0 <= k < |surahs| ==> ChapterItems(surahs)[k].0 == "chapter-" + IntToString(k + 1)
  {
    ChapterItemsAt(surahs);
  }

  /** The middle of a three-part concatenation is found by the lengths of the outer parts. */
  lemma Infix(p: string, x: string, q: string)
    ensures (p + x + q)[|p|..|p| + |x|] == x
  {
  }

  /** Chapter paths of different surah numbers differ. */
  lemma ChapterPathInjective(n: int, m: int)
    requires ChapterPath(n) == ChapterPath(m)
    ensures n == m
  {
    var pre, post := "OEBPS/chapter-", ".xhtml";
    var x, y := IntToString(n), IntToString(m);
    assert ChapterPath(n) == pre + x + post && ChapterPath(m) == pre + y + post;
    assert |x| == |y|;
    Infix(pre, x, post);
    Infix(pre, y, post);
    IntToStringInjective(n, m);
  }

  /** In a validated corpus no two chapters share a file. */
  lemma ChapterFilesDistinct(surahs: seq<Surah>, tpl: Template)
    requires Validate.SurahsInOrder(surahs)
    ensures DistinctKeys(ChapterFiles(surahs, tpl))
  {
    ChapterFilesAt(surahs, tpl);
    var fs := ChapterFiles(surahs, tpl);
    forall i, j | 0 <= i < j < |fs| ensures fs[i].0 != fs[j].0 {
      if fs[i].0 == fs[j].0 {
        ChapterPathInjective(surahs[i].number, surahs[j].number);
      }
    }
  }

  // ---------------------------------------------------------------------------------------
  // Interactive layout: translation popups
  // ---------------------------------------------------------------------------------------

  /** `if ayah.translation:` — there is a translation and it is not the empty string. */
  predicate Translated(a: Ayah) {
    a.translation.Some? && a.translation.value != ""
  }

  /** The popup of a translated ayah: its translation with noteref links unwrapped, and its footnotes. */
  function NoteOf(x: (int, Ayah)): TranslationNote
    requires Translated(x.1)
  {
    TranslationNote(x.0, x.1.ayahNumber, Noteref.StripNoterefLinks(x.1.translation.value), x.1.footnotes)
  }

  /** The popups of the translated ayahs, in reading order. */
  function TranslationNotes(xs: seq<(int, Ayah)>): seq<TranslationNote>
    decreases |xs|
  {
    if |xs| == 0 then []
    else
      var x := xs[|xs| - 1];
      TranslationNotes(xs[..|xs| - 1]) + (if Translated(x.1) then [NoteOf(x)] else [])
  }

  lemma TranslationNotesSnoc(xs: seq<(int, Ayah)>, x: (int, Ayah))
    ensures TranslationNotes(xs + [x]) == TranslationNotes(xs) + (if Translated(x.1) then [NoteOf(x)] else [])
  {
    assert (xs + [x])[..|xs|] == xs;
  }

  /** The popup loop of `_build_interactive`. */
  method CollectTranslationNotes(surahs: seq<Surah>) returns (notes: seq<TranslationNote>)
    ensures notes == TranslationNotes(Reading(surahs))
  {
    notes := [];
    var s := 0;
    while s < |surahs|
      invariant 0 <= s <= |surahs|
      invariant notes == TranslationNotes(Reading(surahs[..s]))
    {
      var surah := surahs[s];
      var i := 0;
      assert Reading(surahs[..s]) + InSurah(surah.number, surah.ayahs[..0]) == Reading(surahs[..s]);
      while i < |surah.ayahs|
        invariant 0 <= i <= |surah.ayahs|
        invariant notes == TranslationNotes(Reading(surahs[..s]) + InSurah(surah.number, surah.ayahs[..i]))
      {
        var ayah := surah.ayahs[i];
        ReadingInnerStep(surahs, s, i);
        TranslationNotesSnoc(Reading(surahs[..s]) + InSurah(surah.number, surah.ayahs[..i]), (surah.number, ayah));
        if ayah.translation.Some? && ayah.translation.value != "" {
          notes := notes + [TranslationNote(surah.number, ayah.ayahNumber, Noteref.StripNoterefLinks(ayah.translation.value), ayah.footnotes)];
        }
        i := i + 1;
      }
      ReadingOuterStep(surahs, s);
      s := s + 1;
    }
    assert surahs[..s] == surahs;
  }

  /** `n` is the popup of some translated ayah of `xs`. */
  predicate NoteOfSome(xs: seq<(int, Ayah)>, n: TranslationNote) {
    exists k :: 0 <= k < |xs| && Translated(xs[k].1) && n == NoteOf(xs[k])
  }

  /**
   * There is a popup for every translated ayah (one with a non-empty translation), and every
   * popup belongs to a translated ayah.
   */
  lemma TranslationNotesExact(xs: seq<(int, Ayah)>)
    ensures forall i :: 0 <= i < |TranslationNotes(xs)| ==> NoteOfSome(xs, TranslationNotes(xs)[i])
    ensures forall k :: 0 <= k < |xs| && Translated(xs[k].1) ==> NoteOf(xs[k]) in TranslationNotes(xs)
    ensures |TranslationNotes(xs)| <= |xs|
  {
    TranslationNotesSound(xs);
    TranslationNotesComplete(xs);
  }

  /** Every popup belongs to a translated ayah, so there are no more popups than ayahs. */
  lemma {:induction false} TranslationNotesSound(xs: seq<(int, Ayah)>)
    ensures forall i :: 0 <= i < |TranslationNotes(xs)| ==> NoteOfSome(xs, TranslationNotes(xs)[i])
    ensures |TranslationNotes(xs)| <= |xs|
    decreases |xs|
  {
    if |xs| > 0 {
      var init, x := xs[..|xs| - 1], xs[|xs| - 1];
      TranslationNotesSound(init);
      TranslationNotesSnoc(init, x);
      assert xs == init + [x];
      var notes, before := TranslationNotes(xs), TranslationNotes(init);
      forall i | 0 <= i < |notes| ensures NoteOfSome(xs, notes[i]) {
        if i < |before| {
          assert notes[i] == before[i];
          var k :| 0 <= k < |init| && Translated(init[k].1) && before[i] == NoteOf(init[k]);
          assert xs[k] == init[k];
        } else {
          assert notes[i] == NoteOf(xs[|xs| - 1]);
        }
      }
    }
  }

  /** There is a popup for every translated ayah. */
  lemma {:induction false} TranslationNotesComplete(xs: seq<(int, Ayah)>)
    ensures forall k :: 0 <= k < |xs| && Translated(xs[k].1) ==> NoteOf(xs[k]) in TranslationNotes(xs)
    decreases |xs|
  {
    if |xs| > 0 {
      var init, x := xs[..|xs| - 1], xs[|xs| - 1];
      TranslationNotesComplete(init);
      TranslationNotesSnoc(init, x);
      assert xs == init + [x];
      forall k | 0 <= k < |xs| && Translated(xs[k].1) ensures NoteOf(xs[k]) in TranslationNotes(xs) {
        if k < |init| {
          assert xs[k] == init[k];
          assert NoteOf(init[k]) in TranslationNotes(init);
        }
      }
    }
  }

  /**
   * `_build_interactive`: the chapters through the interactive template, then the endnotes
   * file holding every popup (written even when there are none), listed last.
   */
  method BuildInteractive(files: FileSet, surahs: seq<Surah>) returns (items: seq<(string, string)>)
    modifies files
    ensures items == ChapterItems(surahs) + [EndnotesItem]
    ensures files.entries == Assign(AssignAll(old(files.entries), ChapterFiles(surahs, InteractiveTemplate)),
                                    EndnotesPath, EndnotesPage(TranslationNotes(Reading(surahs)), []))
  {
    items := RenderChapters(files, surahs, InteractiveTemplate);
    var notes := CollectTranslationNotes(surahs);
    files.Put(EndnotesPath, EndnotesPage(notes, []));
    items := items + [EndnotesItem];
  }

  // ---------------------------------------------------------------------------------------
  // Bilingual layout: de-duplicated footnotes
  // ---------------------------------------------------------------------------------------

  /** The ids of the footnotes. */
  function Ids(fs: seq<Footnote>): set<int> {
    set i | 0 <= i < |fs| :: fs[i].id
  }

  lemma IdsSnoc(fs: seq<Footnote>, f: Footnote)
    ensures Ids(fs + [f]) == Ids(fs) + {f.id}
  {
    var gs := fs + [f];
    assert forall i :: 0 <= i < |fs| ==> gs[i] == fs[i];
    assert gs[|fs|] == f;
  }

  /** The footnotes with a seen-id set: each one is kept unless its id was kept already. */
  function Dedup(fs: seq<Footnote>): seq<Footnote>
    decreases |fs|
  {
    if |fs| == 0 then []
    else
      var kept := Dedup(fs[..|fs| - 1]);
      var f := fs[|fs| - 1];
      if f.id in Ids(kept) then kept else kept + [f]
  }

  lemma DedupSnoc(fs: seq<Footnote>, f: Footnote)
    ensures Dedup(fs + [f]) == if f.id in Ids(Dedup(fs)) then Dedup(fs) else Dedup(fs) + [f]
  {
    assert (fs + [f])[..|fs|] == fs;
  }

  /** All footnotes of the ayahs, in reading order. */
  function AllFootnotes(xs: seq<(int, Ayah)>): seq<Footnote>
    decreases |xs|
  {
    if |xs| == 0 then [] else AllFootnotes(xs[..|xs| - 1]) + xs[|xs| - 1].1.footnotes
  }

  lemma AllFootnotesSnoc(xs: seq<(int, Ayah)>, x: (int, Ayah))
    ensures AllFootnotes(xs + [x]) == AllFootnotes(xs) + x.1.footnotes
  {
    assert (xs + [x])[..|xs|] == xs;
  }

  /** The footnote list of the bilingual endnotes. */
  function EndnoteFootnotes(surahs: seq<Surah>): seq<Footnote> {
    Dedup(AllFootnotes(Reading(surahs)))
  }

  /** The innermost footnote loop of `_build_bilingual`, over one ayah's footnotes. */
  method AddFootnotes(all: seq<Footnote>, seen: set<int>, fns: seq<Footnote>, ghost before: seq<Footnote>)
    returns (all': seq<Footnote>, seen': set<int>)
    requires all == Dedup(before) && seen == Ids(all)
    ensures all' == Dedup(before + fns) && seen' == Ids(all')
  {
    all', seen' := all, seen;
    var f := 0;
    assert before + fns[..0] == before;
    while f < |fns|
      invariant 0 <= f <= |fns|
      invariant all' == Dedup(before + fns[..f]) && seen' == Ids(all')
    {
      var fn := fns[f];
      assert before + fns[..f + 1] == (before + fns[..f]) + [fn];
      DedupSnoc(before + fns[..f], fn);
      if fn.id !in seen' {
        IdsSnoc(all', fn);
        all' := all' + [fn];
        seen' := seen' + {fn.id};
      }
      f := f + 1;
    }
    assert fns[..f] == fns;
  }

  /** The ayah loop of `_build_bilingual` for one surah. */
  method AddSurahFootnotes(all: seq<Footnote>, seen: set<int>, n: int, ayahs: seq<Ayah>, ghost pre: seq<(int, Ayah)>)
    returns (all': seq<Footnote>, seen': set<int>)
    requires all == Dedup(AllFootnotes(pre)) && seen == Ids(all)
    ensures all' == Dedup(AllFootnotes(pre + InSurah(n, ayahs))) && seen' == Ids(all')
  {
    all', seen' := all, seen;
    var i := 0;
    assert pre + InSurah(n, ayahs[..0]) == pre;
    while i < |ayahs|
      invariant 0 <= i <= |ayahs|
      invariant all' == Dedup(AllFootnotes(pre + InSurah(n, ayahs[..i]))) && seen' == Ids(all')
    {
      var ayah := ayahs[i];
      assert pre + InSurah(n, ayahs[..i + 1]) == (pre + InSurah(n, ayahs[..i])) + [(n, ayah)] by {
        assert InSurah(n, ayahs[..i + 1]) == InSurah(n, ayahs[..i]) + [(n, ayah)];
      }
      AllFootnotesSnoc(pre + InSurah(n, ayahs[..i]), (n, ayah));
      all', seen' := AddFootnotes(all', seen', ayah.footnotes, AllFootnotes(pre + InSurah(n, ayahs[..i])));
      i := i + 1;
    }
    assert ayahs[..i] == ayahs;
  }

  /**
   * `_build_bilingual`: per surah, its footnotes are merged into the endnote list and its
   * chapter is rendered; the endnotes file is written and listed last only when some
   * footnote was found.
   */
  method BuildBilingual(files: FileSet, surahs: seq<Surah>) returns (items: seq<(string, string)>)
    modifies files
    ensures items == ChapterItems(surahs) + (if EndnoteFootnotes(surahs) != [] then [EndnotesItem] else [])
    ensures files.entries ==
      var chapters := AssignAll(old(files.entries), ChapterFiles(surahs, BilingualTemplate));
      if EndnoteFootnotes(surahs) != [] then Assign(chapters, EndnotesPath, EndnotesPage([], EndnoteFootnotes(surahs)))
      else chapters
  {
    items := [];
    var allFootnotes: seq<Footnote> := [];
    var seenIds: set<int> := {};
    var s := 0;
    while s < |surahs|
      invariant 0 <= s <= |surahs|
      invariant items == ChapterItems(surahs[..s])
      invariant files.entries == AssignAll(old(files.entries), ChapterFiles(surahs[..s], BilingualTemplate))
      invariant allFootnotes == Dedup(AllFootnotes(Reading(surahs[..s]))) && seenIds == Ids(allFootnotes)
    {
      var surah := surahs[s];
      ChapterSnoc(surahs, s, BilingualTemplate);
      AssignAllSnoc(old(files.entries), ChapterFiles(surahs[..s], BilingualTemplate), (ChapterPath(surah.number), ChapterPage(BilingualTemplate, surah)));
      assert Reading(surahs[..s + 1]) == Reading(surahs[..s]) + InSurah(surah.number, surah.ayahs) by {
        ReadingOuterStep(surahs, s);
        assert surah.ayahs[..|surah.ayahs|] == surah.ayahs;
      }
      allFootnotes, seenIds := AddSurahFootnotes(allFootnotes, seenIds, surah.number, surah.ayahs, Reading(surahs[..s]));
      files.Put(ChapterPath(surah.number), ChapterPage(BilingualTemplate, surah));
      items := items + [ChapterItem(surah.number)];
      s := s + 1;
    }
    assert surahs[..s] == surahs;
    if |allFootnotes| > 0 {
      files.Put(EndnotesPath, EndnotesPage([], allFootnotes));
      items := items + [EndnotesItem];
    }
  }

  /** Footnote `k` of `fs` is the first with its id. */
  predicate FirstOccurrence(fs: seq<Footnote>, k: nat)
    requires k < |fs|
  {
    forall j :: 0 <= j < k ==> fs[j].id != fs[k].id
  }

  /** The positions of the first occurrences of each id, in order. */
  function FirstPositions(fs: seq<Footnote>): seq<nat>
    decreases |fs|
  {
    if |fs| == 0 then []
    else FirstPositions(fs[..|fs| - 1]) + (if FirstOccurrence(fs, |fs| - 1) then [|fs| - 1] else [])
  }

  /**
   * The positions of first occurrences are increasing, each is a first occurrence, and every
   * first occurrence is among them.
   */
  lemma {:induction false} FirstPositionsFacts(fs: seq<Footnote>)
    ensures forall i :: 0 <= i < |FirstPositions(fs)| ==> FirstPositions(fs)[i] < |fs| && FirstOccurrence(fs, FirstPositions(fs)[i])
    ensures forall i, j :: 0 <= i < j < |FirstPositions(fs)| ==> FirstPositions(fs)[i] < FirstPositions(fs)[j]
    ensures forall k :: 0 <= k < |fs| && FirstOccurrence(fs, k) ==> k in FirstPositions(fs)
    decreases |fs|
  {
    if |fs| > 0 {
      var init := fs[..|fs| - 1];
      FirstPositionsFacts(init);
      var ps := FirstPositions(fs);
      assert forall k :: 0 <= k < |init| ==> (FirstOccurrence(init, k) <==> FirstOccurrence(fs, k)) by {
        forall k | 0 <= k < |init| ensures FirstOccurrence(init, k) <==> FirstOccurrence(fs, k) {
          assert forall j :: 0 <= j <= k ==> init[j] == fs[j];
        }
      }
      assert forall i :: 0 <= i < |FirstPositions(init)| ==> ps[i] == FirstPositions(init)[i];
    }
  }

  /** The kept footnotes have pairwise distinct ids, and they are all the ids there are. */
  lemma {:induction false} DedupIds(fs: seq<Footnote>)
    ensures Ids(Dedup(fs)) == Ids(fs)
    ensures forall i, j :: 0 <= i < j < |Dedup(fs)| ==> Dedup(fs)[i].id != Dedup(fs)[j].id
    decreases |fs|
  {
    if |fs| > 0 {
      var init, f := fs[..|fs| - 1], fs[|fs| - 1];
      DedupIds(init);
      assert fs == init + [f];
      IdsSnoc(init, f);
      var kept := Dedup(init);
      if f.id !in Ids(kept) {
        IdsSnoc(kept, f);
        var d := kept + [f];
        forall i, j | 0 <= i < j < |d| ensures d[i].id != d[j].id {
          if j == |kept| {
            assert d[i] == kept[i];
            assert kept[i].id in Ids(kept);
          } else {
            assert d[i] == kept[i] && d[j] == kept[j];
          }
        }
      }
    }
  }

  /**
   * De-duplication keeps exactly the first occurrence of each id, in order: the kept list is
   * the subsequence of `fs` at the first-occurrence positions.
   */
  lemma {:induction false} DedupKeepsFirst(fs: seq<Footnote>)
    ensures |Dedup(fs)| == |FirstPositions(fs)|
    ensures forall i :: 0 <= i < |Dedup(fs)| ==> FirstPositions(fs)[i] < |fs| && Dedup(fs)[i] == fs[FirstPositions(fs)[i]]
    decreases |fs|
  {
    if |fs| > 0 {
      var init, f := fs[..|fs| - 1], fs[|fs| - 1];
      DedupKeepsFirst(init);
      DedupIds(init);
      FirstPositionsFacts(init);
      assert f.id in Ids(init) <==> !FirstOccurrence(fs, |fs| - 1) by {
        if f.id in Ids(init) {
          var j :| 0 <= j < |init| && init[j].id == f.id;
          assert fs[j] == init[j];
        }
        if !FirstOccurrence(fs, |fs| - 1) {
          var j :| 0 <= j < |fs| - 1 && fs[j].id == f.id;
          assert init[j] == fs[j];
        }
      }
      forall i | 0 <= i < |Dedup(init)| ensures FirstPositions(fs)[i] < |fs| && Dedup(fs)[i] == fs[FirstPositions(fs)[i]] {
        assert FirstPositions(fs)[i] == FirstPositions(init)[i];
        assert init[FirstPositions(init)[i]] == fs[FirstPositions(init)[i]];
      }
    }
  }

  lemma {:induction false} AllFootnotesEmpty(xs: seq<(int, Ayah)>)
    ensures AllFootnotes(xs) == [] <==> forall k :: 0 <= k < |xs| ==> xs[k].1.footnotes == []
    decreases |xs|
  {
    if |xs| > 0 {
      AllFootnotesEmpty(xs[..|xs| - 1]);
      assert forall k :: 0 <= k < |xs| - 1 ==> xs[..|xs| - 1][k] == xs[k];
    }
  }

  /** Every footnote of every ayah is among all footnotes. */
  lemma {:induction false} AllFootnotesMembers(xs: seq<(int, Ayah)>)
    ensures forall k, j :: 0 <= k < |xs| && 0 <= j < |xs[k].1.footnotes| ==> xs[k].1.footnotes[j] in AllFootnotes(xs)
    decreases |xs|
  {
    if |xs| > 0 {
      var init := xs[..|xs| - 1];
      AllFootnotesMembers(init);
      assert forall k :: 0 <= k < |init| ==> init[k] == xs[k];
    }
  }

  /**
   * The bilingual endnotes list each footnote id found on any ayah exactly once, and the list
   * is empty exactly when no ayah has a footnote.
   */
  lemma EndnoteFootnotesCover(surahs: seq<Surah>)
    ensures var xs := Reading(surahs);
      forall k, j :: 0 <= k < |xs| && 0 <= j < |xs[k].1.footnotes| ==> xs[k].1.footnotes[j].id in Ids(EndnoteFootnotes(surahs))
    ensures forall i, j :: 0 <= i < j < |EndnoteFootnotes(surahs)| ==> EndnoteFootnotes(surahs)[i].id != EndnoteFootnotes(surahs)[j].id
    ensures EndnoteFootnotes(surahs) == [] <==> forall k :: 0 <= k < |Reading(surahs)| ==> Reading(surahs)[k].1.footnotes == []
  {
    var xs := Reading(surahs);
    var all := AllFootnotes(xs);
    AllFootnotesMembers(xs);
    AllFootnotesEmpty(xs);
    DedupIds(all);
    forall k, j | 0 <= k < |xs| && 0 <= j < |xs[k].1.footnotes| ensures xs[k].1.footnotes[j].id in Ids(all) {
      var f := xs[k].1.footnotes[j];
      var p :| 0 <= p < |all| && all[p] == f;
    }
    if all != [] {
      assert all[0].id in Ids(all);
    }
  }

  // ---------------------------------------------------------------------------------------
  // Layout dispatch and the descriptive title
  // ---------------------------------------------------------------------------------------

  /** The four layout builders. */
  datatype Layout = BySurah | Continuous | Interactive | Bilingual

  const InteractiveNeedsTranslation: string := "interactive_inline layout requires a translation config"

  /**
   * The layout dispatch of `build_epub`: the interactive layout needs a translation, any
   * other translated book is bilingual, and an Arabic-only book is continuous for "inline"
   * and by-surah for every other structure.
   */
  function SelectLayout(config: Schema.BuildConfig): (r: Result<Layout, string>)
    ensures r.Err? <==> config.layout.structure == "interactive_inline" && config.translation.None?
    ensures r.Err? ==> r.error == InteractiveNeedsTranslation
    ensures r == Ok(Interactive) <==> config.layout.structure == "interactive_inline" && config.translation.Some?
    ensures r == Ok(Bilingual) <==> config.layout.structure != "interactive_inline" && config.translation.Some?
    ensures r == Ok(Continuous) <==> config.layout.structure == "inline" && config.translation.None?
    ensures r == Ok(BySurah) <==>
      config.layout.structure != "inline" && config.layout.structure != "interactive_inline" && config.translation.None?
  {
    if config.layout.structure == "interactive_inline" then
      if config.translation.None? then Err(InteractiveNeedsTranslation) else Ok(Interactive)
    else if config.translation.Some? then Ok(Bilingual)
    else if config.layout.structure == "inline" then Ok(Continuous)
    else Ok(BySurah)
  }

  /** The separator of the descriptive title's parts, " — ". */
  const TitleSeparator: string := " — "

  /** The parts of the descriptive title. */
  function TitleParts(config: Schema.BuildConfig, riwayahArabic: Table<string>, layoutLabels: Table<(string, string)>): seq<string> {
    var riwayah := Riwayah(config.quran.script);
    var parts := [config.book.title, Lookup(riwayahArabic, riwayah).GetOr(riwayah)];
    if config.translation.Some? then
      parts
      + (match Lookup(layoutLabels, config.layout.structure) case Some(descriptor) => [descriptor.1] case None => [])
      + [config.translation.value.name]
    else parts
  }

  /**
   * `_build_descriptive_title`: the book title and the riwayah's Arabic name, then for a
   * translated book the layout's Arabic label (when the layout has one) and the
   * translation's name, joined with " — ". The label tables are parameters.
   */
  function DescriptiveTitle(config: Schema.BuildConfig, riwayahArabic: Table<string>, layoutLabels: Table<(string, string)>): string {
    Join(TitleSeparator, TitleParts(config, riwayahArabic, layoutLabels))
  }

  lemma JoinParts(sep: string, a: string, b: string, c: string, d: string)
    ensures Join(sep, [a, b]) == a + sep + b
    ensures Join(sep, [a, b, c]) == a + sep + b + sep + c
    ensures Join(sep, [a, b, c, d]) == a + sep + b + sep + c + sep + d
  {
    JoinCons(sep, c, [d]);
    assert [c, d] == [c] + [d];
    JoinCons(sep, b, [c, d]);
    assert [b, c, d] == [b] + [c, d];
    JoinCons(sep, a, [b, c, d]);
    assert [a, b, c, d] == [a] + [b, c, d];
    JoinCons(sep, b, [c]);
    assert [b, c] == [b] + [c];
    JoinCons(sep, a, [b, c]);
    assert [a, b, c] == [a] + [b, c];
    JoinCons(sep, a, [b]);
    assert [a, b] == [a] + [b];
  }

  /**
   * The riwayah part is always the Arabic name of "hafs"; an Arabic-only title stops there,
   * and a translated one goes on with the layout label, if any, and the translation's name.
   */
  lemma DescriptiveTitleShape(config: Schema.BuildConfig, riwayahArabic: Table<string>, layoutLabels: Table<(string, string)>)
    ensures var head := config.book.title + TitleSeparator + Lookup(riwayahArabic, "hafs").GetOr("hafs");
      DescriptiveTitle(config, riwayahArabic, layoutLabels) ==
        if config.translation.None? then head
        else match Lookup(layoutLabels, config.layout.structure)
          case Some(descriptor) => head + TitleSeparator + descriptor.1 + TitleSeparator + config.translation.value.name
          case None => head + TitleSeparator + config.translation.value.name
  {
    RiwayahAlwaysHafs(config.quran.script);
    var r := Lookup(riwayahArabic, "hafs").GetOr("hafs");
    var title := config.book.title;
    var parts := TitleParts(config, riwayahArabic, layoutLabels);
    if config.translation.None? {
      assert parts == [title, r];
      JoinParts(TitleSeparator, title, r, "", "");
    } else {
      var name := config.translation.value.name;
      match Lookup(layoutLabels, config.layout.structure)
      case Some(descriptor) =>
        assert parts == [title, r, descriptor.1, name];
        JoinParts(TitleSeparator, title, r, descriptor.1, name);
      case None =>
        assert parts == [title, r, name];
        JoinParts(TitleSeparator, title, r, name, "");
    }
  }
}
