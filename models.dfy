/**
 * The corpus records: a footnote of a translation, an ayah (verse), a surah (chapter) and the
 * mushaf (the whole corpus in one script), plus the corpus reading order (surahs in list
 * order, ayahs in list order within each) that the validator and the marker pass walk.
 */
module Models {
  import opened Wrappers

  /** A translator's footnote: corpus-wide `id`, display `number` within its ayah, and its text. */
  datatype Footnote = Footnote(id: int, number: int, text: string)

  /** One verse. `pageMarker` is computed by the marker pass; it is never loaded. */
  datatype Ayah = Ayah(
    surahNumber: int,
    ayahNumber: int,
    text: string,
    pageNumber: Option<int>,
    juzNumber: Option<int>,
    hizbQuarter: Option<int>,
    sajdah: bool,
    hizbMarker: bool,
    pageMarker: Option<int>,
    translation: Option<string>,
    footnotes: seq<Footnote>)

  /** One chapter. */
  datatype Surah = Surah(
    number: int,
    nameArabic: string,
    nameTransliteration: string,
    revelationType: string,
    ayahCount: int,
    ayahs: seq<Ayah>)
  {
    /** Every surah opens with the bismillah except At-Tawbah (surah 9). */
    predicate HasBismillah() {
      number != 9
    }

    /** In Al-Fatiha (surah 1) the bismillah is ayah 1 itself. */
    predicate BismillahIsFirstAyah() {
      number == 1
    }
  }

  /** The whole corpus in one script encoding. */
  datatype Mushaf = Mushaf(
    surahs: seq<Surah>,
    script: string,
    metadata: map<string, string>,
    bismillahText: string)

  /** The default `bismillah_text` of a Mushaf (Uthmani spelling, 38 code points). */
  const DefaultBismillah: string :=
    "\U{0628}\U{0650}\U{0633}\U{0652}\U{0645}\U{0650} \U{0671}\U{0644}\U{0644}\U{064e}\U{0651}\U{0647}\U{0650} \U{0671}\U{0644}\U{0631}\U{064e}\U{0651}\U{062d}\U{0652}\U{0645}\U{064e}\U{0670}\U{0646}\U{0650} \U{0671}\U{0644}\U{0631}\U{064e}\U{0651}\U{062d}\U{0650}\U{064a}\U{0645}\U{0650}"

  /** An ayah built from its three required fields; every optional field takes its default. */
  function NewAyah(surahNumber: int, ayahNumber: int, text: string): (a: Ayah)
    ensures a.surahNumber == surahNumber && a.ayahNumber == ayahNumber && a.text == text
    ensures a.pageMarker.None? && a.translation.None? && a.pageNumber.None?
    ensures a.juzNumber.None? && a.hizbQuarter.None?
    ensures !a.sajdah && !a.hizbMarker && a.footnotes == []
  {
    Ayah(surahNumber, ayahNumber, text, None, None, None, false, false, None, None, [])
  }

  /** A Mushaf built without an explicit bismillah or metadata. */
  function NewMushaf(surahs: seq<Surah>, script: string): (m: Mushaf)
    ensures m.surahs == surahs && m.script == script && m.metadata == map[]
    ensures m.bismillahText == DefaultBismillah && |m.bismillahText| >= 10
  {
    Mushaf(surahs, script, map[], DefaultBismillah)
  }

  /** Only surah 9 lacks the bismillah, only surah 1 has it as its first ayah; the second implies the first. */
  lemma BismillahFacts(s: Surah)
    ensures !s.HasBismillah() <==> s.number == 9
    ensures s.BismillahIsFirstAyah() <==> s.number == 1
    ensures s.BismillahIsFirstAyah() ==> s.HasBismillah()
  {
  }

  /**
   * Every ayah of the corpus in reading order (surahs in list order, ayahs in list order),
   * each paired with the number of the surah it sits in: the order of the source's nested
   * `for surah in mushaf.surahs: for ayah in surah.ayahs` loops.
   */
  function Reading(surahs: seq<Surah>): (r: seq<(int, Ayah)>)
    decreases |surahs|
  {
    if |surahs| == 0 then []
    else
      var last := surahs[|surahs| - 1];
      Reading(surahs[..|surahs| - 1]) + InSurah(last.number, last.ayahs)
  }

  /** The ayahs of one surah, each paired with the surah's number. */
  function InSurah(number: int, ayahs: seq<Ayah>): (r: seq<(int, Ayah)>)
    ensures |r| == |ayahs|
    ensures forall i :: 0 <= i < |r| ==> r[i] == (number, ayahs[i])
  {
    seq(|ayahs|, i requires 0 <= i < |ayahs| => (number, ayahs[i]))
  }

  /** One step of the inner loop: the next ayah of surah `s` joins the reading order. */
  lemma ReadingInnerStep(surahs: seq<Surah>, s: nat, a: nat)
    requires s < |surahs| && a < |surahs[s].ayahs|
    ensures Reading(surahs[..s]) + InSurah(surahs[s].number, surahs[s].ayahs[..a + 1])
         == Reading(surahs[..s]) + InSurah(surahs[s].number, surahs[s].ayahs[..a]) + [(surahs[s].number, surahs[s].ayahs[a])]
  {
    var n := surahs[s].number;
    var xs := surahs[s].ayahs;
    assert InSurah(n, xs[..a + 1]) == InSurah(n, xs[..a]) + [(n, xs[a])];
  }

  /** One step of the outer loop: after the last ayah of surah `s`, the reading order covers `surahs[..s + 1]`. */
  lemma ReadingOuterStep(surahs: seq<Surah>, s: nat)
    requires s < |surahs|
    ensures Reading(surahs[..s + 1]) == Reading(surahs[..s]) + InSurah(surahs[s].number, surahs[s].ayahs[..|surahs[s].ayahs|])
  {
    assert surahs[..s + 1][..s] == surahs[..s];
    assert surahs[s].ayahs[..|surahs[s].ayahs|] == surahs[s].ayahs;
  }

  /** The number of ayahs in all the given surahs together. */
  function TotalAyahs(surahs: seq<Surah>): nat
    decreases |surahs|
  {
    if |surahs| == 0 then 0 else TotalAyahs(surahs[..|surahs| - 1]) + |surahs[|surahs| - 1].ayahs|
  }

  /** The reading order visits exactly as many ayahs as the surahs hold. */
  lemma {:induction false} ReadingLength(surahs: seq<Surah>)
    ensures |Reading(surahs)| == TotalAyahs(surahs)
    decreases |surahs|
  {
    if |surahs| > 0 {
      ReadingLength(surahs[..|surahs| - 1]);
    }
  }

  /** `x` is some ayah of the surahs, paired with its surah's number. */
  predicate InCorpus(surahs: seq<Surah>, x: (int, Ayah)) {
    exists s, a :: 0 <= s < |surahs| && 0 <= a < |surahs[s].ayahs| && x == (surahs[s].number, surahs[s].ayahs[a])
  }

  /** Every entry of the reading order is an ayah of one of the surahs, paired with that surah's number. */
  lemma ReadingMembers(surahs: seq<Surah>)
    ensures forall k :: 0 <= k < |Reading(surahs)| ==> InCorpus(surahs, Reading(surahs)[k])
  {
    forall k | 0 <= k < |Reading(surahs)| ensures InCorpus(surahs, Reading(surahs)[k]) {
      ReadingMemberAt(surahs, k);
    }
  }

  lemma {:induction false} ReadingMemberAt(surahs: seq<Surah>, k: nat)
    requires k < |Reading(surahs)|
    ensures InCorpus(surahs, Reading(surahs)[k])
    decreases |surahs|
  {
    var init := surahs[..|surahs| - 1];
    var last := |surahs| - 1;
    var tail := InSurah(surahs[last].number, surahs[last].ayahs);
    assert Reading(surahs) == Reading(init) + tail;
    if k < |Reading(init)| {
      ReadingMemberAt(init, k);
      var s, a :| 0 <= s < |init| && 0 <= a < |init[s].ayahs| && Reading(init)[k] == (init[s].number, init[s].ayahs[a]);
      assert surahs[s] == init[s];
      assert Reading(surahs)[k] == Reading(init)[k];
    } else {
      var a := k - |Reading(init)|;
      assert Reading(surahs)[k] == tail[a];
      assert 0 <= last < |surahs| && 0 <= a < |surahs[last].ayahs| && Reading(surahs)[k] == (surahs[last].number, surahs[last].ayahs[a]);
    }
  }
}
