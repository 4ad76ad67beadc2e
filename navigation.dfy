/**
 * The navigation data the EPUB builder derives from the corpus before rendering: Eastern
 * Arabic numerals, the page-marker pass (an ayah is marked when a new Madinah Mushaf page
 * starts on it), the page list, the juz boundaries, and the link targets every layout uses.
 */
module Navigation {
  import opened Wrappers
  import opened Text
  import opened Models
  import Validate

  // ---------------------------------------------------------------------------------------
  // Numerals and link targets
  // ---------------------------------------------------------------------------------------

  predicate IsEasternDigit(c: char) {
    '\U{0660}' <= c <= '\U{0669}'
  }

  /** `str.maketrans("0123456789", "٠١٢٣٤٥٦٧٨٩")` applied to one character. */
  function EasternDigit(c: char): char {
    if IsAsciiDigit(c) then (c as int - '0' as int + 0x0660) as char else c
  }

  /** The reverse table: an Eastern Arabic-Indic digit back to its ASCII digit. */
  function WesternDigit(c: char): char {
    if IsEasternDigit(c) then (c as int - 0x0660 + '0' as int) as char else c
  }

  function Westernized(s: string): (r: string)
    ensures |r| == |s|
  {
    seq(|s|, i requires 0 <= i < |s| => WesternDigit(s[i]))
  }

  /** `_arabic_numerals`: the decimal form of `n` with every digit translated to its Eastern form. */
  function ArabicNumerals(n: int): (r: string)
    ensures |r| == |IntToString(n)|
  {
    var s := IntToString(n);
    seq(|s|, i requires 0 <= i < |s| => EasternDigit(s[i]))
  }

  /**
   * The numerals are a faithful rendering: translated back they give `str(n)`, a non-negative
   * number is written with Eastern digits only, and those digits read back as `n`.
   */
  lemma ArabicNumeralsRoundTrip(n: int)
    ensures Westernized(ArabicNumerals(n)) == IntToString(n)
    ensures n >= 0 ==> forall i :: 0 <= i < |ArabicNumerals(n)| ==> IsEasternDigit(ArabicNumerals(n)[i])
    ensures n >= 0 ==> AllDigits(Westernized(ArabicNumerals(n))) && DigitsValue(Westernized(ArabicNumerals(n))) == n
  {
    var s := IntToString(n);
    var r := ArabicNumerals(n);
    if n >= 0 {
      assert s == NatToString(n);
      DigitsValueOfNatToString(n);
    } else {
      assert s == "-" + NatToString(-n);
      assert forall i :: 1 <= i < |s| ==> IsAsciiDigit(s[i]) by {
        forall i | 1 <= i < |s| ensures IsAsciiDigit(s[i]) { assert s[i] == NatToString(-n)[i - 1]; }
      }
    }
    forall i | 0 <= i < |s| ensures WesternDigit(r[i]) == s[i] {
      if IsAsciiDigit(s[i]) {
        assert IsEasternDigit(r[i]);
      } else {
        assert r[i] == s[i];
      }
    }
  }

  /** The target of ayah `a` of surah `s`, the same in every layout. */
  function AyahHref(s: int, a: int): string {
    "chapter-" + IntToString(s) + ".xhtml#ayah-" + IntToString(s) + "-" + IntToString(a)
  }

  /** The page-break target of page `p` within surah `s`. */
  function PageHref(s: int, p: int): string {
    "chapter-" + IntToString(s) + ".xhtml#page" + IntToString(p)
  }

  /** The file of surah `n`. */
  function ChapterHref(n: int): string {
    "chapter-" + IntToString(n) + ".xhtml"
  }

  // ---------------------------------------------------------------------------------------
  // Page markers
  // ---------------------------------------------------------------------------------------

  /** The page of the last ayah in `xs` that has one: `prev_page` after visiting `xs`. */
  function LastPage(xs: seq<(int, Ayah)>): Option<int>
    decreases |xs|
  {
    if |xs| == 0 then None
    else if xs[|xs| - 1].1.pageNumber.Some? then xs[|xs| - 1].1.pageNumber
    else LastPage(xs[..|xs| - 1])
  }

  /** No page is seen before the first ayah that has one; after it, the last page seen is that of some later-or-equal ayah. */
  lemma {:induction false} LastPageMeaning(xs: seq<(int, Ayah)>)
    ensures LastPage(xs).None? <==> forall k :: 0 <= k < |xs| ==> xs[k].1.pageNumber.None?
    ensures LastPage(xs).Some? ==>
      exists j :: 0 <= j < |xs| && xs[j].1.pageNumber == LastPage(xs) &&
        forall k :: j < k < |xs| ==> xs[k].1.pageNumber.None?
    decreases |xs|
  {
    if |xs| > 0 {
      var init := xs[..|xs| - 1];
      LastPageMeaning(init);
      forall k | 0 <= k < |init| ensures init[k] == xs[k] {}
      if xs[|xs| - 1].1.pageNumber.None? && LastPage(init).Some? {
        var j :| 0 <= j < |init| && init[j].1.pageNumber == LastPage(init) &&
          forall k :: j < k < |init| ==> init[k].1.pageNumber.None?;
        assert xs[j].1.pageNumber == LastPage(xs);
      }
    }
  }

  /** One ayah through the marker pass, `prev` being the last page seen before it: only `pageMarker` may change. */
  function Mark(a: Ayah, prev: Option<int>): (b: Ayah)
    ensures b == a.(pageMarker := b.pageMarker)
  {
    if a.pageNumber.Some? && a.pageNumber != prev then a.(pageMarker := a.pageNumber) else a
  }

  /** The reading order after the marker pass: every ayah marked against the pages of the ayahs before it. */
  function MarkedReading(xs: seq<(int, Ayah)>): (ys: seq<(int, Ayah)>)
    ensures |ys| == |xs|
    decreases |xs|
  {
    if |xs| == 0 then []
    else
      var init := xs[..|xs| - 1];
      var x := xs[|xs| - 1];
      MarkedReading(init) + [(x.0, Mark(x.1, LastPage(init)))]
  }

  lemma MarkedReadingSnoc(xs: seq<(int, Ayah)>, x: (int, Ayah))
    ensures MarkedReading(xs + [x]) == MarkedReading(xs) + [(x.0, Mark(x.1, LastPage(xs)))]
  {
    assert (xs + [x])[..|xs|] == xs;
  }

  /** Each ayah of the marked reading order is that ayah marked against the pages of the ayahs before it. */
  lemma {:induction false} MarkedReadingAt(xs: seq<(int, Ayah)>, k: nat)
    requires k < |xs|
    ensures MarkedReading(xs)[k] == (xs[k].0, Mark(xs[k].1, LastPage(xs[..k])))
    decreases |xs|
  {
    var init := xs[..|xs| - 1];
    if k < |init| {
      MarkedReadingAt(init, k);
      assert init[..k] == xs[..k];
    }
  }

  lemma LastPageSnoc(xs: seq<(int, Ayah)>, x: (int, Ayah))
    ensures LastPage(xs + [x]) == if x.1.pageNumber.Some? then x.1.pageNumber else LastPage(xs)
  {
    assert (xs + [x])[..|xs|] == xs;
  }

  lemma ReadingSnoc(surahs: seq<Surah>, t: Surah)
    ensures Reading(surahs + [t]) == Reading(surahs) + InSurah(t.number, t.ayahs)
  {
    assert (surahs + [t])[..|surahs|] == surahs;
  }

  lemma InSurahSnoc(n: int, ayahs: seq<Ayah>, a: Ayah)
    ensures InSurah(n, ayahs + [a]) == InSurah(n, ayahs) + [(n, a)]
  {
  }

  /** `after` is `before` with, at most, different ayahs in each surah, as many as before. */
  predicate SameShape(before: seq<Surah>, after: seq<Surah>) {
    && |after| == |before|
    && forall j :: 0 <= j < |before| ==>
         after[j] == before[j].(ayahs := after[j].ayahs) && |after[j].ayahs| == |before[j].ayahs|
  }

  lemma SameShapeSnoc(before: seq<Surah>, after: seq<Surah>, x: Surah, y: Surah)
    requires SameShape(before, after)
    requires y == x.(ayahs := y.ayahs) && |y.ayahs| == |x.ayahs|
    ensures SameShape(before + [x], after + [y])
  {
    forall j | 0 <= j < |before| + 1
      ensures (after + [y])[j] == (before + [x])[j].(ayahs := (after + [y])[j].ayahs)
      ensures |(after + [y])[j].ayahs| == |(before + [x])[j].ayahs|
    {
      if j < |before| {
        assert (after + [y])[j] == after[j] && (before + [x])[j] == before[j];
      }
    }
  }

  /** One ayah through the marker loop: the marked prefix and `prev_page` stay in step with the reading order. */
  lemma MarkStep(pre: seq<(int, Ayah)>, done: seq<(int, Ayah)>, x: (int, Ayah), prev: Option<int>)
    requires done == MarkedReading(pre) && prev == LastPage(pre)
    ensures done + [(x.0, Mark(x.1, prev))] == MarkedReading(pre + [x])
    ensures (if x.1.pageNumber.Some? && x.1.pageNumber != prev then x.1.pageNumber else prev) == LastPage(pre + [x])
  {
    MarkedReadingSnoc(pre, x);
    LastPageSnoc(pre, x);
  }

  /** One ayah of surah `n` through the inner loop: the loop invariants carry over. */
  lemma MarkAyahStep(n: int, src: seq<Ayah>, i: nat, pre: seq<(int, Ayah)>, out: seq<Ayah>, last: Option<int>)
    requires i < |src|
    requires MarkedReading(pre) + InSurah(n, out) == MarkedReading(pre + InSurah(n, src[..i]))
    requires last == LastPage(pre + InSurah(n, src[..i]))
    ensures MarkedReading(pre) + InSurah(n, out + [Mark(src[i], last)]) == MarkedReading(pre + InSurah(n, src[..i + 1]))
    ensures (if src[i].pageNumber.Some? && src[i].pageNumber != last then src[i].pageNumber else last)
      == LastPage(pre + InSurah(n, src[..i + 1]))
  {
    var ayah := Mark(src[i], last);
    MarkStep(pre + InSurah(n, src[..i]), MarkedReading(pre) + InSurah(n, out), (n, src[i]), last);
    InSurahSnoc(n, out, ayah);
    InSurahSnoc(n, src[..i], src[i]);
    assert src[..i + 1] == src[..i] + [src[i]];
    assert pre + InSurah(n, src[..i + 1]) == (pre + InSurah(n, src[..i])) + [(n, src[i])];
    assert MarkedReading(pre) + InSurah(n, out + [ayah]) == (MarkedReading(pre) + InSurah(n, out)) + [(n, ayah)];
  }

  /**
   * The inner loop of `_compute_page_markers` over the ayahs of surah `n`, entered with the
   * last page seen over the reading order `pre` before the surah.
   */
  method MarkSurahAyahs(n: int, src: seq<Ayah>, prev: Option<int>, ghost pre: seq<(int, Ayah)>)
    returns (out: seq<Ayah>, last: Option<int>)
    requires prev == LastPage(pre)
    ensures |out| == |src|
    ensures MarkedReading(pre) + InSurah(n, out) == MarkedReading(pre + InSurah(n, src))
    ensures last == LastPage(pre + InSurah(n, src))
  {
    out := [];
    last := prev;
    var i := 0;
    assert src[..0] == [];
    assert pre + InSurah(n, src[..0]) == pre;
    while i < |src|
      invariant 0 <= i <= |src|
      invariant |out| == i
      invariant MarkedReading(pre) + InSurah(n, out) == MarkedReading(pre + InSurah(n, src[..i]))
      invariant last == LastPage(pre + InSurah(n, src[..i]))
    {
      var ayah := src[i];
      MarkAyahStep(n, src, i, pre, out, last);
      if ayah.pageNumber.Some? && ayah.pageNumber != last {
        ayah := ayah.(pageMarker := ayah.pageNumber);
        last := ayah.pageNumber;
      }
      out := out + [ayah];
      i := i + 1;
    }
    assert src[..i] == src;
  }

  /** One surah through the outer loop of `_compute_page_markers`: the loop invariants carry over. */
  lemma MarkSurahStep(src: seq<Surah>, s: nat, surahs: seq<Surah>, ayahs: seq<Ayah>)
    requires s < |src|
    requires SameShape(src[..s], surahs)
    requires Reading(surahs) == MarkedReading(Reading(src[..s]))
    requires |ayahs| == |src[s].ayahs|
    requires MarkedReading(Reading(src[..s])) + InSurah(src[s].number, ayahs)
      == MarkedReading(Reading(src[..s]) + InSurah(src[s].number, src[s].ayahs))
    ensures Reading(src[..s + 1]) == Reading(src[..s]) + InSurah(src[s].number, src[s].ayahs)
    ensures SameShape(src[..s + 1], surahs + [src[s].(ayahs := ayahs)])
    ensures Reading(surahs + [src[s].(ayahs := ayahs)]) == MarkedReading(Reading(src[..s + 1]))
  {
    var surah, marked := src[s], src[s].(ayahs := ayahs);
    assert src[..s + 1] == src[..s] + [surah];
    ReadingSnoc(src[..s], surah);
    SameShapeSnoc(src[..s], surahs, surah, marked);
    calc {
      Reading(surahs + [marked]);
      { ReadingSnoc(surahs, marked); }
      Reading(surahs) + InSurah(surah.number, ayahs);
      MarkedReading(Reading(src[..s]) + InSurah(surah.number, surah.ayahs));
    }
  }

  /** `_compute_page_markers`: only the `pageMarker` fields change, as the marked reading order says. */
  method ComputePageMarkers(m: Mushaf) returns (r: Mushaf)
    ensures r == m.(surahs := r.surahs)
    ensures SameShape(m.surahs, r.surahs)
    ensures Reading(r.surahs) == MarkedReading(Reading(m.surahs))
  {
    var surahs: seq<Surah> := [];
    var prevPage: Option<int> := None;
    var s := 0;
    while s < |m.surahs|
      invariant 0 <= s <= |m.surahs|
      invariant SameShape(m.surahs[..s], surahs)
      invariant Reading(surahs) == MarkedReading(Reading(m.surahs[..s]))
      invariant prevPage == LastPage(Reading(m.surahs[..s]))
    {
      var surah := m.surahs[s];
      var ayahs;
      ayahs, prevPage := MarkSurahAyahs(surah.number, surah.ayahs, prevPage, Reading(m.surahs[..s]));
      MarkSurahStep(m.surahs, s, surahs, ayahs);
      surahs := surahs + [surah.(ayahs := ayahs)];
      s := s + 1;
    }
    assert m.surahs[..s] == m.surahs;
    r := m.(surahs := surahs);
  }

  /** No ayah carries a page marker yet, as loaded. */
  predicate Unmarked(xs: seq<(int, Ayah)>) {
    forall k :: 0 <= k < |xs| ==> xs[k].1.pageMarker.None?
  }

  /**
   * After the pass over unmarked ayahs, an ayah is marked exactly when it has a page that
   * differs from the last page seen before it, and then with that page; the first ayah with a
   * page is always marked.
   */
  lemma PageMarkerMeaning(xs: seq<(int, Ayah)>, k: nat)
    requires Unmarked(xs) && k < |xs|
    ensures MarkedReading(xs)[k].1.pageMarker.Some? <==>
      xs[k].1.pageNumber.Some? && xs[k].1.pageNumber != LastPage(xs[..k])
    ensures MarkedReading(xs)[k].1.pageMarker.Some? ==> MarkedReading(xs)[k].1.pageMarker == xs[k].1.pageNumber
    ensures MarkedReading(xs)[k].1 == xs[k].1.(pageMarker := MarkedReading(xs)[k].1.pageMarker)
    ensures xs[k].1.pageNumber.Some? && (forall j :: 0 <= j < k ==> xs[j].1.pageNumber.None?) ==>
      MarkedReading(xs)[k].1.pageMarker == xs[k].1.pageNumber
  {
    var pre := xs[..k];
    MarkedReadingAt(xs, k);
    LastPageMeaning(pre);
    if forall j :: 0 <= j < k ==> xs[j].1.pageNumber.None? {
      forall j | 0 <= j < |pre| ensures pre[j].1.pageNumber.None? { assert pre[j] == xs[j]; }
    }
  }

  // ---------------------------------------------------------------------------------------
  // Page list
  // ---------------------------------------------------------------------------------------

  /** A page-list entry: the page, the target of its page break, and its label. */
  datatype PageEntry = PageEntry(page: int, href: string, pageLabel: string)

  /** `_compute_page_list`: one entry per marked ayah, in reading order, labelled with its page in decimal. */
  function PageList(xs: seq<(int, Ayah)>): seq<PageEntry>
    decreases |xs|
  {
    if |xs| == 0 then []
    else
      var x := xs[|xs| - 1];
      PageList(xs[..|xs| - 1]) + (
        match x.1.pageMarker
        case Some(p) => [PageEntry(p, PageHref(x.0, p), IntToString(p))]
        case None => [])
  }

  lemma PageListSnoc(xs: seq<(int, Ayah)>, x: (int, Ayah))
    ensures PageList(xs + [x]) == PageList(xs) + (
      match x.1.pageMarker
      case Some(p) => [PageEntry(p, PageHref(x.0, p), IntToString(p))]
      case None => [])
  {
    assert (xs + [x])[..|xs|] == xs;
  }

  /** The method form of `_compute_page_list`, walking the surahs as the source does. */
  method ComputePageList(surahs: seq<Surah>) returns (entries: seq<PageEntry>)
    ensures entries == PageList(Reading(surahs))
  {
    entries := [];
    var s := 0;
    while s < |surahs|
      invariant 0 <= s <= |surahs|
      invariant entries == PageList(Reading(surahs[..s]))
    {
      var surah := surahs[s];
      var i := 0;
      assert Reading(surahs[..s]) + InSurah(surah.number, surah.ayahs[..0]) == Reading(surahs[..s]);
      while i < |surah.ayahs|
        invariant 0 <= i <= |surah.ayahs|
        invariant entries == PageList(Reading(surahs[..s]) + InSurah(surah.number, surah.ayahs[..i]))
      {
        var ayah := surah.ayahs[i];
        ReadingInnerStep(surahs, s, i);
        PageListSnoc(Reading(surahs[..s]) + InSurah(surah.number, surah.ayahs[..i]), (surah.number, ayah));
        if ayah.pageMarker.Some? {
          var p := ayah.pageMarker.value;
          entries := entries + [PageEntry(p, PageHref(surah.number, p), IntToString(p))];
        }
        i := i + 1;
      }
      ReadingOuterStep(surahs, s);
      s := s + 1;
    }
    assert surahs[..s] == surahs;
  }

  /** `e` is the page-list entry of the marked ayah `x`: its page, in `x`'s surah, labelled in decimal. */
  predicate EntryFor(x: (int, Ayah), e: PageEntry) {
    x.1.pageMarker == Some(e.page) && e == PageEntry(e.page, PageHref(x.0, e.page), IntToString(e.page))
  }

  /** Every entry of the page list is the entry of some marked ayah, and there are no more entries than ayahs. */
  lemma {:induction false} PageListEntries(xs: seq<(int, Ayah)>)
    ensures forall i :: 0 <= i < |PageList(xs)| ==> exists k :: 0 <= k < |xs| && EntryFor(xs[k], PageList(xs)[i])
    ensures |PageList(xs)| <= |xs|
    decreases |xs|
  {
    if |xs| > 0 {
      var init := xs[..|xs| - 1];
      PageListEntries(init);
      forall i | 0 <= i < |PageList(xs)| ensures exists k :: 0 <= k < |xs| && EntryFor(xs[k], PageList(xs)[i]) {
        if i < |PageList(init)| {
          var k :| 0 <= k < |init| && EntryFor(init[k], PageList(init)[i]);
          assert xs[k] == init[k];
        } else {
          assert EntryFor(xs[|xs| - 1], PageList(xs)[i]);
        }
      }
    } else {
      assert PageList(xs) == [];
    }
  }

  /** With the pages in reading order, the last page before an ayah with a page is no greater than its page. */
  lemma LastPageBelow(xs: seq<(int, Ayah)>)
    requires |xs| > 0 && Validate.PagesNonDecreasing(xs) && xs[|xs| - 1].1.pageNumber.Some?
    ensures LastPage(xs[..|xs| - 1]).Some? ==> LastPage(xs[..|xs| - 1]).value <= xs[|xs| - 1].1.pageNumber.value
  {
    var init := xs[..|xs| - 1];
    if LastPage(init).Some? {
      LastPageMeaning(init);
      var j :| 0 <= j < |init| && init[j].1.pageNumber == LastPage(init) &&
        forall k :: j < k < |init| ==> init[k].1.pageNumber.None?;
      assert init[j] == xs[j];
      assert xs[j].1.pageNumber.value <= xs[|xs| - 1].1.pageNumber.value;
    }
  }

  /** With the pages in reading order, every page in the page list is at most the last page seen. */
  lemma {:induction false} PageListBounded(xs: seq<(int, Ayah)>)
    requires Unmarked(xs) && Validate.PagesNonDecreasing(xs)
    ensures forall i :: 0 <= i < |PageList(MarkedReading(xs))| ==>
      LastPage(xs).Some? && PageList(MarkedReading(xs))[i].page <= LastPage(xs).value
    decreases |xs|
  {
    if |xs| > 0 {
      var init := xs[..|xs| - 1];
      var x := xs[|xs| - 1];
      assert xs == init + [x];
      forall k | 0 <= k < |init| ensures init[k] == xs[k] {}
      PageListBounded(init);
      MarkedReadingSnoc(init, x);
      LastPageSnoc(init, x);
      var y := (x.0, Mark(x.1, LastPage(init)));
      PageListSnoc(MarkedReading(init), y);
      var old_ := PageList(MarkedReading(init));
      var ps := PageList(MarkedReading(xs));
      if x.1.pageNumber.Some? {
        LastPageBelow(xs);
        var q := x.1.pageNumber.value;
        assert LastPage(xs) == Some(q);
        assert y.1.pageMarker.Some? ==> y.1.pageMarker.value == q;
        forall i | 0 <= i < |PageList(MarkedReading(xs))|
          ensures LastPage(xs).Some? && PageList(MarkedReading(xs))[i].page <= LastPage(xs).value
        {
          if i < |old_| {
            assert PageList(MarkedReading(xs))[i] == old_[i];
            assert LastPage(init).Some? && old_[i].page <= LastPage(init).value;
          } else {
            assert y.1.pageMarker.Some? && PageList(MarkedReading(xs))[i].page == y.1.pageMarker.value;
          }
        }
      } else {
        assert x.1.pageMarker.None? && y.1 == x.1;
        assert ps == old_;
        assert LastPage(xs) == LastPage(init);
        assert LastPage(init).Some? ==> LastPage(xs).Some? && LastPage(xs).value == LastPage(init).value;
        forall i | 0 <= i < |PageList(MarkedReading(xs))|
          ensures LastPage(xs).Some? && PageList(MarkedReading(xs))[i].page <= LastPage(xs).value
        {
          assert PageList(MarkedReading(xs))[i] == old_[i];
          assert LastPage(init).Some? && old_[i].page <= LastPage(init).value;
        }
      }
    } else {
      assert MarkedReading(xs) == [];
      assert PageList(MarkedReading(xs)) == [];
    }
  }

  /** An entry above every page of a strictly increasing list keeps it strictly increasing. */
  lemma IncreasingSnoc(es: seq<PageEntry>, e: PageEntry)
    requires forall i, j :: 0 <= i < j < |es| ==> es[i].page < es[j].page
    requires forall i :: 0 <= i < |es| ==> es[i].page < e.page
    ensures forall i, j :: 0 <= i < j < |es + [e]| ==> (es + [e])[i].page < (es + [e])[j].page
  {
  }

  /** With the pages in reading order, the page list of the marked corpus has strictly increasing pages. */
  lemma {:induction false} PageListIncreasing(xs: seq<(int, Ayah)>)
    requires Unmarked(xs) && Validate.PagesNonDecreasing(xs)
    ensures forall i, j :: 0 <= i < j < |PageList(MarkedReading(xs))| ==>
      PageList(MarkedReading(xs))[i].page < PageList(MarkedReading(xs))[j].page
    decreases |xs|
  {
    if |xs| > 0 {
      var init := xs[..|xs| - 1];
      var x := xs[|xs| - 1];
      assert xs == init + [x];
      forall k | 0 <= k < |init| ensures init[k] == xs[k] {}
      PageListIncreasing(init);
      PageListBounded(init);
      MarkedReadingSnoc(init, x);
      var y := (x.0, Mark(x.1, LastPage(init)));
      PageListSnoc(MarkedReading(init), y);
      var old_ := PageList(MarkedReading(init));
      if y.1.pageMarker.Some? {
        var p := y.1.pageMarker.value;
        assert x.1.pageNumber == Some(p) && LastPage(init) != Some(p);
        LastPageBelow(xs);
        var e := PageEntry(p, PageHref(x.0, p), IntToString(p));
        forall i | 0 <= i < |PageList(MarkedReading(init))| ensures PageList(MarkedReading(init))[i].page < e.page {
          assert LastPage(init).Some? && PageList(MarkedReading(init))[i].page <= LastPage(init).value;
        }
        IncreasingSnoc(old_, e);
        assert PageList(MarkedReading(xs)) == old_ + [e];
      } else {
        assert PageList(MarkedReading(xs)) == old_;
      }
    } else {
      assert MarkedReading(xs) == [];
      assert PageList(MarkedReading(xs)) == [];
    }
  }

  /** Some entry of `es` is for page `p`. */
  predicate HasPageEntry(es: seq<PageEntry>, p: int) {
    exists i :: 0 <= i < |es| && es[i].page == p
  }

  /** Some ayah of `xs` lies on page `p`. */
  predicate OnSomePage(xs: seq<(int, Ayah)>, p: int) {
    exists k :: 0 <= k < |xs| && xs[k].1.pageNumber == Some(p)
  }

  lemma HasPageEntryAppend(es: seq<PageEntry>, t: seq<PageEntry>, p: int)
    requires HasPageEntry(es, p)
    ensures HasPageEntry(es + t, p)
  {
    var i :| 0 <= i < |es| && es[i].page == p;
    assert (es + t)[i] == es[i];
  }

  /**
   * On an unmarked corpus, every page some ayah lies on gets a page-list entry, and so does
   * the last page seen.
   */
  lemma {:induction false} PageListCoversPages(xs: seq<(int, Ayah)>)
    requires Unmarked(xs)
    ensures LastPage(xs).Some? ==> HasPageEntry(PageList(MarkedReading(xs)), LastPage(xs).value)
    ensures forall k :: 0 <= k < |xs| && xs[k].1.pageNumber.Some? ==>
      HasPageEntry(PageList(MarkedReading(xs)), xs[k].1.pageNumber.value)
    decreases |xs|
  {
    if |xs| > 0 {
      var init := xs[..|xs| - 1];
      var x := xs[|xs| - 1];
      assert xs == init + [x];
      forall k | 0 <= k < |init| ensures init[k] == xs[k] {}
      PageListCoversPages(init);
      MarkedReadingSnoc(init, x);
      LastPageSnoc(init, x);
      var y := (x.0, Mark(x.1, LastPage(init)));
      PageListSnoc(MarkedReading(init), y);
      var old_ := PageList(MarkedReading(init));
      var added: seq<PageEntry> := if y.1.pageMarker.Some? then [PageEntry(y.1.pageMarker.value, PageHref(x.0, y.1.pageMarker.value), IntToString(y.1.pageMarker.value))] else [];
      assert PageList(MarkedReading(xs)) == old_ + added;
      if y.1.pageMarker.Some? {
        assert (old_ + added)[|old_|].page == x.1.pageNumber.value;
      }
      forall k | 0 <= k < |xs| && xs[k].1.pageNumber.Some?
        ensures HasPageEntry(PageList(MarkedReading(xs)), xs[k].1.pageNumber.value)
      {
        if k < |init| {
          HasPageEntryAppend(old_, added, init[k].1.pageNumber.value);
        } else if y.1.pageMarker.None? {
          HasPageEntryAppend(old_, added, LastPage(init).value);
        }
      }
      if LastPage(xs).Some? && LastPage(xs) == LastPage(init) {
        HasPageEntryAppend(old_, added, LastPage(init).value);
      }
    }
  }

  /** On an unmarked corpus, every entry of the page list is a page some ayah lies on. */
  lemma PageListPagesAreAyahPages(xs: seq<(int, Ayah)>)
    requires Unmarked(xs)
    ensures forall i :: 0 <= i < |PageList(MarkedReading(xs))| ==> OnSomePage(xs, PageList(MarkedReading(xs))[i].page)
  {
    var ys := MarkedReading(xs);
    PageListEntries(ys);
    forall i | 0 <= i < |PageList(ys)| ensures OnSomePage(xs, PageList(ys)[i].page) {
      var k :| 0 <= k < |ys| && EntryFor(ys[k], PageList(ys)[i]);
      PageMarkerMeaning(xs, k);
    }
  }

  // ---------------------------------------------------------------------------------------
  // Juz boundaries
  // ---------------------------------------------------------------------------------------

  /** A juz entry of the table of contents: the juz, the ayah it starts at, and its Arabic label. */
  datatype JuzEntry = JuzEntry(juz: int, href: string, labelText: string, labelNum: string)

  /** The label word "جزء" (juz). */
  const JuzLabel: string := "\U{062C}\U{0632}\U{0621}"

  /** The juz of the last ayah in `xs` that has one. */
  function LastJuz(xs: seq<(int, Ayah)>): Option<int>
    decreases |xs|
  {
    if |xs| == 0 then None
    else if xs[|xs| - 1].1.juzNumber.Some? then xs[|xs| - 1].1.juzNumber
    else LastJuz(xs[..|xs| - 1])
  }

  /** `_compute_juz_entries` as a scan: the entries so far and `prev_juz`. */
  function JuzScan(xs: seq<(int, Ayah)>): (seq<JuzEntry>, Option<int>)
    decreases |xs|
  {
    if |xs| == 0 then ([], None)
    else
      var (es, prev) := JuzScan(xs[..|xs| - 1]);
      var x := xs[|xs| - 1];
      if x.1.juzNumber.Some? && x.1.juzNumber != prev then
        var j := x.1.juzNumber.value;
        (es + [JuzEntry(j, AyahHref(x.0, x.1.ayahNumber), JuzLabel, ArabicNumerals(j))], x.1.juzNumber)
      else (es, prev)
  }

  function JuzEntries(xs: seq<(int, Ayah)>): seq<JuzEntry> {
    JuzScan(xs).0
  }

  /** The method form of `_compute_juz_entries`. */
  method ComputeJuzEntries(surahs: seq<Surah>) returns (entries: seq<JuzEntry>)
    ensures entries == JuzEntries(Reading(surahs))
  {
    entries := [];
    var prevJuz: Option<int> := None;
    var s := 0;
    while s < |surahs|
      invariant 0 <= s <= |surahs|
      invariant (entries, prevJuz) == JuzScan(Reading(surahs[..s]))
    {
      var surah := surahs[s];
      var i := 0;
      assert Reading(surahs[..s]) + InSurah(surah.number, surah.ayahs[..0]) == Reading(surahs[..s]);
      while i < |surah.ayahs|
        invariant 0 <= i <= |surah.ayahs|
        invariant (entries, prevJuz) == JuzScan(Reading(surahs[..s]) + InSurah(surah.number, surah.ayahs[..i]))
      {
        var ayah := surah.ayahs[i];
        ghost var xs := Reading(surahs[..s]) + InSurah(surah.number, surah.ayahs[..i]);
        ReadingInnerStep(surahs, s, i);
        assert (xs + [(surah.number, ayah)])[..|xs|] == xs;
        if ayah.juzNumber.Some? && ayah.juzNumber != prevJuz {
          var j := ayah.juzNumber.value;
          entries := entries + [JuzEntry(j, AyahHref(surah.number, ayah.ayahNumber), JuzLabel, ArabicNumerals(j))];
          prevJuz := ayah.juzNumber;
        }
        i := i + 1;
      }
      ReadingOuterStep(surahs, s);
      s := s + 1;
    }
    assert surahs[..s] == surahs;
  }

  /**
   * `prev_juz` is the juz of the last entry (none before the first), which is the last juz
   * seen; consecutive entries name different juz, and every entry carries the Arabic label
   * and its number in Eastern numerals.
   */
  lemma {:induction false} JuzScanFacts(xs: seq<(int, Ayah)>)
    ensures JuzScan(xs).0 == [] <==> JuzScan(xs).1.None?
    ensures JuzScan(xs).0 != [] ==> JuzScan(xs).1 == Some(JuzScan(xs).0[|JuzScan(xs).0| - 1].juz)
    ensures JuzScan(xs).1 == LastJuz(xs)
    ensures forall i :: 0 <= i < |JuzScan(xs).0| - 1 ==> JuzScan(xs).0[i].juz != JuzScan(xs).0[i + 1].juz
    ensures forall i :: 0 <= i < |JuzScan(xs).0| ==>
      JuzScan(xs).0[i].labelText == JuzLabel && JuzScan(xs).0[i].labelNum == ArabicNumerals(JuzScan(xs).0[i].juz)
    decreases |xs|
  {
    if |xs| > 0 {
      JuzScanFacts(xs[..|xs| - 1]);
    }
  }

  /**
   * An entry is added for an ayah exactly when it has a juz that differs from the last juz
   * seen before it, and it links to that ayah.
   */
  lemma JuzEntriesSnoc(xs: seq<(int, Ayah)>, x: (int, Ayah))
    ensures JuzEntries(xs + [x]) == JuzEntries(xs) + (
      if x.1.juzNumber.Some? && x.1.juzNumber != LastJuz(xs)
      then [JuzEntry(x.1.juzNumber.value, AyahHref(x.0, x.1.ayahNumber), JuzLabel, ArabicNumerals(x.1.juzNumber.value))]
      else [])
  {
    assert (xs + [x])[..|xs|] == xs;
    JuzScanFacts(xs);
  }

  /** Some entry of `es` is for juz `j`. */
  predicate HasJuzEntry(es: seq<JuzEntry>, j: int) {
    exists i :: 0 <= i < |es| && es[i].juz == j
  }

  /** Some ayah of `xs` lies in juz `j`. */
  predicate InSomeJuz(xs: seq<(int, Ayah)>, j: int) {
    exists k :: 0 <= k < |xs| && xs[k].1.juzNumber == Some(j)
  }

  lemma HasJuzEntryAppend(es: seq<JuzEntry>, t: seq<JuzEntry>, j: int)
    requires HasJuzEntry(es, j)
    ensures HasJuzEntry(es + t, j)
  {
    var i :| 0 <= i < |es| && es[i].juz == j;
    assert (es + t)[i] == es[i];
  }

  /** Every juz some ayah lies in gets an entry, and every entry is the juz of some ayah. */
  lemma {:induction false} JuzEntriesCoverJuz(xs: seq<(int, Ayah)>)
    ensures forall k :: 0 <= k < |xs| && xs[k].1.juzNumber.Some? ==> HasJuzEntry(JuzEntries(xs), xs[k].1.juzNumber.value)
    ensures forall i :: 0 <= i < |JuzEntries(xs)| ==> InSomeJuz(xs, JuzEntries(xs)[i].juz)
    decreases |xs|
  {
    if |xs| > 0 {
      var init := xs[..|xs| - 1];
      var x := xs[|xs| - 1];
      assert xs == init + [x];
      forall k | 0 <= k < |init| ensures init[k] == xs[k] {}
      JuzEntriesCoverJuz(init);
      JuzEntriesSnoc(init, x);
      JuzScanFacts(init);
      var old_ := JuzEntries(init);
      var fires := x.1.juzNumber.Some? && x.1.juzNumber != LastJuz(init);
      var added: seq<JuzEntry> := if fires then [JuzEntry(x.1.juzNumber.value, AyahHref(x.0, x.1.ayahNumber), JuzLabel, ArabicNumerals(x.1.juzNumber.value))] else [];
      assert JuzEntries(xs) == old_ + added;
      forall k | 0 <= k < |xs| && xs[k].1.juzNumber.Some?
        ensures HasJuzEntry(JuzEntries(xs), xs[k].1.juzNumber.value)
      {
        if k < |init| {
          HasJuzEntryAppend(old_, added, init[k].1.juzNumber.value);
        } else if fires {
          assert (old_ + added)[|old_|].juz == x.1.juzNumber.value;
        } else {
          assert (old_ + added)[|old_| - 1] == old_[|old_| - 1];
        }
      }
      forall i | 0 <= i < |JuzEntries(xs)| ensures InSomeJuz(xs, JuzEntries(xs)[i].juz) {
        if i < |old_| {
          var k :| 0 <= k < |init| && init[k].1.juzNumber == Some(old_[i].juz);
          assert xs[k].1.juzNumber == Some(JuzEntries(xs)[i].juz);
        } else {
          assert xs[|xs| - 1].1.juzNumber == Some(JuzEntries(xs)[i].juz);
        }
      }
    } else {
      assert JuzEntries(xs) == [];
    }
  }
}
