/**
 * The post-load structural checks of a Mushaf. Each check walks the corpus and collects
 * violations; `ValidateMushaf` runs them in a fixed order and concatenates their results.
 * Each check is a method (the source's loops) proved equal to a specification function, and
 * the lemmas say what an empty result means; `ValidIffWellFormed` puts them together.
 */
module Validate {
  import opened Wrappers
  import opened Text
  import opened Models

  const SurahTotal: nat := 114
  const AyahTotal: nat := 6236
  const MinPage: int := 1
  const MaxPage: int := 604
  const RubAlHizb: char := '\U{06DE}'

  /** Code points that must not survive QPC ingestion, each with its description. */
  const ForbiddenInQpc: seq<(char, string)> := [(RubAlHizb, "RUB AL-HIZB MARK (should be stripped by pipeline)")]

  /**
   * The canonical ayah counts of the Hafs reading: `AyahCounts[n - 1]` is the count of surah
   * `n`. Written in rows of 19 surahs.
   */
  const AyahCounts: seq<nat> := CountsFrom1 + CountsFrom20 + CountsFrom39 + CountsFrom58 + CountsFrom77 + CountsFrom96
  const CountsFrom1: seq<nat> := [7, 286, 200, 176, 120, 165, 206, 75, 129, 109, 123, 111, 43, 52, 99, 128, 111, 110, 98]
  const CountsFrom20: seq<nat> := [135, 112, 78, 118, 64, 77, 227, 93, 88, 69, 60, 34, 30, 73, 54, 45, 83, 182, 88]
  const CountsFrom39: seq<nat> := [75, 85, 54, 53, 89, 59, 37, 35, 38, 29, 18, 45, 60, 49, 62, 55, 78, 96, 29]
  const CountsFrom58: seq<nat> := [22, 24, 13, 14, 11, 11, 18, 12, 12, 30, 52, 52, 44, 28, 28, 20, 56, 40, 31]
  const CountsFrom77: seq<nat> := [50, 40, 46, 42, 29, 19, 36, 25, 22, 17, 19, 26, 30, 20, 15, 21, 11, 8, 8]
  const CountsFrom96: seq<nat> := [19, 5, 8, 8, 11, 11, 8, 3, 9, 5, 4, 7, 3, 6, 3, 5, 4, 5, 6]

  /** `AYAH_COUNTS.get(n)`: the canonical count of surah `n`, and `None` for a number that is not a surah. */
  function ExpectedAyahs(n: int): (r: Option<nat>)
    ensures r.Some? <==> 1 <= n <= SurahTotal
  {
    if 1 <= n <= |AyahCounts| then Some(AyahCounts[n - 1]) else None
  }

  /** The canonical counts of surahs 1..n added up. */
  function SumTo(n: nat): nat
    requires n <= SurahTotal
  {
    if n == 0 then 0 else SumTo(n - 1) + ExpectedAyahs(n).value
  }

  lemma SumThrough5()
    ensures SumTo(5) == 789
  {
    assert ExpectedAyahs(1) == Some(7) && SumTo(1) == 7;
    assert ExpectedAyahs(2) == Some(286) && SumTo(2) == 293;
    assert ExpectedAyahs(3) == Some(200) && SumTo(3) == 493;
    assert ExpectedAyahs(4) == Some(176) && SumTo(4) == 669;
    assert ExpectedAyahs(5) == Some(120) && SumTo(5) == 789;
  }

  lemma SumThrough10()
    ensures SumTo(10) == 1473
  {
    SumThrough5();
    assert ExpectedAyahs(6) == Some(165) && SumTo(6) == 954;
    assert ExpectedAyahs(7) == Some(206) && SumTo(7) == 1160;
    assert ExpectedAyahs(8) == Some(75) && SumTo(8) == 1235;
    assert ExpectedAyahs(9) == Some(129) && SumTo(9) == 1364;
    assert ExpectedAyahs(10) == Some(109) && SumTo(10) == 1473;
  }

  lemma SumThrough15()
    ensures SumTo(15) == 1901
  {
    SumThrough10();
    assert ExpectedAyahs(11) == Some(123) && SumTo(11) == 1596;
    assert ExpectedAyahs(12) == Some(111) && SumTo(12) == 1707;
    assert ExpectedAyahs(13) == Some(43) && SumTo(13) == 1750;
    assert ExpectedAyahs(14) == Some(52) && SumTo(14) == 1802;
    assert ExpectedAyahs(15) == Some(99) && SumTo(15) == 1901;
  }

  lemma SumThrough20()
    ensures SumTo(20) == 2483
  {
    SumThrough15();
    assert ExpectedAyahs(16) == Some(128) && SumTo(16) == 2029;
    assert ExpectedAyahs(17) == Some(111) && SumTo(17) == 2140;
    assert ExpectedAyahs(18) == Some(110) && SumTo(18) == 2250;
    assert ExpectedAyahs(19) == Some(98) && SumTo(19) == 2348;
    assert ExpectedAyahs(20) == Some(135) && SumTo(20) == 2483;
  }

  lemma SumThrough25()
    ensures SumTo(25) == 2932
  {
    SumThrough20();
    assert ExpectedAyahs(21) == Some(112) && SumTo(21) == 2595;
    assert ExpectedAyahs(22) == Some(78) && SumTo(22) == 2673;
    assert ExpectedAyahs(23) == Some(118) && SumTo(23) == 2791;
    assert ExpectedAyahs(24) == Some(64) && SumTo(24) == 2855;
    assert ExpectedAyahs(25) == Some(77) && SumTo(25) == 2932;
  }

  lemma SumThrough30()
    ensures SumTo(30) == 3469
  {
    SumThrough25();
    assert ExpectedAyahs(26) == Some(227) && SumTo(26) == 3159;
    assert ExpectedAyahs(27) == Some(93) && SumTo(27) == 3252;
    assert ExpectedAyahs(28) == Some(88) && SumTo(28) == 3340;
    assert ExpectedAyahs(29) == Some(69) && SumTo(29) == 3409;
    assert AyahCounts[29] == CountsFrom20[10];
    assert ExpectedAyahs(30) == Some(60) && SumTo(30) == 3469;
  }

  lemma SumThrough35()
    ensures SumTo(35) == 3705
  {
    SumThrough30();
    assert ExpectedAyahs(31) == Some(34) && SumTo(31) == 3503;
    assert ExpectedAyahs(32) == Some(30) && SumTo(32) == 3533;
    assert ExpectedAyahs(33) == Some(73) && SumTo(33) == 3606;
    assert ExpectedAyahs(34) == Some(54) && SumTo(34) == 3660;
    assert ExpectedAyahs(35) == Some(45) && SumTo(35) == 3705;
  }

  lemma SumThrough40()
    ensures SumTo(40) == 4218
  {
    SumThrough35();
    assert ExpectedAyahs(36) == Some(83) && SumTo(36) == 3788;
    assert ExpectedAyahs(37) == Some(182) && SumTo(37) == 3970;
    assert ExpectedAyahs(38) == Some(88) && SumTo(38) == 4058;
    assert ExpectedAyahs(39) == Some(75) && SumTo(39) == 4133;
    assert ExpectedAyahs(40) == Some(85) && SumTo(40) == 4218;
  }

  lemma SumThrough45()
    ensures SumTo(45) == 4510
  {
    SumThrough40();
    assert ExpectedAyahs(41) == Some(54) && SumTo(41) == 4272;
    assert ExpectedAyahs(42) == Some(53) && SumTo(42) == 4325;
    assert ExpectedAyahs(43) == Some(89) && SumTo(43) == 4414;
    assert ExpectedAyahs(44) == Some(59) && SumTo(44) == 4473;
    assert ExpectedAyahs(45) == Some(37) && SumTo(45) == 4510;
  }

  lemma SumThrough50()
    ensures SumTo(50) == 4675
  {
    SumThrough45();
    assert ExpectedAyahs(46) == Some(35) && SumTo(46) == 4545;
    assert ExpectedAyahs(47) == Some(38) && SumTo(47) == 4583;
    assert ExpectedAyahs(48) == Some(29) && SumTo(48) == 4612;
    assert ExpectedAyahs(49) == Some(18) && SumTo(49) == 4630;
    assert ExpectedAyahs(50) == Some(45) && SumTo(50) == 4675;
  }

  lemma SumThrough55()
    ensures SumTo(55) == 4979
  {
    SumThrough50();
    assert ExpectedAyahs(51) == Some(60) && SumTo(51) == 4735;
    assert ExpectedAyahs(52) == Some(49) && SumTo(52) == 4784;
    assert ExpectedAyahs(53) == Some(62) && SumTo(53) == 4846;
    assert ExpectedAyahs(54) == Some(55) && SumTo(54) == 4901;
    assert ExpectedAyahs(55) == Some(78) && SumTo(55) == 4979;
  }

  lemma SumThrough60()
    ensures SumTo(60) == 5163
  {
    SumThrough55();
    assert ExpectedAyahs(56) == Some(96) && SumTo(56) == 5075;
    assert ExpectedAyahs(57) == Some(29) && SumTo(57) == 5104;
    assert ExpectedAyahs(58) == Some(22) && SumTo(58) == 5126;
    assert ExpectedAyahs(59) == Some(24) && SumTo(59) == 5150;
    assert ExpectedAyahs(60) == Some(13) && SumTo(60) == 5163;
  }

  lemma SumThrough65()
    ensures SumTo(65) == 5229
  {
    SumThrough60();
    assert ExpectedAyahs(61) == Some(14) && SumTo(61) == 5177;
    assert ExpectedAyahs(62) == Some(11) && SumTo(62) == 5188;
    assert ExpectedAyahs(63) == Some(11) && SumTo(63) == 5199;
    assert ExpectedAyahs(64) == Some(18) && SumTo(64) == 5217;
    assert ExpectedAyahs(65) == Some(12) && SumTo(65) == 5229;
  }

  lemma SumThrough70()
    ensures SumTo(70) == 5419
  {
    SumThrough65();
    assert ExpectedAyahs(66) == Some(12) && SumTo(66) == 5241;
    assert ExpectedAyahs(67) == Some(30) && SumTo(67) == 5271;
    assert ExpectedAyahs(68) == Some(52) && SumTo(68) == 5323;
    assert ExpectedAyahs(69) == Some(52) && SumTo(69) == 5375;
    assert ExpectedAyahs(70) == Some(44) && SumTo(70) == 5419;
  }

  lemma SumThrough75()
    ensures SumTo(75) == 5591
  {
    SumThrough70();
    assert ExpectedAyahs(71) == Some(28) && SumTo(71) == 5447;
    assert ExpectedAyahs(72) == Some(28) && SumTo(72) == 5475;
    assert ExpectedAyahs(73) == Some(20) && SumTo(73) == 5495;
    assert ExpectedAyahs(74) == Some(56) && SumTo(74) == 5551;
    assert ExpectedAyahs(75) == Some(40) && SumTo(75) == 5591;
  }

  lemma SumThrough80()
    ensures SumTo(80) == 5800
  {
    SumThrough75();
    assert ExpectedAyahs(76) == Some(31) && SumTo(76) == 5622;
    assert ExpectedAyahs(77) == Some(50) && SumTo(77) == 5672;
    assert ExpectedAyahs(78) == Some(40) && SumTo(78) == 5712;
    assert ExpectedAyahs(79) == Some(46) && SumTo(79) == 5758;
    assert ExpectedAyahs(80) == Some(42) && SumTo(80) == 5800;
  }

  lemma SumThrough85()
    ensures SumTo(85) == 5931
  {
    SumThrough80();
    assert ExpectedAyahs(81) == Some(29) && SumTo(81) == 5829;
    assert ExpectedAyahs(82) == Some(19) && SumTo(82) == 5848;
    assert ExpectedAyahs(83) == Some(36) && SumTo(83) == 5884;
    assert ExpectedAyahs(84) == Some(25) && SumTo(84) == 5909;
    assert ExpectedAyahs(85) == Some(22) && SumTo(85) == 5931;
  }

  lemma SumThrough90()
    ensures SumTo(90) == 6043
  {
    SumThrough85();
    assert ExpectedAyahs(86) == Some(17) && SumTo(86) == 5948;
    assert ExpectedAyahs(87) == Some(19) && SumTo(87) == 5967;
    assert ExpectedAyahs(88) == Some(26) && SumTo(88) == 5993;
    assert ExpectedAyahs(89) == Some(30) && SumTo(89) == 6023;
    assert ExpectedAyahs(90) == Some(20) && SumTo(90) == 6043;
  }

  lemma SumThrough95()
    ensures SumTo(95) == 6106
  {
    SumThrough90();
    assert ExpectedAyahs(91) == Some(15) && SumTo(91) == 6058;
    assert ExpectedAyahs(92) == Some(21) && SumTo(92) == 6079;
    assert ExpectedAyahs(93) == Some(11) && SumTo(93) == 6090;
    assert ExpectedAyahs(94) == Some(8) && SumTo(94) == 6098;
    assert ExpectedAyahs(95) == Some(8) && SumTo(95) == 6106;
  }

  lemma SumThrough100()
    ensures SumTo(100) == 6157
  {
    SumThrough95();
    assert ExpectedAyahs(96) == Some(19) && SumTo(96) == 6125;
    assert ExpectedAyahs(97) == Some(5) && SumTo(97) == 6130;
    assert ExpectedAyahs(98) == Some(8) && SumTo(98) == 6138;
    assert ExpectedAyahs(99) == Some(8) && SumTo(99) == 6146;
    assert ExpectedAyahs(100) == Some(11) && SumTo(100) == 6157;
  }

  lemma SumThrough105()
    ensures SumTo(105) == 6193
  {
    SumThrough100();
    assert ExpectedAyahs(101) == Some(11) && SumTo(101) == 6168;
    assert ExpectedAyahs(102) == Some(8) && SumTo(102) == 6176;
    assert ExpectedAyahs(103) == Some(3) && SumTo(103) == 6179;
    assert ExpectedAyahs(104) == Some(9) && SumTo(104) == 6188;
    assert ExpectedAyahs(105) == Some(5) && SumTo(105) == 6193;
  }

  lemma SumThrough110()
    ensures SumTo(110) == 6216
  {
    SumThrough105();
    assert ExpectedAyahs(106) == Some(4) && SumTo(106) == 6197;
    assert ExpectedAyahs(107) == Some(7) && SumTo(107) == 6204;
    assert ExpectedAyahs(108) == Some(3) && SumTo(108) == 6207;
    assert ExpectedAyahs(109) == Some(6) && SumTo(109) == 6213;
    assert ExpectedAyahs(110) == Some(3) && SumTo(110) == 6216;
  }

  /** The 114 canonical counts add up to the 6236 ayahs of the whole corpus. */
  lemma AyahCountsTotal()
    ensures SumTo(SurahTotal) == AyahTotal
  {
    SumThrough110();
    assert ExpectedAyahs(111) == Some(5) && SumTo(111) == 6221;
    assert ExpectedAyahs(112) == Some(4) && SumTo(112) == 6225;
    assert ExpectedAyahs(113) == Some(5) && SumTo(113) == 6230;
    assert ExpectedAyahs(114) == Some(6) && SumTo(114) == 6236;
  }

  /** One violation found by a check; `Message` renders it as the source's error text. */
  datatype Violation =
    | SurahCount(got: int)
    | SurahOutOfOrder(index: int, number: int)
    | AyahCountMismatch(surah: int, name: string, expected: int, actual: int)
    | AyahCountFieldMismatch(surah: int, field: int, actual: int)
    | TotalMismatch(total: int)
    | AyahOutOfSequence(surah: int, index: int, got: int)
    | EmptyText(surah: int, ayah: int)
    | PageOutOfRange(surah: int, ayah: int, page: int)
    | PageDecreased(previous: int, page: int, surah: int, ayah: int)
    | BismillahShort
    | BismillahMismatch
    | ForbiddenCodepoint(surah: int, ayah: int, codepoint: char, description: string)

  function HexDigit(d: nat): char
    requires d < 16
  {
    "0123456789ABCDEF"[d]
  }

  function Hex(n: nat): string
    decreases n
  {
    if n < 16 then [HexDigit(n)] else Hex(n / 16) + [HexDigit(n % 16)]
  }

  /** Python's `f"{n:04X}"`: upper-case hexadecimal, zero-padded to four digits. */
  function Hex04(n: nat): string {
    var h := Hex(n);
    if |h| < 4 then seq(4 - |h|, _ => '0') + h else h
  }

  function Message(v: Violation): string {
    match v
    case SurahCount(got) => "Expected 114 surahs, got " + IntToString(got)
    case SurahOutOfOrder(i, n) =>
      "Surah at index " + IntToString(i) + " has number " + IntToString(n) + ", expected " + IntToString(i + 1)
    case AyahCountMismatch(s, name, e, a) =>
      "Surah " + IntToString(s) + " (" + name + "): expected " + IntToString(e) + " ayahs, got " + IntToString(a)
    case AyahCountFieldMismatch(s, f, a) =>
      "Surah " + IntToString(s) + ": ayah_count field (" + IntToString(f) + ") disagrees with actual ayahs (" + IntToString(a) + ")"
    case TotalMismatch(t) => "Total ayahs: expected 6236, got " + IntToString(t)
    case AyahOutOfSequence(s, i, got) =>
      "Surah " + IntToString(s) + " ayah at index " + IntToString(i) + ": expected number " + IntToString(i + 1) + ", got " + IntToString(got)
    case EmptyText(s, a) => "Surah " + IntToString(s) + ":" + IntToString(a) + " has empty text"
    case PageOutOfRange(s, a, p) =>
      IntToString(s) + ":" + IntToString(a) + " has page_number " + IntToString(p) + " (expected 1-604)"
    case PageDecreased(prev, p, s, a) =>
      "Page number decreased: " + IntToString(prev) + " -> " + IntToString(p) + " at " + IntToString(s) + ":" + IntToString(a)
    case BismillahShort => "Basmala text is missing or suspiciously short"
    case BismillahMismatch => "Basmala text doesn't match Al-Fatiha 1:1"
    case ForbiddenCodepoint(s, a, cp, desc) =>
      IntToString(s) + ":" + IntToString(a) + " contains U+" + Hex04(cp as nat) + " " + desc
  }

  /** A corpus of 113 surahs is reported with the source's wording. */
  lemma SurahCountMessage()
    ensures Message(SurahCount(113)) == "Expected 114 surahs, got 113"
  {
    assert NatToString(113) == "113" by {
      assert NatToString(1) == "1";
      assert NatToString(11) == "11";
    }
  }

  // ---------------------------------------------------------------------------------------
  // Check 1: surah count
  // ---------------------------------------------------------------------------------------

  /** `_check_surah_count`: one violation exactly when there are not 114 surahs. */
  function SurahCountErrors(m: Mushaf): (r: seq<Violation>)
    ensures |r| <= 1
    ensures r == [] <==> |m.surahs| == SurahTotal
    ensures r != [] ==> r == [SurahCount(|m.surahs|)]
  {
    if |m.surahs| != SurahTotal then [SurahCount(|m.surahs|)] else []
  }

  // ---------------------------------------------------------------------------------------
  // Check 2: surah ordering
  // ---------------------------------------------------------------------------------------

  /** The violations of `_check_surah_ordering` for the first `n` surahs. */
  function OrderingErrors(surahs: seq<Surah>, n: nat): seq<Violation>
    requires n <= |surahs|
    decreases n
  {
    if n == 0 then []
    else OrderingErrors(surahs, n - 1) + (if surahs[n - 1].number != n then [SurahOutOfOrder(n - 1, surahs[n - 1].number)] else [])
  }

  method CheckSurahOrdering(surahs: seq<Surah>) returns (errors: seq<Violation>)
    ensures errors == OrderingErrors(surahs, |surahs|)
  {
    errors := [];
    var i := 0;
    while i < |surahs|
      invariant 0 <= i <= |surahs|
      invariant errors == OrderingErrors(surahs, i)
    {
      if surahs[i].number != i + 1 {
        errors := errors + [SurahOutOfOrder(i, surahs[i].number)];
      }
      i := i + 1;
    }
  }

  /** Every violation of the ordering check names an index below `n` whose surah is misnumbered. */
  lemma {:induction false} OrderingErrorsSound(surahs: seq<Surah>, n: nat)
    requires n <= |surahs|
    ensures forall v :: v in OrderingErrors(surahs, n) ==>
      v.SurahOutOfOrder? && 0 <= v.index < n && v.number == surahs[v.index].number && v.number != v.index + 1
    decreases n
  {
    if n > 0 {
      OrderingErrorsSound(surahs, n - 1);
      var tail := if surahs[n - 1].number != n then [SurahOutOfOrder(n - 1, surahs[n - 1].number)] else [];
      assert OrderingErrors(surahs, n) == OrderingErrors(surahs, n - 1) + tail;
    }
  }

  /** Every misnumbered surah below `n` is reported. */
  lemma {:induction false} OrderingErrorsComplete(surahs: seq<Surah>, n: nat)
    requires n <= |surahs|
    ensures forall i :: 0 <= i < n && surahs[i].number != i + 1 ==> SurahOutOfOrder(i, surahs[i].number) in OrderingErrors(surahs, n)
    decreases n
  {
    if n > 0 {
      OrderingErrorsComplete(surahs, n - 1);
      var tail := if surahs[n - 1].number != n then [SurahOutOfOrder(n - 1, surahs[n - 1].number)] else [];
      assert OrderingErrors(surahs, n) == OrderingErrors(surahs, n - 1) + tail;
      forall i | 0 <= i < n && surahs[i].number != i + 1
        ensures SurahOutOfOrder(i, surahs[i].number) in OrderingErrors(surahs, n)
      {
        if i < n - 1 {
          assert SurahOutOfOrder(i, surahs[i].number) in OrderingErrors(surahs, n - 1);
        } else {
          assert SurahOutOfOrder(i, surahs[i].number) in tail;
        }
      }
    }
  }

  /**
   * There is one violation per index `i` whose surah is not numbered `i + 1`, and nothing else;
   * so no violation means the surahs are numbered exactly 1..n in order.
   */
  lemma OrderingErrorsExact(surahs: seq<Surah>, n: nat)
    requires n <= |surahs|
    ensures OrderingErrors(surahs, n) == [] <==> forall i :: 0 <= i < n ==> surahs[i].number == i + 1
  {
    OrderingErrorsSound(surahs, n);
    OrderingErrorsComplete(surahs, n);
    if OrderingErrors(surahs, n) != [] {
      var v := OrderingErrors(surahs, n)[0];
      assert v in OrderingErrors(surahs, n);
    }
  }

  // ---------------------------------------------------------------------------------------
  // Check 3: ayah counts
  // ---------------------------------------------------------------------------------------

  /** The per-surah violations of `_check_ayah_counts`: table count first, then the declared count. */
  function SurahAyahCountErrors(s: Surah): seq<Violation> {
    var actual := |s.ayahs|;
    (match ExpectedAyahs(s.number)
     case Some(e) => if actual != e then [AyahCountMismatch(s.number, s.nameTransliteration, e, actual)] else []
     case None => [])
    + (if actual != s.ayahCount then [AyahCountFieldMismatch(s.number, s.ayahCount, actual)] else [])
  }

  /** The loop of `_check_ayah_counts`: the per-surah violations so far and the running `total`. */
  function AyahCountScan(surahs: seq<Surah>): (seq<Violation>, int)
    decreases |surahs|
  {
    if |surahs| == 0 then ([], 0)
    else
      var (e, total) := AyahCountScan(surahs[..|surahs| - 1]);
      var s := surahs[|surahs| - 1];
      (e + SurahAyahCountErrors(s), total + |s.ayahs|)
  }

  function AyahCountErrors(surahs: seq<Surah>): seq<Violation> {
    var (e, total) := AyahCountScan(surahs);
    e + (if total != AyahTotal then [TotalMismatch(total)] else [])
  }

  method CheckAyahCounts(surahs: seq<Surah>) returns (errors: seq<Violation>)
    ensures errors == AyahCountErrors(surahs)
  {
    errors := [];
    var total := 0;
    var i := 0;
    while i < |surahs|
      invariant 0 <= i <= |surahs|
      invariant (errors, total) == AyahCountScan(surahs[..i])
    {
      var surah := surahs[i];
      var expected := ExpectedAyahs(surah.number);
      var actual := |surah.ayahs|;
      total := total + actual;
      ghost var before := errors;
      if expected.Some? && actual != expected.value {
        errors := errors + [AyahCountMismatch(surah.number, surah.nameTransliteration, expected.value, actual)];
      }
      if actual != surah.ayahCount {
        errors := errors + [AyahCountFieldMismatch(surah.number, surah.ayahCount, actual)];
      }
      assert errors == before + SurahAyahCountErrors(surah);
      assert surahs[..i + 1][..i] == surahs[..i];
      i := i + 1;
    }
    if total != AyahTotal {
      errors := errors + [TotalMismatch(total)];
    }
    assert surahs[..i] == surahs;
  }

  /** A surah agrees with the table (when its number is in it) and with its own declared count. */
  predicate CountsAgree(s: Surah) {
    && (ExpectedAyahs(s.number).Some? ==> |s.ayahs| == ExpectedAyahs(s.number).value)
    && |s.ayahs| == s.ayahCount
  }

  /** The running total is the number of ayahs, and the scan reports nothing exactly when every surah's counts agree. */
  lemma {:induction false} AyahCountScanMeaning(surahs: seq<Surah>)
    ensures AyahCountScan(surahs).1 == TotalAyahs(surahs)
    ensures AyahCountScan(surahs).0 == [] <==> forall i :: 0 <= i < |surahs| ==> CountsAgree(surahs[i])
    decreases |surahs|
  {
    if |surahs| > 0 {
      var init := surahs[..|surahs| - 1];
      AyahCountScanMeaning(init);
      if AyahCountScan(surahs).0 == [] {
        assert AyahCountScan(init).0 == [];
        forall i | 0 <= i < |surahs| ensures CountsAgree(surahs[i]) {
          if i < |surahs| - 1 { assert surahs[i] == init[i]; }
        }
      }
      if forall i :: 0 <= i < |surahs| ==> CountsAgree(surahs[i]) {
        assert forall i :: 0 <= i < |init| ==> CountsAgree(init[i]) by {
          forall i | 0 <= i < |init| ensures CountsAgree(init[i]) { assert init[i] == surahs[i]; }
        }
      }
    }
  }

  /** No ayah-count violation exactly when every surah's counts agree and the corpus holds 6236 ayahs. */
  lemma AyahCountErrorsMeaning(surahs: seq<Surah>)
    ensures AyahCountErrors(surahs) == [] <==>
      (forall i :: 0 <= i < |surahs| ==> CountsAgree(surahs[i])) && TotalAyahs(surahs) == AyahTotal
  {
    AyahCountScanMeaning(surahs);
  }

  // ---------------------------------------------------------------------------------------
  // Check 4: ayah sequencing
  // ---------------------------------------------------------------------------------------

  /** The inner loop of `_check_ayah_sequencing` from index `i` on: stops at the first misnumbered ayah. */
  function FirstSequenceError(s: Surah, i: nat): seq<Violation>
    requires i <= |s.ayahs|
    decreases |s.ayahs| - i
  {
    if i == |s.ayahs| then []
    else if s.ayahs[i].ayahNumber != i + 1 then [AyahOutOfSequence(s.number, i, s.ayahs[i].ayahNumber)]
    else FirstSequenceError(s, i + 1)
  }

  function SequencingErrors(surahs: seq<Surah>): seq<Violation>
    decreases |surahs|
  {
    if |surahs| == 0 then []
    else SequencingErrors(surahs[..|surahs| - 1]) + FirstSequenceError(surahs[|surahs| - 1], 0)
  }

  method CheckAyahSequencing(surahs: seq<Surah>) returns (errors: seq<Violation>)
    ensures errors == SequencingErrors(surahs)
  {
    errors := [];
    var s := 0;
    while s < |surahs|
      invariant 0 <= s <= |surahs|
      invariant errors == SequencingErrors(surahs[..s])
    {
      var surah := surahs[s];
      var i := 0;
      ghost var before := errors;
      while i < |surah.ayahs|
        invariant 0 <= i <= |surah.ayahs|
        invariant errors == before
        invariant FirstSequenceError(surah, i) == FirstSequenceError(surah, 0)
      {
        var expected := i + 1;
        if surah.ayahs[i].ayahNumber != expected {
          errors := errors + [AyahOutOfSequence(surah.number, i, surah.ayahs[i].ayahNumber)];
          break;
        }
        i := i + 1;
      }
      assert errors == before + FirstSequenceError(surah, 0);
      assert surahs[..s + 1][..s] == surahs[..s];
      s := s + 1;
    }
    assert surahs[..s] == surahs;
  }

  predicate NumberedInOrder(s: Surah) {
    forall j :: 0 <= j < |s.ayahs| ==> s.ayahs[j].ayahNumber == j + 1
  }

  /** The per-surah scan reports at most the first misnumbered ayah, and nothing exactly when all are in order. */
  lemma {:induction false} FirstSequenceErrorMeaning(s: Surah, i: nat)
    requires i <= |s.ayahs|
    ensures |FirstSequenceError(s, i)| <= 1
    ensures FirstSequenceError(s, i) == [] <==> forall j :: i <= j < |s.ayahs| ==> s.ayahs[j].ayahNumber == j + 1
    ensures FirstSequenceError(s, i) != [] ==>
      var v := FirstSequenceError(s, i)[0];
      v.AyahOutOfSequence? && v.surah == s.number && i <= v.index < |s.ayahs| &&
      v.got == s.ayahs[v.index].ayahNumber != v.index + 1 &&
      forall j :: i <= j < v.index ==> s.ayahs[j].ayahNumber == j + 1
    decreases |s.ayahs| - i
  {
    if i < |s.ayahs| && s.ayahs[i].ayahNumber == i + 1 {
      FirstSequenceErrorMeaning(s, i + 1);
    }
  }

  /** At most one violation per surah, and none exactly when every surah's ayahs are numbered 1..N. */
  lemma {:induction false} SequencingErrorsMeaning(surahs: seq<Surah>)
    ensures |SequencingErrors(surahs)| <= |surahs|
    ensures SequencingErrors(surahs) == [] <==> forall i :: 0 <= i < |surahs| ==> NumberedInOrder(surahs[i])
    decreases |surahs|
  {
    if |surahs| > 0 {
      var init := surahs[..|surahs| - 1];
      SequencingErrorsMeaning(init);
      FirstSequenceErrorMeaning(surahs[|surahs| - 1], 0);
      if forall i :: 0 <= i < |surahs| ==> NumberedInOrder(surahs[i]) {
        forall i | 0 <= i < |init| ensures NumberedInOrder(init[i]) { assert init[i] == surahs[i]; }
      }
      if SequencingErrors(surahs) == [] {
        forall i | 0 <= i < |surahs| ensures NumberedInOrder(surahs[i]) {
          if i < |init| { assert init[i] == surahs[i]; }
        }
      }
    }
  }

  // ---------------------------------------------------------------------------------------
  // Check 5: empty text
  // ---------------------------------------------------------------------------------------

  /** `_check_empty_text` over the corpus in reading order. */
  function EmptyTextErrors(xs: seq<(int, Ayah)>): seq<Violation>
    decreases |xs|
  {
    if |xs| == 0 then []
    else
      var (n, a) := xs[|xs| - 1];
      EmptyTextErrors(xs[..|xs| - 1]) + (if Strip(a.text) == "" then [EmptyText(n, a.ayahNumber)] else [])
  }

  method CheckEmptyText(surahs: seq<Surah>) returns (errors: seq<Violation>)
    ensures errors == EmptyTextErrors(Reading(surahs))
  {
    errors := [];
    var s := 0;
    while s < |surahs|
      invariant 0 <= s <= |surahs|
      invariant errors == EmptyTextErrors(Reading(surahs[..s]))
    {
      var surah := surahs[s];
      var i := 0;
      assert Reading(surahs[..s]) + InSurah(surah.number, surah.ayahs[..0]) == Reading(surahs[..s]);
      while i < |surah.ayahs|
        invariant 0 <= i <= |surah.ayahs|
        invariant errors == EmptyTextErrors(Reading(surahs[..s]) + InSurah(surah.number, surah.ayahs[..i]))
      {
        var ayah := surah.ayahs[i];
        if Strip(ayah.text) == "" {
          errors := errors + [EmptyText(surah.number, ayah.ayahNumber)];
        }
        ReadingInnerStep(surahs, s, i);
        ghost var xs := Reading(surahs[..s]) + InSurah(surah.number, surah.ayahs[..i]);
        assert (xs + [(surah.number, ayah)])[..|xs|] == xs;
        i := i + 1;
      }
      ReadingOuterStep(surahs, s);
      s := s + 1;
    }
    assert surahs[..s] == surahs;
  }

  /** No empty-text violation exactly when no ayah text is blank. */
  lemma {:induction false} EmptyTextErrorsMeaning(xs: seq<(int, Ayah)>)
    ensures EmptyTextErrors(xs) == [] <==> forall k :: 0 <= k < |xs| ==> !AllSpace(xs[k].1.text)
    decreases |xs|
  {
    if |xs| > 0 {
      var init := xs[..|xs| - 1];
      EmptyTextErrorsMeaning(init);
      StripEmptyIffAllSpace(xs[|xs| - 1].1.text);
      if forall k :: 0 <= k < |xs| ==> !AllSpace(xs[k].1.text) {
        forall k | 0 <= k < |init| ensures !AllSpace(init[k].1.text) { assert init[k] == xs[k]; }
      }
      if EmptyTextErrors(xs) == [] {
        forall k | 0 <= k < |xs| ensures !AllSpace(xs[k].1.text) {
          if k < |init| { assert init[k] == xs[k]; }
        }
      }
    }
  }

  // ---------------------------------------------------------------------------------------
  // Check 6: page numbers
  // ---------------------------------------------------------------------------------------

  /** What `_check_page_numbers` reports for page `p` of ayah `n:ayah` after page `prev`. */
  function PageViolations(n: int, ayah: int, p: int, prev: int): seq<Violation> {
    (if !(MinPage <= p <= MaxPage) then [PageOutOfRange(n, ayah, p)] else [])
    + (if p < prev then [PageDecreased(prev, p, n, ayah)] else [])
  }

  /** One iteration of `_check_page_numbers`: an ayah without a page is skipped, otherwise `prev_page` moves on. */
  function PageStep(acc: (seq<Violation>, int), n: int, a: Ayah): (seq<Violation>, int) {
    match a.pageNumber
    case None => acc
    case Some(p) => (acc.0 + PageViolations(n, a.ayahNumber, p, acc.1), p)
  }

  /** The loop of `_check_page_numbers`: violations so far and `prev_page` (starting at 0). */
  function PageScan(xs: seq<(int, Ayah)>): (seq<Violation>, int)
    decreases |xs|
  {
    if |xs| == 0 then ([], 0)
    else PageStep(PageScan(xs[..|xs| - 1]), xs[|xs| - 1].0, xs[|xs| - 1].1)
  }

  function PageErrors(xs: seq<(int, Ayah)>): seq<Violation> {
    PageScan(xs).0
  }

  lemma PageScanSnoc(xs: seq<(int, Ayah)>, x: (int, Ayah))
    ensures PageScan(xs + [x]) == PageStep(PageScan(xs), x.0, x.1)
  {
    assert (xs + [x])[..|xs|] == xs;
  }

  method CheckPageNumbers(surahs: seq<Surah>) returns (errors: seq<Violation>)
    ensures errors == PageErrors(Reading(surahs))
  {
    errors := [];
    var prevPage := 0;
    var s := 0;
    while s < |surahs|
      invariant 0 <= s <= |surahs|
      invariant (errors, prevPage) == PageScan(Reading(surahs[..s]))
    {
      var surah := surahs[s];
      var i := 0;
      assert Reading(surahs[..s]) + InSurah(surah.number, surah.ayahs[..0]) == Reading(surahs[..s]);
      while i < |surah.ayahs|
        invariant 0 <= i <= |surah.ayahs|
        invariant (errors, prevPage) == PageScan(Reading(surahs[..s]) + InSurah(surah.number, surah.ayahs[..i]))
      {
        var ayah := surah.ayahs[i];
        ReadingInnerStep(surahs, s, i);
        PageScanSnoc(Reading(surahs[..s]) + InSurah(surah.number, surah.ayahs[..i]), (surah.number, ayah));
        ghost var acc := (errors, prevPage);
        if ayah.pageNumber.Some? {
          var page := ayah.pageNumber.value;
          ghost var before := errors;
          if !(MinPage <= page <= MaxPage) {
            errors := errors + [PageOutOfRange(surah.number, ayah.ayahNumber, page)];
          }
          if page < prevPage {
            errors := errors + [PageDecreased(prevPage, page, surah.number, ayah.ayahNumber)];
          }
          assert errors == before + PageViolations(surah.number, ayah.ayahNumber, page, prevPage);
          prevPage := page;
        }
        assert (errors, prevPage) == PageStep(acc, surah.number, ayah);
        i := i + 1;
      }
      ReadingOuterStep(surahs, s);
      s := s + 1;
    }
    assert surahs[..s] == surahs;
  }

  /** Every present page number lies in [1, 604]. */
  predicate PagesInRange(xs: seq<(int, Ayah)>) {
    forall k :: 0 <= k < |xs| && xs[k].1.pageNumber.Some? ==> MinPage <= xs[k].1.pageNumber.value <= MaxPage
  }

  /** Present page numbers never decrease along the sequence (absent ones are skipped). */
  predicate PagesNonDecreasing(xs: seq<(int, Ayah)>) {
    forall k1, k2 :: 0 <= k1 < k2 < |xs| && xs[k1].1.pageNumber.Some? && xs[k2].1.pageNumber.Some? ==>
      xs[k1].1.pageNumber.value <= xs[k2].1.pageNumber.value
  }

  /** `prev_page` is 0 or the last page seen; when the pages are in order it is at least every page seen. */
  lemma {:induction false} PageScanPrev(xs: seq<(int, Ayah)>)
    ensures PageScan(xs).1 == 0 || exists k :: 0 <= k < |xs| && xs[k].1.pageNumber == Some(PageScan(xs).1)
    ensures PagesNonDecreasing(xs) ==>
      forall k :: 0 <= k < |xs| && xs[k].1.pageNumber.Some? ==> xs[k].1.pageNumber.value <= PageScan(xs).1
    decreases |xs|
  {
    if |xs| > 0 {
      var init := xs[..|xs| - 1];
      var last := xs[|xs| - 1];
      PageScanPrev(init);
      forall k | 0 <= k < |init| ensures init[k] == xs[k] {}
      if last.1.pageNumber.None? {
        assert PageScan(xs).1 == PageScan(init).1;
        if PageScan(init).1 != 0 {
          var k :| 0 <= k < |init| && init[k].1.pageNumber == Some(PageScan(init).1);
          assert xs[k].1.pageNumber == Some(PageScan(xs).1);
        }
      } else {
        assert xs[|xs| - 1].1.pageNumber == Some(PageScan(xs).1);
      }
      if PagesNonDecreasing(xs) {
        assert PagesNonDecreasing(init);
      }
    }
  }

  /** No page violation exactly when every present page is in range and the pages never decrease. */
  lemma {:induction false} PageErrorsMeaning(xs: seq<(int, Ayah)>)
    ensures PageErrors(xs) == [] <==> PagesInRange(xs) && PagesNonDecreasing(xs)
    decreases |xs|
  {
    if |xs| > 0 {
      var init := xs[..|xs| - 1];
      var last := xs[|xs| - 1].1;
      PageErrorsMeaning(init);
      PageScanPrev(init);
      forall k | 0 <= k < |init| ensures init[k] == xs[k] {}
      var prev := PageScan(init).1;
      if PageErrors(xs) == [] {
        assert PageErrors(init) == [];
        assert PagesNonDecreasing(xs) by {
          forall k1, k2 | 0 <= k1 < k2 < |xs| && xs[k1].1.pageNumber.Some? && xs[k2].1.pageNumber.Some?
            ensures xs[k1].1.pageNumber.value <= xs[k2].1.pageNumber.value
          {
            if k2 == |xs| - 1 {
              assert xs[k1].1.pageNumber.value <= prev;
            }
          }
        }
      }
      if PagesInRange(xs) && PagesNonDecreasing(xs) {
        assert PagesInRange(init);
        assert PagesNonDecreasing(init);
        if last.pageNumber.Some? && prev != 0 {
          var k :| 0 <= k < |init| && init[k].1.pageNumber == Some(prev);
          assert xs[k].1.pageNumber.value <= xs[|xs| - 1].1.pageNumber.value;
        }
      }
    }
  }

  // ---------------------------------------------------------------------------------------
  // Check 7: bismillah
  // ---------------------------------------------------------------------------------------

  /** `_check_bismillah`: a short text is reported, and independently a mismatch with ayah 1:1 when that ayah exists. */
  function BismillahErrors(m: Mushaf): (r: seq<Violation>)
    ensures BismillahShort in r <==> |m.bismillahText| < 10
    ensures BismillahMismatch in r <==>
      |m.surahs| > 0 && |m.surahs[0].ayahs| > 0 && m.surahs[0].ayahs[0].text != m.bismillahText
    ensures forall v :: v in r ==> v == BismillahShort || v == BismillahMismatch
  {
    (if |m.bismillahText| < 10 then [BismillahShort] else [])
    + (if |m.surahs| > 0 && |m.surahs[0].ayahs| > 0 && m.surahs[0].ayahs[0].text != m.bismillahText
       then [BismillahMismatch] else [])
  }

  // ---------------------------------------------------------------------------------------
  // Check 8: forbidden code points (QPC scripts only)
  // ---------------------------------------------------------------------------------------

  /** The table entries whose code point occurs in the ayah's text, in table order. */
  function ForbiddenHits(n: int, a: Ayah, table: seq<(char, string)>): seq<Violation>
    decreases |table|
  {
    if |table| == 0 then []
    else
      var (cp, desc) := table[|table| - 1];
      ForbiddenHits(n, a, table[..|table| - 1]) + (if cp in a.text then [ForbiddenCodepoint(n, a.ayahNumber, cp, desc)] else [])
  }

  function ForbiddenErrors(xs: seq<(int, Ayah)>): seq<Violation>
    decreases |xs|
  {
    if |xs| == 0 then []
    else
      var (n, a) := xs[|xs| - 1];
      ForbiddenErrors(xs[..|xs| - 1]) + ForbiddenHits(n, a, ForbiddenInQpc)
  }

  method CheckForbiddenCodepoints(surahs: seq<Surah>) returns (errors: seq<Violation>)
    ensures errors == ForbiddenErrors(Reading(surahs))
  {
    errors := [];
    var s := 0;
    while s < |surahs|
      invariant 0 <= s <= |surahs|
      invariant errors == ForbiddenErrors(Reading(surahs[..s]))
    {
      var surah := surahs[s];
      var i := 0;
      assert Reading(surahs[..s]) + InSurah(surah.number, surah.ayahs[..0]) == Reading(surahs[..s]);
      while i < |surah.ayahs|
        invariant 0 <= i <= |surah.ayahs|
        invariant errors == ForbiddenErrors(Reading(surahs[..s]) + InSurah(surah.number, surah.ayahs[..i]))
      {
        var ayah := surah.ayahs[i];
        ghost var before := errors;
        var t := 0;
        while t < |ForbiddenInQpc|
          invariant 0 <= t <= |ForbiddenInQpc|
          invariant errors == before + ForbiddenHits(surah.number, ayah, ForbiddenInQpc[..t])
        {
          var (cp, desc) := ForbiddenInQpc[t];
          if cp in ayah.text {
            errors := errors + [ForbiddenCodepoint(surah.number, ayah.ayahNumber, cp, desc)];
          }
          assert ForbiddenInQpc[..t + 1][..t] == ForbiddenInQpc[..t];
          t := t + 1;
        }
        assert ForbiddenInQpc[..t] == ForbiddenInQpc;
        ReadingInnerStep(surahs, s, i);
        ghost var xs := Reading(surahs[..s]) + InSurah(surah.number, surah.ayahs[..i]);
        assert (xs + [(surah.number, ayah)])[..|xs|] == xs;
        i := i + 1;
      }
      ReadingOuterStep(surahs, s);
      s := s + 1;
    }
    assert surahs[..s] == surahs;
  }

  /** No forbidden-code-point violation exactly when no ayah text holds the rub-al-hizb mark. */
  lemma {:induction false} ForbiddenErrorsMeaning(xs: seq<(int, Ayah)>)
    ensures ForbiddenErrors(xs) == [] <==> forall k :: 0 <= k < |xs| ==> RubAlHizb !in xs[k].1.text
    decreases |xs|
  {
    if |xs| > 0 {
      var init := xs[..|xs| - 1];
      ForbiddenErrorsMeaning(init);
      var (n, a) := xs[|xs| - 1];
      assert ForbiddenInQpc[..0] == [];
      assert ForbiddenHits(n, a, ForbiddenInQpc) == (if RubAlHizb in a.text then [ForbiddenCodepoint(n, a.ayahNumber, RubAlHizb, ForbiddenInQpc[0].1)] else []);
      forall k | 0 <= k < |init| ensures init[k] == xs[k] {}
    }
  }

  // ---------------------------------------------------------------------------------------
  // validate_mushaf
  // ---------------------------------------------------------------------------------------

  /** The QPC family of scripts: names starting with "qpc_" or "text_qpc_". */
  predicate IsQpc(script: string) {
    StartsWith(script, "qpc_") || StartsWith(script, "text_qpc_")
  }

  /** `validate_mushaf`: the checks' results concatenated in the source's order. */
  function ValidationErrors(m: Mushaf): seq<Violation> {
    var xs := Reading(m.surahs);
    SurahCountErrors(m)
    + OrderingErrors(m.surahs, |m.surahs|)
    + AyahCountErrors(m.surahs)
    + SequencingErrors(m.surahs)
    + EmptyTextErrors(xs)
    + PageErrors(xs)
    + BismillahErrors(m)
    + (if IsQpc(m.script) then ForbiddenErrors(xs) else [])
  }

  method ValidateMushaf(m: Mushaf) returns (errors: seq<Violation>)
    ensures errors == ValidationErrors(m)
  {
    errors := SurahCountErrors(m);
    var e := CheckSurahOrdering(m.surahs);
    errors := errors + e;
    e := CheckAyahCounts(m.surahs);
    errors := errors + e;
    e := CheckAyahSequencing(m.surahs);
    errors := errors + e;
    e := CheckEmptyText(m.surahs);
    errors := errors + e;
    e := CheckPageNumbers(m.surahs);
    errors := errors + e;
    errors := errors + BismillahErrors(m);
    if IsQpc(m.script) {
      e := CheckForbiddenCodepoints(m.surahs);
      errors := errors + e;
    }
  }

  /** The surahs are numbered 1, 2, 3, ... in list order. */
  predicate SurahsInOrder(surahs: seq<Surah>) {
    forall i :: 0 <= i < |surahs| ==> surahs[i].number == i + 1
  }

  predicate AllCountsAgree(surahs: seq<Surah>) {
    forall i :: 0 <= i < |surahs| ==> CountsAgree(surahs[i])
  }

  predicate AllNumberedInOrder(surahs: seq<Surah>) {
    forall i :: 0 <= i < |surahs| ==> NumberedInOrder(surahs[i])
  }

  predicate NoBlankText(xs: seq<(int, Ayah)>) {
    forall k :: 0 <= k < |xs| ==> !AllSpace(xs[k].1.text)
  }

  predicate NoRubAlHizb(xs: seq<(int, Ayah)>) {
    forall k :: 0 <= k < |xs| ==> RubAlHizb !in xs[k].1.text
  }

  /** The bismillah text is at least 10 code points and equals ayah 1:1 when there is one. */
  predicate BismillahOk(m: Mushaf) {
    && |m.bismillahText| >= 10
    && (|m.surahs| > 0 && |m.surahs[0].ayahs| > 0 ==> m.surahs[0].ayahs[0].text == m.bismillahText)
  }

  /** Everything the validator guards, stated directly over the corpus. */
  predicate WellFormed(m: Mushaf) {
    var xs := Reading(m.surahs);
    && |m.surahs| == SurahTotal
    && SurahsInOrder(m.surahs)
    && AllCountsAgree(m.surahs)
    && TotalAyahs(m.surahs) == AyahTotal
    && AllNumberedInOrder(m.surahs)
    && NoBlankText(xs)
    && PagesInRange(xs)
    && PagesNonDecreasing(xs)
    && BismillahOk(m)
    && (IsQpc(m.script) ==> NoRubAlHizb(xs))
  }

  /** The validator reports nothing exactly when the corpus is well formed. */
  lemma ValidIffWellFormed(m: Mushaf)
    ensures ValidationErrors(m) == [] <==> WellFormed(m)
  {
    var xs := Reading(m.surahs);
    var count, ordering, ayahCounts, sequencing := SurahCountErrors(m), OrderingErrors(m.surahs, |m.surahs|), AyahCountErrors(m.surahs), SequencingErrors(m.surahs);
    var empty, pages, bismillah := EmptyTextErrors(xs), PageErrors(xs), BismillahErrors(m);
    var forbidden := if IsQpc(m.script) then ForbiddenErrors(xs) else [];
    assert ValidationErrors(m) == count + ordering + ayahCounts + sequencing + empty + pages + bismillah + forbidden;
    assert ValidationErrors(m) == [] <==>
      count == [] && ordering == [] && ayahCounts == [] && sequencing == [] && empty == [] && pages == [] && bismillah == [] && forbidden == [];
    assert ordering == [] <==> SurahsInOrder(m.surahs) by { OrderingErrorsExact(m.surahs, |m.surahs|); }
    assert ayahCounts == [] <==> AllCountsAgree(m.surahs) && TotalAyahs(m.surahs) == AyahTotal by { AyahCountErrorsMeaning(m.surahs); }
    assert sequencing == [] <==> AllNumberedInOrder(m.surahs) by { SequencingErrorsMeaning(m.surahs); }
    assert empty == [] <==> NoBlankText(xs) by { EmptyTextErrorsMeaning(xs); }
    assert pages == [] <==> PagesInRange(xs) && PagesNonDecreasing(xs) by { PageErrorsMeaning(xs); }
    assert forbidden == [] <==> (IsQpc(m.script) ==> NoRubAlHizb(xs)) by { ForbiddenErrorsMeaning(xs); }
    assert bismillah == [] <==> BismillahOk(m);
  }

  /**
   * In a well-formed corpus surah `i + 1` sits at index `i` and holds exactly its canonical
   * count of ayahs, and the reading order visits all 6236 ayahs.
   */
  lemma WellFormedShape(m: Mushaf)
    requires WellFormed(m)
    ensures forall i :: 0 <= i < |m.surahs| ==> m.surahs[i].number == i + 1 && |m.surahs[i].ayahs| == ExpectedAyahs(i + 1).value
    ensures |Reading(m.surahs)| == AyahTotal
  {
    ReadingLength(m.surahs);
    forall i | 0 <= i < |m.surahs| ensures |m.surahs[i].ayahs| == ExpectedAyahs(i + 1).value {
      assert CountsAgree(m.surahs[i]);
    }
  }

  /**
   * The 6236-total check is implied by the others: 114 surahs numbered in order whose ayah
   * counts agree with the table hold 6236 ayahs together.
   */
  lemma TotalFollowsFromTable(surahs: seq<Surah>)
    requires |surahs| == SurahTotal
    requires SurahsInOrder(surahs) && AllCountsAgree(surahs)
    ensures TotalAyahs(surahs) == AyahTotal
  {
    AyahCountsTotal();
    TotalAgreesPrefix(surahs, |surahs|);
    assert surahs[..|surahs|] == surahs;
  }

  lemma {:induction false} TotalAgreesPrefix(surahs: seq<Surah>, n: nat)
    requires n <= |surahs| <= SurahTotal
    requires SurahsInOrder(surahs) && AllCountsAgree(surahs)
    ensures TotalAyahs(surahs[..n]) == SumTo(n)
    decreases n
  {
    if n > 0 {
      TotalAgreesPrefix(surahs, n - 1);
      assert surahs[..n][..n - 1] == surahs[..n - 1];
      assert surahs[n - 1].number == n && CountsAgree(surahs[n - 1]);
    }
  }
}
