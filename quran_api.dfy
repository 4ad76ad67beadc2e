/**
 * Ingestion of the corpus from the Quran.com records: the QPC marker clean-up of ayah text,
 * the rewriting of translation footnote markers into EPUB noteref links, the language
 * direction lookup, and the assembly of the Mushaf from already-fetched chapter, verse and
 * translation records (the HTTP fetching and caching stay outside the model).
 */
module QuranApi {
  import opened Wrappers
  import opened Text
  import opened Models
  import Validate
  import opened Pattern

  /** The script fields the verse endpoint can return. */
  const ScriptFields: set<string> := {
    "qpc_uthmani_hafs", "text_qpc_hafs", "text_uthmani", "text_uthmani_simple",
    "text_uthmani_tajweed", "text_imlaei", "text_imlaei_simple", "text_indopak",
    "text_indopak_nastaleeq", "text_qpc_nastaleeq", "text_qpc_nastaleeq_hafs"
  }

  const Nbsp: char := '\U{00A0}'
  const RubAlHizb: char := '\U{06DE}'
  const SajdahSign: char := '\U{06E9}'
  const HairSpace: char := '\U{200A}'

  // ---------------------------------------------------------------------------------------
  // QPC marker stripping
  // ---------------------------------------------------------------------------------------

  predicate IsArabicIndicDigit(c: char) {
    '\U{0660}' <= c <= '\U{0669}'
  }

  predicate AllArabicIndicDigits(s: string) {
    forall i :: 0 <= i < |s| ==> IsArabicIndicDigit(s[i])
  }

  /** The separator QPC puts before an inline ayah number: NBSP, or a plain space in one anomalous ayah. */
  predicate IsNumberSeparator(c: char) {
    c == Nbsp || c == ' '
  }

  /** Where an end-anchored pattern may end: before a final newline if there is one, else at the end. */
  function AnchorEnd(s: string): (e: nat)
    ensures e <= |s|
  {
    if |s| > 0 && s[|s| - 1] == '\n' then |s| - 1 else |s|
  }

  /** The start of the maximal run of Arabic-Indic digits that ends at `e`. */
  function DigitRunStart(s: string, e: nat): (j: nat)
    requires e <= |s|
    ensures j <= e && AllArabicIndicDigits(s[j..e])
    ensures j > 0 ==> !IsArabicIndicDigit(s[j - 1])
    decreases e
  {
    if e > 0 && IsArabicIndicDigit(s[e - 1]) then
      var j := DigitRunStart(s, e - 1);
      assert s[j..e] == s[j..e - 1] + [s[e - 1]];
      j
    else e
  }

  /**
   * The substitution of the trailing-number pattern (separator, then one or more
   * Arabic-Indic digits, then the end): the pattern can match at one position only, and the
   * match is removed.
   */
  function StripTrailingNumber(s: string): (r: string)
    ensures r != s ==>
      exists k :: 0 <= k && k + 1 < AnchorEnd(s) && IsNumberSeparator(s[k]) &&
                  AllArabicIndicDigits(s[k + 1..AnchorEnd(s)]) && r == s[..k] + s[AnchorEnd(s)..]
  {
    var e := AnchorEnd(s);
    var j := DigitRunStart(s, e);
    if 0 < j < e && IsNumberSeparator(s[j - 1]) then s[..j - 1] + s[e..] else s
  }

  /** The maximal digit run ending at `e` starts at `j` when `s[j..e]` is digits and `s[j - 1]` is not. */
  lemma {:induction false} DigitRunStartIs(s: string, j: nat, e: nat)
    requires j <= e <= |s| && AllArabicIndicDigits(s[j..e])
    requires j > 0 ==> !IsArabicIndicDigit(s[j - 1])
    ensures DigitRunStart(s, e) == j
    decreases e
  {
    if e > j {
      assert IsArabicIndicDigit(s[j..e][e - 1 - j]);
      assert AllArabicIndicDigits(s[j..e - 1]) by {
        var t := s[j..e - 1];
        forall i | 0 <= i < |t| ensures IsArabicIndicDigit(t[i]) {
          assert t[i] == s[j..e][i];
        }
      }
      DigitRunStartIs(s, j, e - 1);
    }
  }

  /** An ayah number at the end (after a separator, optionally before a final newline) is removed. */
  lemma TrailingNumberRemoved(p: string, sep: char, digits: string, tail: string)
    requires IsNumberSeparator(sep) && |digits| > 0 && AllArabicIndicDigits(digits)
    requires tail == "" || tail == "\n"
    ensures StripTrailingNumber(p + [sep] + digits + tail) == p + tail
  {
    var s := p + [sep] + digits + tail;
    var e := |p| + 1 + |digits|;
    assert AnchorEnd(s) == e;
    assert s[|p| + 1..e] == digits;
    assert s[|p|] == sep;
    DigitRunStartIs(s, |p| + 1, e);
    assert s[..|p|] == p;
    assert s[e..] == tail;
  }

  /** Every rub-al-hizb mark removed, each together with one NBSP right after it, if any. */
  function RemoveRubAlHizb(s: string): (r: string)
    ensures RubAlHizb !in r
    ensures |r| <= |s|
    ensures RubAlHizb !in s ==> r == s
    decreases |s|
  {
    if |s| == 0 then ""
    else if s[0] == RubAlHizb then
      if |s| > 1 && s[1] == Nbsp then RemoveRubAlHizb(s[2..]) else RemoveRubAlHizb(s[1..])
    else
      assert RubAlHizb !in s ==> RubAlHizb !in s[1..];
      assert s == [s[0]] + s[1..];
      [s[0]] + RemoveRubAlHizb(s[1..])
  }

  /** Every sajdah sign followed by a hair space (`text.replace("۩", "۩ ")`). */
  function AddHairSpace(s: string): (r: string)
    ensures forall i :: 0 <= i < |r| && r[i] == SajdahSign ==> i + 1 < |r| && r[i + 1] == HairSpace
    ensures forall c :: c in r && c != HairSpace ==> c in s
    decreases |s|
  {
    if |s| == 0 then ""
    else
      var rest := AddHairSpace(s[1..]);
      if s[0] == SajdahSign then
        var r := [SajdahSign, HairSpace] + rest;
        assert forall i :: 2 <= i < |r| ==> r[i] == rest[i - 2];
        r
      else
        var r := [s[0]] + rest;
        assert forall i :: 1 <= i < |r| ==> r[i] == rest[i - 1];
        r
  }

  /**
   * `_strip_qpc_markers`: the trailing ayah number goes, every rub-al-hizb mark goes, and
   * every sajdah sign gets a hair space after it.
   */
  function StripQpcMarkers(s: string): (r: string)
    ensures RubAlHizb !in r
    ensures forall i :: 0 <= i < |r| && r[i] == SajdahSign ==> i + 1 < |r| && r[i + 1] == HairSpace
  {
    AddHairSpace(RemoveRubAlHizb(StripTrailingNumber(s)))
  }

  /**
   * Whether the character at `i` survives `_RUB_ALHIZB.sub("", text)`: it is not a mark, and
   * it is not an NBSP right after a mark.
   */
  predicate KeptByHizbSub(s: string, i: nat)
    requires i < |s|
  {
    s[i] != RubAlHizb && !(i > 0 && s[i - 1] == RubAlHizb && s[i] == Nbsp)
  }

  /** The characters from `i` on that survive the substitution, in order. */
  function HizbSurvivors(s: string, i: nat): (r: string)
    requires i <= |s|
    ensures |r| <= |s| - i
    decreases |s| - i
  {
    if i == |s| then "" else (if KeptByHizbSub(s, i) then [s[i]] else "") + HizbSurvivors(s, i + 1)
  }

  /** The removal from a position the scan can resume at is the filter from that position. */
  lemma {:induction false} RemoveRubAlHizbFrom(s: string, i: nat)
    requires i <= |s|
    requires 0 < i < |s| && s[i - 1] == RubAlHizb ==> s[i] != Nbsp
    ensures RemoveRubAlHizb(s[i..]) == HizbSurvivors(s, i)
    decreases |s| - i
  {
    if i < |s| {
      if s[i] != RubAlHizb {
        RemoveRubAlHizbKept(s, i);
      } else if i + 1 < |s| && s[i + 1] == Nbsp {
        RemoveRubAlHizbPair(s, i);
      } else {
        RemoveRubAlHizbAlone(s, i);
      }
    }
  }

  /** A kept character at `i`: both sides keep it and go on from `i + 1`. */
  lemma {:induction false} RemoveRubAlHizbKept(s: string, i: nat)
    requires i < |s| && s[i] != RubAlHizb
    requires i > 0 && s[i - 1] == RubAlHizb ==> s[i] != Nbsp
    ensures RemoveRubAlHizb(s[i..]) == HizbSurvivors(s, i)
    decreases |s| - i, 0
  {
    var t := s[i..];
    assert t[1..] == s[i + 1..];
    assert RemoveRubAlHizb(t) == [s[i]] + RemoveRubAlHizb(s[i + 1..]);
    assert HizbSurvivors(s, i) == [s[i]] + HizbSurvivors(s, i + 1);
    RemoveRubAlHizbFrom(s, i + 1);
  }

  /** A mark at `i` with an NBSP after it: both go, on both sides. */
  lemma {:induction false} RemoveRubAlHizbPair(s: string, i: nat)
    requires i + 1 < |s| && s[i] == RubAlHizb && s[i + 1] == Nbsp
    ensures RemoveRubAlHizb(s[i..]) == HizbSurvivors(s, i)
    decreases |s| - i, 0
  {
    var t := s[i..];
    assert t[2..] == s[i + 2..];
    assert RemoveRubAlHizb(t) == RemoveRubAlHizb(s[i + 2..]);
    assert HizbSurvivors(s, i + 1) == HizbSurvivors(s, i + 2);
    RemoveRubAlHizbFrom(s, i + 2);
  }

  /** A mark at `i` with no NBSP after it: only the mark goes. */
  lemma {:induction false} RemoveRubAlHizbAlone(s: string, i: nat)
    requires i < |s| && s[i] == RubAlHizb
    requires i + 1 < |s| ==> s[i + 1] != Nbsp
    ensures RemoveRubAlHizb(s[i..]) == HizbSurvivors(s, i)
    decreases |s| - i, 0
  {
    var t := s[i..];
    assert t[1..] == s[i + 1..];
    assert RemoveRubAlHizb(t) == RemoveRubAlHizb(s[i + 1..]);
    RemoveRubAlHizbFrom(s, i + 1);
  }

  /**
   * `_RUB_ALHIZB.sub("", text)` keeps exactly the characters that are neither a rub-al-hizb
   * mark nor an NBSP right after one, in their order.
   */
  lemma RemoveRubAlHizbKeeps(s: string)
    ensures RemoveRubAlHizb(s) == HizbSurvivors(s, 0)
  {
    RemoveRubAlHizbFrom(s, 0);
    assert s[0..] == s;
  }

  /** Text with no NBSP loses exactly its rub-al-hizb marks. */
  lemma {:induction false} RemoveRubAlHizbNoNbsp(s: string)
    requires Nbsp !in s
    ensures RemoveRubAlHizb(s) == RemoveChar(s, RubAlHizb)
    decreases |s|
  {
    if |s| > 0 {
      assert Nbsp !in s[1..];
      RemoveRubAlHizbNoNbsp(s[1..]);
    }
  }

  /** The hair-space insertion works character by character: it distributes over concatenation. */
  lemma {:induction false} AddHairSpaceAppend(a: string, b: string)
    ensures AddHairSpace(a + b) == AddHairSpace(a) + AddHairSpace(b)
    decreases |a|
  {
    if |a| > 0 {
      assert (a + b)[1..] == a[1..] + b;
      AddHairSpaceAppend(a[1..], b);
    } else {
      assert a + b == b;
    }
  }

  /** One character: a sajdah sign becomes the sign and a hair space, any other character stays. */
  lemma AddHairSpaceChar(c: char)
    ensures AddHairSpace([c]) == if c == SajdahSign then [SajdahSign, HairSpace] else [c]
  {
    assert [c][1..] == "";
  }

  /** Deleting the inserted hair spaces gives the text back: only hair spaces were added. */
  lemma {:induction false} AddHairSpaceInverse(s: string)
    requires HairSpace !in s
    ensures RemoveChar(AddHairSpace(s), HairSpace) == s
    decreases |s|
  {
    if |s| > 0 {
      assert HairSpace !in s[1..];
      AddHairSpaceInverse(s[1..]);
      var rest := AddHairSpace(s[1..]);
      if s[0] == SajdahSign {
        var r := [SajdahSign, HairSpace] + rest;
        assert r[1..] == [HairSpace] + rest && r[2..] == rest;
        assert RemoveChar(r, HairSpace) == [SajdahSign] + RemoveChar(r[1..], HairSpace);
        assert RemoveChar(r[1..], HairSpace) == RemoveChar(rest, HairSpace);
      } else {
        var r := [s[0]] + rest;
        assert r[1..] == rest;
      }
      assert s == [s[0]] + s[1..];
    }
  }

  /** Text with no sajdah sign is left as it is by the hair-space insertion. */
  lemma {:induction false} AddHairSpaceNoSajdah(s: string)
    requires SajdahSign !in s
    ensures AddHairSpace(s) == s
    decreases |s|
  {
    if |s| > 0 {
      assert SajdahSign !in s[1..];
      AddHairSpaceNoSajdah(s[1..]);
      assert s == [s[0]] + s[1..];
    }
  }

  /** An inline ayah number at the end goes first; the mark removal and hair spaces apply to the rest. */
  lemma StripQpcMarkersNumbered(p: string, sep: char, digits: string, tail: string)
    requires IsNumberSeparator(sep) && |digits| > 0 && AllArabicIndicDigits(digits)
    requires tail == "" || tail == "\n"
    ensures StripQpcMarkers(p + [sep] + digits + tail) == AddHairSpace(HizbSurvivors(p + tail, 0))
  {
    TrailingNumberRemoved(p, sep, digits, tail);
    RemoveRubAlHizbKeeps(p + tail);
  }

  /** Text with no separator-and-digits suffix keeps all of its content apart from the mark and sajdah edits. */
  lemma StripQpcMarkersUnnumbered(s: string)
    requires forall k :: 0 <= k && k + 1 < AnchorEnd(s) && IsNumberSeparator(s[k]) ==>
               !AllArabicIndicDigits(s[k + 1..AnchorEnd(s)])
    ensures StripQpcMarkers(s) == AddHairSpace(HizbSurvivors(s, 0))
  {
    RemoveRubAlHizbKeeps(s);
  }

  /** Text with no trailing number, no rub-al-hizb mark and no sajdah sign comes back unchanged. */
  lemma StripQpcMarkersPlain(s: string)
    requires forall k :: 0 <= k && k + 1 < AnchorEnd(s) && IsNumberSeparator(s[k]) ==>
               !AllArabicIndicDigits(s[k + 1..AnchorEnd(s)])
    requires RubAlHizb !in s && SajdahSign !in s
    ensures StripQpcMarkers(s) == s
  {
    AddHairSpaceNoSajdah(s);
  }

  // ---------------------------------------------------------------------------------------
  // Translation footnote markers
  // ---------------------------------------------------------------------------------------

  /** `<sup\s+foot_note=["']?(\d+)["']?\s*>(\d+)</sup>`, element by element. */
  const FootnotePattern: seq<Elem> := [
    Lit("<sup"), Run(Space, 1), Lit("foot_note="), Opt(Quote), Run(Digit, 1),
    Opt(Quote), Run(Space, 0), Lit(">"), Run(Digit, 1), Lit("</sup>")]

  /** One footnote marker, by what the variable parts of the pattern took: the id and number are the two groups. */
  datatype Marker = Marker(space1: string, quote1: string, id: string, quote2: string, space2: string, number: string)

  /** The marker's text for each element of the pattern, in order. */
  function MarkerParts(m: Marker): (ps: seq<string>)
    ensures |ps| == |FootnotePattern|
  {
    ["<sup", m.space1, "foot_note=", m.quote1, m.id, m.quote2, m.space2, ">", m.number, "</sup>"]
  }

  /** The marker as written: `<sup{space1}foot_note={quote1}{id}{quote2}{space2}>{number}</sup>`. */
  function MarkerText(m: Marker): string {
    "<sup" + (m.space1 + ("foot_note=" + (m.quote1 + (m.id + (m.quote2 + (m.space2 + (">" + (m.number + "</sup>"))))))))
  }

  /**
   * A valid marker: some whitespace, at most one quote on either side of a non-empty digit id,
   * optional whitespace, and a non-empty digit number.
   */
  predicate ValidMarker(m: Marker) {
    && |m.space1| > 0 && AllSpace(m.space1)
    && (m.quote1 == "" || (|m.quote1| == 1 && IsQuote(m.quote1[0])))
    && |m.id| > 0 && AllDigits(m.id)
    && (m.quote2 == "" || (|m.quote2| == 1 && IsQuote(m.quote2[0])))
    && AllSpace(m.space2)
    && |m.number| > 0 && AllDigits(m.number)
  }

  /** A valid marker is one whose every part is a possible match of its element of the pattern. */
  lemma ValidMarkerElems(m: Marker)
    ensures ValidMarker(m) <==> forall x :: 0 <= x < |FootnotePattern| ==> ElemOk(FootnotePattern[x], MarkerParts(m)[x])
  {
    var ps := MarkerParts(m);
    if forall x :: 0 <= x < |FootnotePattern| ==> ElemOk(FootnotePattern[x], ps[x]) {
      assert ElemOk(FootnotePattern[1], ps[1]) && ElemOk(FootnotePattern[3], ps[3]) && ElemOk(FootnotePattern[4], ps[4]);
      assert ElemOk(FootnotePattern[5], ps[5]) && ElemOk(FootnotePattern[6], ps[6]) && ElemOk(FootnotePattern[8], ps[8]);
    }
  }

  /** The parts, put together, are the marker's text. */
  lemma MarkerTextParts(m: Marker)
    ensures Concat(MarkerParts(m)) == MarkerText(m)
  {
    var ps := MarkerParts(m);
    var t9 := "</sup>";
    assert Concat(ps[9..]) == t9 by { ConcatFrom(ps, 9); assert ps[10..] == []; }
    var t8 := m.number + t9;
    assert Concat(ps[8..]) == t8 by { ConcatFrom(ps, 8); }
    var t7 := ">" + t8;
    assert Concat(ps[7..]) == t7 by { ConcatFrom(ps, 7); }
    var t6 := m.space2 + t7;
    assert Concat(ps[6..]) == t6 by { ConcatFrom(ps, 6); }
    var t5 := m.quote2 + t6;
    assert Concat(ps[5..]) == t5 by { ConcatFrom(ps, 5); }
    var t4 := m.id + t5;
    assert Concat(ps[4..]) == t4 by { ConcatFrom(ps, 4); }
    var t3 := m.quote1 + t4;
    assert Concat(ps[3..]) == t3 by { ConcatFrom(ps, 3); }
    var t2 := "foot_note=" + t3;
    assert Concat(ps[2..]) == t2 by { ConcatFrom(ps, 2); }
    var t1 := m.space1 + t2;
    assert Concat(ps[1..]) == t1 by { ConcatFrom(ps, 1); }
    assert Concat(ps[0..]) == "<sup" + t1 by { ConcatFrom(ps, 0); }
    assert ps[0..] == ps;
  }

  /** The greedy match of the pattern tried at `i`, as a marker. */
  function MatchMarkerAt(s: string, i: nat): (r: Option<Marker>)
    requires i <= |s|
  {
    match MatchElems(s, i, FootnotePattern, 0)
    case None => None
    case Some(ps) =>
      MatchElemsSound(s, i, FootnotePattern, 0);
      Some(Marker(ps[1], ps[3], ps[4], ps[5], ps[6], ps[8]))
  }

  /** The scan finds only markers: what it returns is valid and written at `i`. */
  lemma MatchMarkerSound(s: string, i: nat)
    requires i <= |s|
    ensures MatchMarkerAt(s, i).Some? ==> ValidMarker(MatchMarkerAt(s, i).value) && HasAt(s, i, MarkerText(MatchMarkerAt(s, i).value))
  {
    match MatchElems(s, i, FootnotePattern, 0)
    case None =>
    case Some(ps) =>
      MatchElemsSound(s, i, FootnotePattern, 0);
      GreedyPartsElems(s, i, FootnotePattern, 0, ps);
      GreedyPartsWritten(s, i, FootnotePattern, 0, ps);
      PartsMarkerSound(s, i, ps);
  }

  /** Parts that each match their element of the pattern, written in order at `i`, are a valid marker written there. */
  lemma PartsMarkerSound(s: string, i: nat, ps: seq<string>)
    requires |ps| == |FootnotePattern| && HasAt(s, i, Concat(ps))
    requires forall x :: 0 <= x < |ps| ==> ElemOk(FootnotePattern[0 + x], ps[x])
    ensures ValidMarker(Marker(ps[1], ps[3], ps[4], ps[5], ps[6], ps[8]))
    ensures HasAt(s, i, MarkerText(Marker(ps[1], ps[3], ps[4], ps[5], ps[6], ps[8])))
  {
    var m := Marker(ps[1], ps[3], ps[4], ps[5], ps[6], ps[8]);
    assert ElemOk(FootnotePattern[0 + 0], ps[0]) && ElemOk(FootnotePattern[0 + 2], ps[2]);
    assert ElemOk(FootnotePattern[0 + 7], ps[7]) && ElemOk(FootnotePattern[0 + 9], ps[9]);
    PartsOfMarker(ps);
    ValidMarkerElems(m);
    MarkerTextParts(m);
  }

  /** Ten parts whose fixed ones are the pattern's literals are the parts of the marker they spell. */
  lemma PartsOfMarker(ps: seq<string>)
    requires |ps| == 10 && ps[0] == "<sup" && ps[2] == "foot_note=" && ps[7] == ">" && ps[9] == "</sup>"
    ensures MarkerParts(Marker(ps[1], ps[3], ps[4], ps[5], ps[6], ps[8])) == ps
  {
  }

  /** The scan misses no marker: a valid marker written at `i` is found there, with exactly its parts. */
  lemma MatchMarkerComplete(s: string, i: nat, m: Marker)
    requires ValidMarker(m) && HasAt(s, i, MarkerText(m))
    ensures MatchMarkerAt(s, i) == Some(m)
  {
    var ps := MarkerParts(m);
    ValidMarkerElems(m);
    MarkerTextParts(m);
    MarkerFollowOk(m);
    WrittenGreedyParts(s, i, FootnotePattern, 0, ps);
    MatchElemsComplete(s, i, FootnotePattern, 0, ps);
  }

  /** Each repeating part of a valid marker is followed by a character it cannot take. */
  lemma MarkerFollowOk(m: Marker)
    requires ValidMarker(m)
    ensures forall x :: 0 <= x < |FootnotePattern| ==>
      FollowOk(FootnotePattern[x], MarkerParts(m)[x], Concat(MarkerParts(m)[x + 1..]))
  {
    var ps := MarkerParts(m);
    PartsFollowOk(ps);
    forall x | 0 <= x < |FootnotePattern| ensures FollowOk(FootnotePattern[x], ps[x], Concat(ps[x + 1..])) {
      if x !in {1, 3, 4, 5, 6, 8} {
        assert FootnotePattern[x].Lit?;
      }
    }
  }

  /** The follow conditions, on the parts of any valid marker. */
  lemma PartsFollowOk(ps: seq<string>)
    requires |ps| == 10 && ps[2] == "foot_note=" && ps[7] == ">" && ps[9] == "</sup>"
    requires |ps[4]| > 0 && AllDigits(ps[4]) && AllSpace(ps[6])
    requires ps[5] == "" || (|ps[5]| == 1 && IsQuote(ps[5][0]))
    ensures FollowOk(Run(Space, 1), ps[1], Concat(ps[2..]))
    ensures FollowOk(Opt(Quote), ps[3], Concat(ps[4..]))
    ensures FollowOk(Run(Digit, 1), ps[4], Concat(ps[5..]))
    ensures FollowOk(Opt(Quote), ps[5], Concat(ps[6..]))
    ensures FollowOk(Run(Space, 0), ps[6], Concat(ps[7..]))
    ensures FollowOk(Run(Digit, 1), ps[8], Concat(ps[9..]))
  {
    ConcatFrom(ps, 2);
    ConcatFrom(ps, 4);
    ConcatFrom(ps, 5);
    ConcatFrom(ps, 6);
    ConcatFrom(ps, 7);
    ConcatFrom(ps, 9);
    assert ps[2][0] == 'f' && ps[7][0] == '>' && ps[9][0] == '<';
  }

  /** The parts from `k` on, put together, are part `k` followed by the parts after it. */
  lemma ConcatFrom(ps: seq<string>, k: nat)
    requires k < |ps|
    ensures Concat(ps[k..]) == ps[k] + Concat(ps[k + 1..])
  {
    assert ps[k..][1..] == ps[k + 1..];
  }

  /** The replacement text of a marker: an EPUB noteref link to the endnote, showing the marker's number. */
  function NoterefLink(id: string, number: string): string {
    "<a " + NoterefAttrs + id + "\" " + NoterefClass + ">" + number + "</a>"
  }

  /** The attributes of a noteref link before the footnote id, and its class attribute. */
  const NoterefAttrs: string := "epub:type=\"noteref\"" + " href=" + "\"endnotes.xhtml#fn-"
  const NoterefClass: string := "class=\"noteref\""

  /** The footnote recorded for a marker: parsed id and number, text looked up by the id as written. */
  function FootnoteFor(m: Marker, footNotes: map<string, string>): (f: Footnote)
    requires ValidMarker(m)
    ensures f.id == DigitsValue(m.id) && f.number == DigitsValue(m.number)
    ensures f.text == (if m.id in footNotes then footNotes[m.id] else "")
  {
    Footnote(DigitsValue(m.id), DigitsValue(m.number), if m.id in footNotes then footNotes[m.id] else "")
  }

  /**
   * One step of `_FOOTNOTE_PATTERN.sub` at position `i`: a marker there is replaced by its
   * link, records its footnote and is skipped whole; any other character is copied. The last
   * component is where the scan resumes.
   */
  function Step(s: string, footNotes: map<string, string>, i: nat): (r: (string, seq<Footnote>, nat))
    requires i < |s|
    ensures i < r.2 <= |s|
  {
    match MatchMarkerAt(s, i)
    case Some(m) =>
      MatchMarkerSound(s, i);
      (NoterefLink(m.id, m.number), [FootnoteFor(m, footNotes)], i + |MarkerText(m)|)
    case None => ([s[i]], [], i + 1)
  }

  /** `_FOOTNOTE_PATTERN.sub` from position `i` on: the rewritten rest of the text and its footnotes, in order. */
  function RewriteFrom(s: string, footNotes: map<string, string>, i: nat): (string, seq<Footnote>)
    requires i <= |s|
    decreases |s| - i
  {
    if i == |s| then ("", [])
    else
      var st := Step(s, footNotes, i);
      var rest := RewriteFrom(s, footNotes, st.2);
      (st.0 + rest.0, st.1 + rest.1)
  }

  /**
   * `_process_translation_text`: scans the text left to right, replacing each footnote marker
   * by a noteref link and recording its footnote as the replacement callback does.
   */
  method ProcessTranslationText(text: string, footNotes: map<string, string>, surahNumber: int)
    returns (processed: string, footnotes: seq<Footnote>)
    ensures (processed, footnotes) == RewriteFrom(text, footNotes, 0)
  {
    processed, footnotes := "", [];
    var i := 0;
    assert "" + RewriteFrom(text, footNotes, 0).0 == RewriteFrom(text, footNotes, 0).0;
    assert [] + RewriteFrom(text, footNotes, 0).1 == RewriteFrom(text, footNotes, 0).1;
    while i < |text|
      invariant 0 <= i <= |text|
      invariant processed + RewriteFrom(text, footNotes, i).0 == RewriteFrom(text, footNotes, 0).0
      invariant footnotes + RewriteFrom(text, footNotes, i).1 == RewriteFrom(text, footNotes, 0).1
      decreases |text| - i
    {
      var st := Step(text, footNotes, i);
      var rest := RewriteFrom(text, footNotes, st.2);
      AppendAssoc(processed, st.0, rest.0);
      AppendAssoc(footnotes, st.1, rest.1);
      processed, footnotes := processed + st.0, footnotes + st.1;
      i := st.2;
    }
    assert processed + "" == processed && footnotes + [] == footnotes;
  }

  lemma AppendAssoc<T>(a: seq<T>, b: seq<T>, c: seq<T>)
    ensures a + (b + c) == (a + b) + c
  {
  }

  /** The pattern matches nowhere in `s` from `i` on. */
  predicate NoMarkerFrom(s: string, i: nat)
    requires i <= |s|
  {
    forall j :: i <= j <= |s| ==> MatchMarkerAt(s, j).None?
  }

  /** Text without any footnote marker comes back unchanged, with no footnotes. */
  lemma {:induction false} NoMarkersUnchanged(s: string, footNotes: map<string, string>, i: nat)
    requires i <= |s| && NoMarkerFrom(s, i)
    ensures RewriteFrom(s, footNotes, i) == (s[i..], [])
    decreases |s| - i
  {
    if i < |s| {
      NoMarkerFromStep(s, i);
      NoMarkersUnchanged(s, footNotes, i + 1);
      StepNoMarker(s, footNotes, i);
    } else {
      assert s[i..] == "";
    }
  }

  lemma NoMarkerFromStep(s: string, i: nat)
    requires i < |s| && NoMarkerFrom(s, i)
    ensures MatchMarkerAt(s, i).None? && NoMarkerFrom(s, i + 1)
  {
  }

  /** Where no marker starts, one step copies the character in front of the unchanged rest. */
  lemma StepNoMarker(s: string, footNotes: map<string, string>, i: nat)
    requires i < |s| && MatchMarkerAt(s, i).None? && RewriteFrom(s, footNotes, i + 1) == (s[i + 1..], [])
    ensures RewriteFrom(s, footNotes, i) == (s[i..], [])
  {
    assert Step(s, footNotes, i) == ([s[i]], [], i + 1);
    assert s[i..] == [s[i]] + s[i + 1..];
    assert RewriteFrom(s, footNotes, i).1 == [] + RewriteFrom(s, footNotes, i + 1).1;
  }

  // ---------------------------------------------------------------------------------------
  // Language direction
  // ---------------------------------------------------------------------------------------

  /** One record of the languages list; either key may be missing. */
  datatype Language = Language(isoCode: Option<string>, direction: Option<string>)

  /**
   * The lookup loop of `get_language_direction`: the direction of the first language whose
   * ISO code matches (itself defaulting to "ltr"), or "ltr" when none matches.
   */
  method LanguageDirection(languages: seq<Language>, langCode: string) returns (direction: string)
    ensures (forall k :: 0 <= k < |languages| ==> languages[k].isoCode != Some(langCode)) ==> direction == "ltr"
    ensures forall k ::
      (0 <= k < |languages| && languages[k].isoCode == Some(langCode) &&
       forall j :: 0 <= j < k ==> languages[j].isoCode != Some(langCode))
      ==> direction == languages[k].direction.GetOr("ltr")
  {
    var i := 0;
    while i < |languages|
      invariant 0 <= i <= |languages|
      invariant forall j :: 0 <= j < i ==> languages[j].isoCode != Some(langCode)
    {
      if languages[i].isoCode == Some(langCode) {
        return languages[i].direction.GetOr("ltr");
      }
      i := i + 1;
    }
    return "ltr";
  }

  // ---------------------------------------------------------------------------------------
  // load_quran
  // ---------------------------------------------------------------------------------------

  /** A record of the chapters endpoint. */
  datatype RawChapter = RawChapter(id: int, nameSimple: string, nameArabic: string, versesCount: int, revelationPlace: string)

  /** A record of the verses endpoint: the verse number, the script fields present, and the optional metadata keys. */
  datatype RawVerse = RawVerse(
    verseNumber: int,
    fields: map<string, string>,
    pageNumber: Option<int>,
    juzNumber: Option<int>,
    rubElHizbNumber: Option<int>,
    sajdahNumber: Option<int>)

  /** A record of the translation endpoint: text with footnote markers, and footnote texts by id. */
  datatype RawTranslation = RawTranslation(text: string, footNotes: map<string, string>)

  /** What `load_quran` raises: an unknown script, or the `IndexError` of reading ayah 1:1 when there is none. */
  datatype LoadError = UnknownScriptField(script: string) | NoSurahs | NoAyahInFirstSurah

  /** `SCRIPT_FIELDS` in sorted order, as the unknown-script message lists them. */
  const SortedScriptFields: seq<string> := [
    "qpc_uthmani_hafs", "text_imlaei", "text_imlaei_simple", "text_indopak", "text_indopak_nastaleeq",
    "text_qpc_hafs", "text_qpc_nastaleeq", "text_qpc_nastaleeq_hafs", "text_uthmani",
    "text_uthmani_simple", "text_uthmani_tajweed"]

  /** `a` and `b` agree before index `k`, where `a` either ends while `b` goes on or has the smaller code point. */
  predicate LexLessAt(a: string, b: string, k: nat) {
    && k <= |a| && k <= |b| && a[..k] == b[..k]
    && ((k == |a| && k < |b|) || (k < |a| && k < |b| && a[k] < b[k]))
  }

  /** Python's `<` on strings: code point by code point, a proper prefix first. */
  predicate LexLess(a: string, b: string) {
    exists k :: 0 <= k <= |a| && LexLessAt(a, b, k)
  }

  /** The listed fields are exactly `SCRIPT_FIELDS`, in increasing order: the list is `sorted(SCRIPT_FIELDS)`. */
  lemma SortedScriptFieldsSorted()
    ensures forall f :: f in SortedScriptFields <==> f in ScriptFields
    ensures forall i :: 0 <= i < |SortedScriptFields| - 1 ==> LexLess(SortedScriptFields[i], SortedScriptFields[i + 1])
  {
    var l := SortedScriptFields;
    assert LexLessAt(l[0], l[1], 0);
    assert LexLessAt(l[1], l[2], 11);
    assert LexLessAt(l[2], l[3], 6);
    assert LexLessAt(l[3], l[4], 12);
    assert LexLessAt(l[4], l[5], 5);
    assert LexLessAt(l[5], l[6], 9);
    assert LexLessAt(l[6], l[7], 18);
    assert LexLessAt(l[7], l[8], 5);
    assert LexLessAt(l[8], l[9], 12);
    assert LexLessAt(l[9], l[10], 13);
  }

  function LoadErrorText(e: LoadError): string {
    match e
    case UnknownScriptField(script) => "Unknown script '" + script + "'. Available: " + Join(", ", SortedScriptFields)
    case NoSurahs => "list index out of range"
    case NoAyahInFirstSurah => "list index out of range"
  }

  /** `v.get(script, "")`: the verse text in the requested script, empty when the field is missing. */
  function ScriptText(v: RawVerse, script: string): string {
    if script in v.fields then v.fields[script] else ""
  }

  /** `trans_data and i < len(trans_data)`: the translation record of verse `i`, when one was fetched for it. */
  function TranslationAt(transData: Option<seq<RawTranslation>>, i: nat): (td: Option<RawTranslation>)
    ensures td.Some? <==> transData.Some? && i < |transData.value|
    ensures td.Some? ==> td.value == transData.value[i]
  {
    if transData.Some? && |transData.value| > 0 && i < |transData.value| then Some(transData.value[i]) else None
  }

  /**
   * One loaded ayah: the hizb flag is read from the raw text, before the QPC clean-up removes
   * the mark; the translation, when there is one, is rewritten with its footnotes collected.
   */
  function LoadedAyah(chapter: int, script: string, v: RawVerse, td: Option<RawTranslation>): (a: Ayah)
    ensures a.surahNumber == chapter && a.ayahNumber == v.verseNumber
    ensures a.hizbMarker <==> RubAlHizb in ScriptText(v, script)
    ensures Validate.IsQpc(script) ==> RubAlHizb !in a.text
    ensures !Validate.IsQpc(script) ==> a.text == ScriptText(v, script)
    ensures a.pageNumber == v.pageNumber && a.juzNumber == v.juzNumber && a.hizbQuarter == v.rubElHizbNumber
    ensures a.sajdah <==> v.sajdahNumber.Some?
    ensures a.pageMarker.None?
    ensures a.translation.Some? <==> td.Some?
    ensures td.None? ==> a.footnotes == []
    ensures td.Some? ==> (a.translation.value, a.footnotes) == RewriteFrom(td.value.text, td.value.footNotes, 0)
  {
    var raw := ScriptText(v, script);
    var text := if Validate.IsQpc(script) then StripQpcMarkers(raw) else raw;
    var (translation, footnotes) :=
      match td
      case None => (None, [])
      case Some(t) => var r := RewriteFrom(t.text, t.footNotes, 0); (Some(r.0), r.1);
    Ayah(chapter, v.verseNumber, text, v.pageNumber, v.juzNumber, v.rubElHizbNumber,
         v.sajdahNumber.Some?, RubAlHizb in raw, None, translation, footnotes)
  }

  /** One loaded surah: the chapter's metadata as fetched, and one ayah per fetched verse, in order. */
  function LoadedSurah(script: string, ch: RawChapter, vs: seq<RawVerse>, transData: Option<seq<RawTranslation>>): (s: Surah)
    ensures s.number == ch.id && s.ayahCount == ch.versesCount
    ensures s.nameArabic == ch.nameArabic && s.nameTransliteration == ch.nameSimple && s.revelationType == ch.revelationPlace
    ensures |s.ayahs| == |vs|
    ensures forall i :: 0 <= i < |vs| ==> s.ayahs[i] == LoadedAyah(ch.id, script, vs[i], TranslationAt(transData, i))
  {
    Surah(ch.id, ch.nameArabic, ch.nameSimple, ch.revelationPlace, ch.versesCount,
      seq(|vs|, i requires 0 <= i < |vs| => LoadedAyah(ch.id, script, vs[i], TranslationAt(transData, i))))
  }

  /** The translations fetched for chapter `k`: none when no translation was requested. */
  function ChapterTranslations(translations: Option<seq<seq<RawTranslation>>>, k: nat): Option<seq<RawTranslation>>
    requires translations.Some? ==> k < |translations.value|
  {
    if translations.Some? then Some(translations.value[k]) else None
  }

  function LoadedSurahs(script: string, chapters: seq<RawChapter>, verses: seq<seq<RawVerse>>,
                        translations: Option<seq<seq<RawTranslation>>>): (ss: seq<Surah>)
    requires |verses| == |chapters|
    requires translations.Some? ==> |translations.value| == |chapters|
    ensures |ss| == |chapters|
  {
    seq(|chapters|, k requires 0 <= k < |chapters| =>
      LoadedSurah(script, chapters[k], verses[k], ChapterTranslations(translations, k)))
  }

  const LoadMetadata: map<string, string> := map["source" := "quran.com", "api_version" := "v4"]

  /**
   * `load_quran` on already-fetched records (`verses[k]` and `translations[k]` are what the
   * verse and translation endpoints returned for `chapters[k]`): an unknown script is
   * refused; otherwise one surah per chapter, and the bismillah is the text of ayah 1:1.
   */
  function Load(script: string, chapters: seq<RawChapter>, verses: seq<seq<RawVerse>>,
                translations: Option<seq<seq<RawTranslation>>>): (r: Result<Mushaf, LoadError>)
    requires |verses| == |chapters|
    requires translations.Some? ==> |translations.value| == |chapters|
    ensures r == Err(UnknownScriptField(script)) <==> script !in ScriptFields
    ensures r.Err? && script in ScriptFields ==> |chapters| == 0 || |verses[0]| == 0
    ensures r.Ok? ==> r.value.surahs == LoadedSurahs(script, chapters, verses, translations) && r.value.script == script
  {
    if script !in ScriptFields then Err(UnknownScriptField(script))
    else
      var surahs := LoadedSurahs(script, chapters, verses, translations);
      if |surahs| == 0 then Err(NoSurahs)
      else if |surahs[0].ayahs| == 0 then Err(NoAyahInFirstSurah)
      else Ok(Mushaf(surahs, script, LoadMetadata, surahs[0].ayahs[0].text))
  }

  /** The body of `load_quran`'s inner loop: one verse record, and its translation record if any, made into an ayah. */
  method LoadAyah(chapter: int, script: string, isQpc: bool, v: RawVerse, td: Option<RawTranslation>) returns (a: Ayah)
    requires isQpc == Validate.IsQpc(script)
    ensures a == LoadedAyah(chapter, script, v, td)
  {
    var text := ScriptText(v, script);
    var hasHizb := RubAlHizb in text;
    if isQpc {
      text := StripQpcMarkers(text);
    }
    var translation: Option<string> := None;
    var footnotes: seq<Footnote> := [];
    if td.Some? {
      var processed;
      processed, footnotes := ProcessTranslationText(td.value.text, td.value.footNotes, chapter);
      translation := Some(processed);
    }
    a := Ayah(chapter, v.verseNumber, text, v.pageNumber, v.juzNumber, v.rubElHizbNumber,
              v.sajdahNumber.Some?, hasHizb, None, translation, footnotes);
  }

  /** `load_quran`'s inner loop: one ayah per verse of a chapter, with the verse's translation if any. */
  method LoadSurah(script: string, isQpc: bool, ch: RawChapter, vs: seq<RawVerse>, transData: Option<seq<RawTranslation>>)
    returns (surah: Surah)
    requires isQpc == Validate.IsQpc(script)
    ensures surah == LoadedSurah(script, ch, vs, transData)
  {
    ghost var expected := LoadedSurah(script, ch, vs, transData);
    var ayahs: seq<Ayah> := [];
    var i := 0;
    while i < |vs|
      invariant 0 <= i <= |vs|
      invariant ayahs == expected.ayahs[..i]
    {
      var td := if transData.Some? && |transData.value| > 0 && i < |transData.value| then Some(transData.value[i]) else None;
      var ayah := LoadAyah(ch.id, script, isQpc, vs[i], td);
      assert expected.ayahs[..i + 1] == expected.ayahs[..i] + [ayah];
      ayahs := ayahs + [ayah];
      i := i + 1;
    }
    assert ayahs == expected.ayahs;
    surah := Surah(ch.id, ch.nameArabic, ch.nameSimple, ch.revelationPlace, ch.versesCount, ayahs);
  }

  /**
   * `load_quran`'s loops: one surah per chapter, one ayah per verse, the translation of each
   * verse rewritten by `ProcessTranslationText`.
   */
  method LoadQuran(script: string, chapters: seq<RawChapter>, verses: seq<seq<RawVerse>>,
                   translations: Option<seq<seq<RawTranslation>>>) returns (r: Result<Mushaf, LoadError>)
    requires |verses| == |chapters|
    requires translations.Some? ==> |translations.value| == |chapters|
    ensures r == Load(script, chapters, verses, translations)
  {
    if script !in ScriptFields {
      return Err(UnknownScriptField(script));
    }
    var isQpc := Validate.IsQpc(script);
    var surahs: seq<Surah> := [];
    var k := 0;
    while k < |chapters|
      invariant 0 <= k <= |chapters|
      invariant surahs == LoadedSurahs(script, chapters, verses, translations)[..k]
    {
      var surah := LoadSurah(script, isQpc, chapters[k], verses[k], ChapterTranslations(translations, k));
      surahs := surahs + [surah];
      k := k + 1;
    }
    assert surahs == LoadedSurahs(script, chapters, verses, translations);
    if |surahs| == 0 {
      return Err(NoSurahs);
    }
    if |surahs[0].ayahs| == 0 {
      return Err(NoAyahInFirstSurah);
    }
    var bismillah := surahs[0].ayahs[0].text;
    return Ok(Mushaf(surahs, script, LoadMetadata, bismillah));
  }

  /** A loaded corpus never fails the bismillah-match check: its bismillah is ayah 1:1. */
  lemma LoadedBismillahMatches(script: string, chapters: seq<RawChapter>, verses: seq<seq<RawVerse>>,
                               translations: Option<seq<seq<RawTranslation>>>)
    requires |verses| == |chapters|
    requires translations.Some? ==> |translations.value| == |chapters|
    ensures var r := Load(script, chapters, verses, translations);
      r.Ok? ==>
        && Validate.BismillahMismatch !in Validate.BismillahErrors(r.value)
        && (|r.value.bismillahText| >= 10 ==> Validate.BismillahErrors(r.value) == [])
  {
  }

  /** A corpus loaded in a QPC script passes the forbidden-code-point check: no rub-al-hizb mark is left. */
  lemma LoadedQpcHasNoRubAlHizb(script: string, chapters: seq<RawChapter>, verses: seq<seq<RawVerse>>,
                                translations: Option<seq<seq<RawTranslation>>>)
    requires |verses| == |chapters|
    requires translations.Some? ==> |translations.value| == |chapters|
    ensures var r := Load(script, chapters, verses, translations);
      r.Ok? && Validate.IsQpc(script) ==> Validate.ForbiddenErrors(Reading(r.value.surahs)) == []
  {
    var r := Load(script, chapters, verses, translations);
    if r.Ok? && Validate.IsQpc(script) {
      var surahs := r.value.surahs;
      var xs := Reading(surahs);
      ReadingMembers(surahs);
      forall k | 0 <= k < |xs| ensures RubAlHizb !in xs[k].1.text {
        var s, a :| 0 <= s < |surahs| && 0 <= a < |surahs[s].ayahs| && xs[k] == (surahs[s].number, surahs[s].ayahs[a]);
      }
      Validate.ForbiddenErrorsMeaning(xs);
    }
  }
}
