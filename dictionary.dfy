/**
 * The dictionary builder's data logic: QPC verse text split into headwords, headwords
 * normalised by dropping trailing pause marks, the morphology file parsed into one merged
 * record per word position, raw word records merged under their normalised headwords, and
 * the HTML text of one dictionary entry. Fetching, caching and the Lane's Lexicon JSON stay
 * outside; their results are parameters.
 */
module Dictionary {
  import opened Wrappers
  import opened Text
  import opened Registry
  import QuranApi

  // ---------------------------------------------------------------------------------------
  // Headwords
  // ---------------------------------------------------------------------------------------

  /** The Quranic pause (waqf) marks that can end a word in QPC text. */
  predicate IsPauseMark(c: char) {
    || ('\U{06D6}' <= c <= '\U{06DD}')
    || c == '\U{06DF}'
    || c == '\U{06E0}'
    || c == '\U{0615}'
    || c == '\U{0617}'
  }

  predicate AllPauseMarks(s: string) {
    forall i :: 0 <= i < |s| ==> IsPauseMark(s[i])
  }

  /** The start of the maximal run of pause marks that ends at `e`. */
  function PauseRunStart(s: string, e: nat): (j: nat)
    requires e <= |s|
    ensures j <= e && AllPauseMarks(s[j..e])
    ensures j > 0 ==> !IsPauseMark(s[j - 1])
    decreases e
  {
    if e > 0 && IsPauseMark(s[e - 1]) then
      var j := PauseRunStart(s, e - 1);
      assert s[j..e] == s[j..e - 1] + [s[e - 1]];
      j
    else e
  }

  lemma {:induction false} PauseRunStartIs(s: string, j: nat, e: nat)
    requires j <= e <= |s| && AllPauseMarks(s[j..e])
    requires j > 0 ==> !IsPauseMark(s[j - 1])
    ensures PauseRunStart(s, e) == j
    decreases e
  {
    if e > j {
      assert IsPauseMark(s[j..e][e - 1 - j]);
      assert AllPauseMarks(s[j..e - 1]) by {
        var t := s[j..e - 1];
        forall i | 0 <= i < |t| ensures IsPauseMark(t[i]) {
          assert t[i] == s[j..e][i];
        }
      }
      PauseRunStartIs(s, j, e - 1);
    }
  }

  /** `j` starts the run of pause marks that the end-anchored pattern `[marks]+$` can match. */
  predicate TrailingPauseRun(w: string, j: nat) {
    && j <= QuranApi.AnchorEnd(w)
    && AllPauseMarks(w[j..QuranApi.AnchorEnd(w)])
    && (j > 0 ==> !IsPauseMark(w[j - 1]))
  }

  /**
   * `strip_pause_marks`: the maximal run of pause marks at the end of the word (before a
   * final newline, where `$` also matches) is removed, and nothing else.
   */
  function StripPauseMarks(w: string): (r: string)
    ensures exists j: nat :: TrailingPauseRun(w, j) && r == w[..j] + w[QuranApi.AnchorEnd(w)..]
  {
    var e := QuranApi.AnchorEnd(w);
    var j := PauseRunStart(w, e);
    assert TrailingPauseRun(w, j);
    w[..j] + w[e..]
  }

  /** The word ends, before the anchor, in a pause mark. */
  predicate EndsInPauseMark(w: string) {
    QuranApi.AnchorEnd(w) > 0 && IsPauseMark(w[QuranApi.AnchorEnd(w) - 1])
  }

  /** A word whose last character is not a pause mark is left as it is, and only such a word. */
  lemma StripPauseMarksUnchanged(w: string)
    ensures StripPauseMarks(w) == w <==> !EndsInPauseMark(w)
  {
    var e := QuranApi.AnchorEnd(w);
    var j := PauseRunStart(w, e);
    if EndsInPauseMark(w) {
      assert |StripPauseMarks(w)| < |w|;
    } else {
      assert j == e;
      assert w[..e] + w[e..] == w;
    }
  }

  /** A word made of a stem not ending in a pause mark, then pause marks, loses exactly the marks. */
  lemma StripPauseMarksOfWord(stem: string, marks: string)
    requires '\n' !in stem + marks
    requires AllPauseMarks(marks)
    requires |stem| == 0 || !IsPauseMark(stem[|stem| - 1])
    ensures StripPauseMarks(stem + marks) == stem
  {
    var w := stem + marks;
    assert |w| > 0 ==> w[|w| - 1] in stem + marks;
    assert QuranApi.AnchorEnd(w) == |w|;
    assert w[|stem|..] == marks;
    PauseRunStartIs(w, |stem|, |w|);
    assert w[..|stem|] == stem;
  }

  /**
   * For a word without a newline (every headword, since words are split at whitespace),
   * stripping twice strips no more than stripping once.
   */
  lemma StripPauseMarksIdempotent(w: string)
    requires '\n' !in w
    ensures StripPauseMarks(StripPauseMarks(w)) == StripPauseMarks(w)
    ensures !EndsInPauseMark(StripPauseMarks(w))
  {
    var j := PauseRunStart(w, |w|);
    var r := StripPauseMarks(w);
    assert |w| > 0 ==> w[|w| - 1] in w;
    assert r == w[..j];
    assert |r| > 0 ==> r[|r| - 1] == w[j - 1] && w[j - 1] in w;
    StripPauseMarksUnchanged(r);
  }

  /** The start of the maximal run of whitespace that ends at `e`. */
  function SpaceRunStart(s: string, e: nat): (j: nat)
    requires e <= |s|
    ensures j <= e && AllSpace(s[j..e])
    ensures j > 0 ==> !IsSpace(s[j - 1])
    decreases e
  {
    if e > 0 && IsSpace(s[e - 1]) then
      var j := SpaceRunStart(s, e - 1);
      assert s[j..e] == s[j..e - 1] + [s[e - 1]];
      j
    else e
  }

  lemma {:induction false} SpaceRunStartIs(s: string, j: nat, e: nat)
    requires j <= e <= |s| && AllSpace(s[j..e])
    requires j > 0 ==> !IsSpace(s[j - 1])
    ensures SpaceRunStart(s, e) == j
    decreases e
  {
    if e > j {
      assert IsSpace(s[j..e][e - 1 - j]);
      assert AllSpace(s[j..e - 1]) by {
        var t := s[j..e - 1];
        forall i | 0 <= i < |t| ensures IsSpace(t[i]) {
          assert t[i] == s[j..e][i];
        }
      }
      SpaceRunStartIs(s, j, e - 1);
    }
  }

  /** Text the verse-number pattern matches: whitespace, Arabic-Indic digits, whitespace. */
  predicate IsVerseNumberTail(t: string) {
    exists a, b :: 0 <= a < b <= |t| && AllSpace(t[..a]) && QuranApi.AllArabicIndicDigits(t[a..b]) && AllSpace(t[b..])
  }

  lemma VerseNumberTailAt(s: string, i: nat, d: nat, e: nat)
    requires i <= d < e <= |s|
    requires AllSpace(s[i..d]) && QuranApi.AllArabicIndicDigits(s[d..e]) && AllSpace(s[e..])
    ensures IsVerseNumberTail(s[i..])
  {
    var t, a, b := s[i..], d - i, e - i;
    assert t[..a] == s[i..d] && t[a..b] == s[d..e] && t[b..] == s[e..];
  }

  /**
   * The substitution of the end-anchored verse-number pattern: the leftmost suffix made of
   * whitespace, one or more Arabic-Indic digits and whitespace is removed, if there is one.
   */
  function StripVerseNumber(s: string): (r: string)
    ensures r == s || (|r| < |s| && r == s[..|r|] && IsVerseNumberTail(s[|r|..]))
  {
    var e := SpaceRunStart(s, |s|);
    var d := QuranApi.DigitRunStart(s, e);
    if d == e then s
    else
      var i := SpaceRunStart(s, d);
      VerseNumberTailAt(s, i, d, e);
      s[..i]
  }

  /**
   * A verse whose text from `i` on is whitespace, Arabic-Indic digits and whitespace, with the
   * character before `i` neither, loses exactly that ending.
   */
  lemma StripVerseNumberAt(s: string, i: nat, d: nat, e: nat)
    requires i <= d < e <= |s|
    requires AllSpace(s[i..d]) && QuranApi.AllArabicIndicDigits(s[d..e]) && AllSpace(s[e..])
    requires i > 0 ==> !IsSpace(s[i - 1]) && !QuranApi.IsArabicIndicDigit(s[i - 1])
    ensures StripVerseNumber(s) == s[..i]
  {
    assert !IsSpace(s[e - 1]) by {
      assert s[e - 1] == s[d..e][e - 1 - d];
    }
    SpaceRunStartIs(s, e, |s|);
    if d > i {
      assert !QuranApi.IsArabicIndicDigit(s[d - 1]) by {
        assert s[d - 1] == s[i..d][d - 1 - i];
      }
    }
    QuranApi.DigitRunStartIs(s, d, e);
    SpaceRunStartIs(s, i, d);
  }

  /** A verse whose last non-space character is not an Arabic-Indic digit keeps its text. */
  lemma StripVerseNumberNone(s: string)
    requires SpaceRunStart(s, |s|) == 0 || !QuranApi.IsArabicIndicDigit(s[SpaceRunStart(s, |s|) - 1])
    ensures StripVerseNumber(s) == s
  {
  }

  /**
   * `extract_qpc_words`: the verse number is stripped, every rub-al-hizb mark is removed and
   * the rest is split at whitespace. Every word is non-empty and holds neither whitespace nor
   * a rub-al-hizb mark, and the words together are all the other characters, in order.
   */
  function ExtractQpcWords(qpcText: string): (ws: seq<string>)
    ensures forall k :: 0 <= k < |ws| ==> |ws[k]| > 0 && QuranApi.RubAlHizb !in ws[k]
    ensures forall k, j :: 0 <= k < |ws| && 0 <= j < |ws[k]| ==> !IsSpace(ws[k][j])
    ensures Concat(ws) == NonSpace(RemoveChar(StripVerseNumber(qpcText), QuranApi.RubAlHizb))
  {
    var text := RemoveChar(StripVerseNumber(qpcText), QuranApi.RubAlHizb);
    WordsAreWords(text);
    WordsChars(text);
    WordsConcat(text);
    Words(text)
  }

  // ---------------------------------------------------------------------------------------
  // Morphology
  // ---------------------------------------------------------------------------------------

  /** Python's `int(s)` on a decimal string: surrounding whitespace, an optional sign, digits. */
  function PythonInt(s: string): Option<int> {
    var t := Strip(s);
    if |t| > 1 && (t[0] == '-' || t[0] == '+') && AllDigits(t[1..]) then
      Some(if t[0] == '-' then -(DigitsValue(t[1..]) as int) else DigitsValue(t[1..]))
    else if |t| > 0 && AllDigits(t) then Some(DigitsValue(t))
    else None
  }

  /** `int` reads back what `str` writes for every integer. */
  lemma PythonIntOfIntToString(i: int)
    ensures PythonInt(IntToString(i)) == Some(i)
  {
    var s := IntToString(i);
    var n := if i < 0 then -i else i;
    var digits := NatToString(n);
    DigitsValueOfNatToString(n);
    assert !IsSpace(s[0]) && !IsSpace(s[|s| - 1]) by {
      if i < 0 {
        assert s[|s| - 1] == digits[|digits| - 1];
      }
    }
    assert TrimLeft(s) == s;
    assert Strip(s) == s;
    if i < 0 {
      assert s[1..] == digits;
    }
  }

  /** What one segment's tag list yields before it is merged into its word. */
  datatype TagFields = TagFields(root: Option<string>, lem: Option<string>, verbForm: Option<int>, posDetails: seq<string>)

  const NoTags := TagFields(None, None, None, [])

  predicate IsFieldTag(tag: string) {
    StartsWith(tag, "ROOT:") || StartsWith(tag, "LEM:") || StartsWith(tag, "VF:")
  }

  /** One step of the tag loop: a `ROOT:`, `LEM:` or `VF:` tag sets its field, any other is a detail. */
  function ReadTag(f: TagFields, tag: string): TagFields {
    if StartsWith(tag, "ROOT:") then f.(root := Some(tag[5..]))
    else if StartsWith(tag, "LEM:") then f.(lem := Some(tag[4..]))
    else if StartsWith(tag, "VF:") then
      match PythonInt(tag[3..])
      case Some(v) => f.(verbForm := Some(v))
      case None => f
    else f.(posDetails := f.posDetails + [tag])
  }

  /**
   * The tag loop over a whole tag list. The details are the other tags, in order, and a
   * field is set only when its tag is present.
   */
  function ReadTags(tags: seq<string>): (f: TagFields)
    ensures forall d :: d in f.posDetails ==> d in tags && !IsFieldTag(d)
    ensures f.root.Some? ==> exists i :: 0 <= i < |tags| && StartsWith(tags[i], "ROOT:")
    decreases |tags|
  {
    if |tags| == 0 then NoTags
    else
      var f := ReadTags(tags[..|tags| - 1]);
      assert forall d :: d in tags[..|tags| - 1] ==> d in tags;
      assert forall i :: 0 <= i < |tags| - 1 ==> tags[..|tags| - 1][i] == tags[i];
      ReadTag(f, tags[|tags| - 1])
  }

  /** Within one segment the last `ROOT:` tag wins; there is a root only when such a tag exists. */
  lemma {:induction false} ReadTagsLastRoot(tags: seq<string>, i: nat)
    requires i < |tags| && StartsWith(tags[i], "ROOT:")
    requires forall j :: i < j < |tags| ==> !StartsWith(tags[j], "ROOT:")
    ensures ReadTags(tags).root == Some(tags[i][5..])
    decreases |tags|
  {
    if i < |tags| - 1 {
      ReadTagsLastRoot(tags[..|tags| - 1], i);
    }
  }

  /** Within one segment the last `LEM:` tag wins. */
  lemma {:induction false} ReadTagsLastLemma(tags: seq<string>, i: nat)
    requires i < |tags| && StartsWith(tags[i], "LEM:") && !StartsWith(tags[i], "ROOT:")
    requires forall j :: i < j < |tags| ==> !StartsWith(tags[j], "LEM:")
    ensures ReadTags(tags).lem == Some(tags[i][4..])
    decreases |tags|
  {
    if i < |tags| - 1 {
      ReadTagsLastLemma(tags[..|tags| - 1], i);
    }
  }

  /** One word's merged morphology record. */
  datatype Morph = Morph(root: Option<string>, lem: Option<string>, pos: string, verbForm: Option<int>, posDetails: seq<string>)

  /**
   * One line of the morphology file: `surah:ayah:word:segment`, the Arabic segment, the part of
   * speech and the `|`-separated tags, separated by tabs. Blank lines, lines without four tab
   * fields and locations without four colon parts give `None`.
   */
  function ParseLine(line: string): Option<(string, Morph)> {
    if Strip(line) == "" then None
    else
      var fields := Split(line, '\t');
      if |fields| != 4 then None
      else
        var loc := Split(fields[0], ':');
        if |loc| != 4 then None
        else
          var f := ReadTags(Split(fields[3], '|'));
          Some((loc[0] + ":" + loc[1] + ":" + loc[2], Morph(f.root, f.lem, fields[2], f.verbForm, f.posDetails)))
  }

  /** Four pieces without the separator, joined by it, split back into those four. */
  /** Three pieces joined by colons, written out. */
  lemma JoinThree(a: string, b: string, c: string)
    ensures Join(":", [a, b, c]) == a + ":" + b + ":" + c
  {
    assert [a, b, c][1..] == [b, c];
    assert [b, c][1..] == [c];
    assert Join(":", [b, c]) == b + ":" + c;
    assert Join(":", [a, b, c]) == a + ":" + (b + ":" + c);
  }

  /** A colon follows the first piece of a colon-joined location. */
  lemma ColonAfterFirst(loc: seq<string>)
    requires |loc| > 1
    ensures |Join(":", loc)| > |loc[0]| && Join(":", loc)[|loc[0]|] == ':'
  {
    assert Join(":", loc) == loc[0] + ":" + Join(":", loc[1..]);
  }

  /**
   * A line made of a four-part location (`surah:ayah:word:segment`), the Arabic segment, the part
   * of speech and the tags, joined by tabs, is read as the word key `surah:ayah:word` and the
   * segment's record.
   */
  lemma ParseLineOf(loc: seq<string>, arabic: string, pos: string, tags: string)
    requires |loc| == 4 && forall k :: 0 <= k < 4 ==> ':' !in loc[k] && '\t' !in loc[k]
    requires '\t' !in arabic && '\t' !in pos && '\t' !in tags
    ensures
      var f := ReadTags(Split(tags, '|'));
      ParseLine(Join("\t", [Join(":", loc), arabic, pos, tags]))
        == Some((Join(":", loc[..3]), Morph(f.root, f.lem, pos, f.verbForm, f.posDetails)))
  {
    var location := Join(":", loc);
    var fields := [location, arabic, pos, tags];
    var line := Join("\t", fields);
    JoinWithout(":", loc, '\t');
    SplitOfJoin(fields, '\t');
    SplitOfJoin(loc, ':');
    ColonAfterFirst(loc);
    assert line == location + "\t" + Join("\t", fields[1..]);
    assert line[|loc[0]|] == ':';
    StripEmptyIffAllSpace(line);
    JoinThree(loc[0], loc[1], loc[2]);
    assert loc[..3] == [loc[0], loc[1], loc[2]];
  }

  /**
   * The key of an accepted line is the first three colon parts of its location field, so it
   * has exactly three colon parts itself.
   */
  lemma ParseLineKey(line: string)
    requires ParseLine(line).Some?
    ensures
      var loc := Split(Split(line, '\t')[0], ':');
      Split(ParseLine(line).value.0, ':') == loc[..3]
  {
    var loc := Split(Split(line, '\t')[0], ':');
    SplitJoin(Split(line, '\t')[0], ':');
    assert loc[..3] == [loc[0], loc[1], loc[2]];
    JoinThree(loc[0], loc[1], loc[2]);
    SplitOfJoin(loc[..3], ':');
  }

  predicate Truthy(o: Option<string>) {
    o.Some? && o.value != ""
  }

  predicate NonZero(o: Option<int>) {
    o.Some? && o.value != 0
  }

  predicate IsContentPos(pos: string) {
    pos == "V" || pos == "N"
  }

  /**
   * A later segment of a word already recorded: it fills a root, lemma or verb form the word
   * lacks, and lifts a particle to a verb or noun.
   */
  function Merge(e: Morph, m: Morph): Morph {
    e.(root := if Truthy(m.root) && !Truthy(e.root) then m.root else e.root,
       lem := if Truthy(m.lem) && !Truthy(e.lem) then m.lem else e.lem,
       verbForm := if NonZero(m.verbForm) && !NonZero(e.verbForm) then m.verbForm else e.verbForm,
       pos := if IsContentPos(m.pos) && e.pos == "P" then m.pos else e.pos)
  }

  /** The record after one segment: the segment itself for a new word, else the merge. */
  function Record(prev: Option<Morph>, m: Morph): Morph {
    match prev
    case None => m
    case Some(e) => Merge(e, m)
  }

  /** `parse_morphology` over the lines of the file: one merged record per word key. */
  function Morphology(lines: seq<string>): Table<Morph>
    decreases |lines|
  {
    if |lines| == 0 then []
    else
      var t := Morphology(lines[..|lines| - 1]);
      match ParseLine(lines[|lines| - 1])
      case None => t
      case Some(km) => Assign(t, km.0, Record(Lookup(t, km.0), km.1))
  }

  /** The tag loop of `parse_morphology`. */
  method ParseTagList(tags: seq<string>) returns (f: TagFields)
    ensures f == ReadTags(tags)
  {
    var root: Option<string> := None;
    var lem: Option<string> := None;
    var verbForm: Option<int> := None;
    var posDetails: seq<string> := [];
    for i := 0 to |tags|
      invariant TagFields(root, lem, verbForm, posDetails) == ReadTags(tags[..i])
    {
      assert tags[..i + 1][..i] == tags[..i];
      var tag := tags[i];
      if StartsWith(tag, "ROOT:") {
        root := Some(tag[5..]);
      } else if StartsWith(tag, "LEM:") {
        lem := Some(tag[4..]);
      } else if StartsWith(tag, "VF:") {
        var v := PythonInt(tag[3..]);
        if v.Some? {
          verbForm := v;
        }
      } else {
        posDetails := posDetails + [tag];
      }
    }
    assert tags[..|tags|] == tags;
    f := TagFields(root, lem, verbForm, posDetails);
  }

  /**
   * `parse_morphology`: a missing file gives an empty table; otherwise every accepted line is
   * recorded under its word key, merging into the record already there.
   */
  method ParseMorphology(file: Option<seq<string>>) returns (words: Table<Morph>)
    ensures words == if file.None? then [] else Morphology(file.value)
  {
    words := [];
    if file.None? {
      return;
    }
    var lines := file.value;
    for n := 0 to |lines|
      invariant words == Morphology(lines[..n])
    {
      assert lines[..n + 1][..n] == lines[..n];
      var line := lines[n];
      if Strip(line) == "" {
        continue;
      }
      var fields := Split(line, '\t');
      if |fields| != 4 {
        continue;
      }
      var loc := Split(fields[0], ':');
      if |loc| != 4 {
        continue;
      }
      var key := loc[0] + ":" + loc[1] + ":" + loc[2];
      var f := ParseTagList(Split(fields[3], '|'));
      var m := Morph(f.root, f.lem, fields[2], f.verbForm, f.posDetails);
      var existing := Lookup(words, key);
      if existing.None? {
        words := Assign(words, key, m);
      } else {
        words := Assign(words, key, Merge(existing.value, m));
      }
    }
    assert lines[..|lines|] == lines;
  }

  /** The segments the file gives for one word key, in file order. */
  function KeySegments(lines: seq<string>, key: string): seq<Morph>
    decreases |lines|
  {
    if |lines| == 0 then []
    else
      var ms := KeySegments(lines[..|lines| - 1], key);
      match ParseLine(lines[|lines| - 1])
      case Some(km) => if km.0 == key then ms + [km.1] else ms
      case None => ms
  }

  /** A word's segments folded with `Record`, first to last. */
  function Merged(ms: seq<Morph>): Option<Morph>
    decreases |ms|
  {
    if |ms| == 0 then None else Some(Record(Merged(ms[..|ms| - 1]), ms[|ms| - 1]))
  }

  lemma MergedSnoc(ms: seq<Morph>, m: Morph)
    ensures Merged(ms + [m]) == Some(Record(Merged(ms), m))
  {
    assert (ms + [m])[..|ms|] == ms;
  }

  /** The table holds, under each key, the merge of exactly that key's segments. */
  lemma {:induction false} MorphologyLookup(lines: seq<string>, key: string)
    ensures Lookup(Morphology(lines), key) == Merged(KeySegments(lines, key))
    decreases |lines|
  {
    if |lines| > 0 {
      var init := lines[..|lines| - 1];
      MorphologyLookup(init, key);
      var t := Morphology(init);
      match ParseLine(lines[|lines| - 1])
      case None =>
      case Some(km) =>
        AssignLookup(t, km.0, Record(Lookup(t, km.0), km.1), key);
        if km.0 == key {
          MergedSnoc(KeySegments(init, key), km.1);
        }
    }
  }

  /** A key has segments exactly when some accepted line carries it. */
  lemma {:induction false} KeySegmentsNonEmpty(lines: seq<string>, key: string)
    ensures |KeySegments(lines, key)| > 0 <==>
      exists i :: 0 <= i < |lines| && ParseLine(lines[i]).Some? && ParseLine(lines[i]).value.0 == key
    decreases |lines|
  {
    if |lines| > 0 {
      var init := lines[..|lines| - 1];
      KeySegmentsNonEmpty(init, key);
      assert forall i :: 0 <= i < |init| ==> init[i] == lines[i];
    }
  }

  /** The table's keys are exactly the keys of the accepted lines. */
  lemma MorphologyKeys(lines: seq<string>, key: string)
    ensures key in Keys(Morphology(lines)) <==>
      exists i :: 0 <= i < |lines| && ParseLine(lines[i]).Some? && ParseLine(lines[i]).value.0 == key
  {
    MorphologyLookup(lines, key);
    KeySegmentsNonEmpty(lines, key);
    MergedSome(KeySegments(lines, key));
  }

  /** Merging gives a record exactly when there is something to merge. */
  lemma MergedSome(ms: seq<Morph>)
    ensures Merged(ms).Some? <==> |ms| > 0
  {
  }

  /** The first segment with a non-empty root gives the word its root; with none, the first segment's stays. */
  lemma {:induction false} MergedRoot(ms: seq<Morph>, i: nat)
    requires i < |ms|
    requires Truthy(ms[i].root) || i == 0
    requires forall j :: 0 <= j < |ms| && (j < i || (!Truthy(ms[i].root) && j > i)) ==> !Truthy(ms[j].root)
    ensures Merged(ms).Some? && Merged(ms).value.root == ms[i].root
    decreases |ms|
  {
    var init := ms[..|ms| - 1];
    if |init| > 0 {
      if i < |init| {
        MergedRoot(init, i);
      } else {
        MergedRoot(init, 0);
      }
    }
  }

  /** The first segment with a non-empty lemma gives the word its lemma; with none, the first segment's stays. */
  lemma {:induction false} MergedLemma(ms: seq<Morph>, i: nat)
    requires i < |ms|
    requires Truthy(ms[i].lem) || i == 0
    requires forall j :: 0 <= j < |ms| && (j < i || (!Truthy(ms[i].lem) && j > i)) ==> !Truthy(ms[j].lem)
    ensures Merged(ms).Some? && Merged(ms).value.lem == ms[i].lem
    decreases |ms|
  {
    var init := ms[..|ms| - 1];
    if |init| > 0 {
      if i < |init| {
        MergedLemma(init, i);
      } else {
        MergedLemma(init, 0);
      }
    }
  }

  /** The first segment with a non-zero verb form gives the word its verb form; with none, the first segment's stays. */
  lemma {:induction false} MergedVerbForm(ms: seq<Morph>, i: nat)
    requires i < |ms|
    requires NonZero(ms[i].verbForm) || i == 0
    requires forall j :: 0 <= j < |ms| && (j < i || (!NonZero(ms[i].verbForm) && j > i)) ==> !NonZero(ms[j].verbForm)
    ensures Merged(ms).Some? && Merged(ms).value.verbForm == ms[i].verbForm
    decreases |ms|
  {
    var init := ms[..|ms| - 1];
    if |init| > 0 {
      if i < |init| {
        MergedVerbForm(init, i);
      } else {
        MergedVerbForm(init, 0);
      }
    }
  }

  /**
   * The word keeps its first segment's part of speech and details, except that a particle
   * becomes the first later verb or noun; a part of speech is never lowered back to a particle.
   */
  lemma {:induction false} MergedPos(ms: seq<Morph>)
    requires |ms| > 0
    ensures Merged(ms).Some? && Merged(ms).value.posDetails == ms[0].posDetails
    ensures ms[0].pos != "P" ==> Merged(ms).value.pos == ms[0].pos
    ensures ms[0].pos == "P" && (forall j :: 0 <= j < |ms| ==> !IsContentPos(ms[j].pos)) ==> Merged(ms).value.pos == "P"
    ensures forall i ::
      (0 <= i < |ms| && ms[0].pos == "P" && IsContentPos(ms[i].pos) && (forall j :: 0 <= j < i ==> !IsContentPos(ms[j].pos)))
      ==> Merged(ms).value.pos == ms[i].pos
    decreases |ms|
  {
    var init := ms[..|ms| - 1];
    if |init| > 0 {
      MergedPos(init);
      assert init[0] == ms[0];
      assert forall j :: 0 <= j < |init| ==> init[j] == ms[j];
    }
  }

  // ---------------------------------------------------------------------------------------
  // Entry text
  // ---------------------------------------------------------------------------------------

  /** The lower-cased spellings of a list of translations. */
  function Lowers(ks: seq<string>): (ls: seq<string>)
    ensures |ls| == |ks|
  {
    seq(|ks|, i requires 0 <= i < |ks| => Lower(ks[i]))
  }

  /** Position `k` holds the first non-empty translation with its spelling, ignoring case and surrounding space. */
  predicate FirstKept(ts: seq<string>, k: nat)
    requires k < |ts|
  {
    Strip(ts[k]) != "" && forall j :: 0 <= j < k ==> Lower(Strip(ts[j])) != Lower(Strip(ts[k]))
  }

  /** The translation loop of `build_entry_html`: stripped, non-empty, one per lower-cased spelling. */
  function UniqueTranslations(ts: seq<string>): seq<string>
    decreases |ts|
  {
    if |ts| == 0 then []
    else
      var kept := UniqueTranslations(ts[..|ts| - 1]);
      var clean := Strip(ts[|ts| - 1]);
      if Lower(clean) !in Lowers(kept) && clean != "" then kept + [clean] else kept
  }

  /** Every kept translation is a non-empty stripped input. */
  lemma {:induction false} UniqueTranslationsFrom(ts: seq<string>)
    ensures forall i :: 0 <= i < |UniqueTranslations(ts)| ==>
      UniqueTranslations(ts)[i] != "" && exists j :: 0 <= j < |ts| && UniqueTranslations(ts)[i] == Strip(ts[j])
    decreases |ts|
  {
    if |ts| > 0 {
      var init := ts[..|ts| - 1];
      UniqueTranslationsFrom(init);
      var kept := UniqueTranslations(init);
      var u := UniqueTranslations(ts);
      forall i | 0 <= i < |u| ensures u[i] != "" && exists j :: 0 <= j < |ts| && u[i] == Strip(ts[j]) {
        if i < |kept| {
          assert u[i] == kept[i];
          var j :| 0 <= j < |init| && kept[i] == Strip(init[j]);
          assert init[j] == ts[j];
        } else {
          assert u[i] == Strip(ts[|ts| - 1]);
        }
      }
    }
  }

  /**
   * The kept translations differ pairwise ignoring case, and every non-empty input has its
   * spelling among them.
   */
  lemma {:induction false} UniqueTranslationsFacts(ts: seq<string>)
    ensures forall i, l :: 0 <= i < l < |UniqueTranslations(ts)| ==>
      Lower(UniqueTranslations(ts)[i]) != Lower(UniqueTranslations(ts)[l])
    ensures forall j :: 0 <= j < |ts| && Strip(ts[j]) != "" ==> Lower(Strip(ts[j])) in Lowers(UniqueTranslations(ts))
    decreases |ts|
  {
    if |ts| > 0 {
      var init := ts[..|ts| - 1];
      UniqueTranslationsFacts(init);
      var kept := UniqueTranslations(init);
      var clean := Strip(ts[|ts| - 1]);
      var u := UniqueTranslations(ts);
      assert forall j :: 0 <= j < |init| ==> init[j] == ts[j];
      if Lower(clean) !in Lowers(kept) && clean != "" {
        assert forall i :: 0 <= i < |kept| ==> u[i] == kept[i];
        assert Lowers(u) == Lowers(kept) + [Lower(clean)];
        forall i, l | 0 <= i < l < |u| ensures Lower(u[i]) != Lower(u[l]) {
          if l == |kept| {
            assert Lower(u[i]) == Lowers(kept)[i];
          }
        }
      }
    }
  }

  /** The positions of the kept translations, in order. */
  function KeptPositions(ts: seq<string>): seq<nat>
    decreases |ts|
  {
    if |ts| == 0 then []
    else KeptPositions(ts[..|ts| - 1]) + (if FirstKept(ts, |ts| - 1) then [|ts| - 1] else [])
  }

  /** Whether a translation is the first of its spelling does not depend on the translations after it. */
  lemma FirstKeptPrefix(ts: seq<string>, k: nat)
    requires k < |ts| - 1
    ensures FirstKept(ts[..|ts| - 1], k) <==> FirstKept(ts, k)
  {
    assert forall j :: 0 <= j <= k ==> ts[..|ts| - 1][j] == ts[j];
  }

  /** The kept positions are increasing, each is a first occurrence, and every first occurrence is kept. */
  lemma KeptPositionsFacts(ts: seq<string>)
    ensures forall i :: 0 <= i < |KeptPositions(ts)| ==> KeptPositions(ts)[i] < |ts| && FirstKept(ts, KeptPositions(ts)[i])
    ensures forall i, l :: 0 <= i < l < |KeptPositions(ts)| ==> KeptPositions(ts)[i] < KeptPositions(ts)[l]
    ensures forall k :: 0 <= k < |ts| && FirstKept(ts, k) ==> k in KeptPositions(ts)
  {
    KeptPositionsSound(ts);
    KeptPositionsComplete(ts);
  }

  /** Every kept position is a first occurrence, and they come in increasing order. */
  lemma {:induction false} KeptPositionsSound(ts: seq<string>)
    ensures forall i :: 0 <= i < |KeptPositions(ts)| ==> KeptPositions(ts)[i] < |ts| && FirstKept(ts, KeptPositions(ts)[i])
    ensures forall i, l :: 0 <= i < l < |KeptPositions(ts)| ==> KeptPositions(ts)[i] < KeptPositions(ts)[l]
    decreases |ts|
  {
    if |ts| > 0 {
      var init := ts[..|ts| - 1];
      KeptPositionsSound(init);
      var ps, before := KeptPositions(ts), KeptPositions(init);
      assert ps == before + (if FirstKept(ts, |ts| - 1) then [|ts| - 1] else []);
      forall i | 0 <= i < |ps| ensures ps[i] < |ts| && FirstKept(ts, ps[i]) {
        if i < |before| {
          assert ps[i] == before[i];
          FirstKeptPrefix(ts, before[i]);
        }
      }
    }
  }

  /** Every first occurrence is kept. */
  lemma {:induction false} KeptPositionsComplete(ts: seq<string>)
    ensures forall k :: 0 <= k < |ts| && FirstKept(ts, k) ==> k in KeptPositions(ts)
    decreases |ts|
  {
    if |ts| > 0 {
      var init := ts[..|ts| - 1];
      KeptPositionsComplete(init);
      var ps, before := KeptPositions(ts), KeptPositions(init);
      assert ps == before + (if FirstKept(ts, |ts| - 1) then [|ts| - 1] else []);
      forall k | 0 <= k < |ts| && FirstKept(ts, k) ensures k in ps {
        if k < |init| {
          FirstKeptPrefix(ts, k);
          assert k in before;
        }
      }
    }
  }

  /** The last translation is kept exactly when it is the first of its spelling. */
  lemma KeptIffFirst(ts: seq<string>)
    requires |ts| > 0
    ensures var kept, clean := UniqueTranslations(ts[..|ts| - 1]), Strip(ts[|ts| - 1]);
      (Lower(clean) !in Lowers(kept) && clean != "") <==> FirstKept(ts, |ts| - 1)
  {
    var init, n := ts[..|ts| - 1], |ts| - 1;
    var kept, clean := UniqueTranslations(init), Strip(ts[n]);
    UniqueTranslationsFrom(init);
    UniqueTranslationsFacts(init);
    if clean != "" && Lower(clean) in Lowers(kept) {
      var i :| 0 <= i < |kept| && Lowers(kept)[i] == Lower(clean);
      var j :| 0 <= j < |init| && kept[i] == Strip(init[j]);
      assert init[j] == ts[j];
    }
    if clean != "" && !FirstKept(ts, n) {
      var j :| 0 <= j < n && Lower(Strip(ts[j])) == Lower(clean);
      assert |Strip(ts[j])| == |Lower(Strip(ts[j]))| == |Lower(clean)| == |clean|;
      assert init[j] == ts[j];
    }
  }

  /**
   * De-duplication keeps the first spelling of each translation, in input order: the kept list
   * is the stripped inputs at the first-occurrence positions.
   */
  lemma {:induction false} UniqueTranslationsKeepFirst(ts: seq<string>)
    ensures |UniqueTranslations(ts)| == |KeptPositions(ts)|
    ensures forall i :: 0 <= i < |UniqueTranslations(ts)| ==>
      KeptPositions(ts)[i] < |ts| && UniqueTranslations(ts)[i] == Strip(ts[KeptPositions(ts)[i]])
    decreases |ts|
  {
    if |ts| > 0 {
      var init := ts[..|ts| - 1];
      var n := |ts| - 1;
      UniqueTranslationsKeepFirst(init);
      var kept := UniqueTranslations(init);
      KeptIffFirst(ts);
      forall i | 0 <= i < |kept| ensures KeptPositions(ts)[i] < |ts| && UniqueTranslations(ts)[i] == Strip(ts[KeptPositions(ts)[i]]) {
        assert KeptPositions(ts)[i] == KeptPositions(init)[i];
      }
    }
  }

  /** The translation loop of `build_entry_html`, with its `seen` set. */
  method DedupTranslations(ts: seq<string>) returns (unique: seq<string>)
    ensures unique == UniqueTranslations(ts)
  {
    unique := [];
    var seen: set<string> := {};
    for n := 0 to |ts|
      invariant unique == UniqueTranslations(ts[..n])
      invariant forall x :: x in seen <==> x in Lowers(unique)
    {
      assert ts[..n + 1][..n] == ts[..n];
      var clean := Strip(ts[n]);
      var lower := Lower(clean);
      if lower !in seen && clean != "" {
        assert Lowers(unique + [clean]) == Lowers(unique) + [lower];
        seen := seen + {lower};
        unique := unique + [clean];
      }
    }
    assert ts[..|ts|] == ts;
  }

  const PosLabels: Table<string> := [
    ("N", "noun"), ("V", "verb"), ("P", "particle"), ("PN", "proper noun"), ("PRON", "pronoun"),
    ("DEM", "demonstrative"), ("REL", "relative pronoun"), ("T", "time adverb"), ("LOC", "location adverb"),
    ("NV", "verbal noun"), ("COND", "conditional"), ("INTG", "interrogative")]

  const PosLabelsAr: Table<string> := [
    ("N", "\U{0627}\U{0633}\U{0645}"),
    ("V", "\U{0641}\U{0639}\U{0644}"),
    ("P", "\U{062D}\U{0631}\U{0641}"),
    ("PN", "\U{0639}\U{0644}\U{0645}"),
    ("PRON", "\U{0636}\U{0645}\U{064A}\U{0631}"),
    ("DEM", "\U{0627}\U{0633}\U{0645} \U{0627}\U{0634}\U{0627}\U{0631}\U{0629}"),
    ("REL", "\U{0627}\U{0633}\U{0645} \U{0645}\U{0648}\U{0635}\U{0648}\U{0644}"),
    ("T", "\U{0638}\U{0631}\U{0641} \U{0632}\U{0645}\U{0627}\U{0646}"),
    ("LOC", "\U{0638}\U{0631}\U{0641} \U{0645}\U{0643}\U{0627}\U{0646}")]

  const VerbFormNames: seq<string> := ["I", "II", "III", "IV", "V", "VI", "VII", "VIII", "IX", "X"]

  /** The verb form's Roman numeral for forms 1 to 10, its decimal text otherwise. */
  function VerbFormName(v: int): string {
    if 1 <= v <= 10 then VerbFormNames[v - 1] else IntToString(v)
  }

  /** The part-of-speech label: English (from the table, else the tag itself), then the Arabic label in brackets when there is one. */
  function PosText(pos: string): string {
    var en := Lookup(PosLabels, pos).GetOr(pos);
    var ar := Lookup(PosLabelsAr, pos).GetOr("");
    if ar != "" then en + " (" + ar + ")" else en
  }

  function PosPart(m: Morph): seq<string> {
    if m.pos != "" then [PosText(m.pos)] else []
  }

  function FormPart(m: Morph): seq<string> {
    if NonZero(m.verbForm) then ["Form " + VerbFormName(m.verbForm.value)] else []
  }

  function LemmaPart(m: Morph): seq<string> {
    if Truthy(m.lem) then ["lemma: " + m.lem.value] else []
  }

  function RootPart(m: Morph): seq<string> {
    if Truthy(m.root) then ["root: " + m.root.value] else []
  }

  /** The pieces of the morphology line, each present when its field is set. */
  function MorphParts(m: Morph): seq<string> {
    PosPart(m) + FormPart(m) + LemmaPart(m) + RootPart(m)
  }

  const SummaryLimit := 200

  /** A root summary over 200 characters is cut to 197 characters and an ellipsis. */
  function TruncateSummary(s: string): (r: string)
    ensures |r| <= SummaryLimit || r == s
    ensures |s| <= SummaryLimit ==> r == s
    ensures |s| > SummaryLimit ==> |r| == SummaryLimit && r[..SummaryLimit - 3] == s[..SummaryLimit - 3] && r[SummaryLimit - 3..] == "..."
  {
    if |s| > SummaryLimit then s[..SummaryLimit - 3] + "..." else s
  }

  const SampleSize := 5
  const Ellipsis: char := '\U{2026}'

  /** The location line: the first five verse keys, then the total when there are more. */
  function LocationText(locations: seq<string>): string {
    var sample := if |locations| > SampleSize then locations[..SampleSize] else locations;
    Join(", ", sample)
    + (if |locations| > SampleSize then " " + [Ellipsis] + " (" + IntToString(|locations|) + " total)" else "")
  }

  lemma {:induction false} JoinWithout(sep: string, parts: seq<string>, c: char)
    requires c !in sep && forall k :: 0 <= k < |parts| ==> c !in parts[k]
    ensures c !in Join(sep, parts)
    decreases |parts|
  {
    if |parts| > 1 {
      JoinWithout(sep, parts[1..], c);
      assert forall k :: 0 <= k < |parts| - 1 ==> parts[1..][k] == parts[k + 1];
    }
  }

  /**
   * With verse keys that hold no ellipsis, the location line shows the total (after an
   * ellipsis) exactly when there are more than five locations.
   */
  lemma LocationTextTotal(locations: seq<string>)
    requires forall k :: 0 <= k < |locations| ==> Ellipsis !in locations[k]
    ensures Ellipsis in LocationText(locations) <==> |locations| > SampleSize
  {
    var sample := if |locations| > SampleSize then locations[..SampleSize] else locations;
    JoinWithout(", ", sample, Ellipsis);
    if |locations| > SampleSize {
      var j := Join(", ", sample);
      assert LocationText(locations)[|j| + 1] == Ellipsis;
    } else {
      assert LocationText(locations) == Join(", ", sample);
    }
  }

  const TransliterationStyle := "color:#666;font-style:italic"
  const MorphStyle := "color:#888;font-size:90%"
  const MorphSeparator := " \U{00B7} "
  const SummaryStyle := "color:#555;font-size:85%"
  const LocationStyle := "color:#999;font-size:80%"

  /** `<span style="{style}">{body}</span>`. */
  function Span(style: string, body: string): (r: string)
    ensures |r| > |body|
  {
    "<span style=\"" + style + "\">" + body + "</span>"
  }

  function TranslationPart(unique: seq<string>): seq<string> {
    if |unique| > 0 then [Join("; ", unique)] else []
  }

  function TransliterationPart(transliteration: Option<string>): seq<string> {
    if Truthy(transliteration) then [Span(TransliterationStyle, transliteration.value)] else []
  }

  function MorphPart(morph: Option<Morph>): seq<string> {
    if morph.Some? && |MorphParts(morph.value)| > 0
    then [Span(MorphStyle, Join(MorphSeparator, MorphParts(morph.value)))]
    else []
  }

  function SummaryPart(summary: Option<string>): seq<string> {
    if Truthy(summary) then [Span(SummaryStyle, "Root: " + TruncateSummary(summary.value))] else []
  }

  function LocationPart(locations: seq<string>): seq<string> {
    if |locations| > 0 then [Span(LocationStyle, LocationText(locations))] else []
  }

  /** The HTML snippets of one entry, in order, each present when its source is. */
  function EntryParts(translations: seq<string>, transliteration: Option<string>, morph: Option<Morph>,
                      summary: Option<string>, locations: seq<string>): seq<string>
  {
    TranslationPart(UniqueTranslations(translations)) + TransliterationPart(transliteration) + MorphPart(morph)
    + SummaryPart(summary) + LocationPart(locations)
  }

  /** `build_entry_html`. */
  function EntryHtml(translations: seq<string>, transliteration: Option<string>, morph: Option<Morph>,
                     summary: Option<string>, locations: seq<string>): string
  {
    Join("<br/>", EntryParts(translations, transliteration, morph, summary, locations))
  }

  lemma {:induction false} JoinNonEmpty(sep: string, parts: seq<string>)
    requires |parts| > 0 && parts[0] != ""
    ensures Join(sep, parts) != ""
  {
    if |parts| > 1 {
      assert |Join(sep, parts)| >= |parts[0]|;
    }
  }

  /** The translation part is there exactly when some translation is not blank, and it is not empty. */
  lemma TranslationPartPresent(translations: seq<string>)
    ensures var part := TranslationPart(UniqueTranslations(translations));
      && (part == [] <==> forall j :: 0 <= j < |translations| ==> Strip(translations[j]) == "")
      && (part != [] ==> part[0] != "")
  {
    var unique := UniqueTranslations(translations);
    UniqueTranslationsFrom(translations);
    UniqueTranslationsFacts(translations);
    if |unique| > 0 {
      JoinNonEmpty("; ", unique);
    } else {
      assert Lowers(unique) == [];
    }
  }

  /**
   * An entry's HTML is empty exactly when it has no non-blank translation, no transliteration,
   * no morphology to show, no root summary and no location.
   */
  lemma EntryHtmlEmpty(translations: seq<string>, transliteration: Option<string>, morph: Option<Morph>,
                       summary: Option<string>, locations: seq<string>)
    ensures EntryHtml(translations, transliteration, morph, summary, locations) == "" <==>
      && (forall j :: 0 <= j < |translations| ==> Strip(translations[j]) == "")
      && !Truthy(transliteration)
      && (morph.None? || MorphParts(morph.value) == [])
      && !Truthy(summary)
      && locations == []
  {
    var parts := EntryParts(translations, transliteration, morph, summary, locations);
    TranslationPartPresent(translations);
    if |parts| > 0 {
      assert parts[0] != "";
      JoinNonEmpty("<br/>", parts);
    }
  }

  /** The morphology line's pieces, appended one by one. */
  method MorphLine(m: Morph) returns (morphParts: seq<string>)
    ensures morphParts == MorphParts(m)
  {
    morphParts := [];
    if m.pos != "" {
      morphParts := morphParts + [PosText(m.pos)];
    }
    assert morphParts == PosPart(m);
    if m.verbForm.Some? && m.verbForm.value != 0 {
      morphParts := morphParts + ["Form " + VerbFormName(m.verbForm.value)];
    }
    assert morphParts == PosPart(m) + FormPart(m);
    if m.lem.Some? && m.lem.value != "" {
      morphParts := morphParts + ["lemma: " + m.lem.value];
    }
    assert morphParts == PosPart(m) + FormPart(m) + LemmaPart(m);
    if m.root.Some? && m.root.value != "" {
      morphParts := morphParts + ["root: " + m.root.value];
    }
  }

  /** `build_entry_html` step by step, growing the list of parts. */
  method BuildEntryHtml(translations: seq<string>, transliteration: Option<string>, morph: Option<Morph>,
                        summary: Option<string>, locations: seq<string>) returns (html: string)
    ensures html == EntryHtml(translations, transliteration, morph, summary, locations)
  {
    var parts: seq<string> := [];
    var unique := DedupTranslations(translations);
    if |unique| > 0 {
      parts := parts + [Join("; ", unique)];
    }
    ghost var p1 := parts;
    assert p1 == TranslationPart(unique);
    if transliteration.Some? && transliteration.value != "" {
      parts := parts + [Span(TransliterationStyle, transliteration.value)];
    }
    ghost var p2 := parts;
    assert p2 == p1 + TransliterationPart(transliteration);
    if morph.Some? {
      var morphParts := MorphLine(morph.value);
      if |morphParts| > 0 {
        parts := parts + [Span(MorphStyle, Join(MorphSeparator, morphParts))];
      }
    }
    ghost var p3 := parts;
    assert p3 == p2 + MorphPart(morph);
    if summary.Some? && summary.value != "" {
      parts := parts + [Span(SummaryStyle, "Root: " + TruncateSummary(summary.value))];
    }
    ghost var p4 := parts;
    assert p4 == p3 + SummaryPart(summary);
    if |locations| > 0 {
      parts := parts + [Span(LocationStyle, LocationText(locations))];
    }
    assert parts == p4 + LocationPart(locations);
    html := Join("<br/>", parts);
  }

  // ---------------------------------------------------------------------------------------
  // Headword normalisation
  // ---------------------------------------------------------------------------------------

  /** What the verse loop gathers for one headword as it appears in the text. */
  datatype WordData = WordData(translations: seq<string>, transliteration: Option<string>, morph: Option<Morph>,
                               root: Option<string>, locations: seq<string>)

  /** What is gathered for one headword without its pause marks, with the marked spellings seen. */
  datatype CanonicalData = CanonicalData(translations: seq<string>, transliteration: Option<string>, morph: Option<Morph>,
                                         root: Option<string>, locations: seq<string>, variants: set<string>)

  const NoData := CanonicalData([], None, None, None, [], {})

  /**
   * One step of the normalisation loop: the raw headword's lists are appended, its
   * transliteration, morphology and root fill only what is still missing, and a headword that
   * differs from its canonical form is recorded as a variant.
   */
  function MergeWord(e: CanonicalData, headword: string, canonical: string, d: WordData): CanonicalData {
    CanonicalData(
      e.translations + d.translations,
      if Truthy(d.transliteration) && !Truthy(e.transliteration) then d.transliteration else e.transliteration,
      if d.morph.Some? && e.morph.None? then d.morph else e.morph,
      if Truthy(d.root) && !Truthy(e.root) then d.root else e.root,
      e.locations + d.locations,
      if headword != canonical then e.variants + {headword} else e.variants)
  }

  /** The normalisation loop over the raw word table, in its insertion order. */
  function Normalized(wordDb: Table<WordData>): Table<CanonicalData>
    decreases |wordDb|
  {
    if |wordDb| == 0 then []
    else
      var t := Normalized(wordDb[..|wordDb| - 1]);
      var (headword, d) := wordDb[|wordDb| - 1];
      var canonical := StripPauseMarks(headword);
      Assign(t, canonical, MergeWord(Lookup(t, canonical).GetOr(NoData), headword, canonical, d))
  }

  lemma NormalizedSnoc(wordDb: Table<WordData>, n: nat)
    requires n < |wordDb|
    ensures Normalized(wordDb[..n + 1]) ==
      Assign(Normalized(wordDb[..n]), StripPauseMarks(wordDb[n].0),
        MergeWord(Lookup(Normalized(wordDb[..n]), StripPauseMarks(wordDb[n].0)).GetOr(NoData), wordDb[n].0, StripPauseMarks(wordDb[n].0), wordDb[n].1))
  {
    assert wordDb[..n + 1][..n] == wordDb[..n];
  }

  /** The normalisation loop of the dictionary builder, filling `canonical_db` entry by entry. */
  method NormalizeHeadwords(wordDb: Table<WordData>) returns (canonicalDb: Table<CanonicalData>)
    ensures canonicalDb == Normalized(wordDb)
  {
    canonicalDb := [];
    for n := 0 to |wordDb|
      invariant canonicalDb == Normalized(wordDb[..n])
    {
      var (headword, data) := wordDb[n];
      var canonical := StripPauseMarks(headword);
      var entry := Lookup(canonicalDb, canonical).GetOr(NoData);
      ghost var found := entry;
      entry := entry.(translations := entry.translations + data.translations);
      if data.transliteration.Some? && data.transliteration.value != "" && !Truthy(entry.transliteration) {
        entry := entry.(transliteration := data.transliteration);
      }
      if data.morph.Some? && entry.morph.None? {
        entry := entry.(morph := data.morph);
      }
      if data.root.Some? && data.root.value != "" && !Truthy(entry.root) {
        entry := entry.(root := data.root);
      }
      entry := entry.(locations := entry.locations + data.locations);
      if headword != canonical {
        entry := entry.(variants := entry.variants + {headword});
      }
      assert entry == MergeWord(found, headword, canonical, data);
      NormalizedSnoc(wordDb, n);
      canonicalDb := Assign(canonicalDb, canonical, entry);
    }
    assert wordDb[..|wordDb|] == wordDb;
  }

  /** The raw entries whose headword normalises to `canonical`, in table order. */
  function Group(wordDb: Table<WordData>, canonical: string): Table<WordData>
    decreases |wordDb|
  {
    if |wordDb| == 0 then []
    else
      var g := Group(wordDb[..|wordDb| - 1], canonical);
      if StripPauseMarks(wordDb[|wordDb| - 1].0) == canonical then g + [wordDb[|wordDb| - 1]] else g
  }

  /** A group folded with `MergeWord`, first to last. */
  function Gathered(g: Table<WordData>, canonical: string): CanonicalData
    decreases |g|
  {
    if |g| == 0 then NoData else MergeWord(Gathered(g[..|g| - 1], canonical), g[|g| - 1].0, canonical, g[|g| - 1].1)
  }

  lemma GatheredSnoc(g: Table<WordData>, canonical: string, kv: (string, WordData))
    ensures Gathered(g + [kv], canonical) == MergeWord(Gathered(g, canonical), kv.0, canonical, kv.1)
  {
    assert (g + [kv])[..|g|] == g;
  }

  /** Each canonical headword holds exactly what its group of raw headwords gathers. */
  lemma {:induction false} NormalizedLookup(wordDb: Table<WordData>, canonical: string)
    ensures Lookup(Normalized(wordDb), canonical) ==
      if |Group(wordDb, canonical)| == 0 then None else Some(Gathered(Group(wordDb, canonical), canonical))
    decreases |wordDb|
  {
    if |wordDb| > 0 {
      var init := wordDb[..|wordDb| - 1];
      NormalizedLookup(init, canonical);
      var t := Normalized(init);
      var (headword, d) := wordDb[|wordDb| - 1];
      var c := StripPauseMarks(headword);
      AssignLookup(t, c, MergeWord(Lookup(t, c).GetOr(NoData), headword, c, d), canonical);
      if c == canonical {
        GatheredSnoc(Group(init, canonical), canonical, wordDb[|wordDb| - 1]);
      }
    }
  }

  /** The group of a canonical form: the raw headwords that normalise to it. */
  lemma {:induction false} GroupMembers(wordDb: Table<WordData>, canonical: string)
    ensures forall i :: 0 <= i < |Group(wordDb, canonical)| ==>
      Group(wordDb, canonical)[i] in wordDb && StripPauseMarks(Group(wordDb, canonical)[i].0) == canonical
    ensures |Group(wordDb, canonical)| > 0 <==> exists i :: 0 <= i < |wordDb| && StripPauseMarks(wordDb[i].0) == canonical
    decreases |wordDb|
  {
    if |wordDb| > 0 {
      var init := wordDb[..|wordDb| - 1];
      GroupMembers(init, canonical);
      assert forall i :: 0 <= i < |init| ==> init[i] == wordDb[i];
      assert forall x :: x in init ==> x in wordDb;
    }
  }

  /** The canonical headwords are exactly the pause-stripped raw headwords. */
  lemma NormalizedKeys(wordDb: Table<WordData>, canonical: string)
    ensures canonical in Keys(Normalized(wordDb)) <==> exists i :: 0 <= i < |wordDb| && StripPauseMarks(wordDb[i].0) == canonical
  {
    NormalizedLookup(wordDb, canonical);
    GroupMembers(wordDb, canonical);
  }

  /** When no raw headword holds a newline, no canonical headword ends in a pause mark. */
  lemma NormalizedKeysClean(wordDb: Table<WordData>, canonical: string)
    requires forall i :: 0 <= i < |wordDb| ==> '\n' !in wordDb[i].0
    requires canonical in Keys(Normalized(wordDb))
    ensures !EndsInPauseMark(canonical)
  {
    NormalizedKeys(wordDb, canonical);
    var i :| 0 <= i < |wordDb| && StripPauseMarks(wordDb[i].0) == canonical;
    StripPauseMarksIdempotent(wordDb[i].0);
  }

  function Flatten<T>(xss: seq<seq<T>>): seq<T>
    decreases |xss|
  {
    if |xss| == 0 then [] else Flatten(xss[..|xss| - 1]) + xss[|xss| - 1]
  }

  /** The translations and the locations of a group are those of its members, in order, with nothing dropped. */
  lemma {:induction false} GatheredLists(g: Table<WordData>, canonical: string)
    ensures Gathered(g, canonical).translations == Flatten(seq(|g|, i requires 0 <= i < |g| => g[i].1.translations))
    ensures Gathered(g, canonical).locations == Flatten(seq(|g|, i requires 0 <= i < |g| => g[i].1.locations))
    decreases |g|
  {
    if |g| > 0 {
      var init := g[..|g| - 1];
      GatheredLists(init, canonical);
      assert seq(|g|, i requires 0 <= i < |g| => g[i].1.translations)[..|g| - 1]
        == seq(|init|, i requires 0 <= i < |init| => init[i].1.translations);
      assert seq(|g|, i requires 0 <= i < |g| => g[i].1.locations)[..|g| - 1]
        == seq(|init|, i requires 0 <= i < |init| => init[i].1.locations);
    }
  }

  /** The variants of a group are its members' headwords that differ from the canonical form. */
  lemma {:induction false} GatheredVariants(g: Table<WordData>, canonical: string)
    ensures forall v :: v in Gathered(g, canonical).variants <==> v != canonical && v in Keys(g)
    decreases |g|
  {
    if |g| > 0 {
      var init := g[..|g| - 1];
      GatheredVariants(init, canonical);
      assert Keys(g) == Keys(init) + [g[|g| - 1].0];
    }
  }

  /** The first member with a non-empty transliteration gives it; with none there is none. */
  lemma {:induction false} GatheredTransliteration(g: Table<WordData>, canonical: string)
    ensures (forall j :: 0 <= j < |g| ==> !Truthy(g[j].1.transliteration)) ==> Gathered(g, canonical).transliteration.None?
    ensures forall i ::
      (0 <= i < |g| && Truthy(g[i].1.transliteration) && (forall j :: 0 <= j < i ==> !Truthy(g[j].1.transliteration)))
      ==> Gathered(g, canonical).transliteration == g[i].1.transliteration
    decreases |g|
  {
    if |g| > 0 {
      var init := g[..|g| - 1];
      GatheredTransliteration(init, canonical);
      assert forall j :: 0 <= j < |init| ==> init[j] == g[j];
    }
  }

  /** The first member with morphology gives it; with none there is none. */
  lemma {:induction false} GatheredMorph(g: Table<WordData>, canonical: string)
    ensures (forall j :: 0 <= j < |g| ==> g[j].1.morph.None?) ==> Gathered(g, canonical).morph.None?
    ensures forall i ::
      (0 <= i < |g| && g[i].1.morph.Some? && (forall j :: 0 <= j < i ==> g[j].1.morph.None?))
      ==> Gathered(g, canonical).morph == g[i].1.morph
    decreases |g|
  {
    if |g| > 0 {
      var init := g[..|g| - 1];
      GatheredMorph(init, canonical);
      assert forall j :: 0 <= j < |init| ==> init[j] == g[j];
    }
  }

  /** The first member with a non-empty Lane's root gives it; with none there is none. */
  lemma {:induction false} GatheredRoot(g: Table<WordData>, canonical: string)
    ensures (forall j :: 0 <= j < |g| ==> !Truthy(g[j].1.root)) ==> Gathered(g, canonical).root.None?
    ensures forall i ::
      (0 <= i < |g| && Truthy(g[i].1.root) && (forall j :: 0 <= j < i ==> !Truthy(g[j].1.root)))
      ==> Gathered(g, canonical).root == g[i].1.root
    decreases |g|
  {
    if |g| > 0 {
      var init := g[..|g| - 1];
      GatheredRoot(init, canonical);
      assert forall j :: 0 <= j < |init| ==> init[j] == g[j];
    }
  }
}
