/**
 * `write_stardict`: the contents of the three StarDict files for a list of (headword,
 * definition) entries. The `.dict` file is the UTF-8 definitions back to back; the `.idx`
 * file has one record per entry, the UTF-8 headword, a NUL byte, then the definition's
 * offset in `.dict` and its size as 4-byte big-endian integers; the `.ifo` file states the
 * entry count and the `.idx` size. Writing the files and compressing `.dict` stay outside.
 */
module StarDict {
  import opened Wrappers
  import opened Text
  import opened Utf8

  /** A headword and its HTML definition. */
  type Entry = (string, string)

  /** The first value `struct.pack(">I", …)` cannot hold. */
  const U32Limit: int := 0x1_0000_0000

  /** `struct.pack(">I", n)`. */
  function PackU32(n: nat): (bs: seq<Byte>)
    requires n < U32Limit
    ensures |bs| == 4
  {
    [n / 0x100_0000, (n / 0x1_0000) % 256, (n / 256) % 256, n % 256]
  }

  /** `struct.unpack(">I", bs)`. */
  function UnpackU32(bs: seq<Byte>): nat
    requires |bs| == 4
  {
    (bs[0] as int) * 0x100_0000 + (bs[1] as int) * 0x1_0000 + (bs[2] as int) * 256 + bs[3] as int
  }

  lemma UnpackPack(n: nat)
    requires n < U32Limit
    ensures UnpackU32(PackU32(n)) == n
  {
    var a := n / 256;
    var b := a / 256;
    assert n == a * 256 + n % 256;
    assert a == b * 256 + a % 256;
    assert b == (b / 256) * 256 + b % 256;
    assert n / 0x1_0000 == b;
    assert n / 0x100_0000 == b / 256;
  }

  /** The `.dict` payload: the encoded definitions, in entry order. */
  function DictData(entries: seq<Entry>): seq<Byte>
    decreases |entries|
  {
    if |entries| == 0 then [] else DictData(entries[..|entries| - 1]) + Encode(entries[|entries| - 1].1)
  }

  /** Where the `k`-th definition starts in `.dict`. */
  function Offset(entries: seq<Entry>, k: nat): nat
    requires k <= |entries|
  {
    |DictData(entries[..k])|
  }

  /** The size of the `k`-th definition. */
  function Size(entries: seq<Entry>, k: nat): nat
    requires k < |entries|
  {
    |Encode(entries[k].1)|
  }

  /** Every offset and size fits in four bytes, so no `struct.pack` call fails. */
  predicate Fits(entries: seq<Entry>) {
    forall k :: 0 <= k < |entries| ==> Offset(entries, k) < U32Limit && Size(entries, k) < U32Limit
  }

  /** One `.idx` record. */
  function IdxRecord(headword: string, offset: nat, size: nat): seq<Byte>
    requires offset < U32Limit && size < U32Limit
  {
    Encode(headword) + [0] + PackU32(offset) + PackU32(size)
  }

  /** The `.idx` records, one per entry. */
  function IdxRecords(entries: seq<Entry>): seq<seq<Byte>>
    requires Fits(entries)
  {
    seq(|entries|, k requires 0 <= k < |entries| => IdxRecord(entries[k].0, Offset(entries, k), Size(entries, k)))
  }

  /** The records written one after the other. */
  function Flatten(xs: seq<seq<Byte>>): seq<Byte>
    decreases |xs|
  {
    if |xs| == 0 then [] else Flatten(xs[..|xs| - 1]) + xs[|xs| - 1]
  }

  /** `sum(len(e) for e in xs)`. */
  function SumLengths(xs: seq<seq<Byte>>): nat
    decreases |xs|
  {
    if |xs| == 0 then 0 else |xs[|xs| - 1]| + SumLengths(xs[..|xs| - 1])
  }

  const BookName: string := "Quran Dictionary (Enhanced)"
  const Description: string :=
    "Quran word-by-word " + "dictionary with " + "morphology, " + "transliteration, " + "and Lane's Lexicon " + "root definitions. "
    + "QPC Uthmani Hafs " + "encoding."

  /** The lines of the `.ifo` file. */
  function IfoLines(wordcount: nat, idxSize: nat): seq<string> {
    [ "StarDict's dict ifo file",
      "version=2.4.2",
      "wordcount=" + NatToString(wordcount),
      "idxfilesize=" + NatToString(idxSize),
      "bookname=" + BookName,
      "description=" + Description,
      "author=quran-ebook project",
      "sametypesequence=h" ]
  }

  /** Each line followed by a newline. */
  function Lines(ls: seq<string>): string
    decreases |ls|
  {
    if |ls| == 0 then "" else ls[0] + "\n" + Lines(ls[1..])
  }

  function Ifo(wordcount: nat, idxSize: nat): string {
    Lines(IfoLines(wordcount, idxSize))
  }

  /** The three files' contents. */
  datatype Files = Files(dict: seq<Byte>, idx: seq<Byte>, ifo: string)

  /** What `struct.pack` raises for a value that does not fit. */
  const PackRangeError: string := "'I' format requires 0 <= number <= 4294967295"

  /** What `write_stardict` writes. */
  function StarDictOf(entries: seq<Entry>): Result<Files, string> {
    if Fits(entries) then
      var idx := Flatten(IdxRecords(entries));
      Ok(Files(DictData(entries), idx, Ifo(|entries|, |idx|)))
    else Err(PackRangeError)
  }

  lemma DictDataSnoc(entries: seq<Entry>, k: nat)
    requires k < |entries|
    ensures DictData(entries[..k + 1]) == DictData(entries[..k]) + Encode(entries[k].1)
  {
    assert entries[..k + 1][..k] == entries[..k];
  }

  lemma {:induction false} DictDataPrefix(entries: seq<Entry>, j: nat, k: nat)
    requires j <= k <= |entries|
    ensures DictData(entries[..j]) <= DictData(entries[..k])
    decreases k - j
  {
    if j < k {
      DictDataPrefix(entries, j, k - 1);
      DictDataSnoc(entries, k - 1);
    }
  }

  /** The offsets of a prefix of the entries are the offsets of the whole list. */
  lemma PrefixOffsets(entries: seq<Entry>, k: nat)
    requires k <= |entries|
    ensures forall j :: 0 <= j <= k ==> Offset(entries[..k], j) == Offset(entries, j)
    ensures forall j :: 0 <= j < k ==> Size(entries[..k], j) == Size(entries, j)
  {
    forall j | 0 <= j <= k ensures Offset(entries[..k], j) == Offset(entries, j) {
      assert entries[..k][..j] == entries[..j];
    }
  }

  /** One more entry whose offset and size fit: the records so far, then its record. */
  lemma IdxRecordsSnoc(entries: seq<Entry>, k: nat)
    requires k < |entries| && Fits(entries[..k])
    requires Offset(entries, k) < U32Limit && Size(entries, k) < U32Limit
    ensures Fits(entries[..k + 1])
    ensures IdxRecords(entries[..k + 1]) == IdxRecords(entries[..k]) + [IdxRecord(entries[k].0, Offset(entries, k), Size(entries, k))]
  {
    var pre, ext := entries[..k], entries[..k + 1];
    PrefixOffsets(entries, k + 1);
    PrefixOffsets(entries, k);
    forall j | 0 <= j < k + 1 ensures Offset(ext, j) < U32Limit && Size(ext, j) < U32Limit {
      if j < k {
        assert Offset(pre, j) < U32Limit && Size(pre, j) < U32Limit;
      }
    }
    var rs := IdxRecords(pre) + [IdxRecord(entries[k].0, Offset(entries, k), Size(entries, k))];
    forall j | 0 <= j < k + 1 ensures IdxRecords(ext)[j] == rs[j] {
      if j < k {
        assert IdxRecords(pre)[j] == IdxRecord(pre[j].0, Offset(pre, j), Size(pre, j));
        assert pre[j] == ext[j];
      }
    }
  }

  /** An entry whose offset or size does not fit makes the whole list unfit. */
  lemma UnfitEntry(entries: seq<Entry>, k: nat)
    requires k < |entries|
    requires !(Offset(entries, k) < U32Limit && Size(entries, k) < U32Limit)
    ensures !Fits(entries)
  {
  }

  lemma SumLengthsFlatten(xs: seq<seq<Byte>>)
    ensures SumLengths(xs) == |Flatten(xs)|
  {
  }

  /** `write_stardict` up to the file writes: it fails only where `struct.pack` raises. */
  method WriteStardict(entries: seq<Entry>) returns (r: Result<Files, string>)
    ensures r == StarDictOf(entries)
  {
    var dictData: seq<Byte> := [];
    var idxEntries: seq<seq<Byte>> := [];
    var k := 0;
    while k < |entries|
      invariant 0 <= k <= |entries|
      invariant Fits(entries[..k])
      invariant dictData == DictData(entries[..k])
      invariant idxEntries == IdxRecords(entries[..k])
    {
      var (headword, definition) := entries[k];
      var defBytes := Encode(definition);
      var offset := |dictData|;
      var size := |defBytes|;
      if offset >= U32Limit || size >= U32Limit {
        UnfitEntry(entries, k);
        return Err(PackRangeError);
      }
      IdxRecordsSnoc(entries, k);
      DictDataSnoc(entries, k);
      dictData := dictData + defBytes;
      var hwBytes := Encode(headword);
      idxEntries := idxEntries + [hwBytes + [0] + PackU32(offset) + PackU32(size)];
      k := k + 1;
    }
    assert entries[..k] == entries;
    var idx: seq<Byte> := [];
    for i := 0 to |idxEntries|
      invariant idx == Flatten(idxEntries[..i])
    {
      assert idxEntries[..i + 1][..i] == idxEntries[..i];
      idx := idx + idxEntries[i];
    }
    assert idxEntries[..|idxEntries|] == idxEntries;
    SumLengthsFlatten(idxEntries);
    var idxSize := SumLengths(idxEntries);
    r := Ok(Files(dictData, idx, Ifo(|entries|, idxSize)));
  }

  // ---------------------------------------------------------------------------------------
  // Reading the files back
  // ---------------------------------------------------------------------------------------

  /** The `k`-th definition sits in `.dict` at its offset, for its size, and the next one starts where it ends. */
  lemma DictEntryAt(entries: seq<Entry>, k: nat)
    requires k < |entries|
    ensures Offset(entries, k) + Size(entries, k) == Offset(entries, k + 1) <= |DictData(entries)|
    ensures DictData(entries)[Offset(entries, k)..Offset(entries, k) + Size(entries, k)] == Encode(entries[k].1)
  {
    assert entries[..|entries|] == entries;
    DictDataSnoc(entries, k);
    DictDataPrefix(entries, k + 1, |entries|);
    var whole := DictData(entries);
    var upTo := DictData(entries[..k + 1]);
    assert whole[..|upTo|] == upTo;
    assert upTo[Offset(entries, k)..] == Encode(entries[k].1);
  }

  /** `.dict` starts with the first definition and ends with the last. */
  lemma DictEnds(entries: seq<Entry>)
    ensures Offset(entries, 0) == 0
    ensures Offset(entries, |entries|) == |DictData(entries)|
  {
    assert entries[..|entries|] == entries;
  }

  /** The position of the first zero byte at or after `i`. */
  function FindNul(bs: seq<Byte>, i: nat): (r: Option<nat>)
    requires i <= |bs|
    ensures r.Some? ==> i <= r.value < |bs| && bs[r.value] == 0 && forall j :: i <= j < r.value ==> bs[j] != 0
    decreases |bs| - i
  {
    if i == |bs| then None else if bs[i] == 0 then Some(i) else FindNul(bs, i + 1)
  }

  /** A reader of `.idx`: headword bytes up to a NUL, then offset and size, until the end. */
  function ParseIdx(bs: seq<Byte>): Option<seq<(seq<Byte>, nat, nat)>>
    decreases |bs|
  {
    if |bs| == 0 then Some([])
    else
      match FindNul(bs, 0)
      case None => None
      case Some(n) =>
        if |bs| < n + 9 then None
        else
          match ParseIdx(bs[n + 9..])
          case None => None
          case Some(rest) => Some([(bs[..n], UnpackU32(bs[n + 1..n + 5]), UnpackU32(bs[n + 5..n + 9]))] + rest)
  }

  lemma ParseIdxRecord(h: seq<Byte>, o: nat, z: nat, rest: seq<Byte>)
    requires 0 !in h && o < U32Limit && z < U32Limit
    ensures ParseIdx(h + [0] + PackU32(o) + PackU32(z) + rest) ==
      match ParseIdx(rest) case None => None case Some(fs) => Some([(h, o, z)] + fs)
  {
    var bs := h + [0] + PackU32(o) + PackU32(z) + rest;
    assert FindNul(bs, 0) == Some(|h|) by {
      FindNulIs(bs, 0, |h|);
    }
    var n := |h|;
    assert bs[..n] == h;
    assert bs[n + 1..n + 5] == PackU32(o);
    assert bs[n + 5..n + 9] == PackU32(z);
    assert bs[n + 9..] == rest;
    UnpackPack(o);
    UnpackPack(z);
  }

  lemma {:induction false} FindNulIs(bs: seq<Byte>, i: nat, k: nat)
    requires i <= k < |bs| && bs[k] == 0 && forall j :: i <= j < k ==> bs[j] != 0
    ensures FindNul(bs, i) == Some(k)
    decreases k - i
  {
    if i < k {
      FindNulIs(bs, i + 1, k);
    }
  }

  lemma FlattenCons(xs: seq<seq<Byte>>)
    requires |xs| > 0
    ensures Flatten(xs) == xs[0] + Flatten(xs[1..])
    decreases |xs|
  {
    if |xs| > 1 {
      FlattenCons(xs[..|xs| - 1]);
      assert xs[..|xs| - 1][1..] == xs[1..][..|xs| - 2];
      assert xs[..|xs| - 1][0] == xs[0];
    }
  }

  /** Records of NUL-free headwords read back to their fields. */
  lemma {:induction false} ParseRecords(rs: seq<seq<Byte>>, fs: seq<(seq<Byte>, nat, nat)>)
    requires |rs| == |fs|
    requires forall k :: 0 <= k < |fs| ==> 0 !in fs[k].0 && fs[k].1 < U32Limit && fs[k].2 < U32Limit
    requires forall k :: 0 <= k < |fs| ==> rs[k] == fs[k].0 + [0] + PackU32(fs[k].1) + PackU32(fs[k].2)
    ensures ParseIdx(Flatten(rs)) == Some(fs)
    decreases |rs|
  {
    if |rs| > 0 {
      FlattenCons(rs);
      ParseRecords(rs[1..], fs[1..]);
      ParseIdxRecord(fs[0].0, fs[0].1, fs[0].2, Flatten(rs[1..]));
      assert fs == [fs[0]] + fs[1..];
    }
  }

  /**
   * When no headword holds a NUL character, reading `.idx` back gives, for every entry in
   * order, its UTF-8 headword, the offset and the size of its definition in `.dict`.
   */
  lemma IdxRoundTrip(entries: seq<Entry>)
    requires Fits(entries)
    requires forall k :: 0 <= k < |entries| ==> '\0' !in entries[k].0
    ensures ParseIdx(Flatten(IdxRecords(entries))) ==
      Some(seq(|entries|, k requires 0 <= k < |entries| => (Encode(entries[k].0), Offset(entries, k), Size(entries, k))))
    ensures forall k :: 0 <= k < |entries| ==> Decode(Encode(entries[k].0)) == Some(entries[k].0)
  {
    var fs := seq(|entries|, k requires 0 <= k < |entries| => (Encode(entries[k].0), Offset(entries, k), Size(entries, k)));
    forall k | 0 <= k < |entries| ensures 0 !in fs[k].0 && Decode(Encode(entries[k].0)) == Some(entries[k].0) {
      EncodeNul(entries[k].0);
      DecodeEncode(entries[k].0);
    }
    ParseRecords(IdxRecords(entries), fs);
  }

  /** No line of the text holds a newline: `split("\n")` gives the lines back, then an empty tail. */
  lemma {:induction false} SplitLines(ls: seq<string>)
    requires forall k :: 0 <= k < |ls| ==> '\n' !in ls[k]
    ensures Split(Lines(ls), '\n') == ls + [""]
    decreases |ls|
  {
    if |ls| > 0 {
      SplitLines(ls[1..]);
      SplitCons(ls[0], '\n', Lines(ls[1..]));
      assert ls[0] + "\n" + Lines(ls[1..]) == ls[0] + ['\n'] + Lines(ls[1..]);
      assert ls == [ls[0]] + ls[1..];
    }
  }

  lemma NoNewline(prefix: string, digits: string)
    requires '\n' !in prefix && AllDigits(digits)
    ensures '\n' !in prefix + digits
  {
    assert forall c :: c in digits ==> IsAsciiDigit(c);
  }

  /** Text whose characters are none of them a newline. */
  predicate OneLine(s: string) {
    forall i :: 0 <= i < |s| ==> s[i] != '\n'
  }

  lemma OneLineConcat(a: string, b: string)
    requires OneLine(a) && OneLine(b)
    ensures OneLine(a + b)
  {
  }

  lemma DescriptionOneLine()
    ensures '\n' !in BookName && '\n' !in Description
  {
    assert OneLine(BookName);
    var d := "Quran word-by-word ";
    assert OneLine(d);
    assert OneLine("dictionary with ");
    OneLineConcat(d, "dictionary with ");
    d := d + "dictionary with ";
    assert OneLine("morphology, ");
    OneLineConcat(d, "morphology, ");
    d := d + "morphology, ";
    assert OneLine("transliteration, ");
    OneLineConcat(d, "transliteration, ");
    d := d + "transliteration, ";
    assert OneLine("and Lane's Lexicon ");
    OneLineConcat(d, "and Lane's Lexicon ");
    d := d + "and Lane's Lexicon ";
    assert OneLine("root definitions. ");
    OneLineConcat(d, "root definitions. ");
    d := d + "root definitions. ";
    assert OneLine("QPC Uthmani Hafs ");
    OneLineConcat(d, "QPC Uthmani Hafs ");
    d := d + "QPC Uthmani Hafs ";
    assert OneLine("encoding.");
    OneLineConcat(d, "encoding.");
    d := d + "encoding.";
    assert d == Description;
  }

  /** The fixed lines of `.ifo` hold no newline. */
  lemma FixedLinesOneLine()
    ensures '\n' !in "StarDict's dict ifo file" && '\n' !in "version=2.4.2"
    ensures '\n' !in "author=quran-ebook project" && '\n' !in "sametypesequence=h"
  {
    assert OneLine("StarDict's dict ifo file");
    assert OneLine("version=2.4.2");
    assert OneLine("author=quran-ebook project");
    assert OneLine("sametypesequence=h");
  }

  /** The lines of `.ifo` that depend on the dictionary hold no newline. */
  lemma VariableLinesOneLine(wordcount: nat, idxSize: nat)
    ensures '\n' !in "wordcount=" + NatToString(wordcount) && '\n' !in "idxfilesize=" + NatToString(idxSize)
    ensures '\n' !in "bookname=" + BookName && '\n' !in "description=" + Description
  {
    NoNewline("wordcount=", NatToString(wordcount));
    NoNewline("idxfilesize=", NatToString(idxSize));
    DescriptionOneLine();
    assert '\n' !in "bookname=" && '\n' !in "description=";
  }

  /** No line of `.ifo` holds a newline. */
  lemma IfoLinesOneLine(wordcount: nat, idxSize: nat)
    ensures forall k :: 0 <= k < |IfoLines(wordcount, idxSize)| ==> '\n' !in IfoLines(wordcount, idxSize)[k]
  {
    FixedLinesOneLine();
    VariableLinesOneLine(wordcount, idxSize);
  }

  /**
   * Reading `.ifo` back line by line, the third line is `wordcount=` followed by the number of
   * entries and the fourth is `idxfilesize=` followed by the length of `.idx`.
   */
  lemma IfoReadBack(wordcount: nat, idxSize: nat)
    ensures |Split(Ifo(wordcount, idxSize), '\n')| == 9
    ensures StartsWith(Split(Ifo(wordcount, idxSize), '\n')[2], "wordcount=")
    ensures AllDigits(Split(Ifo(wordcount, idxSize), '\n')[2][10..])
    ensures DigitsValue(Split(Ifo(wordcount, idxSize), '\n')[2][10..]) == wordcount
    ensures StartsWith(Split(Ifo(wordcount, idxSize), '\n')[3], "idxfilesize=")
    ensures AllDigits(Split(Ifo(wordcount, idxSize), '\n')[3][12..])
    ensures DigitsValue(Split(Ifo(wordcount, idxSize), '\n')[3][12..]) == idxSize
  {
    var ls := IfoLines(wordcount, idxSize);
    IfoLinesOneLine(wordcount, idxSize);
    SplitLines(ls);
    var parts := Split(Ifo(wordcount, idxSize), '\n');
    assert parts[2] == "wordcount=" + NatToString(wordcount);
    assert parts[3] == "idxfilesize=" + NatToString(idxSize);
    assert parts[2][10..] == NatToString(wordcount);
    assert parts[3][12..] == NatToString(idxSize);
    DigitsValueOfNatToString(wordcount);
    DigitsValueOfNatToString(idxSize);
  }
}
