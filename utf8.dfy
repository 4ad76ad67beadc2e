/**
 * Python's `str.encode("utf-8")`: every code point becomes one to four bytes. A decoder is
 * given beside it so that the encoding is shown to lose nothing.
 */
module Utf8 {
  import opened Wrappers

  type Byte = b: int | 0 <= b < 256

  /** The bytes of one code point. */
  function EncodeChar(c: char): (bs: seq<Byte>)
    ensures 1 <= |bs| <= 4
    ensures 0 in bs <==> c == '\0'
  {
    var cp := c as int;
    if cp < 0x80 then [cp]
    else if cp < 0x800 then [0xC0 + cp / 64, 0x80 + cp % 64]
    else if cp < 0x1_0000 then [0xE0 + cp / 4096, 0x80 + (cp / 64) % 64, 0x80 + cp % 64]
    else [0xF0 + cp / 262144, 0x80 + (cp / 4096) % 64, 0x80 + (cp / 64) % 64, 0x80 + cp % 64]
  }

  /** `s.encode("utf-8")`. */
  function Encode(s: string): seq<Byte>
    decreases |s|
  {
    if |s| == 0 then [] else EncodeChar(s[0]) + Encode(s[1..])
  }

  /** The length of the sequence a lead byte starts, or 0 when it cannot start one. */
  function SequenceLength(b: Byte): nat {
    if b < 0x80 then 1
    else if 0xC0 <= b < 0xE0 then 2
    else if 0xE0 <= b < 0xF0 then 3
    else if 0xF0 <= b < 0xF8 then 4
    else 0
  }

  predicate IsContinuation(b: Byte) {
    0x80 <= b < 0xC0
  }

  /** The code point one complete sequence stands for, when it is a valid shortest form. */
  function DecodeSequence(bs: seq<Byte>): Option<char>
    requires 1 <= |bs| <= 4 && SequenceLength(bs[0]) == |bs|
  {
    if exists i :: 1 <= i < |bs| && !IsContinuation(bs[i]) then None
    else
      var b0, b1, b2, b3: int := bs[0], if |bs| > 1 then bs[1] else 0, if |bs| > 2 then bs[2] else 0, if |bs| > 3 then bs[3] else 0;
      var cp: int :=
        if |bs| == 1 then b0
        else if |bs| == 2 then (b0 - 0xC0) * 64 + (b1 - 0x80)
        else if |bs| == 3 then (b0 - 0xE0) * 4096 + (b1 - 0x80) * 64 + (b2 - 0x80)
        else (b0 - 0xF0) * 262144 + (b1 - 0x80) * 4096 + (b2 - 0x80) * 64 + (b3 - 0x80);
      var least: int := if |bs| == 1 then 0 else if |bs| == 2 then 0x80 else if |bs| == 3 then 0x800 else 0x1_0000;
      if cp < least || (0xD800 <= cp < 0xE000) || cp > 0x10_FFFF then None
      else Some(cp as char)
  }

  /** `bs.decode("utf-8")`, `None` where Python raises. */
  function Decode(bs: seq<Byte>): Option<string>
    decreases |bs|
  {
    if |bs| == 0 then Some("")
    else
      var n := SequenceLength(bs[0]);
      if n == 0 || |bs| < n then None
      else
        match DecodeSequence(bs[..n])
        case None => None
        case Some(c) =>
          match Decode(bs[n..])
          case None => None
          case Some(rest) => Some([c] + rest)
  }

  lemma DecodeEncodeChar(c: char)
    ensures SequenceLength(EncodeChar(c)[0]) == |EncodeChar(c)|
    ensures DecodeSequence(EncodeChar(c)) == Some(c)
  {
    var cp := c as int;
    var bs := EncodeChar(c);
    if cp < 0x80 {
    } else if cp < 0x800 {
      assert cp == (cp / 64) * 64 + cp % 64;
    } else if cp < 0x1_0000 {
      var q := cp / 64;
      assert cp == q * 64 + cp % 64;
      assert q == (q / 64) * 64 + q % 64;
      assert cp / 4096 == q / 64;
    } else {
      var q := cp / 64;
      var r := q / 64;
      assert cp == q * 64 + cp % 64;
      assert q == r * 64 + q % 64;
      assert r == (r / 64) * 64 + r % 64;
      assert cp / 4096 == r;
      assert cp / 262144 == r / 64;
    }
  }

  /** Decoding the encoding of a string gives the string back. */
  lemma {:induction false} DecodeEncode(s: string)
    ensures Decode(Encode(s)) == Some(s)
    decreases |s|
  {
    if |s| > 0 {
      var head := EncodeChar(s[0]);
      var bs := Encode(s);
      DecodeEncodeChar(s[0]);
      DecodeEncode(s[1..]);
      assert bs[..|head|] == head && bs[|head|..] == Encode(s[1..]);
      assert s == [s[0]] + s[1..];
    }
  }

  /** Different strings have different encodings. */
  lemma EncodeInjective(s: string, t: string)
    requires Encode(s) == Encode(t)
    ensures s == t
  {
    DecodeEncode(s);
    DecodeEncode(t);
  }

  /** The encoding of a concatenation is the concatenation of the encodings. */
  lemma {:induction false} EncodeAppend(a: string, b: string)
    ensures Encode(a + b) == Encode(a) + Encode(b)
    decreases |a|
  {
    if |a| > 0 {
      EncodeAppend(a[1..], b);
      assert (a + b)[1..] == a[1..] + b;
    } else {
      assert a + b == b;
    }
  }

  /** Only the NUL character is encoded with a zero byte. */
  lemma {:induction false} EncodeNul(s: string)
    ensures 0 in Encode(s) <==> '\0' in s
    decreases |s|
  {
    if |s| > 0 {
      EncodeNul(s[1..]);
      assert s == [s[0]] + s[1..];
    }
  }
}
