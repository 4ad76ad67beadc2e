/**
 * `_strip_noteref_links`: the interactive layout shows translations in reader popups that
 * cannot follow links, so every noteref anchor `<a ...class="noteref"...>N</a>` is replaced by
 * a plain `<sup>N</sup>`. The substitution pattern is written out as a scanner: at each
 * position it matches exactly when the regular expression
 * `<a\s[^>]*class="noteref"[^>]*>(.*?)</a>` does, and the replacement and the resumption
 * point are those of `re.sub`.
 */
module Noteref {
  import opened Wrappers
  import opened Text
  import opened Pattern
  import QuranApi

  /** The attribute the opening tag must carry. */
  const ClassAttr: string := QuranApi.NoterefClass

  const CloseTag: string := "</a>"

  /** The first index at or after `from` holding `c`. */
  function FindChar(s: string, c: char, from: nat): (r: Option<nat>)
    requires from <= |s|
    ensures r.Some? ==> from <= r.value < |s| && s[r.value] == c && forall j :: from <= j < r.value ==> s[j] != c
    ensures r.None? ==> forall j :: from <= j < |s| ==> s[j] != c
    decreases |s| - from
  {
    if from == |s| then None
    else if s[from] == c then Some(from)
    else FindChar(s, c, from + 1)
  }

  /** The first index at or after `from` where `w` is written. */
  function FindText(s: string, w: string, from: nat): (r: Option<nat>)
    requires from <= |s|
    ensures r.Some? ==> from <= r.value && HasAt(s, r.value, w) && forall j :: from <= j < r.value ==> !HasAt(s, j, w)
    ensures r.None? ==> forall j :: from <= j <= |s| ==> !HasAt(s, j, w)
    decreases |s| - from
  {
    if HasAt(s, from, w) then Some(from)
    else if from == |s| then None
    else FindText(s, w, from + 1)
  }

  /**
   * The pattern matches at `i` with the opening tag closed by the `>` at `g` and the link
   * text ending where `</a>` starts, at `c`: `<a` and one whitespace character, then
   * characters other than `>` up to `g` among which `class="noteref"` is written, then the
   * shortest run of characters other than a newline that reaches a `</a>`.
   */
  predicate NoterefAt(s: string, i: nat, g: nat, c: nat) {
    && HasAt(s, i, "<a") && i + 2 < |s| && IsSpace(s[i + 2])
    && i + 3 <= g < |s| && s[g] == '>' && (forall j :: i + 3 <= j < g ==> s[j] != '>')
    && (exists p :: i + 3 <= p && p + |ClassAttr| <= g && HasAt(s, p, ClassAttr))
    && g + 1 <= c && HasAt(s, c, CloseTag)
    && (forall j :: g + 1 <= j < c ==> !HasAt(s, j, CloseTag) && s[j] != '\n')
  }

  /** Where the pattern matches at `i`, if it does: the `>` of the opening tag and the start of `</a>`. */
  function MatchAt(s: string, i: nat): (r: Option<(nat, nat)>)
    requires i <= |s|
    ensures r.Some? ==> NoterefAt(s, i, r.value.0, r.value.1)
  {
    if !(HasAt(s, i, "<a") && i + 2 < |s| && IsSpace(s[i + 2])) then None
    else
      match FindChar(s, '>', i + 3)
      case None => None
      case Some(g) =>
        match FindText(s[..g], ClassAttr, i + 3)
        case None => None
        case Some(p) =>
          assert HasAt(s, p, ClassAttr) by { assert s[p..p + |ClassAttr|] == s[..g][p..p + |ClassAttr|]; }
          match FindText(s, CloseTag, g + 1)
          case None => None
          case Some(c) =>
            if FindChar(s[..c], '\n', g + 1).Some? then None
            else
              assert forall j :: g + 1 <= j < c ==> s[j] != '\n' by {
                forall j | g + 1 <= j < c ensures s[j] != '\n' { assert s[j] == s[..c][j]; }
              }
              Some((g, c))
  }

  /** Wherever the pattern matches, `MatchAt` finds that match: the `>` and the `</a>` are the first ones. */
  lemma MatchAtComplete(s: string, i: nat, g: nat, c: nat)
    requires i <= |s| && NoterefAt(s, i, g, c)
    ensures MatchAt(s, i) == Some((g, c))
  {
    NoterefSearches(s, i, g, c);
    MatchAtWhen(s, i, g, c);
  }

  /** Where the pattern matches, each search `MatchAt` makes stops where the match says. */
  lemma NoterefSearches(s: string, i: nat, g: nat, c: nat)
    requires i <= |s| && NoterefAt(s, i, g, c)
    ensures i + 2 < |s| && HasAt(s, i, "<a") && IsSpace(s[i + 2])
    ensures FindChar(s, '>', i + 3) == Some(g)
    ensures FindText(s[..g], ClassAttr, i + 3).Some?
    ensures FindText(s, CloseTag, g + 1) == Some(c)
    ensures FindChar(s[..c], '\n', g + 1).None?
  {
    OpenTagSearches(s, i, g, c);
    LinkTextSearches(s, i, g, c);
  }

  lemma OpenTagSearches(s: string, i: nat, g: nat, c: nat)
    requires i <= |s| && NoterefAt(s, i, g, c)
    ensures FindChar(s, '>', i + 3) == Some(g)
    ensures FindText(s[..g], ClassAttr, i + 3).Some?
  {
    assert FindText(s[..g], ClassAttr, i + 3).Some? by { ClassAttrFound(s, i + 3, g); }
    FindCharIs(s, '>', i + 3, g);
  }

  lemma LinkTextSearches(s: string, i: nat, g: nat, c: nat)
    requires i <= |s| && NoterefAt(s, i, g, c)
    ensures FindText(s, CloseTag, g + 1) == Some(c)
    ensures FindChar(s[..c], '\n', g + 1).None?
  {
    assert FindChar(s[..c], '\n', g + 1).None? by { NoNewlineBefore(s, g + 1, c); }
    FindTextIs(s, CloseTag, g + 1, c);
  }

  /** The searches `MatchAt` makes, when they come out this way, give the match `(g, c)`. */
  lemma MatchAtWhen(s: string, i: nat, g: nat, c: nat)
    requires i + 2 < |s| && HasAt(s, i, "<a") && IsSpace(s[i + 2])
    requires FindChar(s, '>', i + 3) == Some(g)
    requires FindText(s[..g], ClassAttr, i + 3).Some?
    requires FindText(s, CloseTag, g + 1) == Some(c)
    requires FindChar(s[..c], '\n', g + 1).None?
    ensures MatchAt(s, i) == Some((g, c))
  {
  }

  /** A `class="noteref"` written between `from` and `g` is found in the text before `g`. */
  lemma ClassAttrFound(s: string, from: nat, g: nat)
    requires from <= g <= |s|
    requires exists p :: from <= p && p + |ClassAttr| <= g && HasAt(s, p, ClassAttr)
    ensures FindText(s[..g], ClassAttr, from).Some?
  {
    var p :| from <= p && p + |ClassAttr| <= g && HasAt(s, p, ClassAttr);
    assert HasAt(s[..g], p, ClassAttr) by { assert s[..g][p..p + |ClassAttr|] == s[p..p + |ClassAttr|]; }
  }

  /** No newline between `from` and `c` means none is found in the text before `c`. */
  lemma NoNewlineBefore(s: string, from: nat, c: nat)
    requires from <= c <= |s|
    requires forall j :: from <= j < c ==> s[j] != '\n'
    ensures FindChar(s[..c], '\n', from).None?
  {
    forall j | from <= j < c ensures s[..c][j] != '\n' { assert s[..c][j] == s[j]; }
  }

  lemma {:induction false} FindCharIs(s: string, c: char, from: nat, k: nat)
    requires from <= k < |s| && s[k] == c && forall j :: from <= j < k ==> s[j] != c
    ensures FindChar(s, c, from) == Some(k)
    decreases k - from
  {
    if from < k {
      FindCharIs(s, c, from + 1, k);
    }
  }

  lemma {:induction false} FindTextIs(s: string, w: string, from: nat, k: nat)
    requires from <= k && HasAt(s, k, w) && forall j :: from <= j < k ==> !HasAt(s, j, w)
    ensures FindText(s, w, from) == Some(k)
    decreases k - from
  {
    if from < k {
      FindTextIs(s, w, from + 1, k);
    }
  }

  /** `re.sub` from position `i` on: each match becomes `<sup>` around its link text, anything else is copied. */
  function StripFrom(s: string, i: nat): string
    requires i <= |s|
    decreases |s| - i
  {
    if i == |s| then ""
    else
      match MatchAt(s, i)
      case Some((g, c)) => "<sup>" + s[g + 1..c] + "</sup>" + StripFrom(s, c + |CloseTag|)
      case None => [s[i]] + StripFrom(s, i + 1)
  }

  function StripNoterefLinks(s: string): string {
    StripFrom(s, 0)
  }

  /** Text in which no anchor tag opens comes back unchanged. */
  lemma {:induction false} NoAnchorUnchanged(s: string, i: nat)
    requires i <= |s|
    requires forall j :: i <= j < |s| ==> !HasAt(s, j, "<a")
    ensures StripFrom(s, i) == s[i..]
    decreases |s| - i
  {
    if i < |s| {
      assert MatchAt(s, i).None?;
      NoAnchorUnchanged(s, i + 1);
      assert s[i..] == [s[i]] + s[i + 1..];
    }
  }

  lemma NotInConcat(c: char, a: string, b: string)
    requires c !in a && c !in b
    ensures forall j :: 0 <= j < |a + b| ==> (a + b)[j] != c
  {
    forall j | 0 <= j < |a + b| ensures (a + b)[j] != c {
      if j < |a| { assert (a + b)[j] == a[j]; } else { assert (a + b)[j] == b[j - |a|]; }
    }
  }

  /** The opening tag of an ingested footnote link up to the footnote id: `<a`, a space, then attributes. */
  const LinkHead: string := "<a " + QuranApi.NoterefAttrs

  lemma LinkHeadOpens()
    ensures |LinkHead| >= 3 && LinkHead[..2] == "<a" && LinkHead[2] == ' '
  {
    assert LinkHead[..2] == ("<a " + QuranApi.NoterefAttrs)[..2];
  }

  lemma LinkHeadHasNoGt()
    ensures '>' !in LinkHead
  {
    assert '>' !in "epub:type=\"noteref\"" && '>' !in " href=" && '>' !in "\"endnotes.xhtml#fn-" && '>' !in "<a ";
    NotInConcat('>', "epub:type=\"noteref\"", " href=");
    NotInConcat('>', "epub:type=\"noteref\"" + " href=", "\"endnotes.xhtml#fn-");
    NotInConcat('>', "<a ", QuranApi.NoterefAttrs);
  }

  /**
   * An anchor made of an opening tag `<a` + whitespace + attributes with no `>` (among them
   * `class="noteref"` right before the `>`), a link text of digits and `</a>` is unwrapped to
   * `<sup>` around the digits.
   */
  lemma {:induction false} StripAnchor(head: string, id: string, q: string, number: string)
    requires |head| >= 3 && head[..2] == "<a" && IsSpace(head[2]) && '>' !in head
    requires AllDigits(id) && '>' !in q && AllDigits(number)
    ensures StripNoterefLinks(head + id + q + ClassAttr + ">" + number + CloseTag) == "<sup>" + number + "</sup>"
  {
    var s := head + id + q + ClassAttr + ">" + number + CloseTag;
    var g := |head| + |id| + |q| + |ClassAttr|;
    var c := g + 1 + |number|;
    AnchorMatches(head, id, q, number);
    MatchAtComplete(s, 0, g, c);
    assert s[g + 1..c] == number;
    assert c + |CloseTag| == |s|;
    assert StripFrom(s, c + |CloseTag|) == "";
    assert StripFrom(s, 0) == "<sup>" + s[g + 1..c] + "</sup>" + StripFrom(s, c + |CloseTag|);
  }

  /** The pattern matches such a link at its start, with the `>` and `</a>` where they were written. */
  lemma AnchorMatches(head: string, id: string, q: string, number: string)
    requires |head| >= 3 && head[..2] == "<a" && IsSpace(head[2]) && '>' !in head
    requires AllDigits(id) && '>' !in q && AllDigits(number)
    ensures NoterefAt(head + id + q + ClassAttr + ">" + number + CloseTag, 0,
      |head| + |id| + |q| + |ClassAttr|, |head| + |id| + |q| + |ClassAttr| + 1 + |number|)
  {
    var s := head + id + q + ClassAttr + ">" + number + CloseTag;
    var g := |head| + |id| + |q| + |ClassAttr|;
    var c := g + 1 + |number|;
    var open := head + id + q + ClassAttr;
    assert s == open + ">" + number + CloseTag;
    OpenTagNoGt(head, id, q);
    forall j | 3 <= j < g ensures s[j] != '>' { assert s[j] == open[j]; }
    var p := |head| + |id| + |q|;
    assert s[p..p + |ClassAttr|] == ClassAttr;
    assert HasAt(s, p, ClassAttr) && 3 <= p && p + |ClassAttr| <= g;
    assert s[g] == '>';
    assert s[c..c + |CloseTag|] == CloseTag;
    forall j | g + 1 <= j < c ensures !HasAt(s, j, CloseTag) && s[j] != '\n' {
      assert s[j] == number[j - g - 1];
      assert IsAsciiDigit(s[j]);
    }
    assert s[..2] == head[..2];
    assert s[2] == head[2];
  }

  /** The opening tag of such a link holds no `>`. */
  lemma OpenTagNoGt(head: string, id: string, q: string)
    requires '>' !in head && AllDigits(id) && '>' !in q
    ensures '>' !in head + id + q + ClassAttr
  {
    assert '>' !in ClassAttr by {
      assert QuranApi.NoterefClass == "class=\"noteref\"";
    }
    assert '>' !in id by { forall j | 0 <= j < |id| ensures id[j] != '>' { assert IsAsciiDigit(id[j]); } }
    NotInConcat('>', head, id);
    NotInConcat('>', head + id, q);
    NotInConcat('>', head + id + q, ClassAttr);
  }

  /**
   * The anchors the ingestion step writes for translator footnotes are exactly what this
   * pass unwraps: the link to footnote `id` with display number `number` becomes
   * `<sup>number</sup>`.
   */
  lemma StripIngestedLink(id: string, number: string)
    requires AllDigits(id) && AllDigits(number)
    ensures StripNoterefLinks(QuranApi.NoterefLink(id, number)) == "<sup>" + number + "</sup>"
  {
    LinkHeadOpens();
    LinkHeadHasNoGt();
    assert QuranApi.NoterefLink(id, number) == LinkHead + id + "\" " + ClassAttr + ">" + number + CloseTag;
    assert '>' !in "\" ";
    StripAnchor(LinkHead, id, "\" ", number);
  }
}
