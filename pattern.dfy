/**
 * The small fragment of regular expressions the translation footnote pattern is written in:
 * a sequence of elements, each a literal, a greedy run of characters of one class, or one
 * optional character of a class. Elements are matched greedily one after another, and the
 * match is the unique way of cutting the text into greedy parts.
 */
module Pattern {
  import opened Wrappers
  import opened Text

  /** The character classes used: `\s`, `\d` (read as ASCII digits) and `["']`. */
  datatype CharClass = Space | Digit | Quote

  predicate IsQuote(c: char) {
    c == '"' || c == '\''
  }

  predicate InClass(k: CharClass, c: char) {
    match k
    case Space => IsSpace(c)
    case Digit => IsAsciiDigit(c)
    case Quote => IsQuote(c)
  }

  /** A literal, a run of at least `min` characters of a class (`\s+`, `\s*`, `\d+`), or an optional one (`["']?`). */
  datatype Elem = Lit(text: string) | Run(cls: CharClass, min: nat) | Opt(cls: CharClass)

  /** `s[i..]` begins with `w`. */
  predicate HasAt(s: string, i: nat, w: string) {
    i + |w| <= |s| && s[i..i + |w|] == w
  }

  /** The text `p` is a possible match of element `el` on its own. */
  predicate ElemOk(el: Elem, p: string) {
    match el
    case Lit(w) => p == w
    case Run(k, min) => |p| >= min && forall x :: 0 <= x < |p| ==> InClass(k, p[x])
    case Opt(k) => p == "" || (|p| == 1 && InClass(k, p[0]))
  }

  /** A run, or an optional character that took nothing, stops only before a character it cannot take (the one at `e`). */
  predicate Maximal(s: string, e: nat, el: Elem, p: string) {
    (el.Run? || (el.Opt? && p == "")) && e < |s| ==> !InClass(el.cls, s[e])
  }

  /** The end of the maximal run of characters of class `k` starting at `j`. */
  function RunEnd(s: string, j: nat, k: CharClass): (e: nat)
    requires j <= |s|
    ensures j <= e <= |s|
    decreases |s| - j
  {
    if j < |s| && InClass(k, s[j]) then RunEnd(s, j + 1, k) else j
  }

  /** Everything the run takes is in the class, and it stops at the first character that is not. */
  lemma {:induction false} RunEndMaximal(s: string, j: nat, k: CharClass)
    requires j <= |s|
    ensures forall p :: j <= p < RunEnd(s, j, k) ==> InClass(k, s[p])
    ensures RunEnd(s, j, k) < |s| ==> !InClass(k, s[RunEnd(s, j, k)])
    decreases |s| - j
  {
    if j < |s| && InClass(k, s[j]) {
      RunEndMaximal(s, j + 1, k);
    }
  }

  /** A run of class characters from `j` to a non-class character (or the end) at `e` is exactly what `RunEnd` finds. */
  lemma {:induction false} RunEndIs(s: string, j: nat, e: nat, k: CharClass)
    requires j <= e <= |s|
    requires forall p :: j <= p < e ==> InClass(k, s[p])
    requires e < |s| ==> !InClass(k, s[e])
    ensures RunEnd(s, j, k) == e
    decreases e - j
  {
    if j < e {
      RunEndIs(s, j + 1, e, k);
    }
  }

  /** Where element `el` ends when tried greedily at `j`; `None` when it cannot match there. */
  function ElemEnd(s: string, j: nat, el: Elem): (e: Option<nat>)
    requires j <= |s|
    ensures e.Some? ==> j <= e.value <= |s|
  {
    match el
    case Lit(w) => if HasAt(s, j, w) then Some(j + |w|) else None
    case Run(k, min) => var e := RunEnd(s, j, k); if e - j >= min then Some(e) else None
    case Opt(k) => if j < |s| && InClass(k, s[j]) then Some(j + 1) else Some(j)
  }

  /** Elements `es[n..]` matched greedily one after the other from `j`: the text each one took. */
  function MatchElems(s: string, j: nat, es: seq<Elem>, n: nat): (r: Option<seq<string>>)
    requires j <= |s| && n <= |es|
    decreases |es| - n
  {
    if n == |es| then Some([])
    else
      match ElemEnd(s, j, es[n])
      case None => None
      case Some(e) =>
        match MatchElems(s, e, es, n + 1)
        case None => None
        case Some(ps) => Some([s[j..e]] + ps)
  }

  /**
   * `ps` are texts for the elements `es[n..]`, written one after the other from `j`, each a
   * possible match of its element that is maximal where the element repeats.
   */
  predicate GreedyParts(s: string, j: nat, es: seq<Elem>, n: nat, ps: seq<string>)
    requires n <= |es|
    decreases |es| - n
  {
    && |ps| == |es| - n
    && (n < |es| ==>
          && HasAt(s, j, ps[0])
          && ElemOk(es[n], ps[0])
          && Maximal(s, j + |ps[0]|, es[n], ps[0])
          && GreedyParts(s, j + |ps[0]|, es, n + 1, ps[1..]))
  }

  /** What the greedy match returns is a cut of the text into greedy parts. */
  lemma {:induction false} MatchElemsSound(s: string, j: nat, es: seq<Elem>, n: nat)
    requires j <= |s| && n <= |es|
    ensures MatchElems(s, j, es, n).Some? ==> GreedyParts(s, j, es, n, MatchElems(s, j, es, n).value)
    decreases |es| - n
  {
    if n < |es| && MatchElems(s, j, es, n).Some? {
      var e := ElemEnd(s, j, es[n]).value;
      MatchElemsSound(s, e, es, n + 1);
      var ps := MatchElems(s, j, es, n).value;
      var rest := MatchElems(s, e, es, n + 1).value;
      assert ps == [s[j..e]] + rest;
      assert ps[1..] == rest;
      match es[n]
      case Lit(w) =>
      case Run(k, min) =>
        RunEndMaximal(s, j, k);
        assert forall x :: 0 <= x < |ps[0]| ==> ps[0][x] == s[j + x];
      case Opt(k) =>
        if j < |s| && InClass(k, s[j]) { assert ps[0] == [s[j]]; }
    }
  }

  /** A cut of the text into greedy parts is what the greedy match returns: there is no other. */
  lemma {:induction false} MatchElemsComplete(s: string, j: nat, es: seq<Elem>, n: nat, ps: seq<string>)
    requires j <= |s| && n <= |es| && GreedyParts(s, j, es, n, ps)
    ensures MatchElems(s, j, es, n) == Some(ps)
    decreases |es| - n
  {
    if n < |es| {
      var p := ps[0];
      var e := j + |p|;
      assert s[j..e] == p;
      match es[n] {
        case Lit(w) =>
        case Run(k, min) =>
          forall q | j <= q < e ensures InClass(k, s[q]) { assert s[q] == p[q - j]; }
          RunEndIs(s, j, e, k);
        case Opt(k) =>
          if p != "" { assert s[j] == p[0]; }
      }
      assert ElemEnd(s, j, es[n]) == Some(e);
      MatchElemsComplete(s, e, es, n + 1, ps[1..]);
      assert ps == [p] + ps[1..];
    }
  }

  /** Greedy parts are possible matches of their elements, one by one. */
  lemma {:induction false} GreedyPartsElems(s: string, j: nat, es: seq<Elem>, n: nat, ps: seq<string>)
    requires n <= |es| && GreedyParts(s, j, es, n, ps)
    ensures forall x :: 0 <= x < |ps| ==> ElemOk(es[n + x], ps[x])
    decreases |es| - n
  {
    if n < |es| {
      GreedyPartsElems(s, j + |ps[0]|, es, n + 1, ps[1..]);
      forall x | 0 < x < |ps| ensures ElemOk(es[n + x], ps[x]) {
        assert ps[x] == ps[1..][x - 1];
      }
    }
  }

  /** `u + v` is written at `j` exactly when `u` is, and `v` right after it. */
  lemma HasAtConcat(s: string, j: nat, u: string, v: string)
    ensures HasAt(s, j, u + v) <==> HasAt(s, j, u) && HasAt(s, j + |u|, v)
  {
    if j + |u| + |v| <= |s| {
      var e := j + |u|;
      assert s[j..e + |v|] == s[j..e] + s[e..e + |v|];
      if HasAt(s, j, u + v) {
        assert s[j..e] == (u + v)[..|u|] == u;
        assert s[e..e + |v|] == (u + v)[|u|..] == v;
      }
    }
  }

  /** Greedy parts, put back together, are the text at `j`. */
  lemma {:induction false} GreedyPartsWritten(s: string, j: nat, es: seq<Elem>, n: nat, ps: seq<string>)
    requires j <= |s| && n <= |es| && GreedyParts(s, j, es, n, ps)
    ensures HasAt(s, j, Concat(ps))
    decreases |es| - n
  {
    if n < |es| {
      GreedyPartsWritten(s, j + |ps[0]|, es, n + 1, ps[1..]);
      HasAtConcat(s, j, ps[0], Concat(ps[1..]));
      assert Concat(ps) == ps[0] + Concat(ps[1..]);
    }
  }

  /**
   * A part is followed by a character it cannot take, whenever it could take more: `after` is
   * the text of the parts that follow it.
   */
  predicate FollowOk(el: Elem, p: string, after: string) {
    (el.Run? || (el.Opt? && p == "")) ==> |after| > 0 && !InClass(el.cls, after[0])
  }

  /**
   * Texts for the elements, written one after another at `j`, each a possible match of its
   * element and followed by a character it cannot take, are greedy parts.
   */
  lemma {:induction false} WrittenGreedyParts(s: string, j: nat, es: seq<Elem>, n: nat, ps: seq<string>)
    requires n <= |es| && |ps| == |es| - n && HasAt(s, j, Concat(ps))
    requires forall x :: 0 <= x < |ps| ==> ElemOk(es[n + x], ps[x]) && FollowOk(es[n + x], ps[x], Concat(ps[x + 1..]))
    ensures GreedyParts(s, j, es, n, ps)
    decreases |es| - n
  {
    if n < |es| {
      var p := ps[0];
      var rest := ps[1..];
      HasAtConcat(s, j, p, Concat(rest));
      forall x | 0 <= x < |rest|
        ensures ElemOk(es[n + 1 + x], rest[x]) && FollowOk(es[n + 1 + x], rest[x], Concat(rest[x + 1..]))
      {
        assert rest[x] == ps[x + 1];
        assert rest[x + 1..] == ps[x + 2..];
      }
      WrittenGreedyParts(s, j + |p|, es, n + 1, rest);
      assert ps[1..] == ps[0 + 1..];
      if FollowOk(es[n], p, Concat(rest)) && (es[n].Run? || (es[n].Opt? && p == "")) {
        assert s[j + |p|] == s[j + |p|..j + |p| + |Concat(rest)|][0];
      }
    }
  }
}
