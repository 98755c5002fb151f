/** The regular expressions the scrapers apply, as a small engine: a pattern is a
    sequence of elements, each a character class repeated between a minimum and a
    maximum number of times. Matching is greedy and never backtracks; a pattern is
    `Deterministic` when no backtracking could ever find another match, and for such
    patterns the engine agrees with the backtracking semantics of JavaScript. */
module Regex {
  import opened Text

  /** A character class repeated `min` to `max` times (`max` absent: unbounded). */
  datatype Elem = Elem(cls: char -> bool, min: nat, max: Option<nat>)

  /** A literal character. */
  function Lit(c: char): Elem { Elem(x => x == c, 1, Some(1)) }

  /** A class matched exactly once (`\s`, `[+-]`). */
  function One(p: char -> bool): Elem { Elem(p, 1, Some(1)) }

  /** A class matched one or more times (`\d+`). */
  function Plus(p: char -> bool): Elem { Elem(p, 1, None) }

  /** A class matched `lo` to `hi` times (`\d{1,2}`). */
  function Times(p: char -> bool, lo: nat, hi: nat): Elem { Elem(p, lo, Some(hi)) }

  /** `piece` is a string the element can consume. */
  predicate Fits(e: Elem, piece: string) {
    && e.min <= |piece| && (e.max.Some? ==> |piece| <= e.max.value)
    && forall i :: 0 <= i < |piece| ==> e.cls(piece[i])
  }

  function Concat(pieces: seq<string>): string {
    if pieces == [] then [] else pieces[0] + Concat(pieces[1..])
  }

  /** One piece per element, each fitting its element. */
  predicate PiecesFit(pat: seq<Elem>, pieces: seq<string>) {
    |pieces| == |pat| && forall i :: 0 <= i < |pat| ==> Fits(pat[i], pieces[i])
  }

  /** The regular-expression semantics: the pieces fit the pattern and together
      form a prefix of `t`. */
  predicate Matches(pat: seq<Elem>, pieces: seq<string>, t: string) {
    PiecesFit(pat, pieces) && Concat(pieces) <= t
  }

  function Cap(n: nat, max: Option<nat>): (r: nat)
    ensures r <= n && (max.Some? ==> r <= max.value)
    ensures max.None? || n <= max.value ==> r == n
  {
    if max.Some? && max.value < n then max.value else n
  }

  /** Greedy matching anchored at the start of `t`: each element takes as many
      characters as its class and maximum allow. */
  function MatchPattern(pat: seq<Elem>, t: string): (r: Option<seq<string>>)
    ensures r.Some? ==> Matches(pat, r.value, t)
    decreases |pat|
  {
    if pat == [] then Some([])
    else
      var n := Cap(RunLength(t, pat[0].cls), pat[0].max);
      if n < pat[0].min then None
      else match MatchPattern(pat[1..], t[n..])
        case None => None
        case Some(rest) =>
          var pieces := [t[..n]] + rest;
          assert pieces[1..] == rest;
          PrefixJoin(t[..n], Concat(rest), t);
          assert forall i :: 1 <= i < |pat| ==> Fits(pat[i], pieces[i]) by {
            forall i | 1 <= i < |pat| ensures Fits(pat[i], pieces[i]) {
              assert pat[i] == pat[1..][i - 1] && pieces[i] == rest[i - 1];
            }
          }
          Some(pieces)
  }

  predicate Fixed(e: Elem) { e.max == Some(e.min) }

  ghost predicate Disjoint(p: char -> bool, q: char -> bool) {
    forall c :: !(p(c) && q(c))
  }

  /** No element can give characters back to the next one: every element but the
      last is of fixed length or its class excludes the next element's class, every
      element but the first consumes at least one character, and the last element
      is of fixed length. */
  ghost predicate Deterministic(pat: seq<Elem>) {
    && (|pat| > 0 ==> Fixed(pat[|pat| - 1]))
    && forall i, j :: 0 <= i < j < |pat| && j == i + 1 ==> Handover(pat[i], pat[j])
  }

  /** `a` followed by `b` cannot give characters to `b`. */
  ghost predicate Handover(a: Elem, b: Elem) {
    b.min >= 1 && (Fixed(a) || Disjoint(a.cls, b.cls))
  }

  lemma ConcatCons(pieces: seq<string>)
    requires pieces != []
    ensures Concat(pieces) == pieces[0] + Concat(pieces[1..])
  {
  }

  lemma ConcatAt(pieces: seq<string>, k: nat)
    requires k < |pieces|
    ensures Concat(pieces[k..]) == pieces[k] + Concat(pieces[k + 1..])
  {
    assert pieces[k..][1..] == pieces[k + 1..];
  }

  /** In a deterministic match, the first element's greedy run is exactly its piece. */
  lemma FirstPieceIsGreedy(pat: seq<Elem>, pieces: seq<string>, t: string)
    requires Deterministic(pat) && Matches(pat, pieces, t) && pat != []
    ensures Cap(RunLength(t, pat[0].cls), pat[0].max) == |pieces[0]|
  {
    var e := pat[0];
    var p := pieces[0];
    ConcatCons(pieces);
    PrefixSplit(p, Concat(pieces[1..]), t);
    assert forall i :: 0 <= i < |p| ==> e.cls(t[i]) by {
      forall i | 0 <= i < |p| ensures e.cls(t[i]) { assert t[i] == p[i]; }
    }
    RunLengthAtLeast(t, e.cls, |p|);
    if !Fixed(e) {
      assert Handover(pat[0], pat[1]);
      var next := pieces[1];
      assert Fits(pat[1], next);
      ConcatCons(pieces[1..]);
      assert pieces[1..][0] == next;
      assert t[|p|] == next[0];
      assert !e.cls(t[|p|]) by { assert pat[1].cls(next[0]); }
      RunLengthOf(t, e.cls, |p|);
    }
  }

  /** The rest of a deterministic match is a deterministic match of the rest. */
  lemma MatchesRest(pat: seq<Elem>, pieces: seq<string>, t: string)
    requires Deterministic(pat) && Matches(pat, pieces, t) && pat != []
    ensures |pieces[0]| <= |t|
    ensures Deterministic(pat[1..]) && Matches(pat[1..], pieces[1..], t[|pieces[0]|..])
  {
    var tail := pat[1..];
    ConcatCons(pieces);
    PrefixSplit(pieces[0], Concat(pieces[1..]), t);
    forall i, j | 0 <= i < j < |tail| && j == i + 1 ensures Handover(tail[i], tail[j]) {
      assert tail[i] == pat[i + 1] && tail[j] == pat[j + 1];
    }
    forall i | 0 <= i < |tail| ensures Fits(tail[i], pieces[1..][i]) {
      assert tail[i] == pat[i + 1] && pieces[1..][i] == pieces[i + 1];
    }
  }

  /** For a deterministic pattern the match is unique and the greedy engine finds it:
      whatever way the pattern matches at the start of `t` is what MatchPattern
      returns. */
  lemma {:induction false} MatchPatternComplete(pat: seq<Elem>, pieces: seq<string>, t: string)
    requires Deterministic(pat) && Matches(pat, pieces, t)
    ensures MatchPattern(pat, t) == Some(pieces)
    decreases |pat|
  {
    if pat != [] {
      FirstPieceIsGreedy(pat, pieces, t);
      MatchesRest(pat, pieces, t);
      MatchPatternComplete(pat[1..], pieces[1..], t[|pieces[0]|..]);
      assert t[..|pieces[0]|] == pieces[0] by {
        ConcatCons(pieces);
        PrefixSplit(pieces[0], Concat(pieces[1..]), t);
      }
      assert [pieces[0]] + pieces[1..] == pieces;
    }
  }

  /** The leftmost match of `pat` in `s` at or after `from`: the first position
      where the pattern matches, with its pieces, as a regular expression without
      the `g` flag reports it. */
  function Search(pat: seq<Elem>, s: string, from: nat := 0): (r: Option<(nat, seq<string>)>)
    requires from <= |s|
    ensures r.Some? ==> from <= r.value.0 <= |s| && PiecesFit(pat, r.value.1)
    decreases |s| - from
  {
    match MatchPattern(pat, s[from..])
    case Some(pieces) => Some((from, pieces))
    case None => if from == |s| then None else Search(pat, s, from + 1)
  }

  /** The search reports what the engine matched at the reported position, and
      the engine matches at no earlier position. */
  lemma {:induction false} SearchIsLeftmost(pat: seq<Elem>, s: string, from: nat)
    requires from <= |s| && Search(pat, s, from).Some?
    ensures var (at, pieces) := Search(pat, s, from).value;
            && MatchPattern(pat, s[at..]) == Some(pieces)
            && forall k :: from <= k < at ==> MatchPattern(pat, s[k..]).None?
    decreases |s| - from
  {
    if MatchPattern(pat, s[from..]).None? {
      SearchIsLeftmost(pat, s, from + 1);
    }
  }

  /** The search fails only when the engine matches nowhere. */
  lemma {:induction false} SearchFailsIffEngineFails(pat: seq<Elem>, s: string, from: nat)
    requires from <= |s|
    ensures Search(pat, s, from).None? <==> forall k :: from <= k <= |s| ==> MatchPattern(pat, s[k..]).None?
    decreases |s| - from
  {
    if Search(pat, s, from).Some? {
      SearchIsLeftmost(pat, s, from);
    } else if from < |s| {
      SearchFailsIffEngineFails(pat, s, from + 1);
      forall k | from <= k <= |s| ensures MatchPattern(pat, s[k..]).None? {
        if k > from { assert from + 1 <= k; }
      }
    }
  }

  /** For a deterministic pattern, no match anywhere in the regular-expression sense
      is exactly what a failed search reports. */
  lemma SearchFailsIffNoMatch(pat: seq<Elem>, s: string)
    requires Deterministic(pat)
    ensures Search(pat, s).None? <==>
              forall k, pieces :: 0 <= k <= |s| ==> !Matches(pat, pieces, s[k..])
  {
    SearchFailsIffEngineFails(pat, s, 0);
    if Search(pat, s).None? {
      forall k, pieces | 0 <= k <= |s| ensures !Matches(pat, pieces, s[k..]) {
        if Matches(pat, pieces, s[k..]) {
          MatchPatternComplete(pat, pieces, s[k..]);
        }
      }
    }
  }
}
