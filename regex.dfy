/**
 * Meaning of the anchored regular expressions the form scripts test values
 * against. Every pattern they use is `^...$` around a concatenation of
 * quantified character classes (`[^\s@]+`, `[\+]?`, `[\d]{0,15}`, `{10,}`),
 * so a pattern is a sequence of pieces, each a class with a repetition range.
 * `Matches` is the declarative meaning of `RegExp.prototype.test` on such a
 * pattern: some way of cutting the string into consecutive runs, one per piece.
 */
module Regex {
  import opened Wrappers
  import JsText

  /** A bracket expression `[...]` or `[^...]`: character ranges, optionally `\s`. */
  datatype CharClass = CharClass(ranges: seq<(char, char)>, space: bool, negated: bool)

  predicate InRanges(c: char, ranges: seq<(char, char)>)
  {
    |ranges| > 0 && ((ranges[0].0 <= c <= ranges[0].1) || InRanges(c, ranges[1..]))
  }

  predicate InClass(c: char, cc: CharClass)
  {
    (InRanges(c, cc.ranges) || (cc.space && JsText.IsSpace(c))) != cc.negated
  }

  /** A class repeated between `min` and `max` times; no `max` means unbounded. */
  datatype Piece = Piece(cls: CharClass, min: nat, max: Option<nat>)

  predicate CountOk(p: Piece, n: int)
  {
    p.min <= n && (p.max.None? || n <= p.max.value)
  }

  /** The characters `s[i..k]` form one run of the piece `pc`. */
  predicate RunOk(pc: Piece, s: string, i: int, k: int)
  {
    0 <= i <= k <= |s| && CountOk(pc, k - i) &&
    forall m :: i <= m < k ==> InClass(s[m], pc.cls)
  }

  /** Pieces `p[j..]` match exactly the characters `s[i..]`. */
  ghost predicate MatchesFrom(p: seq<Piece>, j: nat, s: string, i: nat)
    requires j <= |p| && i <= |s|
    decreases |p| - j
  {
    if j == |p| then i == |s|
    else exists k :: i <= k <= |s| && RunOk(p[j], s, i, k) && MatchesFrom(p, j + 1, s, k)
  }

  /** The anchored pattern `^p$` matches the whole of `s`. */
  ghost predicate Matches(p: seq<Piece>, s: string)
  {
    MatchesFrom(p, 0, s, 0)
  }

  /** A single literal character, as `@` or `\.` in a pattern. */
  function Lit(c: char): CharClass
  {
    CharClass([(c, c)], false, false)
  }

  /** Exactly one occurrence. */
  function One(cc: CharClass): Piece
  {
    Piece(cc, 1, Some(1))
  }

  /** `?` */
  function Opt(cc: CharClass): Piece
  {
    Piece(cc, 0, Some(1))
  }

  /** `+` */
  function Plus(cc: CharClass): Piece
  {
    Piece(cc, 1, None)
  }

  lemma LitIff(c: char, x: char)
    ensures InClass(x, Lit(c)) <==> x == c
  {
    var r := Lit(c).ranges;
    assert r[1..] == [];
    assert !InRanges(x, r[1..]);
  }

  /** A one-character run of a literal is that character. */
  lemma LitRun(c: char, s: string, i: int, k: int)
    ensures RunOk(One(Lit(c)), s, i, k) <==> 0 <= i < |s| && k == i + 1 && s[i] == c
  {
    if 0 <= i < |s| {
      LitIff(c, s[i]);
    }
  }

  /** Building a match from one run and a match of the remaining pieces. */
  lemma MatchesStep(p: seq<Piece>, j: nat, s: string, i: nat, k: nat)
    requires j < |p| && i <= k <= |s|
    requires RunOk(p[j], s, i, k) && MatchesFrom(p, j + 1, s, k)
    ensures MatchesFrom(p, j, s, i)
  {
  }

  /** Splitting a match into one run and a match of the remaining pieces. */
  lemma MatchesSplit(p: seq<Piece>, j: nat, s: string, i: nat) returns (k: nat)
    requires j < |p| && i <= |s| && MatchesFrom(p, j, s, i)
    ensures i <= k <= |s| && RunOk(p[j], s, i, k) && MatchesFrom(p, j + 1, s, k)
  {
    k :| i <= k <= |s| && RunOk(p[j], s, i, k) && MatchesFrom(p, j + 1, s, k);
  }

  /** The last piece must take the whole remaining string. */
  lemma MatchesLast(p: seq<Piece>, s: string, i: nat)
    requires |p| > 0 && i <= |s|
    ensures MatchesFrom(p, |p| - 1, s, i) <==> RunOk(p[|p| - 1], s, i, |s|)
  {
    var j := |p| - 1;
    if RunOk(p[j], s, i, |s|) {
      assert MatchesFrom(p, j + 1, s, |s|);
    }
  }
}
