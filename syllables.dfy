/**
 Word model of the stress engine: a word is a finite sequence of syllables,
 each with a weight (Light or Heavy), a stress mark and two foot-boundary
 flags. Feet are not stored; they are recovered from the flags (module Feet).
 */
module Syllables {

  /**
   A syllable's weight is the character it was read from: 'L' for a light
   syllable, 'H' for a heavy one. Any other character is kept as it is and
   counts as not light.
   */
  type Weight = char

  /** The only weight the constraints treat specially. */
  predicate Light(s: Syllable) {
    s.weight == 'L'
  }

  datatype Syllable = Syllable(
    weight: Weight,
    hasLeftParenthesis: bool,
    hasRightParenthesis: bool,
    hasStress: bool)

  type Word = seq<Syllable>

  /** A syllable with the given weight and no stress and no foot boundary. */
  function Plain(weight: Weight): Syllable {
    Syllable(weight, false, false, false)
  }

  /** The syllable carries at least one bracket flag. */
  predicate Flagged(s: Syllable) {
    s.hasLeftParenthesis || s.hasRightParenthesis
  }

  /** Number of left brackets among the first n syllables. */
  function Lefts(w: Word, n: nat): (c: nat)
    requires n <= |w|
    ensures c <= n
  {
    if n == 0 then 0 else Lefts(w, n - 1) + (if w[n - 1].hasLeftParenthesis then 1 else 0)
  }

  /** Number of syllables among the first n that carry no bracket flag. */
  function Unflagged(w: Word, n: nat): (c: nat)
    requires n <= |w|
    ensures c <= n
  {
    if n == 0 then 0 else Unflagged(w, n - 1) + (if Flagged(w[n - 1]) then 0 else 1)
  }

  /** Number of adjacent pairs (i - 1, i) with i < n whose syllables both carry no bracket flag. */
  function UnflaggedPairs(w: Word, n: nat): (c: nat)
    requires n <= |w|
    ensures n > 0 ==> c < n
  {
    if n < 2 then 0
    else UnflaggedPairs(w, n - 1) + (if !Flagged(w[n - 2]) && !Flagged(w[n - 1]) then 1 else 0)
  }

  /** Number of syllables of the whole word that carry no bracket flag. */
  function UnflaggedCount(w: Word): nat {
    Unflagged(w, |w|)
  }

  /**
   Every ')' has a '(' at or before it. Scanning the word left to right then
   never closes a foot when none has been opened; the source reads the last
   element of an empty list otherwise.
   */
  predicate NoOrphanRight(w: Word) {
    forall j :: 0 <= j < |w| && w[j].hasRightParenthesis ==> Lefts(w, j + 1) > 0
  }

  /** A '(' among the first n syllables makes the count positive. */
  lemma {:induction false} LeftsPositive(w: Word, i: nat, n: nat)
    requires i < n <= |w| && w[i].hasLeftParenthesis
    ensures Lefts(w, n) > 0
  {
    if i < n - 1 {
      LeftsPositive(w, i, n - 1);
    }
  }

  /** A word whose '(' flags include those of another has at least as many of them. */
  lemma {:induction false} LeftsMonotone(u: Word, w: Word, n: nat)
    requires n <= |u| == |w|
    requires forall i :: 0 <= i < n && w[i].hasLeftParenthesis ==> u[i].hasLeftParenthesis
    ensures Lefts(w, n) <= Lefts(u, n)
  {
    if n > 0 {
      LeftsMonotone(u, w, n - 1);
    }
  }

  /**
   Around syllable i the flags are those of a flat foot of one or two
   syllables: a syllable that opens a foot without closing it is followed by
   one that closes it without opening another, and conversely.
   */
  predicate BracketedAt(w: Word, i: int)
    requires 0 <= i < |w|
  {
    (w[i].hasLeftParenthesis && !w[i].hasRightParenthesis ==>
       i + 1 < |w| && w[i + 1].hasRightParenthesis && !w[i + 1].hasLeftParenthesis) &&
    (w[i].hasRightParenthesis && !w[i].hasLeftParenthesis ==>
       0 < i && w[i - 1].hasLeftParenthesis && !w[i - 1].hasRightParenthesis)
  }

  /** The bracket flags form a flat sequence of feet of one or two syllables. */
  predicate WellBracketed(w: Word) {
    forall i :: 0 <= i < |w| ==> BracketedAt(w, i)
  }

  /** Two words have the same weights, syllable by syllable. */
  predicate SameWeights(u: Word, w: Word) {
    |u| == |w| && forall i :: 0 <= i < |w| ==> u[i].weight == w[i].weight
  }

  lemma {:induction false} WellBracketedHasNoOrphan(w: Word)
    requires WellBracketed(w)
    ensures NoOrphanRight(w)
  {
    forall j | 0 <= j < |w| && w[j].hasRightParenthesis
      ensures Lefts(w, j + 1) > 0
    {
      if w[j].hasLeftParenthesis {
        LeftsPositive(w, j, j + 1);
      } else {
        assert BracketedAt(w, j);
        LeftsPositive(w, j - 1, j + 1);
      }
    }
  }

  /** A word without any bracket is trivially well bracketed, and every syllable of it is unflagged. */
  lemma {:induction false} NoBracketsCount(w: Word, n: nat)
    requires n <= |w|
    requires forall i :: 0 <= i < |w| ==> !Flagged(w[i])
    ensures WellBracketed(w) && NoOrphanRight(w)
    ensures Unflagged(w, n) == n
  {
    if n > 0 {
      NoBracketsCount(w, n - 1);
    }
  }

  /**
   Flagging syllables never unflags one: if u is w with the unflagged syllable
   at j now flagged, and every other syllable is flagged in u exactly when it
   is in w, u has one unflagged syllable fewer among the first n > j.
   */
  lemma {:induction false} FlagOne(u: Word, w: Word, j: nat, n: nat)
    requires |u| == |w| && n <= |w| && j < |w|
    requires forall i :: 0 <= i < |w| && i != j ==> (Flagged(u[i]) <==> Flagged(w[i]))
    requires !Flagged(w[j]) && Flagged(u[j])
    ensures Unflagged(u, n) + (if j < n then 1 else 0) == Unflagged(w, n)
  {
    if n > 0 {
      FlagOne(u, w, j, n - 1);
    }
  }

  /** The same for left brackets: adding one '(' at j adds one to the count of '(' among the first n > j. */
  lemma {:induction false} OpenOne(u: Word, w: Word, j: nat, n: nat)
    requires |u| == |w| && n <= |w| && j < |w|
    requires forall i :: 0 <= i < |w| && i != j ==> u[i].hasLeftParenthesis == w[i].hasLeftParenthesis
    requires !w[j].hasLeftParenthesis && u[j].hasLeftParenthesis
    ensures Lefts(u, n) == Lefts(w, n) + (if j < n then 1 else 0)
  {
    if n > 0 {
      OpenOne(u, w, j, n - 1);
    }
  }
}
