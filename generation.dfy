/**
 Candidate generation of one SerialOT step: every way of adding one new foot
 of one or two unflagged syllables, with every non-empty stress pattern on
 it, listed in the order of the source's loops (left end ascending, then
 right end ascending, then stress mask ascending), followed by the word
 unchanged.
 */
module Generation {
  import opened Syllables
  import opened Scoring

  /** Bit i of mask is set, as `mask & (1 << i)` tests it. */
  predicate Bit(mask: nat, i: nat) {
    (mask / Pow2(i)) % 2 == 1
  }

  /**
   The word w with a foot added from l to r: a '(' on l, a ')' on r, and
   syllable l + i of the foot stressed exactly when bit i of mask is set.
   Syllables outside the foot keep their stress.
   */
  function WithFoot(w: Word, l: nat, r: nat, mask: nat): Word
    requires l <= r < |w|
  {
    seq(|w|, j requires 0 <= j < |w| =>
      if j < l || r < j then w[j]
      else w[j].(hasLeftParenthesis := w[j].hasLeftParenthesis || j == l,
                 hasRightParenthesis := w[j].hasRightParenthesis || j == r,
                 hasStress := Bit(mask, j - l)))
  }

  /** The loops accept (l, r, mask): a span of at most two syllables, both ends unflagged, and a non-zero mask. */
  predicate NewFoot(w: Word, l: nat, r: nat, mask: nat) {
    l <= r < |w| && r - l + 1 <= 2 && !Flagged(w[l]) && !Flagged(w[r]) && 1 <= mask < Pow2(r - l + 1)
  }

  /** The candidates for the foot (l, r) with masks 1 .. m - 1, in mask order. */
  function MaskRun(w: Word, l: nat, r: nat, m: nat): (run: seq<Word>)
    requires l <= r < |w|
    ensures |run| == if m == 0 then 0 else m - 1
  {
    if m <= 1 then [] else MaskRun(w, l, r, m - 1) + [WithFoot(w, l, r, m - 1)]
  }

  /** The candidates for the span (l, r): none when it is too long or an end is flagged. */
  function SpanCandidates(w: Word, l: nat, r: nat): seq<Word>
    requires l <= r < |w|
  {
    if r - l + 1 > 2 || Flagged(w[l]) || Flagged(w[r]) then []
    else MaskRun(w, l, r, Pow2(r - l + 1))
  }

  /** The candidates with left end l and right ends l .. r - 1. */
  function RightRun(w: Word, l: nat, r: nat): seq<Word>
    requires l <= r <= |w|
  {
    if r == l then [] else RightRun(w, l, r - 1) + SpanCandidates(w, l, r - 1)
  }

  /** The candidates with left ends 0 .. n - 1. */
  function LeftRun(w: Word, n: nat): seq<Word>
    requires n <= |w|
  {
    if n == 0 then [] else LeftRun(w, n - 1) + RightRun(w, n - 1, |w|)
  }

  /** All candidates with a new foot, in generation order. */
  function Generated(w: Word): seq<Word> {
    LeftRun(w, |w|)
  }

  /** The full candidate list: the generated candidates, then the word unchanged. */
  function Candidates(w: Word): seq<Word> {
    Generated(w) + [w]
  }

  // ---------------------------------------------------------------------
  // Which candidates are generated

  lemma {:induction false} MaskRunMembers(w: Word, l: nat, r: nat, m: nat, c: Word)
    requires l <= r < |w|
    ensures c in MaskRun(w, l, r, m) <==> exists mask: nat :: 1 <= mask < m && c == WithFoot(w, l, r, mask)
  {
    if m > 1 {
      MaskRunMembers(w, l, r, m - 1, c);
      if c == WithFoot(w, l, r, m - 1) {
        assert c in MaskRun(w, l, r, m);
      }
    }
  }

  lemma {:induction false} RightRunMembers(w: Word, l: nat, r: nat, c: Word)
    requires l <= r <= |w|
    ensures c in RightRun(w, l, r) <==> exists r': nat :: l <= r' < r && c in SpanCandidates(w, l, r')
  {
    if r > l {
      var last: nat := r - 1;
      var prev, span := RightRun(w, l, last), SpanCandidates(w, l, last);
      assert RightRun(w, l, r) == prev + span;
      RightRunMembers(w, l, last, c);
      if c in span {
        assert l <= last < r && c in SpanCandidates(w, l, last);
      }
    }
  }

  /** The parts laid end to end. */
  function Concat<T>(parts: seq<seq<T>>): seq<T> {
    if parts == [] then [] else Concat(parts[..|parts| - 1]) + parts[|parts| - 1]
  }

  lemma {:induction false} ConcatMembers<T>(parts: seq<seq<T>>, c: T)
    ensures c in Concat(parts) <==> exists k :: 0 <= k < |parts| && c in parts[k]
  {
    if parts != [] {
      var init, last := parts[..|parts| - 1], parts[|parts| - 1];
      assert Concat(parts) == Concat(init) + last;
      ConcatMembers(init, c);
      if c in Concat(init) {
        var k :| 0 <= k < |init| && c in init[k];
        assert parts[k] == init[k];
      }
      if c in last {
        assert c in parts[|parts| - 1];
      }
      if exists k :: 0 <= k < |parts| && c in parts[k] {
        var k :| 0 <= k < |parts| && c in parts[k];
        if k < |init| {
          assert parts[k] == init[k];
          assert c in Concat(init);
        }
      }
    }
  }

  /** The runs for left ends 0 .. n - 1. */
  function RightRuns(w: Word, n: nat): (parts: seq<seq<Word>>)
    requires n <= |w|
    ensures |parts| == n
  {
    seq(n, l requires 0 <= l < n => RightRun(w, l, |w|))
  }

  lemma {:induction false} LeftRunConcat(w: Word, n: nat)
    requires n <= |w|
    ensures LeftRun(w, n) == Concat(RightRuns(w, n))
  {
    if n > 0 {
      LeftRunConcat(w, n - 1);
      assert RightRuns(w, n)[..n - 1] == RightRuns(w, n - 1);
    }
  }

  lemma {:induction false} LeftRunMembers(w: Word, n: nat, c: Word)
    requires n <= |w|
    ensures c in LeftRun(w, n) <==> exists l: nat :: l < n && c in RightRun(w, l, |w|)
  {
    var parts := RightRuns(w, n);
    LeftRunConcat(w, n);
    ConcatMembers(parts, c);
    if c in LeftRun(w, n) {
      var k :| 0 <= k < |parts| && c in parts[k];
      var l: nat := k;
      assert l < n && c in RightRun(w, l, |w|);
      assert exists l: nat :: l < n && c in RightRun(w, l, |w|);
    }
    if exists l: nat :: l < n && c in RightRun(w, l, |w|) {
      var l: nat :| l < n && c in RightRun(w, l, |w|);
      assert 0 <= l < |parts| && c in parts[l];
      assert c in LeftRun(w, n);
    }
  }

  lemma {:induction false} SpanMembers(w: Word, l: nat, r: nat, c: Word)
    requires l <= r < |w|
    ensures c in SpanCandidates(w, l, r) <==> exists mask: nat :: NewFoot(w, l, r, mask) && c == WithFoot(w, l, r, mask)
  {
    MaskRunMembers(w, l, r, Pow2(r - l + 1), c);
  }

  /**
   A candidate is generated exactly when it is w with one new foot of one or
   two unflagged syllables and a non-zero stress mask.
   */
  lemma {:induction false} GeneratedMembers(w: Word, c: Word)
    ensures c in Generated(w) <==>
      exists l: nat, r: nat, mask: nat :: NewFoot(w, l, r, mask) && c == WithFoot(w, l, r, mask)
  {
    LeftRunMembers(w, |w|, c);
    if c in Generated(w) {
      var l: nat :| l < |w| && c in RightRun(w, l, |w|);
      RightRunMembers(w, l, |w|, c);
      var r: nat :| l <= r < |w| && c in SpanCandidates(w, l, r);
      SpanMembers(w, l, r, c);
    }
    if exists l: nat, r: nat, mask: nat :: NewFoot(w, l, r, mask) && c == WithFoot(w, l, r, mask) {
      var l: nat, r: nat, mask: nat :| NewFoot(w, l, r, mask) && c == WithFoot(w, l, r, mask);
      SpanMembers(w, l, r, c);
      RightRunMembers(w, l, |w|, c);
      assert c in RightRun(w, l, |w|);
    }
  }

  // ---------------------------------------------------------------------
  // How many candidates there are

  lemma {:induction false} RightRunCount(w: Word, l: nat, r: nat)
    requires l <= r <= |w|
    ensures |RightRun(w, l, r)| ==
      (if r > l && !Flagged(w[l]) then 1 else 0) +
      (if r > l + 1 && !Flagged(w[l]) && !Flagged(w[l + 1]) then 3 else 0)
  {
    if r > l {
      RightRunCount(w, l, r - 1);
      assert Pow2(1) == 2 && Pow2(2) == 4;
    }
  }

  lemma {:induction false} LeftRunCount(w: Word, n: nat)
    requires n <= |w|
    ensures |LeftRun(w, n)| == Unflagged(w, n) + 3 * UnflaggedPairs(w, if n < |w| then n + 1 else |w|)
  {
    if n > 0 {
      var i := n - 1;
      var prev, right := LeftRun(w, i), RightRun(w, i, |w|);
      assert |LeftRun(w, n)| == |prev| + |right|;
      LeftRunCount(w, i);
      RightRunCount(w, i, |w|);
      var single := if !Flagged(w[i]) then 1 else 0;
      var pair := if n < |w| && !Flagged(w[i]) && !Flagged(w[n]) then 1 else 0;
      assert |right| == single + 3 * pair;
      assert Unflagged(w, n) == Unflagged(w, i) + single;
      assert UnflaggedPairs(w, if n < |w| then n + 1 else |w|) == UnflaggedPairs(w, n) + pair;
    }
  }

  /**
   One candidate per unflagged syllable (a one-syllable foot, mask 1) and
   three per pair of adjacent unflagged syllables (masks 1, 2 and 3).
   */
  lemma {:induction false} GeneratedCount(w: Word)
    ensures |Generated(w)| == UnflaggedCount(w) + 3 * UnflaggedPairs(w, |w|)
  {
    LeftRunCount(w, |w|);
  }

  // ---------------------------------------------------------------------
  // What a new foot does to the word

  /** A non-zero mask below 2^size stresses at least one syllable of the foot. */
  lemma {:induction false} MaskStresses(mask: nat, size: nat)
    requires 1 <= size <= 2 && 1 <= mask < Pow2(size)
    ensures exists i: nat :: i < size && Bit(mask, i)
  {
    assert Pow2(1) == 2 && Pow2(2) == 4;
    if mask % 2 == 1 {
      assert Bit(mask, 0);
    } else {
      assert Bit(mask, 1);
    }
  }

  /**
   The new foot changes only its own syllables: they get the foot's brackets
   and the mask's stresses, all weights stay, flagged syllables stay as they
   were, and at least one syllable of the foot is stressed.
   */
  lemma {:induction false} NewFootShape(w: Word, l: nat, r: nat, mask: nat)
    requires NewFoot(w, l, r, mask)
    ensures var c := WithFoot(w, l, r, mask);
      && SameWeights(c, w)
      && (forall j :: 0 <= j < |w| && (j < l || r < j) ==> c[j] == w[j])
      && (forall j :: l <= j <= r ==>
            c[j].hasLeftParenthesis == (j == l) && c[j].hasRightParenthesis == (j == r) &&
            c[j].hasStress == Bit(mask, j - l))
      && (forall j :: 0 <= j < |w| && Flagged(w[j]) ==> c[j] == w[j])
      && (exists j :: l <= j <= r && c[j].hasStress)
      && c != w
  {
    var c := WithFoot(w, l, r, mask);
    MaskStresses(mask, r - l + 1);
    var i: nat :| i < r - l + 1 && Bit(mask, i);
    assert c[l + i].hasStress;
    assert c[l].hasLeftParenthesis != w[l].hasLeftParenthesis;
  }

  /** The new foot flags r - l + 1 more syllables and adds exactly one '('. */
  lemma {:induction false} NewFootCounts(w: Word, l: nat, r: nat, mask: nat)
    requires NewFoot(w, l, r, mask)
    ensures UnflaggedCount(WithFoot(w, l, r, mask)) + (r - l + 1) == UnflaggedCount(w)
    ensures Lefts(WithFoot(w, l, r, mask), |w|) == Lefts(w, |w|) + 1
  {
    var c := WithFoot(w, l, r, mask);
    OpenOne(c, w, l, |w|);
    if l == r {
      FlagOne(c, w, l, |w|);
    } else {
      var mid := w[l := c[l]];
      FlagOne(mid, w, l, |w|);
      FlagOne(c, mid, r, |w|);
    }
  }

  /** Adding the foot keeps every ')' preceded by a '(', and keeps a flat bracketing of small feet flat. */
  lemma {:induction false} NewFootBrackets(w: Word, l: nat, r: nat, mask: nat)
    requires NewFoot(w, l, r, mask)
    ensures NoOrphanRight(w) ==> NoOrphanRight(WithFoot(w, l, r, mask))
    ensures WellBracketed(w) ==> WellBracketed(WithFoot(w, l, r, mask))
  {
    var c := WithFoot(w, l, r, mask);
    if NoOrphanRight(w) {
      forall j | 0 <= j < |c| && c[j].hasRightParenthesis
        ensures Lefts(c, j + 1) > 0
      {
        if l <= j <= r {
          LeftsPositive(c, l, j + 1);
        } else {
          LeftsMonotone(c, w, j + 1);
        }
      }
    }
    if WellBracketed(w) {
      forall i | 0 <= i < |c|
        ensures BracketedAt(c, i)
      {
        assert BracketedAt(w, i);
        if i < l || r < i {
          if w[i].hasLeftParenthesis && !w[i].hasRightParenthesis {
            assert c[i + 1] == w[i + 1];
          }
          if w[i].hasRightParenthesis && !w[i].hasLeftParenthesis {
            assert c[i - 1] == w[i - 1];
          }
        }
      }
    }
  }

  /** Everything above, for any generated candidate. */
  lemma {:induction false} GeneratedFacts(w: Word, c: Word)
    requires c in Generated(w)
    ensures SameWeights(c, w) && c != w
    ensures forall j :: 0 <= j < |w| && Flagged(w[j]) ==> c[j] == w[j]
    ensures UnflaggedCount(c) < UnflaggedCount(w)
    ensures Lefts(c, |c|) == Lefts(w, |w|) + 1
    ensures NoOrphanRight(w) ==> NoOrphanRight(c)
    ensures WellBracketed(w) ==> WellBracketed(c)
  {
    GeneratedMembers(w, c);
    var l: nat, r: nat, mask: nat :| NewFoot(w, l, r, mask) && c == WithFoot(w, l, r, mask);
    NewFootShape(w, l, r, mask);
    NewFootCounts(w, l, r, mask);
    NewFootBrackets(w, l, r, mask);
  }
}
