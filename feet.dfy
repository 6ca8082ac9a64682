/**
 Recovering feet from bracket flags (findLocation). The scan goes left to
 right; a '(' opens a new foot whose right end is still unknown (-1), and a
 ')' sets the right end of the most recently opened foot.
 */
module Feet {
  import opened Syllables

  /** A bracket pair found by the scan; `right` is -1 while the foot is open. */
  datatype Foot = Foot(left: int, right: int)

  /** Number of syllables a foot spans (zero or negative for a foot never closed). */
  function Size(f: Foot): int {
    f.right - f.left + 1
  }

  /** The foot spans syllable i. */
  predicate Covers(f: Foot, i: int) {
    f.left <= i <= f.right
  }

  /**
   The feet found after scanning the first n syllables. A ')' with no foot
   opened before it is skipped here; FindLocation requires that it does not
   occur (NoOrphanRight).
   */
  function FeetUpTo(w: Word, n: nat): (feet: seq<Foot>)
    requires n <= |w|
    ensures |feet| == Lefts(w, n)
  {
    if n == 0 then [] else CloseStep(w, n - 1, OpenStep(w, n - 1, FeetUpTo(w, n - 1)))
  }

  lemma {:induction false} FeetUpToStep(w: Word, i: nat)
    requires i < |w|
    ensures FeetUpTo(w, i + 1) == CloseStep(w, i, OpenStep(w, i, FeetUpTo(w, i)))
  {
  }

  /** A '(' on syllable i pushes a new open foot. */
  function OpenStep(w: Word, i: nat, prev: seq<Foot>): (pushed: seq<Foot>)
    requires i < |w|
    ensures |pushed| == |prev| + (if w[i].hasLeftParenthesis then 1 else 0)
  {
    if w[i].hasLeftParenthesis then prev + [Foot(i, -1)] else prev
  }

  /** A ')' on syllable i sets the right end of the last foot. */
  function CloseStep(w: Word, i: nat, pushed: seq<Foot>): (feet: seq<Foot>)
    requires i < |w|
    ensures |feet| == |pushed|
  {
    if w[i].hasRightParenthesis && |pushed| > 0
    then pushed[|pushed| - 1 := pushed[|pushed| - 1].(right := i)]
    else pushed
  }

  /** All feet of the word, in the order the scan finds them. */
  function FeetOf(w: Word): seq<Foot> {
    FeetUpTo(w, |w|)
  }

  /** Model of findLocation: the list of bracket pairs is built by push_back and an update of its last element. */
  method FindLocation(word: Word) returns (parensLocation: seq<Foot>)
    requires NoOrphanRight(word)
    ensures parensLocation == FeetOf(word)
  {
    parensLocation := [];
    for i := 0 to |word|
      invariant parensLocation == FeetUpTo(word, i)
    {
      ghost var prev := parensLocation;
      var syllab := word[i];
      if syllab.hasLeftParenthesis {
        parensLocation := parensLocation + [Foot(i, -1)];
      }
      ghost var pushed := parensLocation;
      if syllab.hasRightParenthesis {
        var last := |parensLocation| - 1;
        parensLocation := parensLocation[last := parensLocation[last].(right := i)];
      }
      FeetUpToStep(word, i);
    }
  }

  /** Shape of the feet found in any word: foot k starts at the k-th '(' and its right end is -1 or a ')' at or after it. */
  ghost predicate ScanShape(w: Word, n: nat, feet: seq<Foot>)
    requires n <= |w|
  {
    && (forall k :: 0 <= k < |feet| ==>
          0 <= feet[k].left < n && w[feet[k].left].hasLeftParenthesis &&
          (feet[k].right == -1 || (feet[k].left <= feet[k].right < n && w[feet[k].right].hasRightParenthesis)))
    && (forall k, k' :: 0 <= k < k' < |feet| ==> feet[k].left < feet[k'].left)
    && (forall j {:trigger Lefts(w, j)} :: 0 <= j < n && w[j].hasLeftParenthesis ==>
          Lefts(w, j) < |feet| && feet[Lefts(w, j)].left == j)
  }

  lemma {:induction false} ShapeAdvance(w: Word, n: nat, feet: seq<Foot>)
    requires n < |w| && !w[n].hasLeftParenthesis
    requires ScanShape(w, n, feet)
    ensures ScanShape(w, n + 1, feet)
  {
  }

  lemma {:induction false} ShapePush(w: Word, n: nat, feet: seq<Foot>)
    requires n < |w| && w[n].hasLeftParenthesis
    requires ScanShape(w, n, feet) && |feet| == Lefts(w, n)
    ensures ScanShape(w, n + 1, feet + [Foot(n, -1)])
  {
    var pushed := feet + [Foot(n, -1)];
    forall j | 0 <= j < n + 1 && w[j].hasLeftParenthesis
      ensures Lefts(w, j) < |pushed| && pushed[Lefts(w, j)].left == j
    {
      if j < n {
        assert pushed[Lefts(w, j)] == feet[Lefts(w, j)];
      }
    }
  }

  lemma {:induction false} ShapeClose(w: Word, n: nat, feet: seq<Foot>)
    requires n < |w| && w[n].hasRightParenthesis
    requires ScanShape(w, n + 1, feet) && |feet| > 0
    ensures ScanShape(w, n + 1, feet[|feet| - 1 := feet[|feet| - 1].(right := n)])
  {
    var closed := feet[|feet| - 1 := feet[|feet| - 1].(right := n)];
    forall j | 0 <= j < n + 1 && w[j].hasLeftParenthesis
      ensures Lefts(w, j) < |closed| && closed[Lefts(w, j)].left == j
    {
      assert feet[Lefts(w, j)].left == j;
    }
  }

  /** Scanning syllable i, from any feet of the right shape, keeps the shape. */
  lemma {:induction false} ShapeScan(w: Word, i: nat, prev: seq<Foot>)
    requires i < |w| && ScanShape(w, i, prev) && |prev| == Lefts(w, i)
    ensures ScanShape(w, i + 1, CloseStep(w, i, OpenStep(w, i, prev)))
  {
    var pushed := OpenStep(w, i, prev);
    if w[i].hasLeftParenthesis {
      ShapePush(w, i, prev);
    } else {
      ShapeAdvance(w, i, prev);
    }
    if w[i].hasRightParenthesis && |pushed| > 0 {
      ShapeClose(w, i, pushed);
    }
  }

  lemma {:induction false} FeetUpToShape(w: Word, n: nat)
    requires n <= |w|
    ensures ScanShape(w, n, FeetUpTo(w, n))
  {
    var i, feet := 0, [];
    while i < n
      invariant i <= n && feet == FeetUpTo(w, i) && ScanShape(w, i, feet)
    {
      ShapeScan(w, i, feet);
      FeetUpToStep(w, i);
      i, feet := i + 1, CloseStep(w, i, OpenStep(w, i, feet));
    }
  }

  /** Every foot of any word starts at a '(' and, if closed, ends at a ')' at or after it; feet are listed by their left ends. */
  lemma {:induction false} FeetOfShape(w: Word)
    ensures ScanShape(w, |w|, FeetOf(w))
  {
    FeetUpToShape(w, |w|);
  }

  /** Every closed foot of any word lies inside the word. */
  lemma {:induction false} FeetInRange(w: Word)
    ensures forall k :: 0 <= k < |FeetOf(w)| ==> 0 <= FeetOf(w)[k].left && FeetOf(w)[k].right < |w|
  {
    FeetOfShape(w);
  }

  // ---------------------------------------------------------------------
  // Properly matched brackets

  /** A foot is open after scanning the first n syllables. */
  function OpenAfter(w: Word, n: nat): bool
    requires n <= |w|
  {
    n > 0 && (OpenAfter(w, n - 1) || w[n - 1].hasLeftParenthesis) && !w[n - 1].hasRightParenthesis
  }

  /** Syllable i fits the brackets before it: its '(' does not come while a foot is open, and its ')' closes an open foot (possibly opened on the same syllable). */
  ghost predicate BracketFits(w: Word, i: nat)
    requires i < |w|
  {
    && (w[i].hasLeftParenthesis ==> !OpenAfter(w, i))
    && (w[i].hasRightParenthesis ==> OpenAfter(w, i) || w[i].hasLeftParenthesis)
  }

  /**
   Brackets are properly matched and not nested: every syllable fits the
   brackets before it, and no foot is open at the end.
   */
  ghost predicate Matched(w: Word) {
    && (forall i :: 0 <= i < |w| ==> BracketFits(w, i))
    && !OpenAfter(w, |w|)
  }

  /**
   After n syllables of a matched word, foot f starts in the scanned prefix
   and is open (-1) or ends at a ')' there; no ')' lies in it before its
   end and no '(' after its start (for an open foot: up to the scan).
   */
  ghost predicate FootScanned(w: Word, n: nat, f: Foot)
    requires n <= |w|
  {
    && 0 <= f.left < n
    && (f.right == -1 || (f.left <= f.right < n && w[f.right].hasRightParenthesis))
    && (forall j :: f.left <= j < n && (f.right == -1 || j < f.right) ==> !w[j].hasRightParenthesis)
    && (forall j :: f.left < j < n && (f.right == -1 || j <= f.right) ==> !w[j].hasLeftParenthesis)
  }

  /** Every ')' scanned so far is the right end of some foot. */
  ghost predicate ScanRights(w: Word, n: nat, feet: seq<Foot>)
    requires n <= |w|
  {
    forall j :: 0 <= j < n && w[j].hasRightParenthesis ==> exists k :: 0 <= k < |feet| && feet[k].right == j
  }

  /** The scan state after n syllables of a matched word: only the last foot can be open, and it is open exactly inside a foot. */
  ghost predicate MatchedScan(w: Word, n: nat, feet: seq<Foot>)
    requires n <= |w|
  {
    && (forall k :: 0 <= k < |feet| ==> FootScanned(w, n, feet[k]))
    && (forall k :: 0 <= k < |feet| - 1 ==> feet[k].right != -1)
    && (OpenAfter(w, n) <==> |feet| > 0 && feet[|feet| - 1].right == -1)
    && ScanRights(w, n, feet)
  }

  /** A closed foot stays as it was when the scan moves on. */
  lemma {:induction false} FootStays(w: Word, n: nat, f: Foot)
    requires n < |w| && FootScanned(w, n, f) && f.right != -1
    ensures FootScanned(w, n + 1, f)
  {
  }

  /** The feet before the last one stay as they were. */
  lemma {:induction false} EarlierFeetStay(w: Word, n: nat, prev: seq<Foot>, feet: seq<Foot>, m: nat)
    requires n < |w| && MatchedScan(w, n, prev)
    requires m <= |prev| && forall k :: 0 <= k < m ==> prev[k].right != -1
    requires m <= |feet| && forall k :: 0 <= k < m ==> feet[k] == prev[k]
    ensures forall k :: 0 <= k < m ==> FootScanned(w, n + 1, feet[k])
  {
    forall k | 0 <= k < m
      ensures FootScanned(w, n + 1, feet[k])
    {
      FootStays(w, n, prev[k]);
    }
  }

  lemma {:induction false} ScanOpenAndClose(w: Word, n: nat, prev: seq<Foot>)
    requires n < |w| && w[n].hasLeftParenthesis && w[n].hasRightParenthesis && !OpenAfter(w, n)
    requires MatchedScan(w, n, prev)
    ensures MatchedScan(w, n + 1, prev + [Foot(n, n)])
  {
    var feet := prev + [Foot(n, n)];
    EarlierFeetStay(w, n, prev, feet, |prev|);
    assert FootScanned(w, n + 1, feet[|prev|]);
    forall j | 0 <= j < n + 1 && w[j].hasRightParenthesis
      ensures exists k :: 0 <= k < |feet| && feet[k].right == j
    {
      if j == n {
        assert feet[|prev|].right == j;
      } else {
        var k :| 0 <= k < |prev| && prev[k].right == j;
        assert feet[k].right == j;
      }
    }
  }

  lemma {:induction false} ScanOpen(w: Word, n: nat, prev: seq<Foot>)
    requires n < |w| && w[n].hasLeftParenthesis && !w[n].hasRightParenthesis && !OpenAfter(w, n)
    requires MatchedScan(w, n, prev)
    ensures MatchedScan(w, n + 1, prev + [Foot(n, -1)])
  {
    var feet := prev + [Foot(n, -1)];
    EarlierFeetStay(w, n, prev, feet, |prev|);
    assert FootScanned(w, n + 1, feet[|prev|]);
    assert OpenAfter(w, n + 1);
    forall j | 0 <= j < n + 1 && w[j].hasRightParenthesis
      ensures exists k :: 0 <= k < |feet| && feet[k].right == j
    {
      var k :| 0 <= k < |prev| && prev[k].right == j;
      assert feet[k].right == j;
    }
  }

  lemma {:induction false} ScanClose(w: Word, n: nat, prev: seq<Foot>)
    requires n < |w| && !w[n].hasLeftParenthesis && w[n].hasRightParenthesis && OpenAfter(w, n)
    requires MatchedScan(w, n, prev)
    ensures MatchedScan(w, n + 1, prev[|prev| - 1 := prev[|prev| - 1].(right := n)])
  {
    var last := |prev| - 1;
    var feet := prev[last := prev[last].(right := n)];
    EarlierFeetStay(w, n, prev, feet, last);
    assert FootScanned(w, n, prev[last]);
    assert FootScanned(w, n + 1, feet[last]);
    assert !OpenAfter(w, n + 1);
    forall j | 0 <= j < n + 1 && w[j].hasRightParenthesis
      ensures exists k :: 0 <= k < |feet| && feet[k].right == j
    {
      if j == n {
        assert feet[last].right == j;
      } else {
        var k :| 0 <= k < |prev| && prev[k].right == j;
        assert k != last;
        assert feet[k].right == j;
      }
    }
  }

  lemma {:induction false} ScanPlain(w: Word, n: nat, feet: seq<Foot>)
    requires n < |w| && !w[n].hasLeftParenthesis && !w[n].hasRightParenthesis
    requires MatchedScan(w, n, feet)
    ensures MatchedScan(w, n + 1, feet)
  {
    assert OpenAfter(w, n + 1) == OpenAfter(w, n);
    if |feet| > 0 && feet[|feet| - 1].right == -1 {
      var last := |feet| - 1;
      EarlierFeetStay(w, n, feet, feet, last);
      assert FootScanned(w, n, feet[last]);
      assert FootScanned(w, n + 1, feet[last]);
    } else {
      EarlierFeetStay(w, n, feet, feet, |feet|);
    }
  }

  /** Scanning a syllable that fits the brackets before it, from any feet that match so far, keeps them matched. */
  lemma {:induction false} MatchedScanOn(w: Word, n: nat, prev: seq<Foot>)
    requires n < |w| && BracketFits(w, n)
    requires MatchedScan(w, n, prev)
    ensures MatchedScan(w, n + 1, CloseStep(w, n, OpenStep(w, n, prev)))
  {
    var s := w[n];
    var next := CloseStep(w, n, OpenStep(w, n, prev));
    if s.hasLeftParenthesis && s.hasRightParenthesis {
      assert next == prev + [Foot(n, n)];
      ScanOpenAndClose(w, n, prev);
    } else if s.hasLeftParenthesis {
      assert next == prev + [Foot(n, -1)];
      ScanOpen(w, n, prev);
    } else if s.hasRightParenthesis {
      assert |prev| > 0;
      assert next == prev[|prev| - 1 := prev[|prev| - 1].(right := n)];
      ScanClose(w, n, prev);
    } else {
      assert next == prev;
      ScanPlain(w, n, prev);
    }
  }

  lemma {:induction false} MatchedScanUpTo(w: Word, n: nat)
    requires n <= |w| && forall i :: 0 <= i < n ==> BracketFits(w, i)
    ensures MatchedScan(w, n, FeetUpTo(w, n))
  {
    var i, feet := 0, [];
    while i < n
      invariant i <= n && feet == FeetUpTo(w, i) && MatchedScan(w, i, feet)
    {
      MatchedScanOn(w, i, feet);
      FeetUpToStep(w, i);
      i, feet := i + 1, CloseStep(w, i, OpenStep(w, i, feet));
    }
  }

  /**
   On a word whose brackets are properly matched, the feet come left to
   right and do not overlap; each foot runs from a '(' to the first ')' at
   or after it, with no bracket in between, so a syllable carrying both
   flags gives the foot (i, i); and every ')' closes one of them.
   */
  lemma {:induction false} MatchedFeet(w: Word)
    requires Matched(w)
    ensures var feet := FeetOf(w);
      && (forall k :: 0 <= k < |feet| ==>
            0 <= feet[k].left <= feet[k].right < |w| &&
            w[feet[k].left].hasLeftParenthesis && w[feet[k].right].hasRightParenthesis)
      && (forall k, k' :: 0 <= k < k' < |feet| ==> feet[k].right < feet[k'].left)
      && (forall k, j :: 0 <= k < |feet| && feet[k].left <= j < feet[k].right ==>
            !w[j].hasRightParenthesis && (j > feet[k].left ==> !w[j].hasLeftParenthesis))
      && (forall j :: 0 <= j < |w| && w[j].hasRightParenthesis ==>
            exists k :: 0 <= k < |feet| && feet[k].right == j)
      && (forall j :: 0 <= j < |w| && w[j].hasLeftParenthesis ==>
            exists k :: 0 <= k < |feet| && feet[k].left == j)
  {
    var feet := FeetOf(w);
    MatchedScanUpTo(w, |w|);
    FeetOfShape(w);
    FinalFeetClosed(w, feet);
    FinalFeetDisjoint(w, feet);
    FinalFeetInterior(w, feet);
    FinalFeetLefts(w, feet);
  }

  /** What the scan of a whole matched word leaves: every foot scanned and closed. */
  ghost predicate FinalFeet(w: Word, feet: seq<Foot>) {
    && MatchedScan(w, |w|, feet)
    && ScanShape(w, |w|, feet)
    && !OpenAfter(w, |w|)
  }

  lemma {:induction false} FinalFeetClosed(w: Word, feet: seq<Foot>)
    requires FinalFeet(w, feet)
    ensures forall k :: 0 <= k < |feet| ==> feet[k].right != -1
    ensures forall k :: 0 <= k < |feet| ==>
      0 <= feet[k].left <= feet[k].right < |w| &&
      w[feet[k].left].hasLeftParenthesis && w[feet[k].right].hasRightParenthesis
  {
    forall k | 0 <= k < |feet|
      ensures feet[k].right != -1 && 0 <= feet[k].left <= feet[k].right < |w|
    {
      if k < |feet| - 1 {
        assert feet[k].right != -1;
      }
      assert FootScanned(w, |w|, feet[k]);
    }
  }

  lemma {:induction false} FinalFeetDisjoint(w: Word, feet: seq<Foot>)
    requires FinalFeet(w, feet)
    ensures forall k, k' :: 0 <= k < k' < |feet| ==> feet[k].right < feet[k'].left
  {
    FinalFeetClosed(w, feet);
    forall k, k' | 0 <= k < k' < |feet|
      ensures feet[k].right < feet[k'].left
    {
      assert FootScanned(w, |w|, feet[k]);
      assert feet[k].left < feet[k'].left;
      assert w[feet[k'].left].hasLeftParenthesis;
    }
  }

  lemma {:induction false} FinalFeetInterior(w: Word, feet: seq<Foot>)
    requires FinalFeet(w, feet)
    ensures forall k, j :: 0 <= k < |feet| && feet[k].left <= j < feet[k].right ==>
      !w[j].hasRightParenthesis && (j > feet[k].left ==> !w[j].hasLeftParenthesis)
  {
    FinalFeetClosed(w, feet);
    forall k | 0 <= k < |feet|
      ensures forall j :: feet[k].left <= j < feet[k].right ==>
        !w[j].hasRightParenthesis && (j > feet[k].left ==> !w[j].hasLeftParenthesis)
    {
      assert FootScanned(w, |w|, feet[k]);
    }
  }

  lemma {:induction false} FinalFeetLefts(w: Word, feet: seq<Foot>)
    requires FinalFeet(w, feet)
    ensures forall j :: 0 <= j < |w| && w[j].hasLeftParenthesis ==>
      exists k :: 0 <= k < |feet| && feet[k].left == j
  {
    forall j | 0 <= j < |w| && w[j].hasLeftParenthesis
      ensures exists k :: 0 <= k < |feet| && feet[k].left == j
    {
      assert feet[Lefts(w, j)].left == j;
    }
  }

  // ---------------------------------------------------------------------
  // Feet of one or two syllables

  lemma {:induction false} OpenAfterWellBracketed(w: Word, n: nat)
    requires WellBracketed(w) && n <= |w|
    ensures OpenAfter(w, n) <==> 0 < n && w[n - 1].hasLeftParenthesis && !w[n - 1].hasRightParenthesis
  {
    if n > 0 {
      OpenAfterWellBracketed(w, n - 1);
      if n > 1 {
        assert BracketedAt(w, n - 2);
      }
    }
  }

  lemma {:induction false} WellBracketedIsMatched(w: Word)
    requires WellBracketed(w)
    ensures Matched(w)
  {
    forall i | 0 <= i < |w|
      ensures (w[i].hasLeftParenthesis ==> !OpenAfter(w, i)) &&
              (w[i].hasRightParenthesis ==> OpenAfter(w, i) || w[i].hasLeftParenthesis)
    {
      OpenAfterWellBracketed(w, i);
      assert BracketedAt(w, i);
      if 0 < i {
        assert BracketedAt(w, i - 1);
      }
    }
    OpenAfterWellBracketed(w, |w|);
    if 0 < |w| {
      assert BracketedAt(w, |w| - 1);
    }
  }

  /**
   In a well-bracketed word every foot spans one or two syllables, and a
   syllable lies inside some foot exactly when it carries a bracket flag.
   */
  lemma {:induction false} WellBracketedFeet(w: Word)
    requires WellBracketed(w)
    ensures Matched(w)
    ensures var feet := FeetOf(w);
      && (forall k :: 0 <= k < |feet| ==> 1 <= Size(feet[k]) <= 2)
      && (forall i :: 0 <= i < |w| ==> (Flagged(w[i]) <==> exists k :: 0 <= k < |feet| && Covers(feet[k], i)))
  {
    WellBracketedIsMatched(w);
    WellBracketedFootSizes(w);
    WellBracketedCovers(w);
  }

  lemma {:induction false} WellBracketedFootSizes(w: Word)
    requires WellBracketed(w)
    ensures forall k :: 0 <= k < |FeetOf(w)| ==> 1 <= Size(FeetOf(w)[k]) <= 2
  {
    WellBracketedIsMatched(w);
    MatchedFeet(w);
    var feet := FeetOf(w);
    forall k | 0 <= k < |feet|
      ensures 1 <= Size(feet[k]) <= 2
    {
      var l := feet[k].left;
      assert BracketedAt(w, l);
    }
  }

  lemma {:induction false} WellBracketedCovers(w: Word)
    requires WellBracketed(w)
    ensures forall i :: 0 <= i < |w| ==>
      (Flagged(w[i]) <==> exists k :: 0 <= k < |FeetOf(w)| && Covers(FeetOf(w)[k], i))
  {
    WellBracketedIsMatched(w);
    MatchedFeet(w);
    WellBracketedFootSizes(w);
    SmallFeetCover(w, FeetOf(w));
  }

  /** Feet of one or two syllables from a '(' to a ')', one for each bracket, cover exactly the flagged syllables. */
  lemma {:induction false} SmallFeetCover(w: Word, feet: seq<Foot>)
    requires forall k :: 0 <= k < |feet| ==>
      0 <= feet[k].left <= feet[k].right < |w| &&
      w[feet[k].left].hasLeftParenthesis && w[feet[k].right].hasRightParenthesis
    requires forall k :: 0 <= k < |feet| ==> 1 <= Size(feet[k]) <= 2
    requires forall j :: 0 <= j < |w| && w[j].hasRightParenthesis ==> exists k :: 0 <= k < |feet| && feet[k].right == j
    requires forall j :: 0 <= j < |w| && w[j].hasLeftParenthesis ==> exists k :: 0 <= k < |feet| && feet[k].left == j
    ensures forall i :: 0 <= i < |w| ==> (Flagged(w[i]) <==> exists k :: 0 <= k < |feet| && Covers(feet[k], i))
  {
    forall i | 0 <= i < |w|
      ensures Flagged(w[i]) <==> exists k :: 0 <= k < |feet| && Covers(feet[k], i)
    {
      if exists k :: 0 <= k < |feet| && Covers(feet[k], i) {
        var k :| 0 <= k < |feet| && Covers(feet[k], i);
        assert i == feet[k].left || i == feet[k].right;
      }
      if w[i].hasLeftParenthesis {
        var k :| 0 <= k < |feet| && feet[k].left == i;
        assert Covers(feet[k], i);
      } else if w[i].hasRightParenthesis {
        var k :| 0 <= k < |feet| && feet[k].right == i;
        assert Covers(feet[k], i);
      }
    }
  }


}
