/**
 One step of Serial Optimality Theory and the loop that repeats it. A step
 lists the candidates (module Generation), scores each one under every
 constraint in ranking order, and returns a candidate with the
 lexicographically smallest score vector. The loop repeats the step until
 the winner prints the same as the word it came from.
 */
module Serial {
  import opened Syllables
  import opened Constraints
  import opened Scoring
  import opened Generation
  import opened Text

  /** A candidate word with its score vector. */
  datatype Candidate = Candidate(word: Word, score: seq<int>)

  /** The score vector of w: the score of each constraint's violations, in ranking order. */
  function Profile(w: Word): (p: seq<int>)
    ensures |p| == |Ranking|
  {
    seq(|Ranking|, k requires 0 <= k < |Ranking| => BinaryValue(Violations(Ranking[k], w)))
  }

  /** Position k holds a candidate no other candidate beats. */
  predicate Best(ws: seq<Word>, k: int) {
    0 <= k < |ws| && forall j :: 0 <= j < |ws| ==> LexLeq(Profile(ws[k]), Profile(ws[j]))
  }

  /** Position k holds the first candidate no other candidate beats: what a stable sort puts first. */
  predicate FirstBest(ws: seq<Word>, k: int) {
    Best(ws, k) && forall j :: 0 <= j < k ==> LexLess(Profile(ws[k]), Profile(ws[j]))
  }

  /** The words of a candidate list. */
  function Words(cs: seq<Candidate>): seq<Word> {
    seq(|cs|, i requires 0 <= i < |cs| => cs[i].word)
  }

  /** Every stored score vector is the profile of its word. */
  predicate Scored(cs: seq<Candidate>) {
    forall i :: 0 <= i < |cs| ==> cs[i].score == Profile(cs[i].word)
  }

  lemma {:induction false} WordsSnoc(cs: seq<Candidate>, c: Candidate)
    ensures Words(cs + [c]) == Words(cs) + [c.word]
  {
    assert forall i :: 0 <= i < |cs| ==> (cs + [c])[i] == cs[i];
  }

  /** Scores of all constraints, in ranking order. */
  method ScoreCandidate(word: Word) returns (candidateScore: seq<int>)
    requires NoOrphanRight(word)
    ensures candidateScore == Profile(word)
  {
    candidateScore := [];
    for k := 0 to |Ranking|
      invariant candidateScore == Profile(word)[..k]
    {
      var violation := Evaluate(Ranking[k], word);
      var s := Score(violation);
      assert Profile(word)[..k + 1] == Profile(word)[..k] + [s];
      candidateScore := candidateScore + [s];
    }
  }

  /** The score vectors of a candidate list. */
  function Scores(cs: seq<Candidate>): seq<seq<int>> {
    seq(|cs|, i requires 0 <= i < |cs| => cs[i].score)
  }

  /** The score vectors of a list of words. */
  function Profiles(ws: seq<Word>): seq<seq<int>> {
    seq(|ws|, i requires 0 <= i < |ws| => Profile(ws[i]))
  }

  /** Among ps[..n], the position of the first smallest vector. */
  function FirstMinimum(ps: seq<seq<int>>, n: nat): (k: nat)
    requires 0 < n <= |ps|
    ensures k < n
  {
    if n == 1 then 0
    else
      var k := FirstMinimum(ps, n - 1);
      if LexLess(ps[n - 1], ps[k]) then n - 1 else k
  }

  /** FirstMinimum finds a vector no other beats, and every earlier vector is strictly worse. */
  lemma {:induction false} FirstMinimumIsFirstBest(ps: seq<seq<int>>, n: nat)
    requires 0 < n <= |ps|
    ensures forall j :: 0 <= j < n ==> LexLeq(ps[FirstMinimum(ps, n)], ps[j])
    ensures forall j :: 0 <= j < FirstMinimum(ps, n) ==> LexLess(ps[FirstMinimum(ps, n)], ps[j])
  {
    if n == 1 {
      LexLessIrreflexive(ps[0]);
    } else {
      FirstMinimumIsFirstBest(ps, n - 1);
      var k := FirstMinimum(ps, n - 1);
      if LexLess(ps[n - 1], ps[k]) {
        forall j | 0 <= j < n - 1
          ensures LexLess(ps[n - 1], ps[j])
        {
          if ps[k] != ps[j] {
            LexLessTotal(ps[k], ps[j]);
            LexLessTransitive(ps[n - 1], ps[k], ps[j]);
          }
        }
        forall j | 0 <= j < n
          ensures LexLeq(ps[n - 1], ps[j])
        {
          if j < n - 1 {
            LexLessAsymmetric(ps[n - 1], ps[j]);
          } else {
            LexLessIrreflexive(ps[n - 1]);
          }
        }
      }
    }
  }

  /**
   The candidate a sort by score puts first: a scan that keeps the first of
   the smallest score vectors, as Python's stable sort does.
   */
  method SelectBest(candidates: seq<Candidate>) returns (best: nat)
    requires |candidates| > 0
    ensures best == FirstMinimum(Scores(candidates), |candidates|)
    ensures forall j :: 0 <= j < |candidates| ==> LexLeq(candidates[best].score, candidates[j].score)
    ensures forall j :: 0 <= j < best ==> LexLess(candidates[best].score, candidates[j].score)
  {
    ghost var ps := Scores(candidates);
    best := 0;
    for i := 1 to |candidates|
      invariant best == FirstMinimum(ps, i)
    {
      if LexLess(candidates[i].score, candidates[best].score) {
        best := i;
      }
    }
    FirstMinimumIsFirstBest(ps, |candidates|);
    assert forall j :: 0 <= j < |candidates| ==> ps[j] == candidates[j].score;
  }

  /** The position SerialOT's winner has in the candidate list. */
  function StepIndex(w: Word): nat {
    FirstMinimum(Profiles(Candidates(w)), |Candidates(w)|)
  }

  /** The winner of one SerialOT step on w. */
  function Step(w: Word): Word {
    var cs := Candidates(w);
    cs[FirstMinimum(Profiles(cs), |cs|)]
  }

  lemma {:induction false} StepIsFirstBest(w: Word)
    ensures FirstBest(Candidates(w), StepIndex(w)) && Step(w) == Candidates(w)[StepIndex(w)]
  {
    var cs := Candidates(w);
    var ps := Profiles(cs);
    var k := FirstMinimum(ps, |cs|);
    FirstMinimumIsFirstBest(ps, |cs|);
    forall j | 0 <= j < |cs|
      ensures LexLeq(Profile(cs[k]), Profile(cs[j]))
      ensures j < k ==> LexLess(Profile(cs[k]), Profile(cs[j]))
    {
      assert ps[j] == Profile(cs[j]) && ps[k] == Profile(cs[k]);
    }
  }

  /**
   The winner prints the same as w exactly when it is w itself; otherwise it
   is a generated candidate, with fewer unflagged syllables.
   */
  lemma {:induction false} StepOutcome(w: Word)
    ensures Render(Step(w)) == Render(w) <==> Step(w) == w
    ensures Step(w) == w <==> StepIndex(w) == |Generated(w)|
    ensures Step(w) != w ==> Step(w) in Generated(w) && UnflaggedCount(Step(w)) < UnflaggedCount(w)
  {
    var cs := Candidates(w);
    var k := StepIndex(w);
    StepIsFirstBest(w);
    if k < |Generated(w)| {
      assert Step(w) == Generated(w)[k];
      GeneratedFacts(w, Step(w));
      GeneratedPrintsDifferently(w, Step(w));
    } else {
      assert Step(w) == w;
    }
  }

  /** The word the loop in main ends with. */
  function Fixpoint(w: Word): Word
    decreases UnflaggedCount(w)
  {
    if Render(Step(w)) == Render(w) then w
    else
      StepOutcome(w);
      Fixpoint(Step(w))
  }

  /** Stresses syllable leftParens + i of the foot exactly when bit i of mask is set. */
  method StressFoot(copy: Word, leftParens: nat, footSize: nat, mask: nat) returns (stressedCopy: Word)
    requires leftParens + footSize <= |copy|
    ensures |stressedCopy| == |copy|
    ensures forall j :: 0 <= j < |copy| ==>
      stressedCopy[j] == if leftParens <= j < leftParens + footSize then copy[j].(hasStress := Bit(mask, j - leftParens)) else copy[j]
  {
    stressedCopy := copy;
    for i := 0 to footSize
      invariant |stressedCopy| == |copy|
      invariant forall j :: 0 <= j < |copy| ==>
        stressedCopy[j] == if leftParens <= j < leftParens + i then copy[j].(hasStress := Bit(mask, j - leftParens)) else copy[j]
    {
      if (mask / Pow2(i)) % 2 == 1 {
        stressedCopy := stressedCopy[leftParens + i := stressedCopy[leftParens + i].(hasStress := true)];
      } else {
        stressedCopy := stressedCopy[leftParens + i := stressedCopy[leftParens + i].(hasStress := false)];
      }
    }
  }

  /** The candidate built for (leftParens, rightParens, mask) is the word with that new foot. */
  lemma {:induction false} StressedCopyIsNewFoot(word: Word, copy: Word, stressedCopy: Word, l: nat, r: nat, mask: nat)
    requires l <= r < |word| && !Flagged(word[l]) && !Flagged(word[r])
    requires copy == word[l := word[l].(hasLeftParenthesis := true)][r := word[l := word[l].(hasLeftParenthesis := true)][r].(hasRightParenthesis := true)]
    requires |stressedCopy| == |copy|
    requires forall j :: 0 <= j < |copy| ==>
      stressedCopy[j] == if l <= j < l + (r - l + 1) then copy[j].(hasStress := Bit(mask, j - l)) else copy[j]
    ensures stressedCopy == WithFoot(word, l, r, mask)
  {
    var c := WithFoot(word, l, r, mask);
    forall j | 0 <= j < |word|
      ensures stressedCopy[j] == c[j]
    {
    }
  }

  /**
   The body of the loop over right ends in SerialOT: when the span from
   leftParens to rightParens is at most two syllables long and neither end
   carries a bracket, adds one scored candidate per non-zero stress mask.
   */
  method AddSpan(word: Word, candidates: seq<Candidate>, leftParens: nat, rightParens: nat)
    returns (extended: seq<Candidate>)
    requires NoOrphanRight(word) && leftParens <= rightParens < |word| && Scored(candidates)
    ensures Words(extended) == Words(candidates) + SpanCandidates(word, leftParens, rightParens)
    ensures Scored(extended)
  {
    extended := candidates;
    if rightParens - leftParens + 1 > 2 {
      return;
    }
    var copy := word;
    if copy[leftParens].hasLeftParenthesis || copy[leftParens].hasRightParenthesis ||
       copy[rightParens].hasLeftParenthesis || copy[rightParens].hasRightParenthesis {
      return;
    }
    copy := copy[leftParens := copy[leftParens].(hasLeftParenthesis := true)];
    copy := copy[rightParens := copy[rightParens].(hasRightParenthesis := true)];
    var footSize := rightParens - leftParens + 1;
    for mask := 1 to Pow2(footSize)
      invariant Words(extended) == Words(candidates) + MaskRun(word, leftParens, rightParens, mask)
      invariant Scored(extended)
    {
      var stressedCopy := StressFoot(copy, leftParens, footSize, mask);
      StressedCopyIsNewFoot(word, copy, stressedCopy, leftParens, rightParens, mask);
      NewFootBrackets(word, leftParens, rightParens, mask);
      var candidateScore := ScoreCandidate(stressedCopy);
      WordsSnoc(extended, Candidate(stressedCopy, candidateScore));
      extended := extended + [Candidate(stressedCopy, candidateScore)];
    }
  }

  /** The loop of SerialOT over right ends, for one left end: the spans leftParens .. rightParens in turn. */
  method AddRightEnds(word: Word, candidates: seq<Candidate>, leftParens: nat) returns (extended: seq<Candidate>)
    requires NoOrphanRight(word) && leftParens < |word| && Scored(candidates)
    ensures Words(extended) == Words(candidates) + RightRun(word, leftParens, |word|)
    ensures Scored(extended)
  {
    extended := candidates;
    for rightParens := leftParens to |word|
      invariant Words(extended) == Words(candidates) + RightRun(word, leftParens, rightParens)
      invariant Scored(extended)
    {
      ghost var done := RightRun(word, leftParens, rightParens);
      ghost var span := SpanCandidates(word, leftParens, rightParens);
      extended := AddSpan(word, extended, leftParens, rightParens);
      assert RightRun(word, leftParens, rightParens + 1) == done + span;
      assert (Words(candidates) + done) + span == Words(candidates) + (done + span);
    }
  }

  /** The loop of SerialOT over left ends: every generated candidate, scored, in generation order. */
  method GenerateCandidates(word: Word) returns (candidates: seq<Candidate>)
    requires NoOrphanRight(word)
    ensures Words(candidates) == Generated(word)
    ensures Scored(candidates)
  {
    candidates := [];
    for leftParens := 0 to |word|
      invariant Words(candidates) == LeftRun(word, leftParens)
      invariant Scored(candidates)
    {
      candidates := AddRightEnds(word, candidates, leftParens);
    }
  }

  /**
   One SerialOT step: the first candidate, in generation order, whose score
   vector no other candidate's beats.
   */
  method SerialOT(word: Word) returns (best: Word)
    requires NoOrphanRight(word)
    ensures best == Step(word)
    ensures FirstBest(Candidates(word), StepIndex(word)) && best == Candidates(word)[StepIndex(word)]
  {
    var candidates := GenerateCandidates(word);
    var candidateScore := ScoreCandidate(word);
    WordsSnoc(candidates, Candidate(word, candidateScore));
    candidates := candidates + [Candidate(word, candidateScore)];
    assert Words(candidates) == Candidates(word);
    assert Scores(candidates) == Profiles(Candidates(word));
    var k := SelectBest(candidates);
    best := candidates[k].word;
    StepIsFirstBest(word);
  }

  // ---------------------------------------------------------------------
  // The winner

  /**
   All candidates an unstable sort may put first have the same score
   vector, so the C++ and Python winners can differ only among candidates
   that tie on every constraint.
   */
  lemma {:induction false} BestCandidatesTie(ws: seq<Word>, k1: int, k2: int)
    requires Best(ws, k1) && Best(ws, k2)
    ensures Profile(ws[k1]) == Profile(ws[k2])
  {
    LexLeqAntisymmetric(Profile(ws[k1]), Profile(ws[k2]));
  }

  /**
   The unchanged word, listed last, wins exactly when its score vector is
   strictly better than every generated candidate's.
   */
  lemma {:induction false} UnchangedWins(w: Word)
    ensures FirstBest(Candidates(w), |Generated(w)|) <==>
      forall j :: 0 <= j < |Generated(w)| ==> LexLess(Profile(w), Profile(Generated(w)[j]))
  {
    var cs := Candidates(w);
    var n := |Generated(w)|;
    assert cs[n] == w;
    assert forall j :: 0 <= j < n ==> cs[j] == Generated(w)[j];
    if forall j :: 0 <= j < n ==> LexLess(Profile(w), Profile(Generated(w)[j])) {
      LexLessIrreflexive(Profile(w));
      forall j | 0 <= j < |cs|
        ensures LexLeq(Profile(cs[n]), Profile(cs[j]))
      {
        if j < n {
          LexLessAsymmetric(Profile(w), Profile(cs[j]));
        }
      }
    }
  }

  /** Each score of a word of n syllables lies in [0, 2^n), and fits a C++ int when n <= 31. */
  lemma {:induction false} ProfileBounds(w: Word, k: nat)
    requires k < |Ranking|
    ensures 0 <= Profile(w)[k] < Pow2(|w|)
    ensures |w| <= 31 ==> Profile(w)[k] < 0x8000_0000
  {
    BinaryValueBounds(Violations(Ranking[k], w));
    if |w| <= 31 {
      ScoreFitsInt32(Violations(Ranking[k], w));
    }
  }

  // ---------------------------------------------------------------------
  // The loop in main

  /**
   Repeats SerialOT until the winner prints the same as the current word.
   Each round that goes on adds a foot, so the loop ends; it ends on a word
   that is itself the winner of its own candidate list. A syllable that
   carries a bracket keeps it (and its stress), weights never change, the score vector never gets worse,
   and a flat bracketing of one- and two-syllable feet stays so.
   */
  method Converge(start: Word) returns (v: Word)
    requires NoOrphanRight(start)
    ensures v == Fixpoint(start)
    ensures NoOrphanRight(v) && SameWeights(v, start)
    ensures forall i :: 0 <= i < |start| && Flagged(start[i]) ==> v[i] == start[i]
    ensures WellBracketed(start) ==> WellBracketed(v)
    ensures LexLeq(Profile(v), Profile(start))
    ensures Step(v) == v && FirstBest(Candidates(v), |Candidates(v)| - 1)
  {
    v := start;
    LexLessIrreflexive(Profile(start));
    while true
      invariant Fixpoint(v) == Fixpoint(start)
      invariant NoOrphanRight(v) && Develops(start, v)
      decreases UnflaggedCount(v)
    {
      var ret := SerialOT(v);
      var printedRet := PrintInfo(ret);
      var printedV := PrintInfo(v);
      StepOutcome(v);
      FixpointUnfold(v);
      if printedRet == printedV {
        StepIsFirstBest(v);
        assert StepIndex(v) == |Candidates(v)| - 1;
        break;
      }
      StepDevelops(start, v);
      v := ret;
    }
  }

  /** v is start with feet added: same weights, bracketed syllables kept, flatness kept, and a score vector no worse. */
  predicate Develops(start: Word, v: Word) {
    && SameWeights(v, start)
    && (forall i :: 0 <= i < |start| && Flagged(start[i]) ==> v[i] == start[i])
    && (WellBracketed(start) ==> WellBracketed(v))
    && LexLeq(Profile(v), Profile(start))
  }

  lemma {:induction false} FixpointUnfold(w: Word)
    ensures Step(w) == w ==> Fixpoint(w) == w
    ensures Step(w) != w ==> Fixpoint(w) == Fixpoint(Step(w))
  {
    StepOutcome(w);
  }

  /** A round that changes the word keeps it a development of the start. */
  lemma {:induction false} StepDevelops(start: Word, v: Word)
    requires NoOrphanRight(v) && Develops(start, v) && Step(v) != v
    ensures NoOrphanRight(Step(v)) && Develops(start, Step(v))
  {
    var ret := Step(v);
    StepOutcome(v);
    StepIsFirstBest(v);
    GeneratedFacts(v, ret);
    assert LexLeq(Profile(ret), Profile(v)) by {
      assert Candidates(v)[|Generated(v)|] == v;
    }
    LexLeqTransitive(Profile(ret), Profile(v), Profile(start));
  }

  /** The whole program: read the stress string, then run SerialOT to its fixpoint. */
  method Run(inputSequence: string) returns (result: Word)
    requires NoTrailingMark(inputSequence)
    ensures result == Fixpoint(Parse(inputSequence))
    ensures SameWeights(result, Parse(inputSequence))
    ensures WellBracketed(result)
    ensures Step(result) == result && FirstBest(Candidates(result), |Candidates(result)| - 1)
  {
    var v := ParseString(inputSequence);
    ParsedUnflagged(inputSequence, |inputSequence|);
    NoBracketsCount(v, |v|);
    result := Converge(v);
  }
}
