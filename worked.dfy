/**
 A worked run on the input "LL": the first round adds the trochee ('LL), and
 the second round keeps it, so the program ends with "('LL)".
 */
module Worked {
  import opened Syllables
  import opened Feet
  import opened Constraints
  import opened Scoring
  import opened Generation
  import opened Text
  import opened Serial

  lemma VectorValues()
    ensures BinaryValue([0, 0]) == 0 && BinaryValue([0, 1]) == 1
    ensures BinaryValue([1, 0]) == 2 && BinaryValue([1, 1]) == 3
  {
    assert Pow2(1) == 2;
    assert [0, 0][1..] == [0] && [0, 1][1..] == [1] && [1, 0][1..] == [0] && [1, 1][1..] == [1];
  }

  lemma ProfileInOrder(w: Word)
    ensures Profile(w) == [BinaryValue(Violations(Trochee, w)), BinaryValue(Violations(ParseLeft, w)),
                           BinaryValue(Violations(Iamb, w)), BinaryValue(Violations(ParseRight, w))]
  {
  }

  lemma ProfileOf(w: Word, t: seq<int>, pl: seq<int>, i: seq<int>, pr: seq<int>)
    requires Violations(Trochee, w) == t && Violations(ParseLeft, w) == pl
    requires Violations(Iamb, w) == i && Violations(ParseRight, w) == pr
    ensures Profile(w) == [BinaryValue(t), BinaryValue(pl), BinaryValue(i), BinaryValue(pr)]
  {
    ProfileInOrder(w);
  }

  function LL(): Word { [Plain('L'), Plain('L')] }
  function MonoLeft(): Word { [Syllable('L', true, true, true), Plain('L')] }
  function Trochaic(): Word { [Syllable('L', true, false, true), Syllable('L', false, true, false)] }
  function Iambic(): Word { [Syllable('L', true, false, false), Syllable('L', false, true, true)] }
  function Spondaic(): Word { [Syllable('L', true, false, true), Syllable('L', false, true, true)] }
  function MonoRight(): Word { [Plain('L'), Syllable('L', true, true, true)] }

  lemma LLCandidates()
    ensures Candidates(LL()) == [MonoLeft(), Trochaic(), Iambic(), Spondaic(), MonoRight(), LL()]
  {
    var w := LL();
    assert Pow2(1) == 2 && Pow2(2) == 4;
    assert WithFoot(w, 0, 0, 1) == MonoLeft();
    assert WithFoot(w, 0, 1, 1) == Trochaic();
    assert WithFoot(w, 0, 1, 2) == Iambic();
    assert WithFoot(w, 0, 1, 3) == Spondaic();
    assert WithFoot(w, 1, 1, 1) == MonoRight();
  }

  lemma MonoLeftFeet()
    ensures FeetOf(MonoLeft()) == [Foot(0, 0)]
  {
    assert FeetUpTo(MonoLeft(), 1) == [Foot(0, 0)];
  }

  lemma MonoLeftFootMarks()
    ensures Violations(Trochee, MonoLeft()) == [1, 0] && Violations(Iamb, MonoLeft()) == [1, 0]
  {
    MonoLeftFeet();
  }

  lemma MonoLeftParseMarks()
    ensures Violations(ParseLeft, MonoLeft()) == [0, 1] && Violations(ParseRight, MonoLeft()) == [1, 0]
  {
    MonoLeftFeet();
  }

  lemma MonoLeftProfile()
    ensures Profile(MonoLeft()) == [2, 1, 2, 2]
  {
    VectorValues();
    MonoLeftFootMarks();
    MonoLeftParseMarks();
    ProfileOf(MonoLeft(), [1, 0], [0, 1], [1, 0], [1, 0]);
  }

  lemma TrochaicFeet()
    ensures FeetOf(Trochaic()) == [Foot(0, 1)]
  {
    assert FeetUpTo(Trochaic(), 1) == [Foot(0, -1)];
  }

  lemma TrochaicFootMarks()
    ensures Violations(Trochee, Trochaic()) == [0, 0] && Violations(Iamb, Trochaic()) == [1, 1]
  {
    TrochaicFeet();
  }

  lemma TrochaicParseMarks()
    ensures Violations(ParseLeft, Trochaic()) == [0, 0] && Violations(ParseRight, Trochaic()) == [0, 0]
  {
    TrochaicFeet();
  }

  lemma TrochaicProfile()
    ensures Profile(Trochaic()) == [0, 0, 3, 0]
  {
    VectorValues();
    TrochaicFootMarks();
    TrochaicParseMarks();
    ProfileOf(Trochaic(), [0, 0], [0, 0], [1, 1], [0, 0]);
  }

  lemma IambicFeet()
    ensures FeetOf(Iambic()) == [Foot(0, 1)]
  {
    assert FeetUpTo(Iambic(), 1) == [Foot(0, -1)];
  }

  lemma IambicFootMarks()
    ensures Violations(Trochee, Iambic()) == [1, 1] && Violations(Iamb, Iambic()) == [0, 0]
  {
    IambicFeet();
  }

  lemma IambicParseMarks()
    ensures Violations(ParseLeft, Iambic()) == [0, 0] && Violations(ParseRight, Iambic()) == [0, 0]
  {
    IambicFeet();
  }

  lemma IambicProfile()
    ensures Profile(Iambic()) == [3, 0, 0, 0]
  {
    VectorValues();
    IambicFootMarks();
    IambicParseMarks();
    ProfileOf(Iambic(), [1, 1], [0, 0], [0, 0], [0, 0]);
  }

  lemma SpondaicFeet()
    ensures FeetOf(Spondaic()) == [Foot(0, 1)]
  {
    assert FeetUpTo(Spondaic(), 1) == [Foot(0, -1)];
  }

  lemma SpondaicFootMarks()
    ensures Violations(Trochee, Spondaic()) == [1, 1] && Violations(Iamb, Spondaic()) == [1, 1]
  {
    SpondaicFeet();
  }

  lemma SpondaicParseMarks()
    ensures Violations(ParseLeft, Spondaic()) == [0, 0] && Violations(ParseRight, Spondaic()) == [0, 0]
  {
    SpondaicFeet();
  }

  lemma SpondaicProfile()
    ensures Profile(Spondaic()) == [3, 0, 3, 0]
  {
    VectorValues();
    SpondaicFootMarks();
    SpondaicParseMarks();
    ProfileOf(Spondaic(), [1, 1], [0, 0], [1, 1], [0, 0]);
  }

  lemma MonoRightFeet()
    ensures FeetOf(MonoRight()) == [Foot(1, 1)]
  {
  }

  lemma MonoRightFootMarks()
    ensures Violations(Trochee, MonoRight()) == [0, 1] && Violations(Iamb, MonoRight()) == [0, 1]
  {
    MonoRightFeet();
  }

  lemma MonoRightParseMarks()
    ensures Violations(ParseLeft, MonoRight()) == [1, 0] && Violations(ParseRight, MonoRight()) == [0, 1]
  {
    MonoRightFeet();
  }

  lemma MonoRightProfile()
    ensures Profile(MonoRight()) == [1, 2, 1, 1]
  {
    VectorValues();
    MonoRightFootMarks();
    MonoRightParseMarks();
    ProfileOf(MonoRight(), [0, 1], [1, 0], [0, 1], [0, 1]);
  }

  lemma LLFeet()
    ensures FeetOf(LL()) == []
  {
  }

  lemma LLFootMarks()
    ensures Violations(Trochee, LL()) == [0, 0] && Violations(Iamb, LL()) == [0, 0]
  {
    LLFeet();
  }

  lemma LLParseMarks()
    ensures Violations(ParseLeft, LL()) == [1, 1] && Violations(ParseRight, LL()) == [1, 1]
  {
    LLFeet();
  }

  lemma LLProfile()
    ensures Profile(LL()) == [0, 3, 0, 3]
  {
    VectorValues();
    LLFootMarks();
    LLParseMarks();
    ProfileOf(LL(), [0, 0], [1, 1], [0, 0], [1, 1]);
  }

  function LLScores(): seq<seq<int>> {
    [[2, 1, 2, 2], [0, 0, 3, 0], [3, 0, 0, 0], [3, 0, 3, 0], [1, 2, 1, 1], [0, 3, 0, 3]]
  }

  lemma LLProfiles()
    ensures Profiles(Candidates(LL())) == LLScores()
  {
    LLCandidates();
    var cs := Candidates(LL());
    MonoLeftProfile();
    TrochaicProfile();
    IambicProfile();
    SpondaicProfile();
    MonoRightProfile();
    LLProfile();
    var ps := Profiles(cs);
    forall i | 0 <= i < 6
      ensures ps[i] == LLScores()[i]
    {
    }
  }

  lemma LLFirstMinimum()
    ensures FirstMinimum(LLScores(), 6) == 1
  {
    var ps := LLScores();
    assert LexLess(ps[1], ps[0]);
    assert FirstMinimum(ps, 2) == 1;
    assert !LexLess(ps[2], ps[1]);
    assert FirstMinimum(ps, 3) == 1;
    assert !LexLess(ps[3], ps[1]);
    assert FirstMinimum(ps, 4) == 1;
    assert !LexLess(ps[4], ps[1]);
    assert FirstMinimum(ps, 5) == 1;
    assert !LexLess(ps[5], ps[1]);
  }

  /** The first round on "LL": the trochee ('LL) is the first candidate with the smallest score vector. */
  lemma LLFirstRound()
    ensures StepIndex(LL()) == 1 && Step(LL()) == Trochaic()
  {
    LLCandidates();
    LLProfiles();
    LLFirstMinimum();
  }

  /** The second round on ('LL): both syllables are footed, so the only candidate is the word itself. */
  lemma TrochaicSecondRound()
    ensures Candidates(Trochaic()) == [Trochaic()] && Step(Trochaic()) == Trochaic()
  {
    var w := Trochaic();
    assert RightRun(w, 1, 2) == [];
    assert RightRun(w, 0, 2) == [];
    assert Generated(w) == [];
  }

  lemma LLParses()
    ensures Parse("LL") == LL()
  {
    var s := "LL";
    assert ScanUpTo(s, 1) == Scan([Plain('L')], false);
    assert ScanUpTo(s, 2) == Scan([Plain('L'), Plain('L')], false);
  }

  lemma TrochaicPrints()
    ensures Render(Trochaic()) == "('LL)"
  {
    assert Trochaic()[..1] == [Trochaic()[0]];
  }

  /** Reading "LL" and running the loop in main ends with the word printed "('LL)". */
  lemma LLRun()
    ensures Parse("LL") == LL()
    ensures Fixpoint(LL()) == Trochaic()
    ensures Render(Fixpoint(LL())) == "('LL)"
  {
    LLParses();
    LLFirstRound();
    TrochaicSecondRound();
    FixpointUnfold(LL());
    FixpointUnfold(Trochaic());
    TrochaicPrints();
  }
}
