/**
 The four violable constraints. Each maps a word to a violation vector of the
 word's length whose entries are 0 or 1; the word is passed by value and is
 never changed.
 */
module Constraints {
  import opened Syllables
  import opened Feet

  datatype Constraint = Trochee | ParseLeft | Iamb | ParseRight

  /** The constraint ranking, highest-ranked first. */
  const Ranking: seq<Constraint> := [Trochee, ParseLeft, Iamb, ParseRight]

  /** Trochee wants a two-syllable foot stressed on its left syllable, Iamb on its right one. */
  datatype Headedness = LeftHeaded | RightHeaded

  /**
   A foot breaks the foot-form constraint: three or more syllables, two
   syllables stressed on the wrong side, or a single Light syllable. A foot
   never closed (size zero or less) breaks nothing.
   */
  predicate FootViolates(h: Headedness, w: Word, f: Foot) {
    var len := Size(f);
    if len >= 3 then true
    else if len == 2 then
      0 <= f.left && f.right < |w| &&
      match h
      case LeftHeaded => w[f.right].hasStress || !w[f.left].hasStress
      case RightHeaded => !w[f.right].hasStress || w[f.left].hasStress
    else if len == 1 then
      0 <= f.left < |w| && Light(w[f.left])
    else false
  }

  /** Syllable i lies in a foot of `feet` that breaks the foot-form constraint. */
  predicate InViolatingFoot(h: Headedness, w: Word, feet: seq<Foot>, i: int)
    decreases |feet|
  {
    |feet| > 0 &&
    ((Covers(feet[|feet| - 1], i) && FootViolates(h, w, feet[|feet| - 1])) ||
     InViolatingFoot(h, w, feet[..|feet| - 1], i))
  }

  /** The violation vector of Trochee (LeftHeaded) or Iamb (RightHeaded). */
  function FootMarks(h: Headedness, w: Word): seq<int> {
    var feet := FeetOf(w);
    seq(|w|, i => if InViolatingFoot(h, w, feet, i) then 1 else 0)
  }

  /** The violation vector of ParseLeft: a 1 for each syllable with no bracket flag. */
  function UnparsedMarks(w: Word): seq<int> {
    seq(|w|, i requires 0 <= i < |w| => if Flagged(w[i]) then 0 else 1)
  }

  function Reverse(s: seq<int>): (r: seq<int>)
    ensures |r| == |s|
    ensures forall i :: 0 <= i < |s| ==> r[i] == s[|s| - 1 - i]
  {
    if s == [] then [] else Reverse(s[1..]) + [s[0]]
  }

  /** The violation vector that constraint c assigns to w. */
  function Violations(c: Constraint, w: Word): (v: seq<int>)
    ensures |v| == |w|
    ensures forall i :: 0 <= i < |v| ==> v[i] == 0 || v[i] == 1
  {
    match c
    case Trochee => FootMarks(LeftHeaded, w)
    case Iamb => FootMarks(RightHeaded, w)
    case ParseLeft => UnparsedMarks(w)
    case ParseRight => Reverse(UnparsedMarks(w))
  }

  // ---------------------------------------------------------------------
  // The evaluators

  /** Model of assignViolation: sets the entries leftBound..rightBound to 1 (none when rightBound < leftBound). */
  method AssignViolation(leftBound: int, rightBound: int, violation: array<int>)
    requires 0 <= leftBound && rightBound < violation.Length
    modifies violation
    ensures forall i :: 0 <= i < violation.Length ==>
      violation[i] == if leftBound <= i <= rightBound then 1 else old(violation[i])
  {
    var i := leftBound;
    while i <= rightBound
      invariant leftBound <= i && (i <= rightBound + 1 || i == leftBound)
      invariant forall j :: 0 <= j < violation.Length ==>
        violation[j] == if leftBound <= j < i then 1 else old(violation[j])
    {
      violation[i] := 1;
      i := i + 1;
    }
  }

  /** One iteration of the loop over feet in Trochee and Iamb: the foot's syllables are marked if it violates. */
  method MarkFoot(h: Headedness, word: Word, parens: Foot, violation: array<int>)
    requires violation.Length == |word|
    requires 0 <= parens.left && parens.right < |word|
    modifies violation
    ensures forall i :: 0 <= i < |word| ==>
      violation[i] == if Covers(parens, i) && FootViolates(h, word, parens) then 1 else old(violation[i])
  {
    var leftParens, rightParens := parens.left, parens.right;
    var len := rightParens - leftParens + 1;
    if len >= 3 {
      AssignViolation(leftParens, rightParens, violation);
    }
    if len == 2 {
      var misplaced := match h
        case LeftHeaded => word[rightParens].hasStress || !word[leftParens].hasStress
        case RightHeaded => !word[rightParens].hasStress || word[leftParens].hasStress;
      if misplaced {
        AssignViolation(leftParens, rightParens, violation);
      }
    }
    if len == 1 {
      if Light(word[leftParens]) {
        AssignViolation(leftParens, rightParens, violation);
      }
    }
  }

  /** The body shared by Trochee and Iamb: every foot found by FindLocation is checked in turn. */
  method MarkFeet(h: Headedness, word: Word) returns (violation: seq<int>)
    requires NoOrphanRight(word)
    ensures violation == FootMarks(h, word)
  {
    var wordLen := |word|;
    var marks := new int[wordLen](_ => 0);
    var parensLocation := FindLocation(word);
    FeetInRange(word);
    for idx := 0 to |parensLocation|
      invariant forall i :: 0 <= i < wordLen ==>
        marks[i] == if InViolatingFoot(h, word, parensLocation[..idx], i) then 1 else 0
    {
      ghost var done := parensLocation[..idx];
      MarkFoot(h, word, parensLocation[idx], marks);
      assert parensLocation[..idx + 1] == done + [parensLocation[idx]];
      forall i | 0 <= i < wordLen
        ensures marks[i] == if InViolatingFoot(h, word, parensLocation[..idx + 1], i) then 1 else 0
      {
        InViolatingFootSnoc(h, word, done, parensLocation[idx], i);
      }
    }
    violation := marks[..];
    assert parensLocation[..|parensLocation|] == parensLocation;
  }

  /** Trochee: feet of three or more syllables, two-syllable feet not stressed on the left only, and Light one-syllable feet are marked. */
  method TrocheeViolations(word: Word) returns (violation: seq<int>)
    requires NoOrphanRight(word)
    ensures violation == Violations(Trochee, word)
  {
    violation := MarkFeet(LeftHeaded, word);
  }

  /** Iamb: as Trochee, but a two-syllable foot must be stressed on the right only. */
  method IambViolations(word: Word) returns (violation: seq<int>)
    requires NoOrphanRight(word)
    ensures violation == Violations(Iamb, word)
  {
    violation := MarkFeet(RightHeaded, word);
  }

  /** The loop shared by ParseLeft and ParseRight: a fresh array with a 1 at every syllable with no bracket flag. */
  method MarkUnparsed(word: Word) returns (marks: array<int>)
    ensures fresh(marks)
    ensures marks[..] == UnparsedMarks(word)
  {
    var wordLen := |word|;
    marks := new int[wordLen](_ => 0);
    for i := 0 to wordLen
      invariant forall j :: 0 <= j < wordLen ==> marks[j] == if j < i && !Flagged(word[j]) then 1 else 0
    {
      if !word[i].hasLeftParenthesis && !word[i].hasRightParenthesis {
        marks[i] := 1;
      }
    }
  }

  /** ParseLeft: every syllable without a bracket flag is marked. */
  method ParseLeftViolations(word: Word) returns (violation: seq<int>)
    ensures |violation| == |word|
    ensures forall i :: 0 <= i < |word| ==>
      violation[i] == if !word[i].hasLeftParenthesis && !word[i].hasRightParenthesis then 1 else 0
  {
    var marks := MarkUnparsed(word);
    violation := marks[..];
  }

  /** Model of std::reverse / list.reverse on the violation vector. */
  method ReverseInPlace(a: array<int>)
    modifies a
    ensures a[..] == Reverse(old(a[..]))
  {
    var n := a.Length;
    for i := 0 to n / 2
      invariant forall j :: 0 <= j < i ==> a[j] == old(a[n - 1 - j]) && a[n - 1 - j] == old(a[j])
      invariant forall j :: i <= j < n - i ==> a[j] == old(a[j])
    {
      a[i], a[n - 1 - i] := a[n - 1 - i], a[i];
    }
    ghost var before := old(a[..]);
    assert forall j :: 0 <= j < n ==> a[..][j] == Reverse(before)[j];
  }

  /** ParseRight: the ParseLeft vector, reversed end to end, so entry i speaks of syllable |word| - 1 - i. */
  method ParseRightViolations(word: Word) returns (violation: seq<int>)
    ensures violation == Reverse(Violations(ParseLeft, word))
    ensures forall i :: 0 <= i < |word| ==>
      violation[i] == if Flagged(word[|word| - 1 - i]) then 0 else 1
  {
    var marks := MarkUnparsed(word);
    ReverseInPlace(marks);
    violation := marks[..];
    forall i | 0 <= i < |word|
      ensures violation[i] == if Flagged(word[|word| - 1 - i]) then 0 else 1
    {
      assert violation[i] == UnparsedMarks(word)[|word| - 1 - i];
    }
  }

  /** Runs constraint c on the word, as one entry of the constraint list does. */
  method Evaluate(c: Constraint, word: Word) returns (violation: seq<int>)
    requires NoOrphanRight(word)
    ensures violation == Violations(c, word)
  {
    match c
    case Trochee => violation := TrocheeViolations(word);
    case ParseLeft => violation := ParseLeftViolations(word);
    case Iamb => violation := IambViolations(word);
    case ParseRight => violation := ParseRightViolations(word);
  }

  // ---------------------------------------------------------------------
  // What the violation vectors mean

  lemma {:induction false} InViolatingFootSnoc(h: Headedness, w: Word, feet: seq<Foot>, f: Foot, i: int)
    ensures InViolatingFoot(h, w, feet + [f], i) <==>
      (Covers(f, i) && FootViolates(h, w, f)) || InViolatingFoot(h, w, feet, i)
  {
    assert (feet + [f])[..|feet|] == feet;
  }

  lemma {:induction false} InViolatingFootIff(h: Headedness, w: Word, feet: seq<Foot>, i: int)
    ensures InViolatingFoot(h, w, feet, i) <==>
      exists k :: 0 <= k < |feet| && Covers(feet[k], i) && FootViolates(h, w, feet[k])
  {
    if |feet| > 0 {
      var init := feet[..|feet| - 1];
      InViolatingFootIff(h, w, init, i);
      if InViolatingFoot(h, w, init, i) {
        var k :| 0 <= k < |init| && Covers(init[k], i) && FootViolates(h, w, init[k]);
        assert feet[k] == init[k];
      }
      if exists k :: 0 <= k < |feet| && Covers(feet[k], i) && FootViolates(h, w, feet[k]) {
        var k :| 0 <= k < |feet| && Covers(feet[k], i) && FootViolates(h, w, feet[k]);
        if k < |feet| - 1 {
          assert init[k] == feet[k];
        }
      }
    }
  }

  /**
   In any word, Trochee and Iamb mark syllable i exactly when it lies in a
   foot that breaks the constraint: in particular a syllable outside every
   foot is never marked, and a foot of three or more syllables (which can
   only come from stray brackets) has all its syllables marked.
   */
  lemma {:induction false} FootMarksMeaning(w: Word, i: int)
    requires 0 <= i < |w|
    ensures var feet := FeetOf(w);
      && (Violations(Trochee, w)[i] == 1 <==>
            exists k :: 0 <= k < |feet| && Covers(feet[k], i) && FootViolates(LeftHeaded, w, feet[k]))
      && (Violations(Iamb, w)[i] == 1 <==>
            exists k :: 0 <= k < |feet| && Covers(feet[k], i) && FootViolates(RightHeaded, w, feet[k]))
      && ((forall k :: 0 <= k < |feet| ==> !Covers(feet[k], i)) ==>
            Violations(Trochee, w)[i] == 0 && Violations(Iamb, w)[i] == 0)
      && (forall k :: 0 <= k < |feet| && Covers(feet[k], i) && Size(feet[k]) >= 3 ==>
            Violations(Trochee, w)[i] == 1 && Violations(Iamb, w)[i] == 1)
  {
    InViolatingFootIff(LeftHeaded, w, FeetOf(w), i);
    InViolatingFootIff(RightHeaded, w, FeetOf(w), i);
  }

  /** In a matched word feet do not overlap, so a syllable of foot k is marked exactly when foot k itself violates. */
  lemma {:induction false} MatchedFootMarks(h: Headedness, w: Word, k: int, i: int)
    requires Matched(w)
    requires 0 <= k < |FeetOf(w)| && Covers(FeetOf(w)[k], i)
    ensures 0 <= i < |w|
    ensures FootMarks(h, w)[i] == 1 <==> FootViolates(h, w, FeetOf(w)[k])
  {
    var feet := FeetOf(w);
    MatchedFeet(w);
    InViolatingFootIff(h, w, feet, i);
    forall k' | 0 <= k' < |feet| && k' != k
      ensures !Covers(feet[k'], i)
    {
      if k' < k {
        assert feet[k'].right < feet[k].left;
      } else {
        assert feet[k].right < feet[k'].left;
      }
    }
  }

  /**
   A two-syllable foot of a matched word: both its syllables get the same
   mark; Trochee leaves them unmarked exactly when the left one is stressed
   and the right one is not, and Iamb exactly when the right one is stressed
   and the left one is not.
   */
  lemma {:induction false} DisyllabicFoot(w: Word, k: int)
    requires Matched(w)
    requires 0 <= k < |FeetOf(w)| && Size(FeetOf(w)[k]) == 2
    ensures var f := FeetOf(w)[k];
      && 0 <= f.left && f.right == f.left + 1 < |w|
      && Violations(Trochee, w)[f.left] == Violations(Trochee, w)[f.right]
      && Violations(Iamb, w)[f.left] == Violations(Iamb, w)[f.right]
      && (Violations(Trochee, w)[f.left] == 0 <==> w[f.left].hasStress && !w[f.right].hasStress)
      && (Violations(Iamb, w)[f.left] == 0 <==> w[f.right].hasStress && !w[f.left].hasStress)
  {
    var f := FeetOf(w)[k];
    MatchedFootMarks(LeftHeaded, w, k, f.left);
    MatchedFootMarks(LeftHeaded, w, k, f.right);
    MatchedFootMarks(RightHeaded, w, k, f.left);
    MatchedFootMarks(RightHeaded, w, k, f.right);
  }

  /** A one-syllable foot (i, i) of a matched word is marked by Trochee and by Iamb exactly when its syllable is Light. */
  lemma {:induction false} MonosyllabicFoot(w: Word, k: int)
    requires Matched(w)
    requires 0 <= k < |FeetOf(w)| && Size(FeetOf(w)[k]) == 1
    ensures var f := FeetOf(w)[k];
      && 0 <= f.left == f.right < |w|
      && (Violations(Trochee, w)[f.left] == 1 <==> Light(w[f.left]))
      && (Violations(Iamb, w)[f.left] == 1 <==> Light(w[f.left]))
  {
    var f := FeetOf(w)[k];
    MatchedFootMarks(LeftHeaded, w, k, f.left);
    MatchedFootMarks(RightHeaded, w, k, f.left);
  }

  /** In a well-bracketed word ParseLeft marks exactly the syllables that belong to no foot. */
  lemma {:induction false} ParseLeftMarksUnfooted(w: Word, i: int)
    requires WellBracketed(w) && 0 <= i < |w|
    ensures Violations(ParseLeft, w)[i] == 1 <==>
      forall k :: 0 <= k < |FeetOf(w)| ==> !Covers(FeetOf(w)[k], i)
  {
    WellBracketedFeet(w);
  }
}
