/**
 Scores and their order. A violation vector is read as a big-endian binary
 number, so a violation nearer the start of the word outweighs any number of
 violations after it; candidates' score vectors are compared
 lexicographically, as C++ vector `<` and Python list `<` do.
 */
module Scoring {

  function Pow2(n: nat): (r: nat)
    ensures r >= 1
  {
    if n == 0 then 1 else 2 * Pow2(n - 1)
  }

  /** Every entry is 0 or 1. */
  predicate IsBits(v: seq<int>) {
    forall i :: 0 <= i < |v| ==> v[i] == 0 || v[i] == 1
  }

  /** The big-endian value of v: v[0] is the most significant digit. */
  function BinaryValue(v: seq<int>): int {
    if v == [] then 0 else v[0] * Pow2(|v| - 1) + BinaryValue(v[1..])
  }

  lemma {:induction false} BinaryValueAppend(a: seq<int>, b: seq<int>)
    ensures BinaryValue(a + b) == BinaryValue(a) * Pow2(|b|) + BinaryValue(b)
  {
    if a != [] {
      assert (a + b)[1..] == a[1..] + b;
      BinaryValueAppend(a[1..], b);
      Pow2Add(|a| - 1, |b|);
      var x, p, q := a[0], Pow2(|a| - 1), Pow2(|b|);
      assert (a + b)[0] == x && |a + b| - 1 == (|a| - 1) + |b|;
      assert BinaryValue(a + b) == x * Pow2((|a| - 1) + |b|) + BinaryValue(a[1..] + b);
      assert BinaryValue(a) == x * p + BinaryValue(a[1..]);
      Regroup(x, p, q, BinaryValue(a[1..]));
    } else {
      assert a + b == b;
    }
  }

  lemma Regroup(x: int, p: int, q: int, r: int)
    ensures x * (p * q) + r * q == (x * p + r) * q
  {
  }

  lemma {:induction false} Pow2Add(m: nat, n: nat)
    ensures Pow2(m + n) == Pow2(m) * Pow2(n)
  {
    if m > 0 {
      Pow2Add(m - 1, n);
    }
  }

  lemma {:induction false} Pow2Monotone(m: nat, n: nat)
    requires m <= n
    ensures Pow2(m) <= Pow2(n)
  {
    if m < n {
      Pow2Monotone(m, n - 1);
    }
  }

  /** Model of the score lambda / nested function: val = val * 2 + v over the vector, left to right. */
  method Score(violation: seq<int>) returns (val: int)
    ensures val == BinaryValue(violation)
  {
    val := 0;
    for i := 0 to |violation|
      invariant val == BinaryValue(violation[..i])
    {
      assert violation[..i + 1] == violation[..i] + [violation[i]];
      BinaryValueAppend(violation[..i], [violation[i]]);
      val := val * 2;
      val := val + violation[i];
    }
    assert violation[..|violation|] == violation;
  }

  /** A 0/1 vector of length n scores in [0, 2^n), and scores 0 exactly when it has no 1. */
  lemma {:induction false} BinaryValueBounds(v: seq<int>)
    requires IsBits(v)
    ensures 0 <= BinaryValue(v) < Pow2(|v|)
    ensures BinaryValue(v) == 0 <==> forall i :: 0 <= i < |v| ==> v[i] == 0
  {
    if v != [] {
      BinaryValueBounds(v[1..]);
      if v[0] == 0 && BinaryValue(v[1..]) != 0 {
        var i :| 0 <= i < |v[1..]| && v[1..][i] != 0;
        assert v[i + 1] != 0;
      }
    }
  }

  /**
   The position policy of the score: of two 0/1 vectors of the same length
   that agree up to position i, the one without a violation at i scores
   lower, whatever follows.
   */
  lemma {:induction false} EarlierViolationOutweighs(u: seq<int>, v: seq<int>, i: nat)
    requires IsBits(u) && IsBits(v) && |u| == |v| && i < |u|
    requires u[..i] == v[..i] && u[i] == 0 && v[i] == 1
    ensures BinaryValue(u) < BinaryValue(v)
  {
    var n := |u|;
    assert u == u[..i] + u[i..] && v == v[..i] + v[i..];
    BinaryValueAppend(u[..i], u[i..]);
    BinaryValueAppend(v[..i], v[i..]);
    assert u[i..][1..] == u[i + 1..] && v[i..][1..] == v[i + 1..];
    assert IsBits(u[i + 1..]) && IsBits(v[i + 1..]);
    BinaryValueBounds(u[i + 1..]);
    BinaryValueBounds(v[i + 1..]);
    assert BinaryValue(u[i..]) < BinaryValue(v[i..]);
  }

  /** For a word of at most 31 syllables the score fits a 32-bit signed int, as the C++ `int val` needs. */
  lemma {:induction false} ScoreFitsInt32(v: seq<int>)
    requires IsBits(v) && |v| <= 31
    ensures 0 <= BinaryValue(v) < 0x8000_0000
  {
    BinaryValueBounds(v);
    Pow2Monotone(|v|, 31);
    assert Pow2(31) == 0x8000_0000 by {
      Pow2Add(16, 15);
      assert Pow2(16) == 0x1_0000 by { Pow2Add(8, 8); }
      assert Pow2(15) == 0x8000 by { Pow2Add(8, 7); }
    }
  }

  // ---------------------------------------------------------------------
  // Lexicographic order on score vectors

  /** a comes strictly before b: at the first difference a is smaller, or a is a proper prefix of b. */
  predicate LexLess(a: seq<int>, b: seq<int>)
    decreases |a|
  {
    |b| > 0 && (|a| == 0 || a[0] < b[0] || (a[0] == b[0] && LexLess(a[1..], b[1..])))
  }

  /** a is no worse than b. */
  predicate LexLeq(a: seq<int>, b: seq<int>) {
    !LexLess(b, a)
  }

  lemma {:induction false} LexLessIrreflexive(a: seq<int>)
    ensures !LexLess(a, a)
  {
    if |a| > 0 {
      LexLessIrreflexive(a[1..]);
    }
  }

  lemma {:induction false} LexLessTransitive(a: seq<int>, b: seq<int>, c: seq<int>)
    requires LexLess(a, b) && LexLess(b, c)
    ensures LexLess(a, c)
  {
    if |a| > 0 && a[0] == b[0] && b[0] == c[0] {
      LexLessTransitive(a[1..], b[1..], c[1..]);
    }
  }

  /** Any two distinct vectors are ordered one way or the other. */
  lemma {:induction false} LexLessTotal(a: seq<int>, b: seq<int>)
    requires a != b
    ensures LexLess(a, b) || LexLess(b, a)
  {
    if |a| > 0 && |b| > 0 && a[0] == b[0] {
      assert a == [a[0]] + a[1..] && b == [b[0]] + b[1..];
      LexLessTotal(a[1..], b[1..]);
    }
  }

  /** The order is strict: never both ways. */
  lemma {:induction false} LexLessAsymmetric(a: seq<int>, b: seq<int>)
    requires LexLess(a, b)
    ensures !LexLess(b, a)
  {
    if LexLess(b, a) {
      LexLessTransitive(a, b, a);
      LexLessIrreflexive(a);
    }
  }

  /** No worse both ways means equal. */
  lemma {:induction false} LexLeqAntisymmetric(a: seq<int>, b: seq<int>)
    requires LexLeq(a, b) && LexLeq(b, a)
    ensures a == b
  {
    if a != b {
      LexLessTotal(a, b);
    }
  }

  /** Being no worse is transitive. */
  lemma {:induction false} LexLeqTransitive(a: seq<int>, b: seq<int>, c: seq<int>)
    requires LexLeq(a, b) && LexLeq(b, c)
    ensures LexLeq(a, c)
  {
    if LexLess(c, a) && a != b {
      LexLessTotal(a, b);
      LexLessTransitive(c, a, b);
    }
  }
}
