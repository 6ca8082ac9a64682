/**
 The textual form of a word. printInfo writes each syllable as an optional
 "(", an optional "'" for stress, the weight character and an optional ")".
 parseString reads a stress string: every character other than an
 apostrophe is the weight of a new syllable, and an apostrophe stresses
 the syllable whose weight comes next.
 */
module Text {
  import opened Syllables
  import opened Generation

  // ---------------------------------------------------------------------
  // printInfo

  /** One syllable as text. */
  function RenderSyllable(s: Syllable): string {
    (if s.hasLeftParenthesis then "(" else "") + (if s.hasStress then "'" else "") + [s.weight] +
    (if s.hasRightParenthesis then ")" else "")
  }

  /** The word as text, syllable after syllable. */
  function Render(w: Word): string {
    if w == [] then "" else Render(w[..|w| - 1]) + RenderSyllable(w[|w| - 1])
  }

  method PrintInfo(word: Word) returns (output: string)
    ensures output == Render(word)
  {
    output := "";
    for i := 0 to |word|
      invariant output == Render(word[..i])
    {
      ghost var before := output;
      if word[i].hasLeftParenthesis {
        output := output + "(";
      }
      if word[i].hasStress {
        output := output + "'";
      }
      output := output + [word[i].weight];
      if word[i].hasRightParenthesis {
        output := output + ")";
      }
      PiecesOnto(before, word[i], output);
      assert word[..i + 1] == word[..i] + [word[i]];
      RenderSnoc(word[..i], word[i]);
    }
    assert word[..|word|] == word;
  }

  /** Writing the pieces of a syllable one after another onto a text appends the syllable's text. */
  lemma {:induction false} PiecesOnto(before: string, x: Syllable, after: string)
    requires var a := if x.hasLeftParenthesis then before + "(" else before;
      var b := if x.hasStress then a + "'" else a;
      var c := b + [x.weight];
      after == if x.hasRightParenthesis then c + ")" else c
    ensures after == before + RenderSyllable(x)
  {
  }

  /** Length of one syllable's text. */
  function SyllableLength(s: Syllable): nat {
    1 + (if s.hasLeftParenthesis then 1 else 0) + (if s.hasStress then 1 else 0) + (if s.hasRightParenthesis then 1 else 0)
  }

  lemma {:induction false} RenderStep(w: Word, n: nat)
    requires 0 < n <= |w|
    ensures |Render(w[..n])| == |Render(w[..n - 1])| + SyllableLength(w[n - 1])
  {
    assert w[..n][..n - 1] == w[..n - 1];
  }

  /**
   Two words of equal length that differ at most at positions l and r (with
   r == l or r == l + 1) have texts whose lengths differ by what those
   syllables' texts differ by, within the first n syllables.
   */
  lemma {:induction false} RenderLengthDiff(u: Word, w: Word, l: nat, r: nat, n: nat)
    requires |u| == |w| && n <= |w| && l <= r < |w| && r <= l + 1
    requires forall j :: 0 <= j < |w| && j != l && j != r ==> u[j] == w[j]
    ensures |Render(u[..n])| - |Render(w[..n])| ==
      (if l < n then SyllableLength(u[l]) - SyllableLength(w[l]) else 0) +
      (if l < r < n then SyllableLength(u[r]) - SyllableLength(w[r]) else 0)
  {
    if n > 0 {
      RenderLengthDiff(u, w, l, r, n - 1);
      RenderStep(u, n);
      RenderStep(w, n);
    }
  }

  /**
   A candidate with a new foot is printed longer than the word it came from:
   it gains a '(' and a ')', and loses at most one stress mark (the foot has
   at most two syllables and at least one of them is stressed). So
   printInfo tells a generated candidate apart from the unchanged word.
   */
  lemma {:induction false} NewFootPrintsLonger(w: Word, l: nat, r: nat, mask: nat)
    requires NewFoot(w, l, r, mask)
    ensures |Render(WithFoot(w, l, r, mask))| > |Render(w)|
  {
    var c := WithFoot(w, l, r, mask);
    NewFootShape(w, l, r, mask);
    RenderLengthDiff(c, w, l, r, |w|);
    assert c[..|w|] == c && w[..|w|] == w;
  }

  lemma {:induction false} GeneratedPrintsDifferently(w: Word, c: Word)
    requires c in Generated(w)
    ensures Render(c) != Render(w)
  {
    GeneratedMembers(w, c);
    var l: nat, r: nat, mask: nat :| NewFoot(w, l, r, mask) && c == WithFoot(w, l, r, mask);
    NewFootPrintsLonger(w, l, r, mask);
  }

  // ---------------------------------------------------------------------
  // parseString

  /** Number of weight characters (anything but an apostrophe) among the first n characters. */
  function WeightChars(s: string, n: nat): (c: nat)
    requires n <= |s|
    ensures c <= n
  {
    if n == 0 then 0 else WeightChars(s, n - 1) + (if s[n - 1] == '\'' then 0 else 1)
  }

  lemma {:induction false} WeightCharsMonotone(s: string, m: nat, n: nat)
    requires m <= n <= |s|
    ensures WeightChars(s, m) <= WeightChars(s, n)
  {
    if m < n {
      WeightCharsMonotone(s, m, n - 1);
    }
  }

  /** The reader's state after n characters: the syllables read so far, and whether a stress mark waits for the next one. */
  datatype Scan = Scan(done: Word, pending: bool)

  function ScanUpTo(s: string, n: nat): (st: Scan)
    requires n <= |s|
    ensures |st.done| == WeightChars(s, n)
  {
    if n == 0 then Scan([], false)
    else
      var st := ScanUpTo(s, n - 1);
      if s[n - 1] == '\'' then st.(pending := true)
      else Scan(st.done + [Syllable(s[n - 1], false, false, st.pending)], false)
  }

  /**
   The input ends in a weight character, not in an apostrophe. After a
   trailing apostrophe the source writes the stress one past the end of the
   word (an IndexError in Python, undefined behaviour in C++).
   */
  predicate NoTrailingMark(s: string) {
    |s| == 0 || s[|s| - 1] != '\''
  }

  /** The word a stress string stands for. */
  function Parse(s: string): Word {
    ScanUpTo(s, |s|).done
  }

  /** On such an input no stress mark is left waiting at the end. */
  lemma {:induction false} NothingPending(s: string)
    requires NoTrailingMark(s)
    ensures !ScanUpTo(s, |s|).pending
  {
  }

  method ParseString(inputSequence: string) returns (word: Word)
    requires NoTrailingMark(inputSequence)
    ensures word == Parse(inputSequence)
  {
    var cnt := 0;
    for i := 0 to |inputSequence|
      invariant cnt == WeightChars(inputSequence, i)
    {
      if inputSequence[i] != '\'' {
        cnt := cnt + 1;
      }
    }
    var syllables := new Syllable[cnt](_ => Syllable('L', false, false, false));
    var index := 0;
    for i := 0 to |inputSequence|
      invariant index == WeightChars(inputSequence, i) <= cnt
      invariant syllables[..index] == ScanUpTo(inputSequence, i).done
      invariant index < cnt ==> syllables[index].hasStress == ScanUpTo(inputSequence, i).pending
      invariant forall j :: index <= j < cnt ==> !Flagged(syllables[j])
      invariant forall j :: index < j < cnt ==> !syllables[j].hasStress
    {
      WeightCharsMonotone(inputSequence, i + 1, |inputSequence|);
      if inputSequence[i] == '\'' {
        if i < |inputSequence| - 1 {
          WeightCharsMonotone(inputSequence, i + 1, |inputSequence| - 1);
        }
        syllables[index] := syllables[index].(hasStress := true);
      } else {
        syllables[index] := syllables[index].(weight := inputSequence[i]);
        index := index + 1;
      }
    }
    assert syllables[..] == syllables[..index];
    word := syllables[..];
  }

  /** A parsed word has no foot yet, and no syllable has an apostrophe for its weight. */
  lemma {:induction false} ParsedUnflagged(s: string, n: nat)
    requires n <= |s|
    ensures forall i :: 0 <= i < |ScanUpTo(s, n).done| ==>
      !Flagged(ScanUpTo(s, n).done[i]) && ScanUpTo(s, n).done[i].weight != '\''
  {
    if n > 0 {
      ParsedUnflagged(s, n - 1);
    }
  }

  /** The weight character at k becomes the weight of syllable number WeightChars(s, k). */
  lemma {:induction false} ParsedWeight(s: string, n: nat, k: nat)
    requires k < n <= |s| && s[k] != '\''
    ensures WeightChars(s, k) < |ScanUpTo(s, n).done|
    ensures ScanUpTo(s, n).done[WeightChars(s, k)].weight == s[k]
  {
    if k < n - 1 {
      ParsedWeight(s, n - 1, k);
    }
  }

  /** No two apostrophes in a row: each stress mark stands for one syllable. */
  predicate SingleMarks(s: string) {
    forall i :: 0 < i < |s| && s[i] == '\'' ==> s[i - 1] != '\''
  }

  /** The text of a scan: the syllables read so far and the stress mark still waiting, if any. */
  function ScanText(st: Scan): string {
    Render(st.done) + (if st.pending then "'" else "")
  }

  lemma {:induction false} RenderScan(s: string, n: nat)
    requires n <= |s| && SingleMarks(s)
    ensures ScanText(ScanUpTo(s, n)) == s[..n]
  {
    if n > 0 {
      RenderScan(s, n - 1);
      assert s[..n] == s[..n - 1] + [s[n - 1]];
      if s[n - 1] == '\'' {
        assert !ScanUpTo(s, n - 1).pending by {
          if n > 1 {
            assert s[n - 2] != '\'';
            ScanLastWeight(s, n - 1);
          }
        }
        ScanMarkText(ScanUpTo(s, n - 1));
      } else {
        ScanWeightText(ScanUpTo(s, n - 1), s[n - 1]);
      }
    }
  }

  /** Reading an apostrophe when no mark waits appends it to the text. */
  lemma {:induction false} ScanMarkText(st: Scan)
    requires !st.pending
    ensures ScanText(st.(pending := true)) == ScanText(st) + "'"
  {
    assert ScanText(st) == Render(st.done);
  }

  /** Reading a weight character appends it to the text. */
  lemma {:induction false} ScanWeightText(st: Scan, ch: char)
    ensures ScanText(Scan(st.done + [Syllable(ch, false, false, st.pending)], false)) == ScanText(st) + [ch]
  {
    var x := Syllable(ch, false, false, st.pending);
    RenderSnoc(st.done, x);
    assert RenderSyllable(x) == (if st.pending then "'" else "") + [ch];
  }

  /** A scan that has just read a weight character has no stress mark waiting. */
  lemma {:induction false} ScanLastWeight(s: string, n: nat)
    requires 0 < n <= |s| && s[n - 1] != '\''
    ensures !ScanUpTo(s, n).pending
  {
  }

  lemma {:induction false} RenderSnoc(w: Word, x: Syllable)
    ensures Render(w + [x]) == Render(w) + RenderSyllable(x)
  {
    assert (w + [x])[..|w|] == w;
  }

  /** Printing a parsed word gives back the input, when no two apostrophes are adjacent. */
  lemma {:induction false} RenderParse(s: string)
    requires SingleMarks(s) && NoTrailingMark(s)
    ensures Render(Parse(s)) == s
  {
    RenderScan(s, |s|);
    NothingPending(s);
    assert ScanText(ScanUpTo(s, |s|)) == Render(Parse(s));
    assert s[..|s|] == s;
  }

  lemma {:induction false} ScanPrefix(s: string, t: string, n: nat)
    requires n <= |s|
    ensures ScanUpTo(s + t, n) == ScanUpTo(s, n)
  {
    if n > 0 {
      ScanPrefix(s, t, n - 1);
    }
  }

  /** Reading one more syllable's text after a scan with no mark waiting appends that syllable. */
  lemma {:induction false} ScanSyllable(s: string, x: Syllable)
    requires !ScanUpTo(s, |s|).pending && !Flagged(x) && x.weight != '\''
    ensures ScanUpTo(s + RenderSyllable(x), |s + RenderSyllable(x)|) == Scan(ScanUpTo(s, |s|).done + [x], false)
  {
    var st := ScanUpTo(s, |s|);
    if x.hasStress {
      var u := s + ['\''];
      assert RenderSyllable(x) == ['\'', x.weight];
      assert s + RenderSyllable(x) == u + [x.weight];
      ScanPrefix(s, ['\''], |s|);
      assert ScanUpTo(u, |u|) == st.(pending := true);
      ScanPrefix(u, [x.weight], |u|);
    } else {
      assert RenderSyllable(x) == [x.weight];
      ScanPrefix(s, [x.weight], |s|);
    }
  }

  /** A word without feet and without apostrophe weights is read back from its text as it was. */
  lemma {:induction false} ParseRender(w: Word)
    requires forall i :: 0 <= i < |w| ==> !Flagged(w[i]) && w[i].weight != '\''
    ensures ScanUpTo(Render(w), |Render(w)|) == Scan(w, false)
    decreases |w|
  {
    if w != [] {
      var init, last := w[..|w| - 1], w[|w| - 1];
      ParseRender(init);
      assert Render(w) == Render(init) + RenderSyllable(last);
      ScanSyllable(Render(init), last);
      assert w == init + [last];
    }
  }

  lemma {:induction false} ParseRenderWord(w: Word)
    requires forall i :: 0 <= i < |w| ==> !Flagged(w[i]) && w[i].weight != '\''
    ensures NoTrailingMark(Render(w)) && Parse(Render(w)) == w
  {
    if w != [] {
      assert Render(w) == Render(w[..|w| - 1]) + RenderSyllable(w[|w| - 1]);
    }
    ParseRender(w);
  }
}
