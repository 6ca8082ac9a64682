# Wergaia metrical stress under Serial Optimality Theory

This project models the stress engine that exists twice in the repository,
once in C++ (`WergaiaC++.cpp`) and once in Python (`WergaiaPython.py`), with
the same logic. It also proves properties of that model.

**What the engine does**
- A word is a sequence of syllables. Each syllable has a weight (`L` or `H`),
  a stress mark, and two flags for the brackets of a metrical foot.
- One step of Serial Optimality Theory (SerialOT) builds candidates. Each
  candidate adds a single foot of one or two syllables that carry no bracket
  yet, with every non-empty stress pattern. After them comes the word
  unchanged.
- Four ranked constraints score each candidate: Trochee, ParseLeft, Iamb,
  ParseRight. Each violation vector is read as a big-endian binary number.
- The step keeps the candidate whose score vector is lexicographically
  smallest.
- `main` reads a stress string and repeats the step until the winner prints
  the same as the word it came from.

**Modules**, in the order the program runs:
- `Syllables`: the syllable and word model, plus counts of brackets and of
  unflagged syllables.
- `Feet`: `findLocation`. It is a method with a loop, proved against the
  function `FeetOf`. Then the shape of the feet it finds, in any word and in
  properly bracketed words.
- `Constraints`: `assignViolation` and the four constraints. These are
  imperative array code proved against the specification `Violations`. Then
  what the marks mean foot by foot.
- `Scoring`: the score loop (`val = val * 2 + v`) as the big-endian value of
  the vector. It shows why an earlier violation outweighs any number of later
  ones, and that the lexicographic order on score vectors is a total order.
- `Generation`: the candidate list as a function. It lists exactly the
  candidates the source's three nested loops build, in the same order, and
  gives their number. It also says what a new foot does to a word.
- `Text`: `printInfo` and `parseString` as loops, proved against `Render` and
  `Parse`. Printing a parsed string gives the string back, and parsing a
  printed footless word gives the word back. A candidate with a new foot never
  prints like the word it came from.
- `Serial`: SerialOT as loops that score and collect the candidates, then
  select the winner. Then the loop in `main`. It is proved to terminate, to
  end at a word that is its own winner, and to keep weights, every syllable
  that already carries a bracket (with its stress), and a flat bracketing.
  The score vector never gets worse along the way.
- `Worked`: the run on the input `LL`. The first round picks the trochee
  `('LL)`, the second round keeps it, and the program ends there.

**Input.** The model follows what the code does with the input string:
- An apostrophe stresses the syllable whose weight comes after it. The
  parser writes the stress into the slot of the next syllable (C++ 142-143,
  Python 106-110), and `printInfo` prints the apostrophe just before the
  weight (C++ 24-25), so `'LL` is a stressed L followed by an L.
- The empty string, a leading apostrophe and any character other than an
  apostrophe used as a weight are all accepted.
- A trailing apostrophe writes one past the end of the word. That is the one
  input Python cannot handle, and the model makes it a precondition
  (`NoTrailingMark`). In C++ a word of more than 31 syllables also overflows
  `int val` in the score (see Left out).

## Model

| member | source | states |
|---|---|---|
| Syllables.WellBracketedHasNoOrphan | WergaiaC++.cpp:39-41 | In a flat bracketing of one- and two-syllable feet, every ')' has a '(' at or before it, so `parensLocation.back()` never meets an empty list |
| Syllables.NoBracketsCount | WergaiaC++.cpp:139-145 | A word with no bracket flags, as `parseString` makes it, is flatly bracketed, has no orphan ')', and all of its syllables are unflagged |
| Feet.FindLocation | WergaiaC++.cpp:32-44 | The push of `(i, -1)` on '(' and the update of the last pair's right end on ')' return exactly the feet `FeetOf(word)` |
| Feet.FeetOfShape | WergaiaC++.cpp:34-42 | In any word, foot k starts at the k-th '(' of the word, and its right end is -1 or a ')' at or after its start; feet come in order of their left ends |
| Feet.FeetInRange | WergaiaC++.cpp:53-55 | Every foot's bounds lie inside the word, so the marking loops index within the vector |
| Feet.MatchedFeet | WergaiaC++.cpp:32-44 | When brackets are properly matched, every foot is closed and runs from a '(' to the first ')' at or after it, with no bracket in between. Feet do not overlap, each ')' closes one foot and each '(' opens one |
| Feet.WellBracketedIsMatched | WergaiaC++.cpp:179-186 | A flat bracketing of one- and two-syllable feet is properly matched |
| Feet.WellBracketedFeet | WergaiaC++.cpp:175-186 | In a flat bracketing, every foot spans one or two syllables, and a syllable lies in a foot exactly when it carries a bracket flag |
| Constraints.Violations | WergaiaC++.cpp:149-154 | Each constraint's violation vector has the word's length and only 0/1 entries |
| Constraints.AssignViolation | WergaiaC++.cpp:12-16 | Entries leftBound..rightBound become 1 and all others keep their value; an empty range changes nothing |
| Constraints.MarkFoot | WergaiaC++.cpp:54-69 | One turn of the loop over feet marks the foot's syllables exactly when the foot breaks the constraint: three or more syllables, two syllables stressed on the wrong side, or one Light syllable |
| Constraints.MarkFeet | WergaiaC++.cpp:48-71 | The loop over all feet found by findLocation yields `FootMarks`: a syllable is marked exactly when it lies in some violating foot |
| Constraints.TrocheeViolations | WergaiaC++.cpp:47-72 | Trochee returns the left-headed foot marks |
| Constraints.IambViolations | WergaiaC++.cpp:75-100 | Iamb returns the right-headed foot marks |
| Constraints.MarkUnparsed | WergaiaC++.cpp:108-112 | The loop marks exactly the syllables with neither bracket flag |
| Constraints.ParseLeftViolations | WergaiaC++.cpp:103-114 | Entry i is 1 exactly when syllable i has neither bracket flag |
| Constraints.Reverse | WergaiaPython.py:96 | The reversed vector has the same length, and its entry i is the original's entry i counted from the end |
| Constraints.ReverseInPlace | WergaiaC++.cpp:128 | After the in-place swap loop the array holds the reverse of its old contents |
| Constraints.ParseRightViolations | WergaiaC++.cpp:117-130 | The ParseLeft vector reversed: entry i is 1 exactly when syllable i counted from the end is unflagged |
| Constraints.Evaluate | WergaiaC++.cpp:149-154 | Calling entry c of the constraint list returns `Violations(c, word)` |
| Constraints.FootMarksMeaning | WergaiaC++.cpp:53-70 | In any word, Trochee and Iamb mark a syllable exactly when it lies in a violating foot. Syllables outside every foot are never marked; syllables of a foot of three or more are always marked |
| Constraints.MatchedFootMarks | WergaiaC++.cpp:53-70 | When feet do not overlap, a syllable of foot k is marked exactly when foot k itself violates |
| Constraints.DisyllabicFoot | WergaiaC++.cpp:60-64 | Both syllables of a two-syllable foot get the same mark. Trochee leaves them unmarked exactly when only the left one is stressed, and Iamb exactly when only the right one is |
| Constraints.MonosyllabicFoot | WergaiaC++.cpp:65-69 | A one-syllable foot is marked by Trochee and by Iamb exactly when the syllable is Light |
| Constraints.ParseLeftMarksUnfooted | WergaiaC++.cpp:108-112 | In a flat bracketing, ParseLeft marks exactly the syllables that belong to no foot |
| Scoring.Score | WergaiaC++.cpp:163-170 | The doubling-and-adding loop computes the big-endian binary value of the vector |
| Scoring.BinaryValueAppend | WergaiaC++.cpp:165-168 | The value of a + b is the value of a shifted left by as many digits as b has, plus the value of b |
| Scoring.BinaryValueBounds | WergaiaC++.cpp:163-170 | A 0/1 vector of length n scores in [0, 2^n), and scores 0 exactly when it has no violation |
| Scoring.EarlierViolationOutweighs | WergaiaC++.cpp:165-168 | Take two vectors of equal length that agree before position i, where one has no violation at i and the other has one. Whatever follows, the first scores lower |
| Scoring.ScoreFitsInt32 | WergaiaC++.cpp:164 | For at most 31 syllables the score fits the C++ `int val` |
| Scoring.LexLessIrreflexive | WergaiaC++.cpp:227 | No score vector is smaller than itself under vector `<` |
| Scoring.LexLessTransitive | WergaiaC++.cpp:227 | Vector `<` is transitive |
| Scoring.LexLessTotal | WergaiaC++.cpp:227 | Any two distinct score vectors are ordered one way or the other |
| Scoring.LexLessAsymmetric | WergaiaC++.cpp:227 | Vector `<` never holds both ways |
| Scoring.LexLeqAntisymmetric | WergaiaC++.cpp:227 | Two vectors, each no worse than the other, are equal |
| Scoring.LexLeqTransitive | WergaiaC++.cpp:227 | Being no worse is transitive |
| Generation.MaskRunMembers | WergaiaC++.cpp:190-212 | The mask loop yields exactly the words with the new foot and a mask in 1..m-1 |
| Generation.SpanMembers | WergaiaC++.cpp:175-192 | A span yields candidates exactly for accepted (l, r, mask): at most two syllables, both ends unflagged, a non-zero mask |
| Generation.RightRunMembers | WergaiaC++.cpp:174-213 | The loop over right ends yields exactly the union of the spans' candidates |
| Generation.LeftRunMembers | WergaiaC++.cpp:173-214 | The loop over left ends yields exactly the union of the right-end runs |
| Generation.GeneratedMembers | WergaiaC++.cpp:173-214 | A word is generated exactly when it is the input word with one new foot of one or two unflagged syllables and a non-zero stress mask |
| Generation.RightRunCount | WergaiaC++.cpp:174-213 | For left end l there is one candidate if l is unflagged, plus three if l and l+1 both are |
| Generation.LeftRunCount | WergaiaC++.cpp:173-214 | Over left ends below n there is one candidate per unflagged syllable and three per adjacent unflagged pair |
| Generation.GeneratedCount | WergaiaC++.cpp:173-214 | There are (unflagged syllables) + 3 × (adjacent unflagged pairs) generated candidates |
| Generation.MaskStresses | WergaiaC++.cpp:190-192 | A non-zero mask stresses at least one syllable of the foot |
| Generation.NewFootShape | WergaiaC++.cpp:185-201 | A new foot changes only its own syllables: they get its brackets and the mask's stresses. Weights and already flagged syllables stay as they were, and the candidate differs from the word |
| Generation.NewFootCounts | WergaiaC++.cpp:185-186 | A new foot flags r-l+1 more syllables and adds exactly one '(' |
| Generation.NewFootBrackets | WergaiaC++.cpp:179-186 | A new foot keeps every ')' preceded by a '(', and keeps a flat bracketing flat |
| Generation.GeneratedFacts | WergaiaC++.cpp:173-214 | Every generated candidate has the word's weights, and every syllable that already carries a bracket stays as it was (brackets, stress and weight). It has fewer unflagged syllables and one more '(', and preserves both bracket invariants |
| Text.PrintInfo | WergaiaC++.cpp:19-29 | The loop over syllables returns `Render(word)` |
| Text.PiecesOnto | WergaiaC++.cpp:23-26 | The four conditional appends of one syllable append exactly that syllable's text |
| Text.NewFootPrintsLonger | WergaiaC++.cpp:266 | A candidate with a new foot prints strictly longer than its word: it gains two brackets and loses at most one stress mark |
| Text.GeneratedPrintsDifferently | WergaiaC++.cpp:266 | No generated candidate prints like the word it came from, so the stop test in main stops only on the unchanged word |
| Text.ScanUpTo | WergaiaC++.cpp:141-144 | After n characters, the reader has one syllable per weight character read |
| Text.NothingPending | WergaiaC++.cpp:141-144 | Without a trailing apostrophe, no stress mark is left waiting at the end |
| Text.ParseString | WergaiaC++.cpp:133-146 | The counting loop and the filling loop return `Parse(inputSequence)` |
| Text.ParsedUnflagged | WergaiaC++.cpp:139-144 | A parsed word has no bracket flags, and no apostrophe as a weight |
| Text.ParsedWeight | WergaiaC++.cpp:143 | The weight character at position k becomes the weight of the syllable numbered by the weight characters before k |
| Text.RenderParse | WergaiaC++.cpp:141-144 | Printing a parsed string gives it back, if no two apostrophes are adjacent and it does not end in one |
| Text.ParseRenderWord | WergaiaC++.cpp:19-29 | Parsing the text of a footless word gives the word back |
| Serial.Profile | WergaiaC++.cpp:204-208 | A candidate's score vector has one entry per ranked constraint |
| Serial.ScoreCandidate | WergaiaC++.cpp:204-208 | The loop over the constraint list returns the scores of all four constraints in ranking order |
| Serial.FirstMinimumIsFirstBest | WergaiaPython.py:168 | The first smallest vector is no worse than every other, and strictly better than every one before it |
| Serial.SelectBest | WergaiaPython.py:168 | The head of the stable sort: the first candidate whose score vector no other beats |
| Serial.StepIsFirstBest | WergaiaC++.cpp:225-256 | The step's winner is the first candidate in generation order that no candidate beats |
| Serial.StepOutcome | WergaiaC++.cpp:264-269 | The winner prints like the word exactly when it is the word, which is exactly when the last (unchanged) candidate wins. Otherwise it is a generated candidate with fewer unflagged syllables |
| Serial.StressFoot | WergaiaC++.cpp:194-201 | Syllable leftParens+i of the foot is stressed exactly when bit i of the mask is set; nothing else changes |
| Serial.StressedCopyIsNewFoot | WergaiaC++.cpp:177-201 | The copy with brackets set and stresses assigned is `WithFoot(word, l, r, mask)` |
| Serial.AddSpan | WergaiaC++.cpp:175-212 | One turn of the right-end loop appends exactly the span's candidates, each with its score vector |
| Serial.AddRightEnds | WergaiaC++.cpp:174-213 | The right-end loop appends exactly that left end's run of candidates, scored |
| Serial.GenerateCandidates | WergaiaC++.cpp:173-214 | The nested loops produce exactly `Generated(word)`, in order, each candidate paired with its score vector |
| Serial.SerialOT | WergaiaC++.cpp:157-257 | SerialOT returns the first candidate (the generated ones, then the word) whose score vector no other candidate's beats |
| Serial.BestCandidatesTie | WergaiaC++.cpp:225-228 | Any candidates an unstable sort may put first have equal score vectors |
| Serial.UnchangedWins | WergaiaC++.cpp:216-228 | The unchanged word wins exactly when its vector is strictly better than every generated candidate's |
| Serial.ProfileBounds | WergaiaC++.cpp:163-170 | Each score of an n-syllable word lies in [0, 2^n), and fits a C++ int when n ≤ 31 |
| Serial.Converge | WergaiaC++.cpp:263-270 | The loop in main terminates at `Fixpoint(start)`, a word that is its own winner. Weights, every syllable that already carries a bracket (with its stress), a flat bracketing and the absence of orphan ')' are kept, and the score vector is no worse than at the start |
| Serial.FixpointUnfold | WergaiaC++.cpp:264-270 | The fixpoint of a word that wins its own step is itself; otherwise it is the fixpoint of the winner |
| Serial.StepDevelops | WergaiaC++.cpp:264-269 | A round that changes the word keeps the weights, every syllable that already carries a bracket (with its stress) and the flatness, and does not worsen the score vector |
| Serial.Run | WergaiaC++.cpp:259-273 | The whole program ends on a flatly bracketed word with the input's weights, one that is its own winner |
| Worked.VectorValues | WergaiaC++.cpp:163-170 | The four two-digit vectors score 0, 1, 2 and 3 |
| Worked.ProfileInOrder | WergaiaC++.cpp:149-154 | The score vector lists Trochee, ParseLeft, Iamb, ParseRight in that order |
| Worked.ProfileOf | WergaiaC++.cpp:204-208 | A word's score vector is built from its four violation vectors |
| Worked.LLCandidates | WergaiaC++.cpp:173-222 | For `LL` the candidates are ('L)L, ('LL), (L'L), ('L'L), L('L) and LL, in that order |
| Worked.MonoLeftFeet | WergaiaC++.cpp:32-44 | The feet of ('L)L |
| Worked.MonoLeftProfile | WergaiaC++.cpp:47-130 | ('L)L scores [2, 1, 2, 2] |
| Worked.TrochaicFeet | WergaiaC++.cpp:32-44 | The feet of ('LL) |
| Worked.TrochaicProfile | WergaiaC++.cpp:47-130 | ('LL) scores [0, 0, 3, 0] |
| Worked.IambicFeet | WergaiaC++.cpp:32-44 | The feet of (L'L) |
| Worked.IambicProfile | WergaiaC++.cpp:47-130 | (L'L) scores [3, 0, 0, 0] |
| Worked.SpondaicFeet | WergaiaC++.cpp:32-44 | The feet of ('L'L) |
| Worked.SpondaicProfile | WergaiaC++.cpp:47-130 | ('L'L) scores [3, 0, 3, 0] |
| Worked.MonoRightFeet | WergaiaC++.cpp:32-44 | The feet of L('L) |
| Worked.MonoRightProfile | WergaiaC++.cpp:47-130 | L('L) scores [1, 2, 1, 1] |
| Worked.LLFeet | WergaiaC++.cpp:32-44 | LL has no feet |
| Worked.LLProfile | WergaiaC++.cpp:47-130 | LL scores [0, 3, 0, 3] |
| Worked.LLProfiles | WergaiaC++.cpp:204-222 | The score vectors of the six candidates, in order |
| Worked.LLFirstMinimum | WergaiaC++.cpp:225-228 | Among them the first smallest is the second candidate |
| Worked.LLFirstRound | WergaiaC++.cpp:225-256 | The first round on LL returns ('LL) |
| Worked.TrochaicSecondRound | WergaiaC++.cpp:173-222 | ('LL) has no free syllable, so it is its only candidate and its own winner |
| Worked.LLParses | WergaiaC++.cpp:133-146 | "LL" parses to two plain Light syllables |
| Worked.TrochaicPrints | WergaiaC++.cpp:19-29 | ('LL) prints as "('LL)" |
| Worked.LLRun | WergaiaC++.cpp:259-270 | The program on "LL" ends with the word printed "('LL)" |

## Left out

- Console I/O is outside the model:
  - reading the input line (C++ 260, Python 187) is the parameter of `Run`;
  - the printed syllable count in parseString (C++ 138, Python 102) is not modelled;
  - the per-candidate trace and the winner banner in SerialOT (C++ 230-248, Python 170-181) have no effect on the result and are not modelled.
- The constraint list is a list of callables in the source. Here it is the constant `Ranking`, and `Evaluate` dispatches on it. SerialOT's `constraints` parameter is fixed to that list, which is the only list the program passes.
- Serial.SelectBest: the model does not sort. Only `candidates[0]` of the sorted list is used, and the model computes that candidate directly as the first smallest score vector, which is what Python's stable sort puts first. C++'s `std::sort` is not stable; it puts some minimal candidate first, and `Serial.BestCandidatesTie` shows that all minimal candidates have the same score vector. The model does not prove that distinct candidates of a reachable word always score differently, so it does not show that the C++ and Python winners coincide; where two minimal candidates tie, which one C++ returns is not modelled.
- Scoring.Score: integers are unbounded. The C++ `int val` overflows for words of more than 31 syllables (undefined behaviour). `Scoring.ScoreFitsInt32` bounds the score for 31 syllables or fewer, and longer words are not modelled for C++. Python's integers are unbounded like the model's.
- Text.ParseString requires that the input not end in an apostrophe: the source writes one past the end of the word there (an IndexError in Python, undefined behaviour in C++).
- Feet.FindLocation requires that no ')' come before every '('. The source reads the last element of an empty list there. The requirement carries over to the Trochee and Iamb evaluators, `ScoreCandidate`, `SerialOT` and `Converge`. It always holds in the program: parsed words have no brackets, and new feet preserve it (`Generation.NewFootBrackets`).
- The C++ ParseLeft and ParseRight call findLocation and discard its result (C++ 107, 121). The model leaves the call out, so it also leaves out the crash that call would cause on an orphan ')'. Python does not make the call.
- Copies (`deepcopy` in Python, pass-by-value and `vector` copies in C++) are Dafny values. No aliasing is modelled, and none exists in the source.
- The C++ mask loop starts at 0 and skips it; Python starts at 1. Both are modelled as a loop from 1.
- The weight is kept as the character read. Characters other than `L` and `H` are accepted and count as not Light, as in the code. The C++ default weight of an unfilled syllable, and the empty Python weight, never survive parsing and are not modelled.
