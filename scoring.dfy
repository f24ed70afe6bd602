/** The feedback engine: `valid_guess` and `get_feedback`.
    Feedback is encoded per position by case: the upper-case guess letter for
    a hit, the lower-case guess letter for a letter present elsewhere, and the
    blank '-' otherwise. */
module Scoring {
  import opened Letters

  /** The mark of a position that is neither a hit nor present. */
  const Blank: char := '-'

  /** valid_guess: the guess in upper case, and whether the raw guess is
      exactly five letters. */
  function ValidGuess(guess: string): (r: (string, bool))
    ensures |r.0| == |guess|
    ensures r.1 <==> IsWord(r.0)
    ensures forall i | 0 <= i < |guess| && IsUpper(guess[i]) :: r.0[i] == guess[i]
  {
    (UpperString(guess), |guess| == 5 && forall i | 0 <= i < |guess| :: IsAlpha(guess[i]))
  }

  // ---------------------------------------------------------------------------
  // The two passes of get_feedback, position by position.

  /** The first pass: exact matches show their letter, all else is blank. */
  function Hits(g: string, s: string): (r: string)
    requires |g| == |s|
    ensures |r| == |g|
  {
    seq(|g|, i requires 0 <= i < |g| => if g[i] == s[i] then g[i] else Blank)
  }

  /** The number of positions among the first n of `fb` whose upper-case form
      is `c`: for a letter `c`, the positions already marked with it, as a hit
      or as present. */
  function Marks(fb: string, c: char, n: nat): (count: nat)
    requires n <= |fb|
  {
    if n == 0 then 0
    else Marks(fb, c, n - 1) + (if ToUpper(fb[n - 1]) == c then 1 else 0)
  }

  /** One step of the second pass: a blank position whose letter occurs in the
      secret becomes present when fewer positions are marked with that letter
      than the secret holds. */
  function MarkPresent(fb: string, g: string, s: string, i: nat): (r: string)
    requires |fb| == |g| == |s| && i < |g|
    ensures |r| == |fb|
  {
    if fb[i] == Blank && Occurrences(s, g[i]) > 0 && Marks(fb, g[i], |fb|) < Occurrences(s, g[i])
    then fb[i := ToLower(g[i])]
    else fb
  }

  /** The feedback after the first pass and the first n steps of the second. */
  function TwoPass(g: string, s: string, n: nat): (r: string)
    requires |g| == |s| && n <= |g|
    ensures |r| == |g|
  {
    if n == 0 then Hits(g, s) else MarkPresent(TwoPass(g, s, n - 1), g, s, n - 1)
  }

  /** The feedback for an already upper-cased guess. */
  function FeedbackOf(g: string, s: string): (r: string)
    requires |g| == |s|
    ensures |r| == |g|
  {
    TwoPass(g, s, |g|)
  }

  /** What get_feedback returns: "" for an invalid guess, else the two-pass
      feedback of the upper-cased guess. */
  function ExpectedFeedback(guess: string, secret: string): (r: string)
    requires ValidGuess(guess).1 ==> |secret| == 5
    ensures r == "" <==> !ValidGuess(guess).1
    ensures r != "" ==> |r| == 5
  {
    var (g, valid) := ValidGuess(guess);
    if !valid then "" else FeedbackOf(g, secret)
  }

  // ---------------------------------------------------------------------------
  // An independent, closed-form description of the feedback.

  /** Positions among the first n that are hits on letter `c`. */
  function HitCount(g: string, s: string, c: char, n: nat): (count: nat)
    requires |g| == |s| && n <= |g|
  {
    if n == 0 then 0
    else HitCount(g, s, c, n - 1) + (if g[n - 1] == c && s[n - 1] == c then 1 else 0)
  }

  /** Positions among the first n that are not hits and hold guess letter `c`. */
  function NonHitsBefore(g: string, s: string, c: char, n: nat): (count: nat)
    requires |g| == |s| && n <= |g|
  {
    if n == 0 then 0
    else NonHitsBefore(g, s, c, n - 1) + (if g[n - 1] != s[n - 1] && g[n - 1] == c then 1 else 0)
  }

  /** Position i of the feedback, stated without reference to the passes: a
      hit shows the letter; a non-hit is present exactly when the secret still
      has an occurrence of the letter after all hits on it and all earlier
      non-hit positions with it are paid for; otherwise it is blank. */
  function ReferenceAt(g: string, s: string, i: nat): (mark: char)
    requires |g| == |s| && i < |g|
  {
    if g[i] == s[i] then g[i]
    else if NonHitsBefore(g, s, g[i], i) + HitCount(g, s, g[i], |g|) < Occurrences(s, g[i]) then ToLower(g[i])
    else Blank
  }

  function Reference(g: string, s: string): (r: string)
    requires |g| == |s|
    ensures |r| == |g|
  {
    seq(|g|, i requires 0 <= i < |g| => ReferenceAt(g, s, i))
  }

  function Min(a: int, b: int): (m: int) { if a <= b then a else b }

  // ---------------------------------------------------------------------------
  // Counting lemmas.

  lemma {:induction false} HitsWithinOccurrences(g: string, s: string, c: char, n: nat)
    requires |g| == |s| && n <= |g|
    ensures HitCount(g, s, c, n) <= Occurrences(s[..n], c)
  {
    if n > 0 {
      HitsWithinOccurrences(g, s, c, n - 1);
      OccurrencesStep(s, n - 1, c);
    }
  }

  lemma {:induction false} MarksOfHits(g: string, s: string, c: char, n: nat)
    requires |g| == |s| && n <= |g| && AllUpper(g) && IsUpper(c)
    ensures Marks(Hits(g, s), c, n) == HitCount(g, s, c, n)
  {
    if n > 0 {
      MarksOfHits(g, s, c, n - 1);
    }
  }

  lemma {:induction false} MarksUpdate(fb: string, i: nat, x: char, c: char, n: nat)
    requires i < |fb| && n <= |fb|
    ensures Marks(fb[i := x], c, n)
         == Marks(fb, c, n)
            + (if i < n && ToUpper(x) == c then 1 else 0)
            - (if i < n && ToUpper(fb[i]) == c then 1 else 0)
  {
    if n > 0 {
      MarksUpdate(fb, i, x, c, n - 1);
    }
  }

  lemma {:induction false} NonHitsMonotone(g: string, s: string, c: char, i: nat, j: nat)
    requires |g| == |s| && i <= j <= |g|
    ensures NonHitsBefore(g, s, c, i) <= NonHitsBefore(g, s, c, j)
    decreases j - i
  {
    if i < j {
      NonHitsMonotone(g, s, c, i, j - 1);
    }
  }

  /** A letter marked somewhere: some position's mark has it as upper-case form. */
  lemma {:induction false} MarkedWitness(fb: string, c: char, n: nat) returns (j: nat)
    requires n <= |fb| && Marks(fb, c, n) > 0
    ensures j < n && ToUpper(fb[j]) == c
  {
    if ToUpper(fb[n - 1]) == c {
      j := n - 1;
    } else {
      j := MarkedWitness(fb, c, n - 1);
    }
  }

  // ---------------------------------------------------------------------------
  // The two passes compute the closed form.

  /** Occurrences of `c` the secret has left once the hits on `c` are paid for. */
  function Available(g: string, s: string, c: char): (left: int)
    requires |g| == |s|
  {
    Occurrences(s, c) - HitCount(g, s, c, |g|)
  }

  lemma AvailableNonNegative(g: string, s: string, c: char)
    requires |g| == |s|
    ensures Available(g, s, c) >= 0
  {
    HitsWithinOccurrences(g, s, c, |g|);
    assert s[..|g|] == s;
  }

  /** The state after the first pass and n steps of the second: the first n
      positions are final, the rest still hold the first pass's marks, and every
      letter is marked at its hits plus as many earlier non-hit positions as
      the secret has occurrences left for. */
  ghost predicate Settled(g: string, s: string, fb: string, n: nat)
    requires |g| == |s| == |fb| && n <= |g|
  {
    && (forall i | 0 <= i < n :: fb[i] == ReferenceAt(g, s, i))
    && (forall i | n <= i < |g| :: fb[i] == Hits(g, s)[i])
    && (forall c | IsUpper(c) ::
          Marks(fb, c, |g|) == HitCount(g, s, c, |g|) + Min(NonHitsBefore(g, s, c, n), Available(g, s, c)))
  }

  lemma SettledStart(g: string, s: string)
    requires |g| == |s| && AllUpper(g)
    ensures Settled(g, s, Hits(g, s), 0)
  {
    forall c | IsUpper(c)
      ensures Marks(Hits(g, s), c, |g|) == HitCount(g, s, c, |g|) + Min(0, Available(g, s, c))
    {
      MarksOfHits(g, s, c, |g|);
      AvailableNonNegative(g, s, c);
    }
  }

  /** A blank non-hit position that becomes present. */
  lemma SettledStepPresent(g: string, s: string, fb: string, k: nat)
    requires |g| == |s| == |fb| && k < |g| && AllUpper(g)
    requires Settled(g, s, fb, k)
    requires g[k] != s[k]
    requires NonHitsBefore(g, s, g[k], k) < Available(g, s, g[k])
    ensures Settled(g, s, fb[k := ToLower(g[k])], k + 1)
  {
    var fb' := fb[k := ToLower(g[k])];
    forall c | IsUpper(c)
      ensures Marks(fb', c, |g|) == HitCount(g, s, c, |g|) + Min(NonHitsBefore(g, s, c, k + 1), Available(g, s, c))
    {
      MarksUpdate(fb, k, ToLower(g[k]), c, |g|);
    }
  }

  /** A blank non-hit position that stays blank. */
  lemma SettledStepBlank(g: string, s: string, fb: string, k: nat)
    requires |g| == |s| == |fb| && k < |g| && AllUpper(g)
    requires Settled(g, s, fb, k)
    requires g[k] != s[k]
    requires NonHitsBefore(g, s, g[k], k) >= Available(g, s, g[k])
    ensures Settled(g, s, fb, k + 1)
  {
  }

  /** One step of the second pass keeps the state settled. */
  lemma SettledStep(g: string, s: string, fb: string, k: nat)
    requires |g| == |s| == |fb| && k < |g| && AllUpper(g)
    requires Settled(g, s, fb, k)
    ensures Settled(g, s, MarkPresent(fb, g, s, k), k + 1)
  {
    var L := g[k];
    assert fb[k] == Hits(g, s)[k];
    if g[k] == s[k] {
      assert MarkPresent(fb, g, s, k) == fb;
    } else {
      AvailableNonNegative(g, s, L);
      assert Marks(fb, L, |g|) == HitCount(g, s, L, |g|) + Min(NonHitsBefore(g, s, L, k), Available(g, s, L));
      if NonHitsBefore(g, s, L, k) < Available(g, s, L) {
        SettledStepPresent(g, s, fb, k);
      } else {
        SettledStepBlank(g, s, fb, k);
      }
    }
  }

  lemma {:induction false} TwoPassInvariant(g: string, s: string, n: nat)
    requires |g| == |s| && n <= |g| && AllUpper(g)
    ensures Settled(g, s, TwoPass(g, s, n), n)
  {
    if n == 0 {
      SettledStart(g, s);
    } else {
      var fb := TwoPass(g, s, n - 1);
      TwoPassInvariant(g, s, n - 1);
      assert Settled(g, s, fb, n - 1);
      SettledStep(g, s, fb, n - 1);
      var fb2 := MarkPresent(fb, g, s, n - 1);
      assert Settled(g, s, fb2, n);
      assert TwoPass(g, s, n) == fb2;
    }
  }

  /** The two-pass algorithm computes exactly the closed form. */
  lemma TwoPassIsReference(g: string, s: string)
    requires |g| == |s| && AllUpper(g)
    ensures FeedbackOf(g, s) == Reference(g, s)
  {
    TwoPassInvariant(g, s, |g|);
  }

  /** With all positions processed, each letter is marked at its hits plus as
      many non-hit positions as the secret has occurrences left for. */
  lemma FinalMarks(g: string, s: string, c: char)
    requires |g| == |s| && AllUpper(g) && IsUpper(c)
    ensures Available(g, s, c) >= 0
    ensures Marks(FeedbackOf(g, s), c, |g|)
         == HitCount(g, s, c, |g|) + Min(NonHitsBefore(g, s, c, |g|), Available(g, s, c))
  {
    TwoPassInvariant(g, s, |g|);
    AvailableNonNegative(g, s, c);
  }

  // ---------------------------------------------------------------------------
  // What the feedback promises.

  /** Position i shows an upper-case letter exactly when the upper-cased guess
      matches the secret there, and then it shows that letter. */
  lemma HitExactlyWhenMatch(guess: string, secret: string, i: nat)
    requires |secret| == 5 && ValidGuess(guess).1 && i < 5
    ensures IsUpper(ExpectedFeedback(guess, secret)[i]) <==> ValidGuess(guess).0[i] == secret[i]
    ensures ValidGuess(guess).0[i] == secret[i] ==> ExpectedFeedback(guess, secret)[i] == secret[i]
  {
    TwoPassIsReference(ValidGuess(guess).0, secret);
  }

  /** Every mark is the upper-cased guess letter, its lower-case form or the
      blank; a lower-case mark is always the guess letter's; a letter the secret
      does not contain is always blank. */
  lemma MarkShape(guess: string, secret: string, i: nat)
    requires |secret| == 5 && ValidGuess(guess).1 && i < 5
    ensures var r, g := ExpectedFeedback(guess, secret), ValidGuess(guess).0;
      && (r[i] == g[i] || r[i] == ToLower(g[i]) || r[i] == Blank)
      && (IsLower(r[i]) <==> r[i] == ToLower(g[i]))
      && (g[i] !in secret ==> r[i] == Blank)
  {
    var g := ValidGuess(guess).0;
    TwoPassIsReference(g, secret);
    OccurrencesBound(secret, g[i]);
  }

  /** The secret scored against itself is all hits: the secret itself. */
  lemma SecretAgainstItself(secret: string)
    requires IsWord(secret)
    ensures ExpectedFeedback(secret, secret) == secret
  {
    var g := ValidGuess(secret).0;
    assert g == secret;
    TwoPassIsReference(secret, secret);
  }

  /** A guess in lower or mixed case gets the feedback of its upper-case form. */
  lemma CaseDoesNotMatter(guess: string, secret: string)
    requires ValidGuess(guess).1 ==> |secret| == 5
    ensures ExpectedFeedback(guess, secret) == ExpectedFeedback(UpperString(guess), secret)
  {
    var u := UpperString(guess);
    assert UpperString(u) == u;
  }

  /** For every letter, the positions marked with it (hits and presents
      together) never outnumber its occurrences in the secret. */
  lemma MultiplicityBound(guess: string, secret: string, c: char)
    requires |secret| == 5 && ValidGuess(guess).1 && IsUpper(c)
    ensures Marks(ExpectedFeedback(guess, secret), c, 5) <= Occurrences(secret, c)
  {
    FinalMarks(ValidGuess(guess).0, secret, c);
  }

  /** A blank position is not a hit, and the secret's occurrences of its letter
      are all accounted for by other marks. */
  lemma BlankMeansExhausted(guess: string, secret: string, i: nat)
    requires |secret| == 5 && ValidGuess(guess).1 && i < 5
    requires ExpectedFeedback(guess, secret)[i] == Blank
    ensures ValidGuess(guess).0[i] != secret[i]
    ensures Marks(ExpectedFeedback(guess, secret), ValidGuess(guess).0[i], 5)
         == Occurrences(secret, ValidGuess(guess).0[i])
  {
    var g := ValidGuess(guess).0;
    TwoPassIsReference(g, secret);
    assert ReferenceAt(g, secret, i) == Blank;
    FinalMarks(g, secret, g[i]);
    NonHitsMonotone(g, secret, g[i], i, 5);
  }

  /** A blank position whose letter does occur in the secret: the same letter is
      marked, as a hit or as present, at some other position of the guess. */
  lemma BlankLetterMarkedElsewhere(guess: string, secret: string, i: nat) returns (j: nat)
    requires |secret| == 5 && ValidGuess(guess).1 && i < 5
    requires ExpectedFeedback(guess, secret)[i] == Blank
    requires ValidGuess(guess).0[i] in secret
    ensures j < 5 && j != i
    ensures ValidGuess(guess).0[j] == ValidGuess(guess).0[i]
    ensures IsUpper(ExpectedFeedback(guess, secret)[j]) || IsLower(ExpectedFeedback(guess, secret)[j])
  {
    var g, r := ValidGuess(guess).0, ExpectedFeedback(guess, secret);
    BlankMeansExhausted(guess, secret, i);
    OccurrencesBound(secret, g[i]);
    j := MarkedWitness(r, g[i], 5);
    MarkShape(guess, secret, j);
  }

  /** Repeated letters resolve left to right: when two non-hit positions hold
      the same letter and the later one is present, so is the earlier one. */
  lemma LeftToRight(guess: string, secret: string, i: nat, j: nat)
    requires |secret| == 5 && ValidGuess(guess).1 && i < j < 5
    requires ValidGuess(guess).0[i] == ValidGuess(guess).0[j]
    requires ValidGuess(guess).0[i] != secret[i] && ValidGuess(guess).0[j] != secret[j]
    requires IsLower(ExpectedFeedback(guess, secret)[j])
    ensures IsLower(ExpectedFeedback(guess, secret)[i])
  {
    var g := ValidGuess(guess).0;
    TwoPassIsReference(g, secret);
    NonHitsMonotone(g, secret, g[i], i + 1, j);
  }

  // The four examples of get_feedback's documentation.

  lemma ExampleLeverEaten()
    ensures ExpectedFeedback("lever", "EATEN") == "-e-E-"
  {
    assert ValidGuess("lever").0 == "LEVER";
    OccurrencesOfFive("EATEN", 'E');
    OccurrencesOfFive("EATEN", 'L');
    OccurrencesOfFive("EATEN", 'R');
    OccurrencesOfFive("EATEN", 'V');
    assert TwoPass("LEVER", "EATEN", 0) == "---E-";
    assert TwoPass("LEVER", "EATEN", 1) == MarkPresent("---E-", "LEVER", "EATEN", 0) == "---E-";
    assert TwoPass("LEVER", "EATEN", 2) == MarkPresent("---E-", "LEVER", "EATEN", 1) == "-e-E-";
    assert TwoPass("LEVER", "EATEN", 3) == MarkPresent("-e-E-", "LEVER", "EATEN", 2) == "-e-E-";
    assert TwoPass("LEVER", "EATEN", 4) == MarkPresent("-e-E-", "LEVER", "EATEN", 3) == "-e-E-";
    assert TwoPass("LEVER", "EATEN", 5) == MarkPresent("-e-E-", "LEVER", "EATEN", 4) == "-e-E-";
  }

  lemma ExampleLeverLower()
    ensures ExpectedFeedback("LEVER", "LOWER") == "L--ER"
  {
    assert ValidGuess("LEVER").0 == "LEVER";
    OccurrencesOfFive("LOWER", 'E');
    OccurrencesOfFive("LOWER", 'L');
    OccurrencesOfFive("LOWER", 'R');
    OccurrencesOfFive("LOWER", 'V');
    assert TwoPass("LEVER", "LOWER", 0) == "L--ER";
    assert TwoPass("LEVER", "LOWER", 1) == MarkPresent("L--ER", "LEVER", "LOWER", 0) == "L--ER";
    assert TwoPass("LEVER", "LOWER", 2) == MarkPresent("L--ER", "LEVER", "LOWER", 1) == "L--ER";
    assert TwoPass("LEVER", "LOWER", 3) == MarkPresent("L--ER", "LEVER", "LOWER", 2) == "L--ER";
    assert TwoPass("LEVER", "LOWER", 4) == MarkPresent("L--ER", "LEVER", "LOWER", 3) == "L--ER";
    assert TwoPass("LEVER", "LOWER", 5) == MarkPresent("L--ER", "LEVER", "LOWER", 4) == "L--ER";
  }

  lemma ExampleMommyMadam()
    ensures ExpectedFeedback("MOMMY", "MADAM") == "M-m--"
  {
    assert ValidGuess("MOMMY").0 == "MOMMY";
    OccurrencesOfFive("MADAM", 'M');
    OccurrencesOfFive("MADAM", 'O');
    OccurrencesOfFive("MADAM", 'Y');
    assert TwoPass("MOMMY", "MADAM", 0) == "M----";
    assert TwoPass("MOMMY", "MADAM", 1) == MarkPresent("M----", "MOMMY", "MADAM", 0) == "M----";
    assert TwoPass("MOMMY", "MADAM", 2) == MarkPresent("M----", "MOMMY", "MADAM", 1) == "M----";
    assert TwoPass("MOMMY", "MADAM", 3) == MarkPresent("M----", "MOMMY", "MADAM", 2) == "M-m--";
    assert TwoPass("MOMMY", "MADAM", 4) == MarkPresent("M-m--", "MOMMY", "MADAM", 3) == "M-m--";
    assert TwoPass("MOMMY", "MADAM", 5) == MarkPresent("M-m--", "MOMMY", "MADAM", 4) == "M-m--";
  }

  lemma ExampleArgueMotto()
    ensures ExpectedFeedback("ARGUE", "MOTTO") == "-----"
  {
    assert ValidGuess("ARGUE").0 == "ARGUE";
    OccurrencesOfFive("MOTTO", 'A');
    OccurrencesOfFive("MOTTO", 'E');
    OccurrencesOfFive("MOTTO", 'G');
    OccurrencesOfFive("MOTTO", 'R');
    OccurrencesOfFive("MOTTO", 'U');
    assert TwoPass("ARGUE", "MOTTO", 0) == "-----";
    assert TwoPass("ARGUE", "MOTTO", 1) == MarkPresent("-----", "ARGUE", "MOTTO", 0) == "-----";
    assert TwoPass("ARGUE", "MOTTO", 2) == MarkPresent("-----", "ARGUE", "MOTTO", 1) == "-----";
    assert TwoPass("ARGUE", "MOTTO", 3) == MarkPresent("-----", "ARGUE", "MOTTO", 2) == "-----";
    assert TwoPass("ARGUE", "MOTTO", 4) == MarkPresent("-----", "ARGUE", "MOTTO", 3) == "-----";
    assert TwoPass("ARGUE", "MOTTO", 5) == MarkPresent("-----", "ARGUE", "MOTTO", 4) == "-----";
  }

  // ---------------------------------------------------------------------------
  // get_feedback itself.

  /** get_feedback: validates and upper-cases the guess, counts the secret's
      letters into a dictionary, marks the hits, then marks present letters
      left to right while the count of positions already marked with a letter
      stays below the secret's count of it. */
  method GetFeedback(guess: string, secretWord: string) returns (feedback: string)
    requires ValidGuess(guess).1 ==> |secretWord| == 5
    ensures feedback == ExpectedFeedback(guess, secretWord)
    ensures feedback == "" <==> !ValidGuess(guess).1
  {
    var checked := ValidGuess(guess);
    var g, valid := checked.0, checked.1;
    if !valid {
      return "";
    }

    var fb := new char[5](_ => Blank);
    var secretDict: map<char, nat> := map[];
    for k := 0 to |secretWord|
      invariant forall j | 0 <= j < 5 :: fb[j] == Blank
      invariant forall c | c in secretDict :: secretDict[c] > 0
      invariant forall c :: Occurrences(secretWord[..k], c) == if c in secretDict then secretDict[c] else 0
    {
      forall c {
        OccurrencesStep(secretWord, k, c);
      }
      var letter := secretWord[k];
      if letter in secretDict {
        secretDict := secretDict[letter := secretDict[letter] + 1];
      } else {
        secretDict := secretDict[letter := 1];
      }
    }
    assert secretWord[..|secretWord|] == secretWord;

    for i := 0 to 5
      invariant forall j | 0 <= j < i :: fb[j] == Hits(g, secretWord)[j]
      invariant forall j | i <= j < 5 :: fb[j] == Blank
    {
      if g[i] == secretWord[i] {
        fb[i] := g[i];
      }
    }
    assert fb[..] == TwoPass(g, secretWord, 0);

    for i := 0 to 5
      invariant fb[..] == TwoPass(g, secretWord, i)
    {
      if fb[i] == Blank {
        if g[i] in secretDict {
          var count := 0;
          for j := 0 to 5
            invariant count == Marks(fb[..], g[i], j)
          {
            if ToUpper(fb[j]) == g[i] {
              count := count + 1;
            }
          }
          if count < secretDict[g[i]] {
            fb[i] := ToLower(g[i]);
          }
        }
      }
    }
    feedback := fb[..];
  }
}
