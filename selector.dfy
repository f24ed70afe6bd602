/** The guess selector: `get_AI_guess`.
    It sorts every (letter, position) pair of the history into green, yellow
    and black keys, narrows the word list with the position index, filters the
    candidates by the yellow-presence and black rules, and keeps a survivor of
    strictly greatest frequency score. */
module Selector {
  import opened Letters
  import opened Index
  import Scoring

  /** The guess made before any feedback exists. */
  const OpeningGuess: string := "IRATE"

  /** How get_AI_guess reads one feedback mark: the blank first, then upper
      case, then lower case; any other character is ignored. */
  datatype Colour = Green | Yellow | Black | Unread

  function ColourOf(f: char): (colour: Colour)
  {
    if f == Scoring.Blank then Black
    else if IsUpper(f) then Green
    else if IsLower(f) then Yellow
    else Unread
  }

  /** A history get_AI_guess can read: at least as many feedback strings as
      guesses, every guess five upper-case letters, every feedback string at
      least five marks long. */
  predicate WellFormed(guesses: seq<string>, feedback: seq<string>)
  {
    && |feedback| >= |guesses|
    && forall k | 0 <= k < |guesses| :: IsWord(guesses[k]) && |feedback[k]| >= 5
  }

  // ---------------------------------------------------------------------------
  // The history, read mark by mark.

  /** Some green or yellow mark of the history is on letter `c`. */
  predicate MarkedSomewhere(c: char, guesses: seq<string>, feedback: seq<string>)
    requires WellFormed(guesses, feedback)
  {
    exists k, i | 0 <= k < |guesses| && 0 <= i < 5 ::
      guesses[k][i] == c && (IsUpper(feedback[k][i]) || IsLower(feedback[k][i]))
  }

  /** One mark of the history, read as get_AI_guess reads it, holds for `w`. */
  predicate MarkHolds(w: string, guesses: seq<string>, feedback: seq<string>, k: int, i: int)
    requires IsWord(w) && WellFormed(guesses, feedback) && 0 <= k < |guesses| && 0 <= i < 5
  {
    && (IsUpper(feedback[k][i]) ==> w[i] == guesses[k][i])
    && (IsLower(feedback[k][i]) ==> w[i] != guesses[k][i] && guesses[k][i] in w)
    && (feedback[k][i] == Scoring.Blank ==>
          if MarkedSomewhere(guesses[k][i], guesses, feedback) then w[i] != guesses[k][i]
          else guesses[k][i] !in w)
  }

  /** `w` agrees with every mark of the history as get_AI_guess reads it:
      a green mark's letter is at its position; a yellow mark's letter is not
      at its position but somewhere in `w`; a black mark's letter is absent
      from `w` altogether, unless it is marked green or yellow somewhere in the
      history, in which case it is only not at the black position. */
  predicate Consistent(w: string, guesses: seq<string>, feedback: seq<string>)
    requires WellFormed(guesses, feedback)
  {
    && IsWord(w)
    && forall k, i | 0 <= k < |guesses| && 0 <= i < 5 :: MarkHolds(w, guesses, feedback, k, i)
  }

  /** The score get_AI_guess ranks a candidate by. */
  function Score(w: string, wordList: seq<string>): (score: nat)
    requires IsWord(w)
  {
    assert forall c | c in w :: IsUpper(c);
    FreqScore(w, FreqTable(wordList))
  }

  // ---------------------------------------------------------------------------
  // The same history, read as sets of keys.

  /** The keys of one colour from the guesses before `n` and from the first
      `m` positions of guess `n`. */
  function KeysUpTo(guesses: seq<string>, feedback: seq<string>, colour: Colour, n: nat, m: nat): (keys: set<Key>)
    requires WellFormed(guesses, feedback)
  {
    set k, i | 0 <= k < |guesses| && 0 <= i < 5 && (k < n || (k == n && i < m))
                && ColourOf(feedback[k][i]) == colour :: (guesses[k][i], i)
  }

  /** The keys of one colour over the whole history. */
  function KeysOf(guesses: seq<string>, feedback: seq<string>, colour: Colour): (keys: set<Key>)
    requires WellFormed(guesses, feedback)
  {
    KeysUpTo(guesses, feedback, colour, |guesses|, 0)
  }

  function LettersOf(keys: set<Key>): (letters: set<char>)
  {
    set key | key in keys :: key.0
  }

  /** `w` survives the key sets as get_AI_guess applies them: it has every
      green key, no yellow key, every yellow letter, and it passes every black
      rule. */
  predicate SurvivesKeys(w: string, green: set<Key>, yellow: set<Key>, black: set<Key>)
  {
    && (forall key | key in green :: HasAt(w, key))
    && (forall key | key in yellow :: !HasAt(w, key))
    && (forall y | y in LettersOf(yellow) :: y in w)
    && PassesBlackKeys(w, green, yellow, black)
  }

  /** The black rule over the key sets: a black key whose letter is also a
      green or yellow letter rules out only its own position; any other black
      key rules out its letter everywhere. */
  predicate PassesBlackKeys(w: string, green: set<Key>, yellow: set<Key>, black: set<Key>)
  {
    forall key | key in black ::
      if key.0 in LettersOf(yellow) || key.0 in LettersOf(green) then !HasAt(w, key)
      else key.0 !in w
  }

  lemma KeysUpToStep(guesses: seq<string>, feedback: seq<string>, colour: Colour, n: nat, m: nat)
    requires WellFormed(guesses, feedback) && n < |guesses| && m < 5
    ensures KeysUpTo(guesses, feedback, colour, n, m + 1)
         == KeysUpTo(guesses, feedback, colour, n, m)
            + (if ColourOf(feedback[n][m]) == colour then {(guesses[n][m], m)} else {})
  {
  }

  lemma KeysUpToNext(guesses: seq<string>, feedback: seq<string>, colour: Colour, n: nat)
    requires WellFormed(guesses, feedback) && n < |guesses|
    ensures KeysUpTo(guesses, feedback, colour, n, 5) == KeysUpTo(guesses, feedback, colour, n + 1, 0)
  {
  }

  lemma KeysAreKeys(guesses: seq<string>, feedback: seq<string>, colour: Colour)
    requires WellFormed(guesses, feedback)
    ensures forall key | key in KeysOf(guesses, feedback, colour) :: IsKey(key)
  {
  }

  /** A letter is marked green or yellow somewhere exactly when it is the
      letter of a green or a yellow key. */
  lemma MarkedSomewhereIsLetter(c: char, guesses: seq<string>, feedback: seq<string>)
    requires WellFormed(guesses, feedback)
    ensures MarkedSomewhere(c, guesses, feedback)
        <==> c in LettersOf(KeysOf(guesses, feedback, Green)) || c in LettersOf(KeysOf(guesses, feedback, Yellow))
  {
    var green, yellow := KeysOf(guesses, feedback, Green), KeysOf(guesses, feedback, Yellow);
    if MarkedSomewhere(c, guesses, feedback) {
      var k, i :| 0 <= k < |guesses| && 0 <= i < 5 &&
                  guesses[k][i] == c && (IsUpper(feedback[k][i]) || IsLower(feedback[k][i]));
      if IsUpper(feedback[k][i]) {
        assert (c, i) in green;
      } else {
        assert (c, i) in yellow;
      }
    }
    if c in LettersOf(green) {
      var key :| key in green && key.0 == c;
      var k, i :| 0 <= k < |guesses| && 0 <= i < 5 && ColourOf(feedback[k][i]) == Green && key == (guesses[k][i], i);
      assert IsUpper(feedback[k][i]);
    }
    if c in LettersOf(yellow) {
      var key :| key in yellow && key.0 == c;
      var k, i :| 0 <= k < |guesses| && 0 <= i < 5 && ColourOf(feedback[k][i]) == Yellow && key == (guesses[k][i], i);
      assert IsLower(feedback[k][i]);
    }
  }

  /** A word that survives the key sets agrees with each single mark. */
  lemma SurvivorMeetsMark(w: string, guesses: seq<string>, feedback: seq<string>, k: int, i: int)
    requires IsWord(w) && WellFormed(guesses, feedback) && 0 <= k < |guesses| && 0 <= i < 5
    requires SurvivesKeys(w, KeysOf(guesses, feedback, Green), KeysOf(guesses, feedback, Yellow),
                          KeysOf(guesses, feedback, Black))
    ensures MarkHolds(w, guesses, feedback, k, i)
  {
    var key := (guesses[k][i], i);
    match ColourOf(feedback[k][i])
    case Green => assert key in KeysOf(guesses, feedback, Green);
    case Yellow =>
      assert key in KeysOf(guesses, feedback, Yellow);
      assert key.0 in LettersOf(KeysOf(guesses, feedback, Yellow));
    case Black =>
      assert key in KeysOf(guesses, feedback, Black);
      MarkedSomewhereIsLetter(key.0, guesses, feedback);
    case Unread =>
  }

  lemma SurvivorIsConsistent(w: string, guesses: seq<string>, feedback: seq<string>)
    requires IsWord(w) && WellFormed(guesses, feedback)
    requires SurvivesKeys(w, KeysOf(guesses, feedback, Green), KeysOf(guesses, feedback, Yellow),
                          KeysOf(guesses, feedback, Black))
    ensures Consistent(w, guesses, feedback)
  {
    forall k, i | 0 <= k < |guesses| && 0 <= i < 5
      ensures MarkHolds(w, guesses, feedback, k, i)
    {
      SurvivorMeetsMark(w, guesses, feedback, k, i);
    }
  }

  /** A consistent word passes the black rules. */
  lemma ConsistentPassesBlack(w: string, guesses: seq<string>, feedback: seq<string>)
    requires WellFormed(guesses, feedback) && Consistent(w, guesses, feedback)
    ensures PassesBlackKeys(w, KeysOf(guesses, feedback, Green), KeysOf(guesses, feedback, Yellow),
                            KeysOf(guesses, feedback, Black))
  {
    var green, yellow := KeysOf(guesses, feedback, Green), KeysOf(guesses, feedback, Yellow);
    forall key | key in KeysOf(guesses, feedback, Black)
      ensures if key.0 in LettersOf(yellow) || key.0 in LettersOf(green) then !HasAt(w, key) else key.0 !in w
    {
      var k, i :| 0 <= k < |guesses| && 0 <= i < 5 && ColourOf(feedback[k][i]) == Black && key == (guesses[k][i], i);
      assert feedback[k][i] == Scoring.Blank;
      assert MarkHolds(w, guesses, feedback, k, i);
      MarkedSomewhereIsLetter(key.0, guesses, feedback);
    }
  }

  /** A consistent word has every green key, no yellow key and every yellow letter. */
  lemma ConsistentPassesGreenYellow(w: string, guesses: seq<string>, feedback: seq<string>)
    requires WellFormed(guesses, feedback) && Consistent(w, guesses, feedback)
    ensures forall key | key in KeysOf(guesses, feedback, Green) :: HasAt(w, key)
    ensures forall key | key in KeysOf(guesses, feedback, Yellow) :: !HasAt(w, key)
    ensures forall y | y in LettersOf(KeysOf(guesses, feedback, Yellow)) :: y in w
  {
    var green, yellow := KeysOf(guesses, feedback, Green), KeysOf(guesses, feedback, Yellow);
    forall key | key in green ensures HasAt(w, key) {
      var k, i :| 0 <= k < |guesses| && 0 <= i < 5 && ColourOf(feedback[k][i]) == Green && key == (guesses[k][i], i);
      assert MarkHolds(w, guesses, feedback, k, i);
    }
    forall key | key in yellow ensures !HasAt(w, key) {
      var k, i :| 0 <= k < |guesses| && 0 <= i < 5 && ColourOf(feedback[k][i]) == Yellow && key == (guesses[k][i], i);
      assert MarkHolds(w, guesses, feedback, k, i);
    }
    forall y | y in LettersOf(yellow) ensures y in w {
      var key :| key in yellow && key.0 == y;
      var k, i :| 0 <= k < |guesses| && 0 <= i < 5 && ColourOf(feedback[k][i]) == Yellow && key == (guesses[k][i], i);
      assert MarkHolds(w, guesses, feedback, k, i);
    }
  }

  /** Reading the history mark by mark and reading it as key sets agree. */
  lemma SurvivesKeysIffConsistent(w: string, guesses: seq<string>, feedback: seq<string>)
    requires IsWord(w) && WellFormed(guesses, feedback)
    ensures SurvivesKeys(w, KeysOf(guesses, feedback, Green), KeysOf(guesses, feedback, Yellow),
                         KeysOf(guesses, feedback, Black))
        <==> Consistent(w, guesses, feedback)
  {
    if SurvivesKeys(w, KeysOf(guesses, feedback, Green), KeysOf(guesses, feedback, Yellow),
                    KeysOf(guesses, feedback, Black)) {
      SurvivorIsConsistent(w, guesses, feedback);
    }
    if Consistent(w, guesses, feedback) {
      ConsistentPassesGreenYellow(w, guesses, feedback);
      ConsistentPassesBlack(w, guesses, feedback);
    }
  }

  // ---------------------------------------------------------------------------
  // The steps of get_AI_guess.

  /** Sorts every (letter, position) pair of the history into green, yellow or
      black keys by its feedback mark. */
  method SortKeys(guesses: seq<string>, feedback: seq<string>) returns (green: set<Key>, yellow: set<Key>, black: set<Key>)
    requires WellFormed(guesses, feedback)
    ensures green == KeysOf(guesses, feedback, Green)
    ensures yellow == KeysOf(guesses, feedback, Yellow)
    ensures black == KeysOf(guesses, feedback, Black)
  {
    green, yellow, black := {}, {}, {};
    for wordNum := 0 to |guesses|
      invariant green == KeysUpTo(guesses, feedback, Green, wordNum, 0)
      invariant yellow == KeysUpTo(guesses, feedback, Yellow, wordNum, 0)
      invariant black == KeysUpTo(guesses, feedback, Black, wordNum, 0)
    {
      for i := 0 to 5
        invariant green == KeysUpTo(guesses, feedback, Green, wordNum, i)
        invariant yellow == KeysUpTo(guesses, feedback, Yellow, wordNum, i)
        invariant black == KeysUpTo(guesses, feedback, Black, wordNum, i)
      {
        KeysUpToStep(guesses, feedback, Green, wordNum, i);
        KeysUpToStep(guesses, feedback, Yellow, wordNum, i);
        KeysUpToStep(guesses, feedback, Black, wordNum, i);
        var letterKey := (guesses[wordNum][i], i);
        var mark := feedback[wordNum][i];
        if mark == Scoring.Blank {
          black := black + {letterKey};
        } else if IsUpper(mark) {
          green := green + {letterKey};
        } else if IsLower(mark) {
          yellow := yellow + {letterKey};
        }
      }
      KeysUpToNext(guesses, feedback, Green, wordNum);
      KeysUpToNext(guesses, feedback, Yellow, wordNum);
      KeysUpToNext(guesses, feedback, Black, wordNum);
    }
  }

  lemma LettersOfAdd(keys: set<Key>, key: Key)
    ensures LettersOf(keys + {key}) == LettersOf(keys) + {key.0}
  {
  }

  /** Narrows the word list to the intersection of the buckets of the green
      keys (the whole list when there is none) and collects the green letters. */
  method KeepGreen(wordList: seq<string>, lookup: map<Key, set<string>>, green: set<Key>)
    returns (candidates: set<string>, greenLetters: set<char>)
    requires forall key | key in green :: key in lookup
    requires forall key | key in lookup :: lookup[key] == Bucket(wordList, key)
    ensures greenLetters == LettersOf(green)
    ensures forall w :: w in candidates <==> w in wordList && forall key | key in green :: HasAt(w, key)
  {
    candidates := set w | w in wordList;
    greenLetters := {};
    if |green| != 0 {
      var todo := green;
      while todo != {}
        invariant todo <= green
        invariant greenLetters == LettersOf(green - todo)
        invariant forall w :: w in candidates <==> w in wordList && forall key | key in green - todo :: HasAt(w, key)
        decreases |todo|
      {
        var key :| key in todo;
        LettersOfAdd(green - todo, key);
        assert green - (todo - {key}) == (green - todo) + {key};
        candidates := candidates * lookup[key];
        greenLetters := greenLetters + {key.0};
        todo := todo - {key};
      }
      assert green - {} == green;
    }
  }

  /** Removes the bucket of every yellow key from the candidates and collects
      the yellow letters. */
  method DropYellow(wordList: seq<string>, lookup: map<Key, set<string>>, candidates: set<string>, yellow: set<Key>)
    returns (remaining: set<string>, yellowLetters: set<char>)
    requires forall w | w in candidates :: w in wordList
    requires forall key | key in yellow :: key in lookup
    requires forall key | key in lookup :: lookup[key] == Bucket(wordList, key)
    ensures yellowLetters == LettersOf(yellow)
    ensures forall w :: w in remaining <==> w in candidates && forall key | key in yellow :: !HasAt(w, key)
  {
    remaining := candidates;
    yellowLetters := {};
    var todo := yellow;
    while todo != {}
      invariant todo <= yellow
      invariant yellowLetters == LettersOf(yellow - todo)
      invariant forall w :: w in remaining <==> w in candidates && forall key | key in yellow - todo :: !HasAt(w, key)
      decreases |todo|
    {
      var key :| key in todo;
      LettersOfAdd(yellow - todo, key);
      assert yellow - (todo - {key}) == (yellow - todo) + {key};
      yellowLetters := yellowLetters + {key.0};
      remaining := remaining - lookup[key];
      todo := todo - {key};
    }
    assert yellow - {} == yellow;
  }

  /** The yellow check of one candidate: every yellow letter occurs in it. */
  method PassesYellow(candidate: string, yellowLetters: set<char>) returns (passed: bool)
    ensures passed <==> forall y | y in yellowLetters :: y in candidate
  {
    passed := true;
    var todo := yellowLetters;
    while todo != {}
      invariant todo <= yellowLetters
      invariant passed
      invariant forall y | y in yellowLetters - todo :: y in candidate
      decreases |todo|
    {
      var yellow :| yellow in todo;
      if yellow !in candidate {
        passed := false;
        break;
      }
      todo := todo - {yellow};
    }
  }

  /** The black rule for one candidate: a black key whose letter is also
      green or yellow rules out only words in its bucket; any other black key
      rules out every word containing its letter. */
  predicate BlackRuleHolds(candidate: string, black: set<Key>, yellowLetters: set<char>, greenLetters: set<char>,
                           lookup: map<Key, set<string>>)
    requires forall key | key in black && (key.0 in yellowLetters || key.0 in greenLetters) :: key in lookup
  {
    forall key | key in black ::
      if key.0 in yellowLetters || key.0 in greenLetters then candidate !in lookup[key]
      else key.0 !in candidate
  }

  /** The black check of one candidate, key by key with an early exit. */
  method PassesBlack(candidate: string, black: set<Key>, yellowLetters: set<char>, greenLetters: set<char>,
                     lookup: map<Key, set<string>>)
    returns (passed: bool)
    requires forall key | key in black && (key.0 in yellowLetters || key.0 in greenLetters) :: key in lookup
    ensures passed <==> BlackRuleHolds(candidate, black, yellowLetters, greenLetters, lookup)
  {
    passed := true;
    var todo := black;
    while todo != {}
      invariant todo <= black
      invariant passed
      invariant forall key | key in black - todo ::
                  if key.0 in yellowLetters || key.0 in greenLetters then candidate !in lookup[key]
                  else key.0 !in candidate
      decreases |todo|
    {
      var blackKey :| blackKey in todo;
      if blackKey.0 in yellowLetters || blackKey.0 in greenLetters {
        if candidate in lookup[blackKey] {
          passed := false;
          break;
        }
      } else {
        if blackKey.0 in candidate {
          passed := false;
          break;
        }
      }
      todo := todo - {blackKey};
    }
  }

  /** One turn of the candidate loop: the yellow check, the extra scoring when
      there are no black keys, the black check and the scoring of a survivor.
      Its outcome is a single comparison: a candidate that passes both checks
      and beats the greatest score so far replaces the best guess, and nothing
      changes otherwise, so the extra scoring has no effect of its own. */
  method ConsiderCandidate(candidate: string, freq: map<char, nat>, lookup: map<Key, set<string>>,
                           black: set<Key>, yellowLetters: set<char>, greenLetters: set<char>,
                           bestGuess: string, greatestFreqScore: nat)
    returns (newBest: string, newGreatest: nat)
    requires forall c | c in candidate :: c in freq
    requires forall key | key in black && (key.0 in yellowLetters || key.0 in greenLetters) :: key in lookup
    ensures var survives := (forall y | y in yellowLetters :: y in candidate)
                            && BlackRuleHolds(candidate, black, yellowLetters, greenLetters, lookup);
            if survives && FreqScore(candidate, freq) > greatestFreqScore
            then newBest == candidate && newGreatest == FreqScore(candidate, freq)
            else newBest == bestGuess && newGreatest == greatestFreqScore
  {
    newBest, newGreatest := bestGuess, greatestFreqScore;
    var passedYellow := PassesYellow(candidate, yellowLetters);
    if passedYellow {
      if |black| == 0 {
        var freqScore := GetFreqScore(candidate, freq);
        if freqScore > newGreatest {
          newBest := candidate;
          newGreatest := freqScore;
        }
      }

      var passedBlack := PassesBlack(candidate, black, yellowLetters, greenLetters, lookup);
      if passedBlack {
        var freqScore := GetFreqScore(candidate, freq);
        if freqScore > newGreatest {
          newBest := candidate;
          newGreatest := freqScore;
        }
      }
    }
  }

  /** get_AI_guess. With no history it returns the opening guess. Otherwise it
      returns "" exactly when no word of the list is consistent with the
      history, and else a consistent word of the list whose score no other
      consistent word exceeds. Which of several best-scoring words it returns
      depends on the order it visits a set in, which is left open here. */
  method GetAIGuess(wordList: seq<string>, guesses: seq<string>, feedback: seq<string>) returns (bestGuess: string)
    requires guesses != [] ==> forall w | w in wordList :: IsWord(w)
    requires WellFormed(guesses, feedback)
    ensures guesses == [] ==> bestGuess == OpeningGuess
    ensures guesses != [] ==>
              (bestGuess == "" <==> forall w | w in wordList :: !Consistent(w, guesses, feedback))
    ensures guesses != [] && bestGuess != "" ==>
              && bestGuess in wordList
              && Consistent(bestGuess, guesses, feedback)
              && forall w | w in wordList && Consistent(w, guesses, feedback) :: Score(w, wordList) <= Score(bestGuess, wordList)
  {
    if guesses == [] {
      return OpeningGuess;
    }

    var lookup, freq := MakeDicts(wordList);
    var green, yellow, black := SortKeys(guesses, feedback);
    KeysAreKeys(guesses, feedback, Green);
    KeysAreKeys(guesses, feedback, Yellow);
    KeysAreKeys(guesses, feedback, Black);
    var greenCandidates, greenLetters := KeepGreen(wordList, lookup, green);
    var candidates, yellowLetters := DropYellow(wordList, lookup, greenCandidates, yellow);

    var greatestFreqScore: nat := 0;
    bestGuess := "";
    var todo := candidates;
    while todo != {}
      invariant todo <= candidates
      invariant bestGuess == "" ==> greatestFreqScore == 0
      invariant bestGuess != "" ==>
                  && bestGuess in candidates
                  && SurvivesKeys(bestGuess, green, yellow, black)
                  && greatestFreqScore == Score(bestGuess, wordList)
      invariant forall w | w in candidates - todo && SurvivesKeys(w, green, yellow, black) ::
                  Score(w, wordList) <= greatestFreqScore
      decreases |todo|
    {
      var candidate :| candidate in todo;
      assert IsWord(candidate);
      bestGuess, greatestFreqScore :=
        ConsiderCandidate(candidate, freq, lookup, black, yellowLetters, greenLetters, bestGuess, greatestFreqScore);
      todo := todo - {candidate};
    }

    forall w | w in wordList
      ensures SurvivesKeys(w, green, yellow, black) <==> Consistent(w, guesses, feedback)
    {
      assert IsWord(w);
      SurvivesKeysIffConsistent(w, guesses, feedback);
    }
    forall w | w in wordList && Consistent(w, guesses, feedback)
      ensures Score(w, wordList) <= greatestFreqScore && Score(w, wordList) >= 5
    {
      assert IsWord(w);
      ListWordScoresAtLeastFive(wordList, w);
    }
  }

  // ---------------------------------------------------------------------------
  // Soundness: truthful feedback never rules out the secret.

  /** When every feedback string of the history is what get_feedback says
      about its guess and the secret, the secret is consistent with the
      history. */
  lemma TruthfulHistoryKeepsSecret(secret: string, guesses: seq<string>, feedback: seq<string>)
    requires IsWord(secret) && WellFormed(guesses, feedback)
    requires forall k | 0 <= k < |guesses| :: feedback[k] == Scoring.ExpectedFeedback(guesses[k], secret)
    ensures Consistent(secret, guesses, feedback)
  {
    forall k, i | 0 <= k < |guesses| && 0 <= i < 5
      ensures MarkHolds(secret, guesses, feedback, k, i)
    {
      var g := guesses[k];
      assert Scoring.ValidGuess(g).0 == g;
      Scoring.HitExactlyWhenMatch(g, secret, i);
      Scoring.MarkShape(g, secret, i);
      if feedback[k][i] == Scoring.Blank && g[i] in secret {
        var j := Scoring.BlankLetterMarkedElsewhere(g, secret, i);
        assert guesses[k][j] == g[i];
        assert MarkedSomewhere(g[i], guesses, feedback);
      }
    }
  }

  /** Hence, when the secret is a word of the list and the history is
      truthful, some word of the list is consistent with it, and get_AI_guess
      does not return "". */
  lemma TruthfulHistoryLeavesCandidate(wordList: seq<string>, secret: string, guesses: seq<string>, feedback: seq<string>)
    requires forall w | w in wordList :: IsWord(w)
    requires secret in wordList && WellFormed(guesses, feedback)
    requires IsWord(secret)
    requires forall k | 0 <= k < |guesses| :: feedback[k] == Scoring.ExpectedFeedback(guesses[k], secret)
    ensures exists w | w in wordList :: Consistent(w, guesses, feedback)
  {
    TruthfulHistoryKeepsSecret(secret, guesses, feedback);
  }
}
