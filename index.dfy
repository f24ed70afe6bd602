/** The index builder: `make_dicts` and `get_freq_score`.
    The position index maps a (letter, position) key to the set of words of
    the list with that letter at that position; the frequency table counts every
    letter over every position of every word, duplicates included. */
module Index {
  import opened Letters

  /** The 26 letters, in the order make_dicts initialises its tables. */
  const Alphabet: string := "ABCDEFGHIJKLMNOPQRSTUVWXYZ"

  /** A position-index key: a letter and a position (the source's
      letter followed by the position's digit). */
  type Key = (char, int)

  /** One of the 26 * 5 keys make_dicts creates. */
  predicate IsKey(key: Key) {
    IsUpper(key.0) && 0 <= key.1 < 5
  }

  /** `w` holds the key's letter at the key's position. */
  predicate HasAt(w: string, key: Key) {
    0 <= key.1 < |w| && w[key.1] == key.0
  }

  /** The words of the list with the key's letter at the key's position. */
  function Bucket(words: seq<string>, key: Key): (b: set<string>)
    ensures forall w :: w in b <==> w in words && HasAt(w, key)
  {
    set w | w in words && HasAt(w, key)
  }

  lemma BucketStep(words: seq<string>, w: string, key: Key)
    ensures Bucket(words + [w], key) == Bucket(words, key) + (if HasAt(w, key) then {w} else {})
  {
  }

  /** Occurrences of `c` over all the words, duplicate words and repeated
      letters counted every time. */
  function TotalOccurrences(words: seq<string>, c: char): (total: nat)
  {
    if |words| == 0 then 0
    else TotalOccurrences(words[..|words| - 1], c) + Occurrences(words[|words| - 1], c)
  }

  /** The frequency table make_dicts builds from a word list. */
  function FreqTable(words: seq<string>): (t: map<char, nat>)
    ensures forall c :: c in t <==> IsUpper(c)
  {
    map c | IsUpper(c) :: TotalOccurrences(words, c)
  }

  // ---------------------------------------------------------------------------
  // The alphabet.

  lemma AlphabetAt()
    ensures |Alphabet| == 26
    ensures forall k | 0 <= k < 26 :: Alphabet[k] == ('A' as int + k) as char
  {
  }

  lemma AlphabetIsUpper(c: char)
    ensures c in Alphabet <==> IsUpper(c)
  {
    AlphabetAt();
    if IsUpper(c) {
      assert Alphabet[c as int - 'A' as int] == c;
    }
  }

  lemma AlphabetDistinct()
    ensures forall i, j | 0 <= i < j < |Alphabet| :: Alphabet[i] != Alphabet[j]
  {
    AlphabetAt();
  }

  // ---------------------------------------------------------------------------
  // make_dicts.

  /** The first half of make_dicts: for every letter a zero count, and for
      every letter and position an empty bucket. */
  method EmptyTables() returns (lookup: map<Key, set<string>>, freq: map<char, nat>)
    ensures forall key :: key in lookup <==> IsKey(key)
    ensures forall key | key in lookup :: lookup[key] == {}
    ensures forall c :: c in freq <==> IsUpper(c)
    ensures forall c | c in freq :: freq[c] == 0
  {
    lookup := map[];
    freq := map[];
    for a := 0 to |Alphabet|
      invariant forall c :: c in freq <==> c in Alphabet[..a]
      invariant forall c | c in freq :: freq[c] == 0
      invariant forall key :: key in lookup <==> key.0 in Alphabet[..a] && 0 <= key.1 < 5
      invariant forall key | key in lookup :: lookup[key] == {}
    {
      var letter := Alphabet[a];
      assert Alphabet[..a + 1] == Alphabet[..a] + [letter];
      freq := freq[letter := 0];
      for i := 0 to 5
        invariant forall key :: key in lookup <==> (key.0 in Alphabet[..a] && 0 <= key.1 < 5) || (key.0 == letter && 0 <= key.1 < i)
        invariant forall key | key in lookup :: lookup[key] == {}
      {
        lookup := lookup[(letter, i) := {}];
      }
    }
    assert Alphabet[..|Alphabet|] == Alphabet;
    forall c ensures c in Alphabet <==> IsUpper(c) {
      AlphabetIsUpper(c);
    }
  }

  /** The inner loop of make_dicts for one word: the word joins the bucket of
      its letter at each position, and each of its letters is counted once
      more per occurrence. */
  method AddWord(lookup: map<Key, set<string>>, freq: map<char, nat>, word: string)
    returns (lookup': map<Key, set<string>>, freq': map<char, nat>)
    requires IsWord(word)
    requires forall key :: key in lookup <==> IsKey(key)
    requires forall c :: c in freq <==> IsUpper(c)
    ensures forall key :: key in lookup' <==> IsKey(key)
    ensures forall key | key in lookup' :: lookup'[key] == lookup[key] + (if HasAt(word, key) then {word} else {})
    ensures forall c :: c in freq' <==> IsUpper(c)
    ensures forall c | c in freq' :: freq'[c] == freq[c] + Occurrences(word, c)
  {
    lookup', freq' := lookup, freq;
    for i := 0 to 5
      invariant forall key :: key in lookup' <==> IsKey(key)
      invariant forall key | key in lookup' ::
                  lookup'[key] == lookup[key] + (if key.1 < i && HasAt(word, key) then {word} else {})
      invariant forall c :: c in freq' <==> IsUpper(c)
      invariant forall c | c in freq' :: freq'[c] == freq[c] + Occurrences(word[..i], c)
    {
      forall c {
        OccurrencesStep(word, i, c);
      }
      var key := (word[i], i);
      ghost var before := lookup';
      lookup' := lookup'[key := lookup'[key] + {word}];
      forall k | k in lookup'
        ensures lookup'[k] == lookup[k] + (if k.1 < i + 1 && HasAt(word, k) then {word} else {})
      {
        if k != key {
          assert lookup'[k] == before[k];
          assert !(k.1 == i && HasAt(word, k));
        }
      }
      freq' := freq'[word[i] := freq'[word[i]] + 1];
    }
    assert word[..5] == word;
  }

  /** make_dicts: empty tables, then, for every word and position, the word
      joins the bucket of its letter there and that letter's count goes up by
      one. */
  method MakeDicts(wordList: seq<string>) returns (lookup: map<Key, set<string>>, freq: map<char, nat>)
    requires forall w | w in wordList :: IsWord(w)
    ensures forall key :: key in lookup <==> IsKey(key)
    ensures forall key | key in lookup :: lookup[key] == Bucket(wordList, key)
    ensures forall key, w | key in lookup :: w in lookup[key] <==> w in wordList && HasAt(w, key)
    ensures forall c :: c in freq <==> IsUpper(c)
    ensures forall c | c in freq :: freq[c] == TotalOccurrences(wordList, c)
    ensures freq == FreqTable(wordList)
  {
    lookup, freq := EmptyTables();
    for n := 0 to |wordList|
      invariant forall key :: key in lookup <==> IsKey(key)
      invariant forall key | key in lookup :: lookup[key] == Bucket(wordList[..n], key)
      invariant forall c :: c in freq <==> IsUpper(c)
      invariant forall c | c in freq :: freq[c] == TotalOccurrences(wordList[..n], c)
    {
      var word := wordList[n];
      assert wordList[..n + 1][..n] == wordList[..n];
      assert wordList[..n + 1] == wordList[..n] + [word];
      forall key {
        BucketStep(wordList[..n], word, key);
      }
      lookup, freq := AddWord(lookup, freq, word);
    }
    assert wordList[..|wordList|] == wordList;
    assert freq.Keys == FreqTable(wordList).Keys;
  }

  // ---------------------------------------------------------------------------
  // The frequency table's totals.

  /** The sum, over `letters`, of the occurrences of each letter in `w`. */
  function LetterSum(letters: string, w: string): (sum: nat)
  {
    if |letters| == 0 then 0
    else LetterSum(letters[..|letters| - 1], w) + Occurrences(w, letters[|letters| - 1])
  }

  /** The sum, over `letters`, of each letter's total over all words. */
  function LetterTotal(letters: string, words: seq<string>): (sum: nat)
  {
    if |letters| == 0 then 0
    else LetterTotal(letters[..|letters| - 1], words) + TotalOccurrences(words, letters[|letters| - 1])
  }

  lemma {:induction false} LetterSumStep(letters: string, w: string, x: char)
    ensures LetterSum(letters, w + [x]) == LetterSum(letters, w) + Occurrences(letters, x)
  {
    if |letters| > 0 {
      var p, last := letters[..|letters| - 1], letters[|letters| - 1];
      LetterSumStep(p, w, x);
      OccurrencesAppend(w, [x], last);
      assert Occurrences([x], last) == if x == last then 1 else 0 by {
        assert [x][..0] == [];
      }
    }
  }

  lemma {:induction false} OccursOnce(letters: string, x: char)
    requires forall i, j | 0 <= i < j < |letters| :: letters[i] != letters[j]
    requires x in letters
    ensures Occurrences(letters, x) == 1
  {
    var p, last := letters[..|letters| - 1], letters[|letters| - 1];
    assert letters == p + [last];
    if x == last {
      OccurrencesBound(p, x);
    } else {
      OccursOnce(p, x);
    }
  }

  /** Every upper-case letter of a word is counted once by the alphabet sum. */
  lemma {:induction false} LetterSumOfWord(w: string)
    requires AllUpper(w)
    ensures LetterSum(Alphabet, w) == |w|
  {
    if |w| == 0 {
      LetterSumOfEmpty(Alphabet);
    } else {
      var p, x := w[..|w| - 1], w[|w| - 1];
      assert w == p + [x];
      LetterSumOfWord(p);
      LetterSumStep(Alphabet, p, x);
      AlphabetIsUpper(x);
      AlphabetDistinct();
      OccursOnce(Alphabet, x);
    }
  }

  lemma {:induction false} LetterSumOfEmpty(letters: string)
    ensures LetterSum(letters, []) == 0
  {
    if |letters| > 0 {
      LetterSumOfEmpty(letters[..|letters| - 1]);
    }
  }

  lemma {:induction false} LetterTotalStep(letters: string, words: seq<string>, w: string)
    ensures LetterTotal(letters, words + [w]) == LetterTotal(letters, words) + LetterSum(letters, w)
  {
    if |letters| > 0 {
      LetterTotalStep(letters[..|letters| - 1], words, w);
      assert (words + [w])[..|words|] == words;
    }
  }

  lemma {:induction false} LetterTotalOfNone(letters: string)
    ensures LetterTotal(letters, []) == 0
  {
    if |letters| > 0 {
      LetterTotalOfNone(letters[..|letters| - 1]);
    }
  }

  /** The frequency table's counts over the 26 letters add up to five per
      word of the list. */
  lemma {:induction false} FrequenciesSumToLetters(words: seq<string>)
    requires forall w | w in words :: IsWord(w)
    ensures LetterTotal(Alphabet, words) == 5 * |words|
  {
    if |words| == 0 {
      LetterTotalOfNone(Alphabet);
    } else {
      var p, w := words[..|words| - 1], words[|words| - 1];
      assert words == p + [w];
      assert w in words;
      assert forall v | v in p :: v in words;
      FrequenciesSumToLetters(p);
      LetterTotalStep(Alphabet, p, w);
      LetterSumOfWord(w);
    }
  }

  /** A word of the list contributes all its occurrences of a letter to the
      letter's total. */
  lemma {:induction false} TotalCoversWord(words: seq<string>, w: string, c: char)
    requires w in words
    ensures TotalOccurrences(words, c) >= Occurrences(w, c)
  {
    var p := words[..|words| - 1];
    if w != words[|words| - 1] {
      assert words == p + [words[|words| - 1]];
      TotalCoversWord(p, w, c);
    }
  }

  // ---------------------------------------------------------------------------
  // get_freq_score.

  /** The sum of the table over the word's letters, position by position. */
  function FreqScore(word: string, freq: map<char, nat>): (score: nat)
    requires forall c | c in word :: c in freq
  {
    if |word| == 0 then 0
    else FreqScore(word[..|word| - 1], freq) + freq[word[|word| - 1]]
  }

  /** get_freq_score: adds up the table's entry for every letter of the word. */
  method GetFreqScore(word: string, freq: map<char, nat>) returns (score: nat)
    requires forall c | c in word :: c in freq
    ensures score == FreqScore(word, freq)
  {
    score := 0;
    for k := 0 to |word|
      invariant score == FreqScore(word[..k], freq)
    {
      assert word[..k + 1][..k] == word[..k];
      score := score + freq[word[k]];
    }
    assert word[..|word|] == word;
  }

  /** The score weighs each letter of `letters` by its occurrences in `w`. */
  function WeightedSum(letters: string, w: string, freq: map<char, nat>): (sum: nat)
    requires forall c | c in letters :: c in freq
  {
    if |letters| == 0 then 0
    else WeightedSum(letters[..|letters| - 1], w, freq) + Occurrences(w, letters[|letters| - 1]) * freq[letters[|letters| - 1]]
  }

  lemma {:induction false} WeightedSumStep(letters: string, w: string, x: char, freq: map<char, nat>)
    requires forall c | c in letters :: c in freq
    requires x in freq
    ensures WeightedSum(letters, w + [x], freq) == WeightedSum(letters, w, freq) + Occurrences(letters, x) * freq[x]
  {
    if |letters| > 0 {
      var p, last := letters[..|letters| - 1], letters[|letters| - 1];
      assert forall c | c in p :: c in letters;
      WeightedSumStep(p, w, x, freq);
      OccurrencesAppend(w, [x], last);
      assert Occurrences([x], last) == if x == last then 1 else 0 by {
        assert [x][..0] == [];
      }
      assert Occurrences(letters, x) == Occurrences(p, x) + (if last == x then 1 else 0);
      var a, b := Occurrences(w, last), Occurrences(p, x);
      if x == last {
        calc {
          (a + 1) * freq[last];
          a * freq[last] + freq[last];
        }
        calc {
          (b + 1) * freq[x];
          b * freq[x] + freq[x];
        }
      }
    }
  }

  lemma {:induction false} WeightedSumOfEmpty(letters: string, freq: map<char, nat>)
    requires forall c | c in letters :: c in freq
    ensures WeightedSum(letters, [], freq) == 0
  {
    if |letters| > 0 {
      var p := letters[..|letters| - 1];
      assert forall c | c in p :: c in letters;
      WeightedSumOfEmpty(p, freq);
    }
  }

  /** The score counts letters with multiplicity: it is the sum, over the
      alphabet, of each letter's occurrences in the word times its table entry. */
  lemma {:induction false} ScoreWithMultiplicity(word: string, freq: map<char, nat>)
    requires AllUpper(word)
    requires forall c | IsUpper(c) :: c in freq
    ensures forall c | c in word :: c in freq
    ensures forall c | c in Alphabet :: c in freq
    ensures FreqScore(word, freq) == WeightedSum(Alphabet, word, freq)
  {
    forall c | c in Alphabet ensures c in freq {
      AlphabetIsUpper(c);
    }
    if |word| == 0 {
      WeightedSumOfEmpty(Alphabet, freq);
    } else {
      var p, x := word[..|word| - 1], word[|word| - 1];
      assert word == p + [x];
      ScoreWithMultiplicity(p, freq);
      WeightedSumStep(Alphabet, p, x, freq);
      AlphabetIsUpper(x);
      AlphabetDistinct();
      OccursOnce(Alphabet, x);
    }
  }

  /** With a table that counts each of the word's letters at least once, the
      score is at least the word's length. */
  lemma {:induction false} ScoreAtLeastLength(word: string, freq: map<char, nat>)
    requires forall c | c in word :: c in freq && freq[c] >= 1
    ensures FreqScore(word, freq) >= |word|
  {
    if |word| > 0 {
      var p := word[..|word| - 1];
      assert forall c | c in p :: c in word;
      ScoreAtLeastLength(p, freq);
    }
  }

  /** Scored against the table of its own list, a word of the list scores at
      least five, so it always beats get_AI_guess's starting score of 0. */
  lemma ListWordScoresAtLeastFive(words: seq<string>, w: string)
    requires forall v | v in words :: IsWord(v)
    requires w in words
    ensures forall c | c in w :: c in FreqTable(words)
    ensures FreqScore(w, FreqTable(words)) >= 5
  {
    var t := FreqTable(words);
    forall c | c in w
      ensures c in t && t[c] >= 1
    {
      TotalCoversWord(words, w, c);
      OccurrencesBound(w, c);
    }
    ScoreAtLeastLength(w, t);
  }
}
