# Wordle feedback engine and guess selector

This project models the computational core of `wordle.py`, a Wordle game
with a built-in solver, and proves what its functions promise.

- **Feedback** (`Scoring`). `valid_guess` upper-cases a guess and checks
  that it is five letters. `get_feedback` compares the guess with the
  secret word in two passes over a five-cell buffer. The first pass writes
  the upper-case letter at every exact match. The second pass writes the
  lower-case letter at a blank cell when the letter still has unclaimed
  occurrences in the secret. "Claimed" counts every cell currently marked
  with that letter, later hits included. An invalid guess gets `""`.
  `GetFeedback` keeps the source's array, its count dictionary and its
  counting loop. It is proved equal to a two-pass specification
  (`TwoPass`), which is proved equal to an independent closed form
  (`Reference`). The per-position properties are proved on that closed
  form. The multiplicity bound follows from the invariant of the passes.
  The documented examples are evaluated pass by pass.
- **Index** (`Index`). `make_dicts` builds a position index from a
  (letter, position) key to the words with that letter there. It also
  builds a letter-frequency table counted with multiplicity.
  `get_freq_score` sums the table over a word's letters.
- **Guess selection** (`Selector`). `get_AI_guess` opens with `IRATE`.
  After that it sorts the history into green, yellow and black keys. It
  narrows the word list with the index, filters by the yellow-presence and
  black rules, and keeps a survivor of strictly greatest score. The model
  reads the history in two ways: as the key sets the source builds, and
  mark by mark (`Consistent`). It proves the two readings agree. The
  result is "" exactly when no word is consistent; otherwise it is a
  consistent word of the list with the greatest score. A history made of
  truthful feedback never rules out the secret.

Words are `string`s. A key is a `(char, int)` pair standing for the
source's letter-plus-digit string.

## Model

| member | source | states |
|---|---|---|
| Letters.ToUpper | wordle.py:15 | upper-casing maps exactly the letters to upper-case letters and leaves upper-case letters and non-letters alone |
| Letters.OccurrencesBound | wordle.py:40-45 | a letter's count in the secret is at most its length, and positive exactly when the letter occurs |
| Scoring.ValidGuess | wordle.py:13-15 | the upper-cased guess keeps its length, upper-case characters are kept, and the flag holds exactly when the result is five upper-case letters |
| Scoring.ExpectedFeedback | wordle.py:36-39 | the feedback is "" exactly when the guess is invalid, whatever the secret, and otherwise it has length five |
| Scoring.GetFeedback | wordle.py:17-62 | the buffer-and-dictionary implementation returns exactly the two-pass feedback, and "" exactly for an invalid guess |
| Scoring.TwoPassIsReference | wordle.py:47-59 | the two passes compute the closed form: a hit shows its letter; a non-hit is present exactly when the earlier non-hits of its letter plus all hits on it leave an occurrence in the secret; otherwise blank |
| Scoring.FinalMarks | wordle.py:51-59 | after both passes each letter is marked at its hits plus as many non-hits as the secret has occurrences left |
| Scoring.HitExactlyWhenMatch | wordle.py:47-49 | a position is upper case exactly when the upper-cased guess matches the secret there, and then it shows that letter |
| Scoring.MarkShape | wordle.py:39-59 | every mark is the upper-cased guess letter, its lower-case form or `-`; a letter absent from the secret is always `-` |
| Scoring.SecretAgainstItself | wordle.py:47-49 | scoring a word against itself returns the word |
| Scoring.CaseDoesNotMatter | wordle.py:36 | a guess gets the same feedback as its upper-case form |
| Scoring.MultiplicityBound | wordle.py:40-59 | for every letter, the positions marked with it never outnumber its occurrences in the secret |
| Scoring.BlankMeansExhausted | wordle.py:51-59 | a blank position is not a hit, and the marks on its letter already use up all the secret's occurrences of it |
| Scoring.BlankLetterMarkedElsewhere | wordle.py:51-59 | a blank position whose letter is in the secret has that letter marked, as hit or present, at another position |
| Scoring.LeftToRight | wordle.py:51-59 | of two non-hit positions with the same letter, if the later is present then the earlier is present |
| Scoring.ExampleLeverEaten | wordle.py:25 | `lever` against `EATEN` gives `-e-E-` |
| Scoring.ExampleLeverLower | wordle.py:26 | `LEVER` against `LOWER` gives `L--ER` |
| Scoring.ExampleMommyMadam | wordle.py:27 | `MOMMY` against `MADAM` gives `M-m--` |
| Scoring.ExampleArgueMotto | wordle.py:28 | `ARGUE` against `MOTTO` gives `-----` |
| Index.EmptyTables | wordle.py:79-85 | initialisation creates exactly the 26×5 keys with empty buckets and the 26 letters with count 0 |
| Index.AddWord | wordle.py:88-91 | adding a word puts it in exactly the buckets of its (letter, position) pairs and adds its occurrences of each letter to the counts, keys unchanged |
| Index.MakeDicts | wordle.py:77-93 | the index has exactly the 26×5 keys, a word is in a bucket exactly when it is in the list with that letter at that position, and each letter's count is its total over the list, repetitions included |
| Index.FrequenciesSumToLetters | wordle.py:87-91 | the counts over the 26 letters add up to five times the length of the list |
| Index.TotalCoversWord | wordle.py:87-91 | a letter's count is at least its occurrences in any word of the list |
| Index.GetFreqScore | wordle.py:95-100 | the loop returns the sum of the table over the word's letters |
| Index.ScoreWithMultiplicity | wordle.py:95-100 | the score is the sum over the alphabet of each letter's occurrences in the word times its count, so repeated letters score repeatedly |
| Index.ScoreAtLeastLength | wordle.py:95-100 | when every letter of the word has a count of at least one, the score is at least the word's length |
| Index.ListWordScoresAtLeastFive | wordle.py:145-158 | a word of the list scores at least five against the list's own table, so it beats the starting score of 0 |
| Selector.MarkedSomewhereIsLetter | wordle.py:162 | a letter is marked green or yellow somewhere in the history exactly when it is a green or yellow letter |
| Selector.SurvivorIsConsistent | wordle.py:129-169 | a word that passes the green, yellow and black key checks agrees with every mark of the history |
| Selector.ConsistentPassesGreenYellow | wordle.py:129-152 | a word consistent with the history has every green key, no yellow key and every yellow letter |
| Selector.ConsistentPassesBlack | wordle.py:160-169 | a word consistent with the history passes every black rule |
| Selector.SurvivesKeysIffConsistent | wordle.py:119-169 | the key-set checks and the mark-by-mark reading of the history accept the same words |
| Selector.SortKeys | wordle.py:115-127 | the loops collect exactly the (letter, position) pairs whose mark is `-`, upper case or lower case, respectively |
| Selector.KeepGreen | wordle.py:129-134 | the candidates are exactly the list words with every green key, and the green letters are the letters of the green keys |
| Selector.DropYellow | wordle.py:136-139 | the remaining candidates are exactly those with no yellow key, and the yellow letters are the letters of the yellow keys |
| Selector.PassesYellow | wordle.py:148-152 | the check passes exactly when every yellow letter occurs in the candidate |
| Selector.PassesBlack | wordle.py:160-169 | the check passes exactly when no black key of a green or yellow letter is in the candidate's bucket and no other black letter occurs in it |
| Selector.ConsiderCandidate | wordle.py:147-174 | one turn of the candidate loop replaces the best guess exactly when the candidate has every yellow letter, passes the black rule and beats the greatest score so far, and otherwise changes nothing; the extra scoring for a history without black keys has no effect of its own |
| Selector.GetAIGuess | wordle.py:102-177 | empty history gives `IRATE` whatever the list holds; otherwise the result is "" exactly when no list word is consistent with the history, and else a consistent list word whose score no consistent word exceeds |
| Selector.TruthfulHistoryKeepsSecret | wordle.py:119-169 | if every feedback string is the feedback of its guess against the secret, the secret is consistent with the history |
| Selector.TruthfulHistoryLeavesCandidate | wordle.py:145-177 | with truthful feedback and the secret in the list, some list word is consistent, so the guess is not "" |

`ConsiderCandidate` keeps the source's extra scoring block for a history
without black keys (wordle.py:154-158). Its contract describes the turn as
a single comparison, so the block has no effect of its own. With no black
keys every candidate also passes the black check. The later comparison
then sees an equal score, and the strict `>` rejects it.

## Left out

- `format_guess` (wordle.py:64-75) only colours terminal output, so it is not modelled.
- `play_game` (wordle.py:179-207) is the interactive game loop. It uses input, output and a random secret, so it is not modelled.
- `get_word_list` comes from `wordle_wordlist`, which is not part of this model. The word list is a parameter instead.
- The colorama and itertools imports and the commented-out code after `play_game` are not modelled.
- Letters are ASCII only. Python's `isalpha` and `upper` also accept non-ASCII letters; this model treats them as non-letters.
- ExpectedFeedback, GetFeedback: require a secret of exactly five characters when the guess is valid. An invalid guess gets "" whatever the secret, as in the source (wordle.py:36-37), which returns before reading the secret. For a valid guess, the source fails on a shorter secret with an index error (wordle.py:48). It accepts a longer secret: only the first five characters take part in hits, but all its letters are counted for presents (wordle.py:41-45). The model does not cover longer secrets.
- MakeDicts, GetAIGuess: require every word-list entry to be five upper-case letters; GetAIGuess requires it only when the history is not empty. On an empty history the source returns `IRATE` before reading the list (wordle.py:111-112), and so does the model, whatever the list holds. Otherwise the source reads only the first five characters of an entry (wordle.py:88-91). It fails on a shorter entry with an index error, and on a first-five character that is not an upper-case letter with a missing key. A longer entry is accepted by make_dicts. When such an entry is scored, all of its letters are summed (wordle.py:97-98). If every character after the fifth is an upper-case letter, the source may return the entry; otherwise scoring fails with a missing key at wordle.py:98. The model excludes longer entries.
- GetAIGuess: requires a history in which every guess is five upper-case letters, every feedback string has at least five characters, and there are at least as many feedback strings as guesses (`WellFormed`). The source behaves differently on other histories, in three ways:
  - It fails with an index error on a guess shorter than five characters, on a feedback string shorter than five characters, or when there are fewer feedback strings than guesses (wordle.py:121-122).
  - It fails with a missing key when a guess letter that is not upper case lands in a green key (wordle.py:133) or a yellow key (wordle.py:139). The same happens for a black key whose letter is also a green or yellow letter, once that key is looked up (wordle.py:163).
  - It accepts a longer guess, reading only its first five characters. It also accepts a non-upper-case guess letter in any other black key. A non-upper-case guess letter under a mark that is neither `-` nor a letter forms no key at all (wordle.py:122-127), so the source accepts that too.
- The `black_letters` set (wordle.py:141-143) is built but never read, so it is not modelled.
- GetAIGuess: does not fix which of several best-scoring survivors is returned. The source's choice depends on Python's set iteration order. The model visits the set in an arbitrary order and promises only a consistent word of greatest score.
