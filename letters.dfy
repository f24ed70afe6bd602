/** ASCII letter classes, case mapping and letter counting shared by the
    feedback engine, the index builder and the guess selector.
    Only the ASCII letters A-Z and a-z count as letters in this model. */
module Letters {

  predicate IsUpper(c: char) { 'A' <= c <= 'Z' }

  predicate IsLower(c: char) { 'a' <= c <= 'z' }

  predicate IsAlpha(c: char) { IsUpper(c) || IsLower(c) }

  /** str.upper() on one ASCII character: lower-case letters move to upper case,
      everything else is left alone. */
  function ToUpper(c: char): (r: char)
    ensures IsAlpha(c) <==> IsUpper(r)
    ensures IsUpper(c) ==> r == c
    ensures !IsAlpha(c) ==> r == c
  {
    if IsLower(c) then (c as int - 32) as char else c
  }

  /** str.lower() on one ASCII character. */
  function ToLower(c: char): (r: char)
    ensures IsUpper(c) ==> IsLower(r) && ToUpper(r) == c
    ensures !IsUpper(c) ==> r == c
  {
    if IsUpper(c) then (c as int + 32) as char else c
  }

  /** str.upper() on a whole string. */
  function UpperString(s: string): (r: string)
    ensures |r| == |s|
    ensures forall i | 0 <= i < |s| :: r[i] == ToUpper(s[i])
  {
    seq(|s|, i requires 0 <= i < |s| => ToUpper(s[i]))
  }

  /** Every character is an upper-case ASCII letter. */
  predicate AllUpper(w: string) {
    forall i | 0 <= i < |w| :: IsUpper(w[i])
  }

  /** A word of the game: exactly five upper-case letters. */
  predicate IsWord(w: string) {
    |w| == 5 && AllUpper(w)
  }

  /** Number of positions of `s` that hold `c`. */
  function Occurrences(s: string, c: char): (count: nat)
  {
    if |s| == 0 then 0
    else Occurrences(s[..|s| - 1], c) + (if s[|s| - 1] == c then 1 else 0)
  }

  lemma {:induction false} OccurrencesBound(s: string, c: char)
    ensures Occurrences(s, c) <= |s|
    ensures Occurrences(s, c) > 0 <==> c in s
  {
    if |s| > 0 {
      var p := s[..|s| - 1];
      OccurrencesBound(p, c);
      assert s == p + [s[|s| - 1]];
      assert c in s <==> c in p || c == s[|s| - 1];
    }
  }

  lemma OccurrencesStep(s: string, n: nat, c: char)
    requires n < |s|
    ensures Occurrences(s[..n + 1], c) == Occurrences(s[..n], c) + (if s[n] == c then 1 else 0)
  {
    assert s[..n + 1][..n] == s[..n];
  }

  lemma {:induction false} OccurrencesAppend(s: string, t: string, c: char)
    ensures Occurrences(s + t, c) == Occurrences(s, c) + Occurrences(t, c)
    decreases |t|
  {
    if |t| > 0 {
      var t' := t[..|t| - 1];
      assert (s + t)[..|s + t| - 1] == s + t';
      OccurrencesAppend(s, t', c);
    } else {
      assert s + t == s;
    }
  }

  /** Occurrences in a five-character string, position by position. */
  lemma OccurrencesOfFive(w: string, c: char)
    requires |w| == 5
    ensures Occurrences(w, c)
         == (if w[0] == c then 1 else 0) + (if w[1] == c then 1 else 0) + (if w[2] == c then 1 else 0)
          + (if w[3] == c then 1 else 0) + (if w[4] == c then 1 else 0)
  {
    OccurrencesStep(w, 0, c);
    OccurrencesStep(w, 1, c);
    OccurrencesStep(w, 2, c);
    OccurrencesStep(w, 3, c);
    OccurrencesStep(w, 4, c);
    assert w[..5] == w;
  }
}
