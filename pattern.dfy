/**
 * The response patterns of one guess (src/pattern.rs). Each of the 3^5
 * patterns gives every position of the guess one of three verdicts: the
 * letter is at that position, present elsewhere, or absent from the word.
 */
module Pattern {
  import opened Bytes
  import BitSet
  import Fivegram
  import Word

  /** `usize::pow` on the naturals. */
  function Pow(base: nat, e: nat): (r: nat)
    ensures 0 < base ==> 0 < r
  {
    if e == 0 then 1 else base * Pow(base, e - 1)
  }

  /** `PATTERN_COUNT = 3^FIVEGRAM`. */
  const PATTERN_COUNT: nat := Pow(3, Fivegram.FIVEGRAM)

  lemma PatternCountValue()
    ensures PATTERN_COUNT == 243
  {
    assert Pow(3, 1) == 3 && Pow(3, 2) == 9 && Pow(3, 3) == 27 && Pow(3, 4) == 81;
  }

  /** `Pattern`: the four packed constraints a response imposes on a candidate. */
  datatype Pattern = Pattern(
    matchWord: Fivegram.Fivegram,
    presentLetter: BitSet.AsciiBitSet,
    absentWord: Fivegram.Fivegram,
    absentLetter: BitSet.AsciiBitSet)

  /** `Pattern::default()`: no constraint at all. */
  const DEFAULT: Pattern := Pattern(Fivegram.EMPTY, BitSet.EMPTY, Fivegram.EMPTY, BitSet.EMPTY)

  // Verdict codes, the base-3 digits of a pattern's index.

  /** The letter is at this position. */
  const AT_POSITION: nat := 0
  /** The letter is in the word, but not at this position. */
  const ELSEWHERE: nat := 1
  /** The letter is not in the word. */
  const ABSENT: nat := 2

  /** Digit `i` of `j` in base 3, as `from_bytes` computes it: `(j / 3^i) % 3`. */
  function Digit(j: nat, i: nat): (d: nat)
    ensures d < 3
  {
    (j / Pow(3, i)) % 3
  }

  /** The positions among the first `n` whose verdict in pattern `j` is `v`. */
  function Keep(j: nat, v: nat, n: nat): (keep: seq<bool>)
    ensures |keep| == n && forall i :: 0 <= i < n ==> keep[i] == (Digit(j, i) == v)
  {
    seq(n, i requires 0 <= i < n => Digit(j, i) == v)
  }

  lemma KeepPrefix(j: nat, v: nat, n: nat)
    ensures Keep(j, v, n + 1)[..n] == Keep(j, v, n)
  {
  }

  /** The bytes of a guess that the patterns can be built from. */
  predicate Guess(bytes: seq<byte>) {
    |bytes| == Fivegram.FIVEGRAM && BitSet.AllInRange(bytes)
  }

  /** The letter set of the kept bytes: `set_letter` on each of them, in order. */
  function Marked(bytes: seq<byte>, keep: seq<bool>): BitSet.AsciiBitSet
    requires BitSet.AllInRange(bytes) && |keep| == |bytes|
  {
    if |bytes| == 0 then BitSet.EMPTY
    else
      var n := |bytes| - 1;
      var prev := Marked(bytes[..n], keep[..n]);
      if keep[n] then BitSet.SetLetter(prev, bytes[n]) else prev
  }

  /**
   * Pattern `j` after the first `n` positions of the guess: the positions with
   * verdict `AT_POSITION` are written into `matchWord`, those with `ELSEWHERE`
   * into `absentWord` and `presentLetter`, those with `ABSENT` into `absentLetter`.
   */
  function PatternUpTo(bytes: seq<byte>, j: nat, n: nat): Pattern
    requires Guess(bytes) && n <= Fivegram.FIVEGRAM
  {
    Word.InRangeFromA(bytes);
    Pattern(
      Fivegram.Sparse(bytes[..n], Keep(j, AT_POSITION, n)),
      Marked(bytes[..n], Keep(j, ELSEWHERE, n)),
      Fivegram.Sparse(bytes[..n], Keep(j, ELSEWHERE, n)),
      Marked(bytes[..n], Keep(j, ABSENT, n)))
  }

  /** Pattern `j` of a guess, as `from_bytes` leaves it. */
  function PatternOf(bytes: seq<byte>, j: nat): Pattern
    requires Guess(bytes)
  {
    PatternUpTo(bytes, j, Fivegram.FIVEGRAM)
  }

  /** What the body of the inner loop of `from_bytes` does to `p` for verdict `d` at position `i`. */
  function Step(p: Pattern, b: byte, i: nat, d: nat): Pattern
    requires BitSet.InRange(b) && i < Fivegram.FIVEGRAM && d < 3
  {
    if d == AT_POSITION then p.(matchWord := Fivegram.SetLetter(p.matchWord, b, Fivegram.Pos(i)))
    else if d == ELSEWHERE then
      p.(absentWord := Fivegram.SetLetter(p.absentWord, b, Fivegram.Pos(i)),
         presentLetter := BitSet.SetLetter(p.presentLetter, b))
    else p.(absentLetter := BitSet.SetLetter(p.absentLetter, b))
  }

  lemma MarkedStep(bytes: seq<byte>, j: nat, v: nat, n: nat)
    requires Guess(bytes) && n < Fivegram.FIVEGRAM
    ensures Marked(bytes[..n + 1], Keep(j, v, n + 1))
      == if Digit(j, n) == v then BitSet.SetLetter(Marked(bytes[..n], Keep(j, v, n)), bytes[n])
         else Marked(bytes[..n], Keep(j, v, n))
  {
    assert bytes[..n + 1][..n] == bytes[..n];
    KeepPrefix(j, v, n);
  }

  lemma SparseStep(bytes: seq<byte>, j: nat, v: nat, n: nat)
    requires Guess(bytes) && n < Fivegram.FIVEGRAM
    ensures forall k :: 0 <= k < |bytes| ==> LOWER_A <= bytes[k]
    ensures Fivegram.Sparse(bytes[..n + 1], Keep(j, v, n + 1))
      == if Digit(j, n) == v then Fivegram.SetLetter(Fivegram.Sparse(bytes[..n], Keep(j, v, n)), bytes[n], Fivegram.Pos(n))
         else Fivegram.Sparse(bytes[..n], Keep(j, v, n))
  {
    Word.InRangeFromA(bytes);
    assert bytes[..n + 1][..n] == bytes[..n];
    KeepPrefix(j, v, n);
  }

  /** One more position of the guess is one `Step`. */
  lemma PatternStep(bytes: seq<byte>, j: nat, n: nat)
    requires Guess(bytes) && n < Fivegram.FIVEGRAM
    ensures PatternUpTo(bytes, j, n + 1) == Step(PatternUpTo(bytes, j, n), bytes[n], n, Digit(j, n))
  {
    SparseStep(bytes, j, AT_POSITION, n);
    SparseStep(bytes, j, ELSEWHERE, n);
    MarkedStep(bytes, j, ELSEWHERE, n);
    MarkedStep(bytes, j, ABSENT, n);
  }

  lemma PatternUpToZero(bytes: seq<byte>, j: nat)
    requires Guess(bytes)
    ensures PatternUpTo(bytes, j, 0) == DEFAULT
  {
  }

  /**
   * `Pattern::from_bytes`: every pattern starts as the default and position
   * `i` of the guess goes into the part that digit `i` of the pattern's index names.
   */
  method FromBytes(bytes: Word.WordBytes) returns (patterns: seq<Pattern>)
    requires BitSet.AllInRange(bytes)
    ensures |patterns| == PATTERN_COUNT
    ensures forall j :: 0 <= j < PATTERN_COUNT ==> patterns[j] == PatternOf(bytes, j)
  {
    var buffer := new Pattern[PATTERN_COUNT](_ => DEFAULT);
    for j := 0 to PATTERN_COUNT
      invariant forall j' :: 0 <= j' < j ==> buffer[j'] == PatternOf(bytes, j')
      invariant forall j' :: j <= j' < PATTERN_COUNT ==> buffer[j'] == DEFAULT
    {
      PatternUpToZero(bytes, j);
      var p := buffer[j];
      for i := 0 to Fivegram.FIVEGRAM
        invariant p == PatternUpTo(bytes, j, i)
        modifies {}
      {
        PatternStep(bytes, j, i);
        var verdict := (j / Pow(3, i)) % 3;
        assert verdict == Digit(j, i);
        match verdict {
          case 0 =>
            p := p.(matchWord := Fivegram.SetLetter(p.matchWord, bytes[i], Fivegram.Pos(i)));
          case 1 =>
            p := p.(absentWord := Fivegram.SetLetter(p.absentWord, bytes[i], Fivegram.Pos(i)));
            p := p.(presentLetter := BitSet.SetLetter(p.presentLetter, bytes[i]));
          case 2 =>
            p := p.(absentLetter := BitSet.SetLetter(p.absentLetter, bytes[i]));
          case _ =>
            assert false;
        }
        assert p == Step(PatternUpTo(bytes, j, i), bytes[i], i, Digit(j, i));
      }
      buffer[j] := p;
    }
    patterns := buffer[..];
  }

  /** `Pattern::matches_word`: all four constraints hold for the candidate. */
  predicate MatchesWord(p: Pattern, w: Word.Word) {
    BitSet.IsSuperset(w.letters, p.presentLetter)
    && BitSet.IsDisjoint(w.letters, p.absentLetter)
    && Fivegram.ExactMatch(w.fivegram, p.matchWord)
    && !Fivegram.AnyPosMatch(w.fivegram, p.absentWord)
  }

  /** The default pattern matches every word. */
  lemma DefaultMatchesEveryWord(w: Word.Word)
    ensures MatchesWord(DEFAULT, w)
  {
    Fivegram.ExactMatchEmpty(w.fivegram);
    Fivegram.AnyPosMatchEmpty(w.fivegram);
  }

  /** `a` is a superset of the marked letters iff it contains every kept byte. */
  lemma {:induction false} SupersetOfMarked(a: BitSet.AsciiBitSet, bytes: seq<byte>, keep: seq<bool>)
    requires BitSet.AllInRange(bytes) && |keep| == |bytes|
    ensures BitSet.IsSuperset(a, Marked(bytes, keep))
      <==> forall k :: 0 <= k < |bytes| && keep[k] ==> BitSet.Contains(a, bytes[k])
  {
    if |bytes| != 0 {
      var n := |bytes| - 1;
      SupersetOfMarked(a, bytes[..n], keep[..n]);
      if keep[n] {
        BitSet.SupersetOfSetLetter(a, Marked(bytes[..n], keep[..n]), bytes[n]);
      }
    }
  }

  /** `a` is disjoint from the marked letters iff it contains no kept byte. */
  lemma {:induction false} DisjointFromMarked(a: BitSet.AsciiBitSet, bytes: seq<byte>, keep: seq<bool>)
    requires BitSet.AllInRange(bytes) && |keep| == |bytes|
    ensures BitSet.IsDisjoint(a, Marked(bytes, keep))
      <==> forall k :: 0 <= k < |bytes| && keep[k] ==> !BitSet.Contains(a, bytes[k])
  {
    if |bytes| != 0 {
      var n := |bytes| - 1;
      DisjointFromMarked(a, bytes[..n], keep[..n]);
      if keep[n] {
        BitSet.DisjointFromSetLetter(a, Marked(bytes[..n], keep[..n]), bytes[n]);
      }
    }
  }

  /**
   * The `matches_word` property test: a pattern assembled from a template of
   * letters at their positions, a template of letters not at their positions,
   * the letters that must occur and the letters that must not occur matches a
   * word exactly when each of the four holds.
   */
  lemma MatchesWordOracle(s: seq<byte>, matchWord: seq<byte>, absentWord: seq<byte>,
                          matchLetters: seq<byte>, absentLetters: seq<byte>)
    requires Fivegram.IsWord(s) && Fivegram.IsTemplate(matchWord) && Fivegram.IsTemplate(absentWord)
    requires AllLower(matchLetters) && AllLower(absentLetters)
    ensures BitSet.AllInRange(s) && BitSet.AllInRange(matchLetters) && BitSet.AllInRange(absentLetters)
      && (MatchesWord(Pattern(Fivegram.FromTemplate(matchWord), BitSet.Letters(matchLetters),
                              Fivegram.FromTemplate(absentWord), BitSet.Letters(absentLetters)),
                      Word.Encode(s))
          <==>
          ((forall k :: 0 <= k < Fivegram.FIVEGRAM ==> s[k] == matchWord[k] || matchWord[k] == Fivegram.UNDERSCORE)
           && (forall k :: 0 <= k < Fivegram.FIVEGRAM ==> s[k] != absentWord[k] || absentWord[k] == Fivegram.UNDERSCORE)
           && (forall c :: c in matchLetters ==> c in s)
           && (forall c :: c in absentLetters ==> c !in s)))
  {
    BitSet.LowerInRange(s);
    BitSet.LowerInRange(matchLetters);
    BitSet.LowerInRange(absentLetters);
    Fivegram.TemplateExactMatch(s, matchWord);
    Fivegram.TemplateAnyPosMatch(s, absentWord);
    BitSet.SupersetIsInclusion(s, matchLetters);
    BitSet.DisjointIsNoCommonLetter(s, absentLetters);
  }

  // Which pattern a guess meets: the response to guess `g` when the hidden
  // word is `t`, and the proof that it is the only pattern of `g` that `t` matches.

  /**
   * The verdict at position `i`: the letter is there, elsewhere in the word,
   * or absent. Letter multiplicities are ignored, as in the source's
   * patterns: a guess letter not at its position is "elsewhere" whenever it
   * occurs anywhere in `t`, however often the guess repeats it.
   */
  function Verdict(g: seq<byte>, t: seq<byte>, i: nat): (v: nat)
    requires |g| == Fivegram.FIVEGRAM && |t| == Fivegram.FIVEGRAM && i < Fivegram.FIVEGRAM
    ensures v < 3
  {
    if t[i] == g[i] then AT_POSITION else if g[i] in t then ELSEWHERE else ABSENT
  }

  /** The index of the response: the five verdicts as base-3 digits, position 0 lowest. */
  function Feedback(g: seq<byte>, t: seq<byte>): nat
    requires |g| == Fivegram.FIVEGRAM && |t| == Fivegram.FIVEGRAM
  {
    Verdict(g, t, 0) + 3 * Verdict(g, t, 1) + 9 * Verdict(g, t, 2) + 27 * Verdict(g, t, 3) + 81 * Verdict(g, t, 4)
  }

  /** What digit `i` of pattern `j` demands of position `i` of `t`. */
  predicate FitsAt(g: seq<byte>, t: seq<byte>, j: nat, i: nat)
    requires |g| == Fivegram.FIVEGRAM && |t| == Fivegram.FIVEGRAM && i < Fivegram.FIVEGRAM
  {
    (Digit(j, i) == AT_POSITION ==> t[i] == g[i])
    && (Digit(j, i) == ELSEWHERE ==> t[i] != g[i] && g[i] in t)
    && (Digit(j, i) == ABSENT ==> g[i] !in t)
  }

  predicate Fits(g: seq<byte>, t: seq<byte>, j: nat)
    requires |g| == Fivegram.FIVEGRAM && |t| == Fivegram.FIVEGRAM
  {
    forall i :: 0 <= i < Fivegram.FIVEGRAM ==> FitsAt(g, t, j, i)
  }

  lemma PowValues()
    ensures Pow(3, 0) == 1 && Pow(3, 1) == 3 && Pow(3, 2) == 9 && Pow(3, 3) == 27 && Pow(3, 4) == 81
  {
  }

  /** The parts of pattern `j`: the kept positions of the guess for each verdict. */
  lemma PatternOfParts(g: seq<byte>, j: nat)
    requires Fivegram.IsWord(g)
    ensures Guess(g) && Fivegram.WritableLower(g, Keep(j, AT_POSITION, Fivegram.FIVEGRAM))
      && Fivegram.WritableLower(g, Keep(j, ELSEWHERE, Fivegram.FIVEGRAM))
    ensures PatternOf(g, j).matchWord == Fivegram.Sparse(g, Keep(j, AT_POSITION, Fivegram.FIVEGRAM))
    ensures PatternOf(g, j).absentWord == Fivegram.Sparse(g, Keep(j, ELSEWHERE, Fivegram.FIVEGRAM))
    ensures PatternOf(g, j).presentLetter == Marked(g, Keep(j, ELSEWHERE, Fivegram.FIVEGRAM))
    ensures PatternOf(g, j).absentLetter == Marked(g, Keep(j, ABSENT, Fivegram.FIVEGRAM))
  {
    BitSet.LowerInRange(g);
    assert g[..Fivegram.FIVEGRAM] == g;
  }

  /** `matchWord` of pattern `j` holds the guess's letters whose digit is `AT_POSITION`. */
  lemma MatchWordOfPattern(g: seq<byte>, t: seq<byte>, j: nat)
    requires Fivegram.IsWord(g) && Fivegram.IsWord(t)
    ensures Guess(g) && BitSet.AllInRange(t)
      && (Fivegram.ExactMatch(Word.Encode(t).fivegram, PatternOf(g, j).matchWord)
          <==> forall i :: 0 <= i < Fivegram.FIVEGRAM && Digit(j, i) == AT_POSITION ==> t[i] == g[i])
  {
    BitSet.LowerInRange(t);
    PatternOfParts(g, j);
    Fivegram.ExactMatchOracle(t, g, Keep(j, AT_POSITION, Fivegram.FIVEGRAM));
  }

  /** `absentWord` of pattern `j` holds the guess's letters whose digit is `ELSEWHERE`. */
  lemma AbsentWordOfPattern(g: seq<byte>, t: seq<byte>, j: nat)
    requires Fivegram.IsWord(g) && Fivegram.IsWord(t)
    ensures Guess(g) && BitSet.AllInRange(t)
      && (!Fivegram.AnyPosMatch(Word.Encode(t).fivegram, PatternOf(g, j).absentWord)
          <==> forall i :: 0 <= i < Fivegram.FIVEGRAM && Digit(j, i) == ELSEWHERE ==> t[i] != g[i])
  {
    BitSet.LowerInRange(t);
    PatternOfParts(g, j);
    Fivegram.AnyPosMatchOracle(t, g, Keep(j, ELSEWHERE, Fivegram.FIVEGRAM));
  }

  lemma ContainsLetterOf(g: seq<byte>, t: seq<byte>)
    requires Fivegram.IsWord(g) && Fivegram.IsWord(t)
    ensures BitSet.AllInRange(g) && BitSet.AllInRange(t)
    ensures forall k :: 0 <= k < Fivegram.FIVEGRAM ==> (BitSet.Contains(BitSet.Letters(t), g[k]) <==> g[k] in t)
  {
    BitSet.LowerInRange(g);
    BitSet.LowerInRange(t);
    forall k | 0 <= k < Fivegram.FIVEGRAM
      ensures BitSet.Contains(BitSet.Letters(t), g[k]) <==> g[k] in t
    {
      BitSet.LettersContains(t, g[k]);
    }
  }

  /** `presentLetter` of pattern `j` holds the guess's letters whose digit is `ELSEWHERE`. */
  lemma PresentLetterOfPattern(g: seq<byte>, t: seq<byte>, j: nat)
    requires Fivegram.IsWord(g) && Fivegram.IsWord(t)
    ensures Guess(g) && BitSet.AllInRange(t)
      && (BitSet.IsSuperset(Word.Encode(t).letters, PatternOf(g, j).presentLetter)
          <==> forall i :: 0 <= i < Fivegram.FIVEGRAM && Digit(j, i) == ELSEWHERE ==> g[i] in t)
  {
    ContainsLetterOf(g, t);
    PatternOfParts(g, j);
    SupersetOfMarked(BitSet.Letters(t), g, Keep(j, ELSEWHERE, Fivegram.FIVEGRAM));
  }

  /** `absentLetter` of pattern `j` holds the guess's letters whose digit is `ABSENT`. */
  lemma AbsentLetterOfPattern(g: seq<byte>, t: seq<byte>, j: nat)
    requires Fivegram.IsWord(g) && Fivegram.IsWord(t)
    ensures Guess(g) && BitSet.AllInRange(t)
      && (BitSet.IsDisjoint(Word.Encode(t).letters, PatternOf(g, j).absentLetter)
          <==> forall i :: 0 <= i < Fivegram.FIVEGRAM && Digit(j, i) == ABSENT ==> g[i] !in t)
  {
    ContainsLetterOf(g, t);
    PatternOfParts(g, j);
    DisjointFromMarked(BitSet.Letters(t), g, Keep(j, ABSENT, Fivegram.FIVEGRAM));
  }

  /** A word matches pattern `j` of guess `g` exactly when it meets what each digit of `j` demands. */
  lemma MatchesPatternOf(g: seq<byte>, t: seq<byte>, j: nat)
    requires Fivegram.IsWord(g) && Fivegram.IsWord(t)
    ensures Guess(g) && BitSet.AllInRange(t)
      && (MatchesWord(PatternOf(g, j), Word.Encode(t)) <==> Fits(g, t, j))
  {
    MatchWordOfPattern(g, t, j);
    AbsentWordOfPattern(g, t, j);
    PresentLetterOfPattern(g, t, j);
    AbsentLetterOfPattern(g, t, j);
    if MatchesWord(PatternOf(g, j), Word.Encode(t)) {
      forall i | 0 <= i < Fivegram.FIVEGRAM
        ensures FitsAt(g, t, j, i)
      {
      }
    }
    if Fits(g, t, j) {
      forall i | 0 <= i < Fivegram.FIVEGRAM
        ensures (Digit(j, i) == AT_POSITION ==> t[i] == g[i]) && (Digit(j, i) == ELSEWHERE ==> t[i] != g[i])
        ensures (Digit(j, i) == ELSEWHERE ==> g[i] in t) && (Digit(j, i) == ABSENT ==> g[i] !in t)
      {
        assert FitsAt(g, t, j, i);
      }
    }
  }

  /** Meeting every digit of `j` is having exactly the verdicts of `t` as digits. */
  lemma FitsIsVerdicts(g: seq<byte>, t: seq<byte>, j: nat)
    requires |g| == Fivegram.FIVEGRAM && |t| == Fivegram.FIVEGRAM
    ensures Fits(g, t, j) <==> forall i :: 0 <= i < Fivegram.FIVEGRAM ==> Digit(j, i) == Verdict(g, t, i)
  {
    forall i | 0 <= i < Fivegram.FIVEGRAM
      ensures FitsAt(g, t, j, i) <==> Digit(j, i) == Verdict(g, t, i)
    {
      if t[i] == g[i] {
        assert g[i] in t;
      }
    }
  }

  /** The digits of `Feedback` are the verdicts, and `Feedback` names one of the patterns. */
  lemma FeedbackDigits(g: seq<byte>, t: seq<byte>)
    requires |g| == Fivegram.FIVEGRAM && |t| == Fivegram.FIVEGRAM
    ensures Feedback(g, t) < PATTERN_COUNT
    ensures forall i :: 0 <= i < Fivegram.FIVEGRAM ==> Digit(Feedback(g, t), i) == Verdict(g, t, i)
  {
    PatternCountValue();
    PowValues();
    var v0, v1, v2, v3, v4 := Verdict(g, t, 0), Verdict(g, t, 1), Verdict(g, t, 2), Verdict(g, t, 3), Verdict(g, t, 4);
    DigitsOf(v0, v1, v2, v3, v4);
  }

  lemma DigitsOf(v0: nat, v1: nat, v2: nat, v3: nat, v4: nat)
    requires v0 < 3 && v1 < 3 && v2 < 3 && v3 < 3 && v4 < 3
    ensures var j := v0 + 3 * v1 + 9 * v2 + 27 * v3 + 81 * v4;
      j < 243 && Digit(j, 0) == v0 && Digit(j, 1) == v1 && Digit(j, 2) == v2 && Digit(j, 3) == v3 && Digit(j, 4) == v4
  {
    PowValues();
    var j := v0 + 3 * v1 + 9 * v2 + 27 * v3 + 81 * v4;
    assert j % 3 == v0 && j / 3 == v1 + 3 * v2 + 9 * v3 + 27 * v4;
    assert j / 9 == v2 + 3 * v3 + 9 * v4;
    assert j / 27 == v3 + 3 * v4;
    assert j / 81 == v4;
  }

  /** An index below 3^5 is the sum of its digits times their place values. */
  lemma Recompose(j: nat)
    requires j < PATTERN_COUNT
    ensures j == Digit(j, 0) + 3 * Digit(j, 1) + 9 * Digit(j, 2) + 27 * Digit(j, 3) + 81 * Digit(j, 4)
  {
    PatternCountValue();
    PowValues();
    var r1 := j / 3;
    var r2 := r1 / 3;
    var r3 := r2 / 3;
    var r4 := r3 / 3;
    assert j == 3 * r1 + j % 3;
    assert r1 == 3 * r2 + r1 % 3;
    assert r2 == 3 * r3 + r2 % 3;
    assert r3 == 3 * r4 + r3 % 3;
    assert j / 9 == r2;
    assert j / 27 == r3;
    assert j / 81 == r4;
    assert r4 < 3;
  }

  /** Two pattern indices with the same five digits are equal. */
  lemma DigitsDetermine(j: nat, j': nat)
    requires j < PATTERN_COUNT && j' < PATTERN_COUNT
    requires forall i :: 0 <= i < Fivegram.FIVEGRAM ==> Digit(j, i) == Digit(j', i)
    ensures j == j'
  {
    Recompose(j);
    Recompose(j');
    assert Digit(j, 0) == Digit(j', 0) && Digit(j, 1) == Digit(j', 1) && Digit(j, 2) == Digit(j', 2);
    assert Digit(j, 3) == Digit(j', 3) && Digit(j, 4) == Digit(j', 4);
  }

  /**
   * Among the patterns `from_bytes` builds for a guess, a word matches
   * exactly one: the one whose digits are the verdicts the word gives the guess.
   */
  lemma ExactlyOnePattern(g: seq<byte>, t: seq<byte>, j: nat)
    requires Fivegram.IsWord(g) && Fivegram.IsWord(t) && j < PATTERN_COUNT
    ensures Guess(g) && BitSet.AllInRange(t)
      && (MatchesWord(PatternOf(g, j), Word.Encode(t)) <==> j == Feedback(g, t))
  {
    MatchesPatternOf(g, t, j);
    FitsIsVerdicts(g, t, j);
    FeedbackDigits(g, t);
    if forall i :: 0 <= i < Fivegram.FIVEGRAM ==> Digit(j, i) == Verdict(g, t, i) {
      DigitsDetermine(j, Feedback(g, t));
    }
  }

  /** Pattern 0 (every letter at its position) matches the guess and nothing else. */
  lemma FirstPatternIsGuess(g: seq<byte>, t: seq<byte>)
    requires Fivegram.IsWord(g) && Fivegram.IsWord(t)
    ensures Guess(g) && BitSet.AllInRange(t)
      && (MatchesWord(PatternOf(g, 0), Word.Encode(t)) <==> t == g)
  {
    PatternCountValue();
    ExactlyOnePattern(g, t, 0);
    FeedbackZero(g, t);
  }

  /** The response is 0 exactly when the word is the guess. */
  lemma FeedbackZero(g: seq<byte>, t: seq<byte>)
    requires |g| == Fivegram.FIVEGRAM && |t| == Fivegram.FIVEGRAM
    ensures Feedback(g, t) == 0 <==> t == g
  {
    if Feedback(g, t) == 0 {
      assert Verdict(g, t, 0) == 0 && Verdict(g, t, 1) == 0 && Verdict(g, t, 2) == 0;
      assert Verdict(g, t, 3) == 0 && Verdict(g, t, 4) == 0;
      assert forall i :: 0 <= i < Fivegram.FIVEGRAM ==> t[i] == g[i];
    }
  }

  /** The response is 242 (every digit `ABSENT`) exactly when no letter of the guess is in the word. */
  lemma FeedbackAllAbsent(g: seq<byte>, t: seq<byte>)
    requires |g| == Fivegram.FIVEGRAM && |t| == Fivegram.FIVEGRAM
    ensures Feedback(g, t) == 242 <==> forall i :: 0 <= i < Fivegram.FIVEGRAM ==> g[i] !in t
  {
    if Feedback(g, t) == 242 {
      assert Verdict(g, t, 0) == 2 && Verdict(g, t, 1) == 2 && Verdict(g, t, 2) == 2;
      assert Verdict(g, t, 3) == 2 && Verdict(g, t, 4) == 2;
    }
  }

  /** The last pattern (every letter absent) matches exactly the words sharing no letter with the guess. */
  lemma LastPatternIsDisjoint(g: seq<byte>, t: seq<byte>)
    requires Fivegram.IsWord(g) && Fivegram.IsWord(t)
    ensures Guess(g) && BitSet.AllInRange(t)
      && (MatchesWord(PatternOf(g, 242), Word.Encode(t)) <==> forall i :: 0 <= i < Fivegram.FIVEGRAM ==> g[i] !in t)
  {
    PatternCountValue();
    ExactlyOnePattern(g, t, 242);
    FeedbackAllAbsent(g, t);
  }

  /** Writing no position leaves the record empty. */
  lemma {:induction false} SparseNothing(bytes: seq<byte>, keep: seq<bool>)
    requires Fivegram.Writable(bytes, keep) && forall k :: 0 <= k < |keep| ==> !keep[k]
    ensures Fivegram.Sparse(bytes, keep) == Fivegram.EMPTY
  {
    if |bytes| > 0 {
      SparseNothing(bytes[..|bytes| - 1], keep[..|bytes| - 1]);
    }
  }

  /** Marking no position leaves the set empty. */
  lemma {:induction false} MarkedNothing(bytes: seq<byte>, keep: seq<bool>)
    requires BitSet.AllInRange(bytes) && |keep| == |bytes| && forall k :: 0 <= k < |keep| ==> !keep[k]
    ensures Marked(bytes, keep) == BitSet.EMPTY
  {
    if |bytes| > 0 {
      MarkedNothing(bytes[..|bytes| - 1], keep[..|bytes| - 1]);
    }
  }

  /** Marking every position gives the letters of the word, as `AsciiBitSet::from_bytes` does. */
  lemma {:induction false} MarkedEverything(bytes: seq<byte>, keep: seq<bool>)
    requires BitSet.AllInRange(bytes) && |keep| == |bytes| && forall k :: 0 <= k < |keep| ==> keep[k]
    ensures Marked(bytes, keep) == BitSet.Letters(bytes)
  {
    if |bytes| > 0 {
      MarkedEverything(bytes[..|bytes| - 1], keep[..|bytes| - 1]);
    }
  }

  /**
   * Pattern 0 has every digit `AT_POSITION`: its `matchWord` is the
   * guess's own `Fivegram::from_bytes` and its other parts are empty.
   */
  lemma FirstPatternFields(g: seq<byte>)
    requires Guess(g)
    ensures forall k :: 0 <= k < |g| ==> LOWER_A <= g[k]
    ensures PatternOf(g, 0) == Pattern(Fivegram.Packed(g), BitSet.EMPTY, Fivegram.EMPTY, BitSet.EMPTY)
  {
    Word.InRangeFromA(g);
    assert g[..Fivegram.FIVEGRAM] == g;
    assert Keep(0, AT_POSITION, Fivegram.FIVEGRAM) == Fivegram.Everywhere(Fivegram.FIVEGRAM);
    SparseNothing(g, Keep(0, ELSEWHERE, Fivegram.FIVEGRAM));
    MarkedNothing(g, Keep(0, ELSEWHERE, Fivegram.FIVEGRAM));
    MarkedNothing(g, Keep(0, ABSENT, Fivegram.FIVEGRAM));
  }

  /**
   * Pattern 242 has every digit `ABSENT`: only `absentLetter` is set,
   * to the letters of the guess.
   */
  lemma LastPatternFields(g: seq<byte>)
    requires Guess(g)
    ensures PatternOf(g, 242) == Pattern(Fivegram.EMPTY, BitSet.EMPTY, Fivegram.EMPTY, BitSet.Letters(g))
  {
    Word.InRangeFromA(g);
    PowValues();
    assert g[..Fivegram.FIVEGRAM] == g;
    assert forall i :: 0 <= i < Fivegram.FIVEGRAM ==> Digit(242, i) == ABSENT;
    SparseNothing(g, Keep(242, AT_POSITION, Fivegram.FIVEGRAM));
    SparseNothing(g, Keep(242, ELSEWHERE, Fivegram.FIVEGRAM));
    MarkedNothing(g, Keep(242, ELSEWHERE, Fivegram.FIVEGRAM));
    MarkedEverything(g, Keep(242, ABSENT, Fivegram.FIVEGRAM));
  }
}
