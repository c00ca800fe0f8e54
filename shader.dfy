/**
 * The compute kernel's own copies of the letter set, the positional record,
 * the word, the pattern and `matches_word` (shader/src/lib.rs), and the
 * kernel's counting loop for one candidate.
 */
module Shader {
  import opened Bytes
  import HostBitSet = BitSet
  import HostFivegram = Fivegram
  import HostWord = Word
  import HostPattern = Pattern
  import Solver

  /** The kernel's `AsciiBitSet`: the 26-bit letter mask. */
  datatype AsciiBitSet = AsciiBitSet(bits: bv32)

  /** The kernel's `Fivegram`: five 5-bit codes and the mask of the written slots. */
  datatype Fivegram = Fivegram(word: bv32, letterMask: bv32)

  /** The kernel's `Word` carries no bytes, only the two packed forms. */
  datatype Word = Word(fivegram: Fivegram, letters: AsciiBitSet)

  datatype Pattern = Pattern(matchWord: Fivegram, presentLetter: AsciiBitSet,
                             absentWord: Fivegram, absentLetter: AsciiBitSet)

  const FIVEGRAM: nat := 5

  const PATTERN_COUNT: nat := HostPattern.Pow(3, FIVEGRAM)

  /** `is_superset`: `a & b ^ b`, which Rust groups as `(a & b) ^ b`, is zero. */
  predicate IsSuperset(a: AsciiBitSet, b: AsciiBitSet) {
    (a.bits & b.bits) ^ b.bits == 0
  }

  /** `is_disjoint`. */
  predicate IsDisjoint(a: AsciiBitSet, b: AsciiBitSet) {
    a.bits & b.bits == 0
  }

  /** `exact_match`: `w & mask ^ word`, grouped as `(w & mask) ^ word`, is zero. */
  predicate ExactMatch(w: Fivegram, pattern: Fivegram) {
    (w.word & pattern.letterMask) ^ pattern.word == 0
  }

  /** `any_pos_match`: some 5-bit slot of the intersection is zero; `x >> s & 31` is `(x >> s) & 31`. */
  predicate AnyPosMatch(w: Fivegram, pattern: Fivegram) {
    var intersection := ((w.word & pattern.letterMask) ^ pattern.word) | !pattern.letterMask;
    intersection & 0x1F == 0
    || (intersection >> 5) & 0x1F == 0
    || (intersection >> 10) & 0x1F == 0
    || (intersection >> 15) & 0x1F == 0
    || (intersection >> 20) & 0x1F == 0
  }

  /** `Pattern::matches_word`. */
  predicate MatchesWord(p: Pattern, w: Word) {
    IsSuperset(w.letters, p.presentLetter)
    && IsDisjoint(w.letters, p.absentLetter)
    && ExactMatch(w.fivegram, p.matchWord)
    && !AnyPosMatch(w.fivegram, p.absentWord)
  }

  // The host records as the kernel sees them: the same fields, less the word's bytes.

  function FromBitSet(a: HostBitSet.AsciiBitSet): AsciiBitSet {
    AsciiBitSet(a.bits)
  }

  function FromFivegram(f: HostFivegram.Fivegram): Fivegram {
    Fivegram(f.word, f.letterMask)
  }

  function FromWord(w: HostWord.Word): Word {
    Word(FromFivegram(w.fivegram), FromBitSet(w.letters))
  }

  function FromPattern(p: HostPattern.Pattern): Pattern {
    Pattern(FromFivegram(p.matchWord), FromBitSet(p.presentLetter),
            FromFivegram(p.absentWord), FromBitSet(p.absentLetter))
  }

  lemma PatternCountValue()
    ensures PATTERN_COUNT == HostPattern.PATTERN_COUNT == 243
  {
    HostPattern.PatternCountValue();
  }

  /** The kernel's set tests are the host's. */
  lemma SetTestsAgree(a: HostBitSet.AsciiBitSet, b: HostBitSet.AsciiBitSet)
    ensures IsSuperset(FromBitSet(a), FromBitSet(b)) == HostBitSet.IsSuperset(a, b)
    ensures IsDisjoint(FromBitSet(a), FromBitSet(b)) == HostBitSet.IsDisjoint(a, b)
  {
    SupersetAgrees(a, b);
    DisjointAgrees(a, b);
  }

  lemma SupersetAgrees(a: HostBitSet.AsciiBitSet, b: HostBitSet.AsciiBitSet)
    ensures IsSuperset(FromBitSet(a), FromBitSet(b)) == HostBitSet.IsSuperset(a, b)
  {
    SupersetBits(a.bits, b.bits);
    HostSupersetBits(a, b);
  }

  lemma DisjointAgrees(a: HostBitSet.AsciiBitSet, b: HostBitSet.AsciiBitSet)
    ensures IsDisjoint(FromBitSet(a), FromBitSet(b)) == HostBitSet.IsDisjoint(a, b)
  {
    DisjointBits(a.bits, b.bits);
    HostDisjointBits(a, b);
  }

  /** The kernel's positional tests are the host's. */
  lemma PositionalTestsAgree(w: HostFivegram.Fivegram, p: HostFivegram.Fivegram)
    ensures ExactMatch(FromFivegram(w), FromFivegram(p)) == HostFivegram.ExactMatch(w, p)
    ensures AnyPosMatch(FromFivegram(w), FromFivegram(p)) == HostFivegram.AnyPosMatch(w, p)
  {
    ExactMatchAgrees(w, p);
    AnyPosMatchAgrees(w, p);
  }

  lemma ExactMatchAgrees(w: HostFivegram.Fivegram, p: HostFivegram.Fivegram)
    ensures ExactMatch(FromFivegram(w), FromFivegram(p)) == HostFivegram.ExactMatch(w, p)
  {
    ExactMatchBits(FromFivegram(w), FromFivegram(p));
    HostExactMatchBits(w, p);
  }

  lemma AnyPosMatchAgrees(w: HostFivegram.Fivegram, p: HostFivegram.Fivegram)
    ensures AnyPosMatch(FromFivegram(w), FromFivegram(p)) == HostFivegram.AnyPosMatch(w, p)
  {
    AnyPosMatchBits(FromFivegram(w), FromFivegram(p));
    HostAnyPosMatchBits(w, p);
    if HostFivegram.AnyPosMatch(w, p) {
      assert AnyPosMatch(FromFivegram(w), FromFivegram(p));
    } else {
      assert !AnyPosMatch(FromFivegram(w), FromFivegram(p));
    }
  }

  // Proof scaffolding for the agreement lemmas above, not properties of the
  // source: each test unfolded to the bit expression it computes, one
  // direction per clause. The solver settles such implications between
  // bit-vector tests far more cheaply than a boolean equality between them.

  lemma SupersetBits(x: bv32, y: bv32)
    ensures IsSuperset(AsciiBitSet(x), AsciiBitSet(y)) ==> (x & y) ^ y == 0
    ensures (x & y) ^ y == 0 ==> IsSuperset(AsciiBitSet(x), AsciiBitSet(y))
  {
  }

  lemma HostSupersetBits(a: HostBitSet.AsciiBitSet, b: HostBitSet.AsciiBitSet)
    ensures HostBitSet.IsSuperset(a, b) ==> (a.bits & b.bits) ^ b.bits == 0
    ensures (a.bits & b.bits) ^ b.bits == 0 ==> HostBitSet.IsSuperset(a, b)
  {
  }

  lemma DisjointBits(x: bv32, y: bv32)
    ensures IsDisjoint(AsciiBitSet(x), AsciiBitSet(y)) ==> x & y == 0
    ensures x & y == 0 ==> IsDisjoint(AsciiBitSet(x), AsciiBitSet(y))
  {
  }

  lemma HostDisjointBits(a: HostBitSet.AsciiBitSet, b: HostBitSet.AsciiBitSet)
    ensures HostBitSet.IsDisjoint(a, b) ==> a.bits & b.bits == 0
    ensures a.bits & b.bits == 0 ==> HostBitSet.IsDisjoint(a, b)
  {
  }

  /** Whether some 5-bit slot of `x` is zero. */
  predicate SomeZeroSlot(x: bv32) {
    x & 0x1F == 0 || (x >> 5) & 0x1F == 0 || (x >> 10) & 0x1F == 0
    || (x >> 15) & 0x1F == 0 || (x >> 20) & 0x1F == 0
  }

  lemma ExactMatchBits(w: Fivegram, p: Fivegram)
    ensures ExactMatch(w, p) ==> (w.word & p.letterMask) ^ p.word == 0
    ensures (w.word & p.letterMask) ^ p.word == 0 ==> ExactMatch(w, p)
  {
  }

  lemma HostExactMatchBits(w: HostFivegram.Fivegram, p: HostFivegram.Fivegram)
    ensures HostFivegram.ExactMatch(w, p) ==> (w.word & p.letterMask) ^ p.word == 0
    ensures (w.word & p.letterMask) ^ p.word == 0 ==> HostFivegram.ExactMatch(w, p)
  {
  }

  lemma AnyPosMatchBits(w: Fivegram, p: Fivegram)
    ensures AnyPosMatch(w, p) ==> SomeZeroSlot(((w.word & p.letterMask) ^ p.word) | !p.letterMask)
    ensures SomeZeroSlot(((w.word & p.letterMask) ^ p.word) | !p.letterMask) ==> AnyPosMatch(w, p)
  {
  }

  lemma HostAnyPosMatchBits(w: HostFivegram.Fivegram, p: HostFivegram.Fivegram)
    ensures HostFivegram.AnyPosMatch(w, p) ==> SomeZeroSlot(((w.word & p.letterMask) ^ p.word) | !p.letterMask)
    ensures SomeZeroSlot(((w.word & p.letterMask) ^ p.word) | !p.letterMask) ==> HostFivegram.AnyPosMatch(w, p)
  {
  }

  /** The kernel's `matches_word` is the host's, on every pattern and word. */
  lemma MatchesWordAgrees(p: HostPattern.Pattern, w: HostWord.Word)
    ensures MatchesWord(FromPattern(p), FromWord(w)) == HostPattern.MatchesWord(p, w)
  {
    SetTestsAgree(w.letters, p.presentLetter);
    SetTestsAgree(w.letters, p.absentLetter);
    PositionalTestsAgree(w.fivegram, p.matchWord);
    PositionalTestsAgree(w.fivegram, p.absentWord);
  }

  /**
   * So the kernel, given the patterns of a guess, also sees exactly one
   * matching pattern per target word: the feedback pattern.
   */
  lemma ExactlyOnePattern(g: seq<byte>, t: seq<byte>, j: nat)
    requires HostFivegram.IsWord(g) && HostFivegram.IsWord(t) && j < PATTERN_COUNT
    ensures HostPattern.Guess(g) && HostBitSet.AllInRange(t)
    ensures MatchesWord(FromPattern(HostPattern.PatternOf(g, j)), FromWord(HostWord.Encode(t))) <==> j == HostPattern.Feedback(g, t)
  {
    PatternCountValue();
    HostPattern.ExactlyOnePattern(g, t, j);
    MatchesWordAgrees(HostPattern.PatternOf(g, j), HostWord.Encode(t));
  }

  /** How many of `words[..n]` pattern `p` matches. */
  function Count(words: seq<Word>, p: Pattern, n: nat): (c: nat)
    requires n <= |words|
    ensures c <= n
  {
    if n == 0 then 0 else Count(words, p, n - 1) + (if MatchesWord(p, words[n - 1]) then 1 else 0)
  }

  /** The kernel counts as the host does once both see the same words and patterns. */
  lemma {:induction false} CountAgrees(words: seq<HostWord.Word>, p: HostPattern.Pattern, n: nat, kernelWords: seq<Word>)
    requires n <= |words| == |kernelWords| && forall m :: 0 <= m < |words| ==> kernelWords[m] == FromWord(words[m])
    ensures Count(kernelWords, FromPattern(p), n) == Solver.Count(words, p, n)
  {
    if n > 0 {
      CountAgrees(words, p, n - 1, kernelWords);
      MatchesWordAgrees(p, words[n - 1]);
    }
  }

  /**
   * The entropy the kernel adds up over the nonzero counts of `counts[..i]`;
   * `term` stands for the floating-point `-p * log2(p)` of a count.
   */
  function Entropy(counts: seq<nat>, term: nat -> real, i: nat): real
    requires i <= |counts|
  {
    if i == 0 then 0.0
    else Entropy(counts, term, i - 1) + (if counts[i - 1] != 0 then term(counts[i - 1]) else 0.0)
  }

  /** The counts of the candidate's patterns. */
  function Counts(words: seq<Word>, patterns: seq<Pattern>, n: nat): (r: seq<nat>)
    requires n <= |words|
    ensures |r| == |patterns| && forall i :: 0 <= i < |patterns| ==> r[i] == Count(words, patterns[i], n)
  {
    seq(|patterns|, i requires 0 <= i < |patterns| => Count(words, patterns[i], n))
  }

  /**
   * `main`, the kernel run by invocation `idx`: for each of the candidate's
   * patterns, a counter of the matching words among the first `n`, a term
   * for each nonzero count, and the sum written to `entropies[idx]` alone.
   */
  method Kernel(idx: nat, entropies: array<real>, words: seq<Word>, patterns: seq<seq<Pattern>>,
                n: nat, term: nat -> real)
    requires idx < entropies.Length && idx < |patterns| && |patterns[idx]| == PATTERN_COUNT && n <= |words|
    modifies entropies
    ensures entropies[idx] == Entropy(Counts(words, patterns[idx], n), term, PATTERN_COUNT)
    ensures forall c :: 0 <= c < entropies.Length && c != idx ==> entropies[c] == old(entropies[c])
  {
    PatternCountValue();
    ghost var counts := Counts(words, patterns[idx], n);
    var entropy := 0.0;
    for i := 0 to PATTERN_COUNT
      invariant entropy == Entropy(counts, term, i)
    {
      var matches := 0;
      for j := 0 to n
        invariant matches == Count(words, patterns[idx][i], j)
      {
        if MatchesWord(patterns[idx][i], words[j]) {
          matches := matches + 1;
        }
      }
      if matches != 0 {
        entropy := entropy + term(matches);
      }
    }
    entropies[idx] := entropy;
  }
}
