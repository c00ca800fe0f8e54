/**
 * The patterns of a guess regrouped four at a time into lanes
 * (src/simd_pattern.rs), and the four-lane form of `matches_word`.
 */
module SimdPattern {
  import opened Lanes
  import BitSet
  import Fivegram
  import Word
  import Pattern

  /** `usize::div_ceil`. */
  function DivCeil(a: nat, b: nat): (r: nat)
    requires 0 < b
    ensures a <= r * b < a + b
  {
    var d := a / b;
    if a % b > 0 then d + 1 else d
  }

  /** `SIMD_PATTERN_COUNT`: enough groups of four for every pattern. */
  const SIMD_PATTERN_COUNT: nat := DivCeil(Pattern.PATTERN_COUNT, SIMD_WIDTH)

  lemma SimdPatternCountValue()
    ensures SIMD_PATTERN_COUNT == 61
  {
    Pattern.PatternCountValue();
  }

  /** `SimdPattern`: the fields of four patterns, one pattern per lane. */
  datatype SimdPattern = SimdPattern(
    absentLetter: Simd,
    presentLetter: Simd,
    matchWord: Simd,
    matchWordMask: Simd,
    absentWord: Simd,
    absentWordMask: Simd)

  /** The scalar pattern held in lane `k`. */
  function Lane(sp: SimdPattern, k: nat): Pattern.Pattern
    requires k < SIMD_WIDTH
  {
    Pattern.Pattern(
      Fivegram.Fivegram(sp.matchWord[k], sp.matchWordMask[k]),
      BitSet.AsciiBitSet(sp.presentLetter[k]),
      Fivegram.Fivegram(sp.absentWord[k], sp.absentWordMask[k]),
      BitSet.AsciiBitSet(sp.absentLetter[k]))
  }

  /** Lane `k` of chunk `g` of `patterns`; lanes past the last pattern are zero, the default pattern. */
  function Chunked(patterns: seq<Pattern.Pattern>, g: nat, k: nat): Pattern.Pattern {
    if g * SIMD_WIDTH + k < |patterns| then patterns[g * SIMD_WIDTH + k] else Pattern.DEFAULT
  }

  /** `groups` holds `patterns` four to a group, in order. */
  predicate Regrouped(groups: seq<SimdPattern>, patterns: seq<Pattern.Pattern>) {
    |groups| == SIMD_PATTERN_COUNT
    && forall g, k :: 0 <= g < SIMD_PATTERN_COUNT && 0 <= k < SIMD_WIDTH ==> Lane(groups[g], k) == Chunked(patterns, g, k)
  }

  /**
   * The closure that `from_patterns` maps over the chunks: six zeroed lane
   * arrays (stack values, so sequences here), filled with the fields of the
   * chunk's patterns.
   */
  method FromChunk(chunk: seq<Pattern.Pattern>) returns (sp: SimdPattern)
    requires |chunk| <= SIMD_WIDTH
    ensures forall k :: 0 <= k < SIMD_WIDTH ==> Lane(sp, k) == if k < |chunk| then chunk[k] else Pattern.DEFAULT
  {
    var absentLetters: Simd := Splat(0);
    var presentLetters: Simd := Splat(0);
    var matchWord: Simd := Splat(0);
    var matchWordMask: Simd := Splat(0);
    var absentWord: Simd := Splat(0);
    var absentWordMask: Simd := Splat(0);
    for i := 0 to |chunk|
      invariant forall k :: 0 <= k < SIMD_WIDTH ==>
        Lane(SimdPattern(absentLetters, presentLetters, matchWord, matchWordMask, absentWord, absentWordMask), k)
        == if k < i then chunk[k] else Pattern.DEFAULT
    {
      ghost var before := SimdPattern(absentLetters, presentLetters, matchWord, matchWordMask, absentWord, absentWordMask);
      absentLetters := absentLetters[i := chunk[i].absentLetter.bits];
      presentLetters := presentLetters[i := chunk[i].presentLetter.bits];
      matchWord := matchWord[i := chunk[i].matchWord.word];
      matchWordMask := matchWordMask[i := chunk[i].matchWord.letterMask];
      absentWord := absentWord[i := chunk[i].absentWord.word];
      absentWordMask := absentWordMask[i := chunk[i].absentWord.letterMask];
      LaneOfFields(chunk[i]);
      ghost var after := SimdPattern(absentLetters, presentLetters, matchWord, matchWordMask, absentWord, absentWordMask);
      forall k | 0 <= k < SIMD_WIDTH && k != i
        ensures Lane(after, k) == Lane(before, k)
      {
      }
    }
    sp := SimdPattern(absentLetters, presentLetters, matchWord, matchWordMask, absentWord, absentWordMask);
  }

  lemma LaneOfFields(p: Pattern.Pattern)
    ensures p == Pattern.Pattern(
      Fivegram.Fivegram(p.matchWord.word, p.matchWord.letterMask), BitSet.AsciiBitSet(p.presentLetter.bits),
      Fivegram.Fivegram(p.absentWord.word, p.absentWord.letterMask), BitSet.AsciiBitSet(p.absentLetter.bits))
  {
  }

  /**
   * `SimdPattern::from_patterns`: `chunks(SIMD_WIDTH)` of the 243 patterns,
   * each turned into one group; the final chunk is short and its missing lanes stay zero.
   */
  method FromPatterns(patterns: seq<Pattern.Pattern>) returns (groups: seq<SimdPattern>)
    requires |patterns| == Pattern.PATTERN_COUNT
    ensures Regrouped(groups, patterns)
  {
    SimdPatternCountValue();
    Pattern.PatternCountValue();
    groups := [];
    for g := 0 to SIMD_PATTERN_COUNT
      invariant |groups| == g
      invariant forall g', k :: 0 <= g' < g && 0 <= k < SIMD_WIDTH ==> Lane(groups[g'], k) == Chunked(patterns, g', k)
    {
      var start := g * SIMD_WIDTH;
      var end := if start + SIMD_WIDTH <= |patterns| then start + SIMD_WIDTH else |patterns|;
      var chunk := patterns[start..end];
      var sp := FromChunk(chunk);
      groups := groups + [sp];
    }
  }

  /** Lane `k` of group `g` is pattern `4 * g + k`: the regrouping keeps every pattern, in order. */
  lemma RegroupedLane(groups: seq<SimdPattern>, patterns: seq<Pattern.Pattern>, j: nat)
    requires Regrouped(groups, patterns) && |patterns| == Pattern.PATTERN_COUNT && j < |patterns|
    ensures j / SIMD_WIDTH < SIMD_PATTERN_COUNT && Lane(groups[j / SIMD_WIDTH], j % SIMD_WIDTH) == patterns[j]
  {
    SimdPatternCountValue();
    Pattern.PatternCountValue();
    assert Lane(groups[j / SIMD_WIDTH], j % SIMD_WIDTH) == Chunked(patterns, j / SIMD_WIDTH, j % SIMD_WIDTH);
  }

  /** The one lane of the last group that holds no pattern is the default pattern. */
  lemma RegroupedPadding(groups: seq<SimdPattern>, patterns: seq<Pattern.Pattern>)
    requires Regrouped(groups, patterns) && |patterns| == Pattern.PATTERN_COUNT
    ensures SIMD_PATTERN_COUNT == 61 && Lane(groups[60], 3) == Pattern.DEFAULT
  {
    SimdPatternCountValue();
    Pattern.PatternCountValue();
    assert Lane(groups[60], 3) == Chunked(patterns, 60, 3);
  }

  /** `exact_match` and `any_pos_match` read only the candidate's `word`. */
  lemma CandidateLane(w: Fivegram.Fivegram, p: Fivegram.Fivegram)
    ensures Fivegram.ExactMatch(Fivegram.Candidate(w.word), p) == Fivegram.ExactMatch(w, p)
    ensures Fivegram.AnyPosMatch(Fivegram.Candidate(w.word), p) == Fivegram.AnyPosMatch(w, p)
  {
  }

  /**
   * `SimdPattern::matches_word`: the four lane-wise tests ANDed together;
   * lane `k` is scalar `matches_word` of the pattern in lane `k`.
   */
  method MatchesWord(sp: SimdPattern, w: Word.Word) returns (m: Mask)
    ensures forall k :: 0 <= k < SIMD_WIDTH ==> m[k] == Pattern.MatchesWord(Lane(sp, k), w)
  {
    var letters := Splat(w.letters.bits);
    var isSuperset := BitSet.IsSupersetSimd(letters, sp.presentLetter);
    var isDisjoint := BitSet.IsDisjointSimd(letters, sp.absentLetter);
    var word := Splat(w.fivegram.word);
    var isExactMatch := Fivegram.ExactMatchSimd(word, sp.matchWordMask, sp.matchWord);
    var isAnyLetterMatch := Fivegram.AnyPosMatchSimd(word, sp.absentWordMask, sp.absentWord);
    var zeros := Splat(0);
    m := MaskAnd(MaskAnd(MaskAnd(LanesEq(isSuperset, zeros), LanesEq(isDisjoint, zeros)),
                         LanesEq(isExactMatch, zeros)),
                 MaskNot(isAnyLetterMatch));
    forall k | 0 <= k < SIMD_WIDTH
      ensures m[k] == Pattern.MatchesWord(Lane(sp, k), w)
    {
      MaskLane(isSuperset, isDisjoint, isExactMatch, isAnyLetterMatch, m, k);
      LaneConjunction(sp, w, k, isAnyLetterMatch[k]);
    }
  }

  /** The four lane tests at lane `k` combine to scalar `matches_word` of lane `k`'s pattern. */
  lemma LaneConjunction(sp: SimdPattern, w: Word.Word, k: nat, anyMatch: bool)
    requires k < SIMD_WIDTH
    requires anyMatch == Fivegram.AnyPosMatch(Fivegram.Candidate(Splat(w.fivegram.word)[k]),
                                              Fivegram.PatternLane(sp.absentWord, sp.absentWordMask, k))
    ensures (BitSet.IsSupersetSimd(Splat(w.letters.bits), sp.presentLetter)[k] == 0
             && BitSet.IsDisjointSimd(Splat(w.letters.bits), sp.absentLetter)[k] == 0
             && Fivegram.ExactMatchSimd(Splat(w.fivegram.word), sp.matchWordMask, sp.matchWord)[k] == 0
             && !anyMatch)
            == Pattern.MatchesWord(Lane(sp, k), w)
  {
    assert BitSet.AsciiBitSet(w.letters.bits) == w.letters;
    assert Fivegram.PatternLane(sp.matchWord, sp.matchWordMask, k) == Lane(sp, k).matchWord;
    assert Fivegram.PatternLane(sp.absentWord, sp.absentWordMask, k) == Lane(sp, k).absentWord;
    CandidateLane(w.fivegram, Lane(sp, k).matchWord);
    CandidateLane(w.fivegram, Lane(sp, k).absentWord);
  }

  /** Lane `k` of the combined mask of `matches_word`. */
  lemma MaskLane(superset: Simd, disjoint: Simd, exact: Simd, anyMatch: Mask, m: Mask, k: nat)
    requires k < SIMD_WIDTH
    requires m == MaskAnd(MaskAnd(MaskAnd(LanesEq(superset, Splat(0)), LanesEq(disjoint, Splat(0))),
                                  LanesEq(exact, Splat(0))),
                          MaskNot(anyMatch))
    ensures m[k] == (superset[k] == 0 && disjoint[k] == 0 && exact[k] == 0 && !anyMatch[k])
  {
  }
}
