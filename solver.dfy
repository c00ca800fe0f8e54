/**
 * The counting core of the solver (src/main.rs): for one guess, how many
 * dictionary words fall into each of its 243 response patterns, by the
 * scalar matcher and by the four-lane matcher, and the choice of the best keys.
 */
module Solver {
  import opened Bytes
  import opened Lanes
  import Fivegram
  import BitSet
  import Word
  import Pattern
  import SimdPattern

  /** `WORD_COUNT`: the dictionary size the binary uses; the counting methods take it as `n`. */
  const WORD_COUNT: nat := 12972

  /** How many of `words[..n]` pattern `p` matches. */
  function Count(words: seq<Word.Word>, p: Pattern.Pattern, n: nat): (c: nat)
    requires n <= |words|
    ensures c <= n
  {
    if n == 0 then 0 else Count(words, p, n - 1) + (if Pattern.MatchesWord(p, words[n - 1]) then 1 else 0)
  }

  /** The count of every pattern, in pattern order. */
  function Counts(words: seq<Word.Word>, patterns: seq<Pattern.Pattern>, n: nat): (r: seq<nat>)
    requires n <= |words|
    ensures |r| == |patterns| && forall i :: 0 <= i < |patterns| ==> r[i] == Count(words, patterns[i], n)
  {
    seq(|patterns|, i requires 0 <= i < |patterns| => Count(words, patterns[i], n))
  }

  /**
   * `match_patterns`: for each pattern, one pass over the first `n` words,
   * incrementing the pattern's slot for every word it matches.
   */
  method MatchPatterns(words: seq<Word.Word>, patterns: seq<Pattern.Pattern>, n: nat) returns (matches: seq<nat>)
    requires n <= |words| && |patterns| == Pattern.PATTERN_COUNT
    ensures matches == Counts(words, patterns, n)
  {
    var buffer := new nat[Pattern.PATTERN_COUNT](_ => 0);
    for i := 0 to Pattern.PATTERN_COUNT
      invariant forall i' :: 0 <= i' < i ==> buffer[i'] == Count(words, patterns[i'], n)
      invariant forall i' :: i <= i' < Pattern.PATTERN_COUNT ==> buffer[i'] == 0
    {
      for m := 0 to n
        invariant forall i' :: 0 <= i' < i ==> buffer[i'] == Count(words, patterns[i'], n)
        invariant forall i' :: i < i' < Pattern.PATTERN_COUNT ==> buffer[i'] == 0
        invariant buffer[i] == Count(words, patterns[i], m)
      {
        if Pattern.MatchesWord(patterns[i], words[m]) {
          buffer[i] := buffer[i] + 1;
        }
      }
    }
    matches := buffer[..];
  }

  /** The count of pattern `j` as the four-lane matcher sees it: lane `j % 4` of group `j / 4`. */
  function SimdCounts(words: seq<Word.Word>, groups: seq<SimdPattern.SimdPattern>, n: nat): (r: seq<nat>)
    requires n <= |words| && |groups| == SimdPattern.SIMD_PATTERN_COUNT
    ensures |r| == Pattern.PATTERN_COUNT
  {
    SimdPattern.SimdPatternCountValue();
    Pattern.PatternCountValue();
    seq(Pattern.PATTERN_COUNT, j requires 0 <= j < Pattern.PATTERN_COUNT =>
      Count(words, SimdPattern.Lane(groups[j / SIMD_WIDTH], j % SIMD_WIDTH), n))
  }

  /** `i32::unsigned_abs`. */
  function UnsignedAbs(x: int): nat {
    if x < 0 then -x else x
  }

  function Min(a: nat, b: nat): nat {
    if a <= b then a else b
  }

  /** How many lanes of group `i` the copy-back keeps: `min(243 - 4i, 4)`. */
  function SliceLength(i: nat): nat
    requires i * SIMD_WIDTH <= Pattern.PATTERN_COUNT
  {
    Min(Pattern.PATTERN_COUNT - i * SIMD_WIDTH, SIMD_WIDTH)
  }

  /**
   * The copy-back writes every slot exactly once: slot `j` lies in the
   * written range of group `i` exactly when `i == j / 4`; the last group
   * keeps three lanes, so its lane 3 is never written.
   */
  lemma CopyBackSlots(j: nat, i: nat)
    requires j < Pattern.PATTERN_COUNT && i < SimdPattern.SIMD_PATTERN_COUNT
    ensures i * SIMD_WIDTH <= Pattern.PATTERN_COUNT
    ensures (i * SIMD_WIDTH <= j < i * SIMD_WIDTH + SliceLength(i)) <==> i == j / SIMD_WIDTH
    ensures SliceLength(SimdPattern.SIMD_PATTERN_COUNT - 1) == 3
  {
    SimdPattern.SimdPatternCountValue();
    Pattern.PatternCountValue();
  }

  lemma GroupSlot(g: nat, k: nat)
    requires k < SIMD_WIDTH
    ensures (g * SIMD_WIDTH + k) / SIMD_WIDTH == g && (g * SIMD_WIDTH + k) % SIMD_WIDTH == k
  {
  }

  /** Subtracting the mask (-1 where word `m` matches) extends every lane's count to `m + 1` words. */
  lemma AccumulateWord(words: seq<Word.Word>, sp: SimdPattern.SimdPattern, m: nat, f: seq<int>, mask: Mask)
    requires m < |words| && |f| == SIMD_WIDTH
    requires forall k :: 0 <= k < SIMD_WIDTH ==> f[k] == Count(words, SimdPattern.Lane(sp, k), m) as int
    requires forall k :: 0 <= k < SIMD_WIDTH ==> mask[k] == Pattern.MatchesWord(SimdPattern.Lane(sp, k), words[m])
    ensures forall k :: 0 <= k < SIMD_WIDTH ==>
      f[k] - ToInt(mask)[k] == Count(words, SimdPattern.Lane(sp, k), m + 1) as int
  {
    forall k | 0 <= k < SIMD_WIDTH
      ensures f[k] - ToInt(mask)[k] == Count(words, SimdPattern.Lane(sp, k), m + 1) as int
    {
      CountStep(words, SimdPattern.Lane(sp, k), m, mask[k]);
    }
  }

  /** One more word adds one to the count exactly when the pattern matches it. */
  lemma CountStep(words: seq<Word.Word>, p: Pattern.Pattern, m: nat, matched: bool)
    requires m < |words| && matched == Pattern.MatchesWord(p, words[m])
    ensures Count(words, p, m + 1) == Count(words, p, m) + (if matched then 1 else 0)
  {
  }

  /**
   * The inner loop of `match_patterns_simd`: the accumulator `f`, zero in
   * every lane, from which the mask of every word is subtracted.
   */
  method Frequencies(words: seq<Word.Word>, sp: SimdPattern.SimdPattern, n: nat) returns (f: seq<int>)
    requires n <= |words|
    ensures |f| == SIMD_WIDTH
    ensures forall k :: 0 <= k < SIMD_WIDTH ==> f[k] == Count(words, SimdPattern.Lane(sp, k), n) as int
  {
    f := [0, 0, 0, 0];
    for m := 0 to n
      invariant |f| == SIMD_WIDTH
      invariant forall k :: 0 <= k < SIMD_WIDTH ==> f[k] == Count(words, SimdPattern.Lane(sp, k), m) as int
    {
      var mask := SimdPattern.MatchesWord(sp, words[m]);
      AccumulateWord(words, sp, m, f, mask);
      f := seq(SIMD_WIDTH, k requires 0 <= k < SIMD_WIDTH => f[k] - ToInt(mask)[k]);
    }
  }

  /**
   * `match_patterns_simd`: for each group, a signed four-lane accumulator from
   * which the mask (-1 per matching lane) is subtracted for every word; the
   * lanes' absolute values are then copied into slots `[4i, min(4i + 4, 243))`,
   * the last group giving only its first three lanes.
   */
  method MatchPatternsSimd(words: seq<Word.Word>, groups: seq<SimdPattern.SimdPattern>, n: nat)
    returns (matches: seq<nat>)
    requires n <= |words| && |groups| == SimdPattern.SIMD_PATTERN_COUNT
    ensures matches == SimdCounts(words, groups, n)
  {
    SimdPattern.SimdPatternCountValue();
    Pattern.PatternCountValue();
    ghost var target := SimdCounts(words, groups, n);
    var buffer := new nat[Pattern.PATTERN_COUNT](_ => 0);
    for i := 0 to SimdPattern.SIMD_PATTERN_COUNT
      invariant forall j :: 0 <= j < Pattern.PATTERN_COUNT && j < i * SIMD_WIDTH ==> buffer[j] == target[j]
    {
      var f := Frequencies(words, groups[i], n);
      var offset := i * SIMD_WIDTH;
      var endOffset := Min(offset + SIMD_WIDTH, Pattern.PATTERN_COUNT);
      var sliceLength := Min(Pattern.PATTERN_COUNT - offset, SIMD_WIDTH);
      var counts := seq(SIMD_WIDTH, k requires 0 <= k < SIMD_WIDTH => UnsignedAbs(f[k]));
      GroupCounts(words, groups, n, i, f, counts);
      assert endOffset - offset == sliceLength == SliceLength(i);
      forall k | 0 <= k < sliceLength {
        buffer[offset + k] := counts[k];
      }
    }
    matches := buffer[..];
  }

  /** Lane `k` of group `i`'s accumulator, made unsigned, is the count of pattern `4i + k`. */
  lemma GroupCounts(words: seq<Word.Word>, groups: seq<SimdPattern.SimdPattern>, n: nat, i: nat,
                    f: seq<int>, counts: seq<nat>)
    requires n <= |words| && |groups| == SimdPattern.SIMD_PATTERN_COUNT && i < |groups|
    requires |f| == SIMD_WIDTH
    requires forall k :: 0 <= k < SIMD_WIDTH ==> f[k] == Count(words, SimdPattern.Lane(groups[i], k), n) as int
    requires counts == seq(SIMD_WIDTH, k requires 0 <= k < SIMD_WIDTH => UnsignedAbs(f[k]))
    ensures forall k :: 0 <= k < SIMD_WIDTH && i * SIMD_WIDTH + k < Pattern.PATTERN_COUNT ==>
      counts[k] == SimdCounts(words, groups, n)[i * SIMD_WIDTH + k]
  {
    forall k | 0 <= k < SIMD_WIDTH && i * SIMD_WIDTH + k < Pattern.PATTERN_COUNT
      ensures counts[k] == SimdCounts(words, groups, n)[i * SIMD_WIDTH + k]
    {
      GroupSlot(i, k);
    }
  }

  /** Both matchers give every pattern the same count when the groups hold the patterns. */
  lemma SimdCountsAreCounts(words: seq<Word.Word>, patterns: seq<Pattern.Pattern>,
                            groups: seq<SimdPattern.SimdPattern>, n: nat)
    requires n <= |words| && |patterns| == Pattern.PATTERN_COUNT && SimdPattern.Regrouped(groups, patterns)
    ensures SimdCounts(words, groups, n) == Counts(words, patterns, n)
  {
    forall j | 0 <= j < Pattern.PATTERN_COUNT
      ensures SimdCounts(words, groups, n)[j] == Counts(words, patterns, n)[j]
    {
      SimdPattern.RegroupedLane(groups, patterns, j);
    }
  }

  /** The sum of a sequence of counts. */
  function Sum(s: seq<nat>): nat {
    if |s| == 0 then 0 else Sum(s[..|s| - 1]) + s[|s| - 1]
  }

  /** Summing is additive lane by lane. */
  lemma {:induction false} SumAdd(a: seq<nat>, b: seq<nat>, c: seq<nat>)
    requires |a| == |b| == |c| && forall j :: 0 <= j < |c| ==> c[j] == a[j] + b[j]
    ensures Sum(c) == Sum(a) + Sum(b)
  {
    if |c| > 0 {
      var k := |c| - 1;
      SumAdd(a[..k], b[..k], c[..k]);
    }
  }

  /** A sequence that is one at `f` and zero elsewhere sums to one. */
  lemma {:induction false} SumIndicator(s: seq<nat>, f: nat)
    requires f < |s| && forall j :: 0 <= j < |s| ==> s[j] == if j == f then 1 else 0
    ensures Sum(s) == 1
  {
    var k := |s| - 1;
    if k == f {
      SumZero(s[..k]);
    } else {
      SumIndicator(s[..k], f);
    }
  }

  lemma {:induction false} SumZero(s: seq<nat>)
    requires forall j :: 0 <= j < |s| ==> s[j] == 0
    ensures Sum(s) == 0
  {
    if |s| > 0 {
      SumZero(s[..|s| - 1]);
    }
  }

  /** A dictionary word as `Word::from_str` builds it from five lowercase letters. */
  predicate Encoded(w: Word.Word) {
    Fivegram.IsWord(w.bytes) && BitSet.AllInRange(w.bytes) && w == Word.Encode(w.bytes)
  }

  /** The patterns `Pattern::from_bytes` derives from guess `g`. */
  predicate PatternsOf(patterns: seq<Pattern.Pattern>, g: seq<byte>) {
    Pattern.Guess(g) && |patterns| == Pattern.PATTERN_COUNT
    && forall j :: 0 <= j < |patterns| ==> patterns[j] == Pattern.PatternOf(g, j)
  }

  /** One at `f`, zero elsewhere. */
  function Indicator(len: nat, f: nat): (s: seq<nat>)
    ensures |s| == len && forall j :: 0 <= j < len ==> s[j] == if j == f then 1 else 0
  {
    seq(len, j requires 0 <= j < len => if j == f then 1 else 0)
  }

  /** Adding an indicator to a sequence of counts adds one to its sum. */
  lemma SumStep(before: seq<nat>, after: seq<nat>, f: nat)
    requires |before| == |after| && f < |after|
    requires forall j :: 0 <= j < |after| ==> after[j] == before[j] + Indicator(|after|, f)[j]
    ensures Sum(after) == Sum(before) + 1
  {
    SumAdd(before, Indicator(|after|, f), after);
    SumIndicator(Indicator(|after|, f), f);
  }

  /** Word `m` adds to the count of pattern `j` exactly when `j` is its feedback. */
  lemma FeedbackStep(words: seq<Word.Word>, g: seq<byte>, p: Pattern.Pattern, m: nat, j: nat)
    requires m < |words| && Fivegram.IsWord(g) && Encoded(words[m])
    requires j < Pattern.PATTERN_COUNT && p == Pattern.PatternOf(g, j)
    ensures Count(words, p, m + 1) == Count(words, p, m) + if j == Pattern.Feedback(g, words[m].bytes) then 1 else 0
  {
    Pattern.ExactlyOnePattern(g, words[m].bytes, j);
    CountStep(words, p, m, j == Pattern.Feedback(g, words[m].bytes));
  }

  /** Word `m` adds one to the count of its feedback pattern and nothing to the others. */
  lemma CountsStep(words: seq<Word.Word>, g: seq<byte>, patterns: seq<Pattern.Pattern>, m: nat)
    requires m < |words| && Fivegram.IsWord(g) && PatternsOf(patterns, g) && Encoded(words[m])
    ensures Pattern.Feedback(g, words[m].bytes) < Pattern.PATTERN_COUNT
    ensures forall j :: 0 <= j < |patterns| ==>
      (Counts(words, patterns, m + 1)[j]
       == Counts(words, patterns, m)[j] + Indicator(|patterns|, Pattern.Feedback(g, words[m].bytes))[j])
  {
    Pattern.FeedbackDigits(g, words[m].bytes);
    forall j | 0 <= j < |patterns|
      ensures Counts(words, patterns, m + 1)[j]
        == Counts(words, patterns, m)[j] + Indicator(|patterns|, Pattern.Feedback(g, words[m].bytes))[j]
    {
      FeedbackStep(words, g, patterns[j], m, j);
    }
  }

  /** Counts that grow in total by one per word sum to the number of words. */
  lemma {:induction false} SumOfCounts(words: seq<Word.Word>, patterns: seq<Pattern.Pattern>, n: nat)
    requires n <= |words|
    requires forall m :: 0 <= m < n ==> Sum(Counts(words, patterns, m + 1)) == Sum(Counts(words, patterns, m)) + 1
    ensures Sum(Counts(words, patterns, n)) == n
  {
    if n == 0 {
      SumZero(Counts(words, patterns, 0));
    } else {
      SumOfCounts(words, patterns, n - 1);
    }
  }

  /**
   * Every word falls into exactly one of the guess's patterns, so the 243
   * counts of `match_patterns` add up to the number of words.
   */
  lemma CountsSumToWords(words: seq<Word.Word>, g: seq<byte>, patterns: seq<Pattern.Pattern>, n: nat)
    requires n <= |words| && Fivegram.IsWord(g) && PatternsOf(patterns, g)
    requires forall m :: 0 <= m < n ==> Encoded(words[m])
    ensures Sum(Counts(words, patterns, n)) == n
  {
    forall m | 0 <= m < n
      ensures Sum(Counts(words, patterns, m + 1)) == Sum(Counts(words, patterns, m)) + 1
    {
      CountsStep(words, g, patterns, m);
      SumStep(Counts(words, patterns, m), Counts(words, patterns, m + 1), Pattern.Feedback(g, words[m].bytes));
    }
    SumOfCounts(words, patterns, n);
  }
}
