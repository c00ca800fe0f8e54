# Bit-packed Wordle matcher

This project models the core of `wordle-solver`, a Rust program that picks an
opening Wordle guess by information gain. The guess it picks is the one whose
feedback patterns split the dictionary most evenly. The core is a bit-packed
matcher with four layers:

- **Letter sets.** `AsciiBitSet` is a 26-bit letter mask, with superset and
  disjointness tests in scalar and four-lane forms.
- **Positional words.** `Fivegram` packs five 5-bit letter codes and a
  per-slot mask. Its tests are `exact_match` (every constrained slot agrees)
  and `any_pos_match` (some constrained slot agrees).
- **Words and patterns.** `Word::from_str` builds the packed records.
  `Pattern::from_bytes` builds the 243 feedback patterns of a guess by reading
  the pattern index as five base-3 digits. `Pattern::matches_word` is the
  four-term test.
- **Counting engines.**
  - The scalar `match_patterns` counter.
  - The four-lane `SimdPattern` regrouping and `match_patterns_simd`, with their
    signed accumulator and truncated copy-back.
  - The `top_k_indices` buffer.
  - The compute kernel's own copy of the predicate and its counting loop.

Modules follow the source files:

| module | file | source |
|---|---|---|
| `Bytes` | bytes.dfy | `u8` and ASCII |
| `Lanes` | lanes.dfy | the `core_simd` operations used on four `u32` lanes |
| `BitSet` | ascii_bit_set.dfy | src/ascii_bit_set.rs |
| `Fivegram` | fivegram.dfy | src/fivegram.rs |
| `Word` | word.dfy | src/word.rs |
| `Pattern` | pattern.dfy | src/pattern.rs |
| `SimdPattern` | simd_pattern.dfy | src/simd_pattern.rs |
| `Solver` | solver.dfy | `match_patterns`, `match_patterns_simd` in src/main.rs |
| `TopK` | top_k.dfy | `top_k_indices` in src/main.rs |
| `Shader` | shader.dfy | shader/src/lib.rs |

How the Rust maps onto Dafny:

- `u32` values are `bv32`, and a `u8` is a `bv8`.
- Copy structs (`AsciiBitSet`, `Fivegram`, `Word`, `Pattern`, `SimdPattern`)
  are datatypes. A `&mut self` setter is a function that returns the updated
  value.
- A SIMD vector is a sequence of four lanes.
- Loops become methods with loop invariants, proved against a specification
  function:
  - `from_bytes` of the letter set and of the fivegram;
  - `Pattern::from_bytes`;
  - `any_pos_match_simd`;
  - `SimdPattern::from_patterns`;
  - both counters;
  - `top_k_indices`;
  - the kernel.
- The Rust operators are grouped as Rust parses them. For example,
  `a & b ^ b` is `(a & b) ^ b`, and `x >> s & 31` is `(x >> s) & 31`.
- A debug-build panic (a `u8` subtraction below `b'a'`, a shift of 32 or
  more, an index out of range, an `assert!`) becomes a precondition. Letters
  from `b'a'` to `b'a' + 31` are accepted by every operation, as in Rust. The
  letter-set and fivegram properties are stated for lower-case letters.
- `WORD_COUNT` (12972) is the parameter `n <= |words|`. `words[0..WORD_COUNT]`
  panics on a shorter dictionary, hence the precondition.

Main results:

- Every bit trick means what the repository's property tests say it means:
  - the letter-set tests are set inclusion and disjointness;
  - `exact_match` holds when every constrained slot agrees;
  - `any_pos_match` holds when some constrained slot agrees;
  - each four-lane form agrees with its scalar form lane by lane.
- `Pattern.ExactlyOnePattern`: for any guess and any dictionary word, exactly
  one of the guess's 243 patterns matches the word, namely the source's
  per-position verdict `Pattern.Feedback` (at this position, elsewhere in the
  word, absent). That verdict ignores letter multiplicities, as the source's
  patterns do, so on repeated letters it can differ from the game's own
  feedback.
- `Solver.CountsSumToWords`: the 243 counts of a guess sum to the number of
  words.
- `Solver.SimdCountsAreCounts` and `Solver.MatchPatternsSimd`: the four-lane
  counter returns the scalar counts.
- `Shader.MatchesWordAgrees` and `Shader.CountAgrees`: the kernel's copy
  agrees with the host's.

## Model

| member | source | states |
|---|---|---|
| Bytes.AsciiBytes | src/word.rs:10 | `s.as_bytes()` of an ASCII string: one byte per character, converting back to that character |
| Lanes.ToInt | src/simd_pattern.rs:88-107 | `Mask::to_int`: a true lane becomes -1 and a false lane 0 |
| BitSet.LowerInRange | src/ascii_bit_set.rs:34 | lower-case bytes satisfy the no-panic range of `1 << (b - b'a')` |
| BitSet.BitsMeet | src/ascii_bit_set.rs:34 | the bits of two in-range letters overlap iff the letters are equal |
| BitSet.SetLetterAdds | src/ascii_bit_set.rs:41-43 | after `set_letter(l)` the set contains `c` iff it did before or `c == l` |
| BitSet.LettersStep | src/ascii_bit_set.rs:33-35 | one iteration of the `from_bytes` loop is `set_letter` of the next byte |
| BitSet.FromBytes | src/ascii_bit_set.rs:31-38 | the loop returns the letter set of the bytes |
| BitSet.LettersContains | src/ascii_bit_set.rs:31-38 | the set built from `bytes` contains `c` iff `c` occurs in `bytes` |
| BitSet.LettersBelowHighBits | src/ascii_bit_set.rs:31-38 | lower-case input never sets bits 26-31 |
| BitSet.SetLetterBelowHighBits | src/ascii_bit_set.rs:41-43 | `set_letter` of a lower-case letter keeps bits 26-31 clear |
| BitSet.SupersetOfSetLetter | src/ascii_bit_set.rs:46-48 | `a ⊇ s ∪ {l}` iff `a ⊇ s` and `l ∈ a` |
| BitSet.DisjointFromSetLetter | src/ascii_bit_set.rs:56-58 | `a` is disjoint from `s ∪ {l}` iff it is disjoint from `s` and `l ∉ a` |
| BitSet.SupersetOfLetters | src/ascii_bit_set.rs:46-48 | `is_superset(a, from_bytes(bytes))` iff `a` contains every byte |
| BitSet.DisjointFromLetters | src/ascii_bit_set.rs:56-58 | `is_disjoint(a, from_bytes(bytes))` iff `a` contains no byte |
| BitSet.SupersetIsInclusion | src/ascii_bit_set.rs:99-109 | `is_superset` of two built sets iff every letter of the right string is in the left (both directions) |
| BitSet.DisjointIsNoCommonLetter | src/ascii_bit_set.rs:131-141 | `is_disjoint` of two built sets iff the strings share no letter |
| BitSet.IsSupersetSimd | src/ascii_bit_set.rs:51-53 | a lane of `is_superset_simd` is zero iff scalar `is_superset` holds for that lane pair |
| BitSet.IsDisjointSimd | src/ascii_bit_set.rs:61-63 | a lane of `is_disjoint_simd` is zero iff scalar `is_disjoint` holds for that lane pair |
| BitSet.SupersetSimdIsInclusion | src/ascii_bit_set.rs:80-96 | lane `k` of `is_superset_simd` on built sets is zero iff string `k` on the right is included in string `k` on the left |
| BitSet.DisjointSimdIsNoCommonLetter | src/ascii_bit_set.rs:112-128 | lane `k` of `is_disjoint_simd` on built sets is zero iff strings `k` share no letter |
| BitSet.LettersLanes | src/ascii_bit_set.rs:89-90 | lane `k` holds the set built from string `k` |
| BitSet.EveryLetterBits | src/ascii_bit_set.rs:151-152 | a lower-case string containing every letter builds `0x3FFFFFF` |
| BitSet.AlphabetBits | src/ascii_bit_set.rs:151-152 | "abc…z" builds `0x3FFFFFF` |
| BitSet.AbcdeBits | src/ascii_bit_set.rs:145-146 | "abcde" builds `0b11111` |
| Fivegram.CodeOfLower | src/fivegram.rs:54 | the code `l - b'a' + 1` of a lower-case letter is in 1..26 |
| Fivegram.CodeInjective | src/fivegram.rs:54 | distinct lower-case letters have distinct codes |
| Fivegram.SetLetterSameSlot | src/fivegram.rs:53-56 | `set_letter` ORs the code into slot `pos` and sets that slot's mask to `0b11111` |
| Fivegram.SetLetterEmptySlot | src/fivegram.rs:53-56 | on an empty slot, `set_letter` writes exactly the code, which is in 1..26 |
| Fivegram.SetLetterOtherSlot | src/fivegram.rs:53-56 | `set_letter` leaves every other slot of `word` and `letter_mask` unchanged |
| Fivegram.SetLetterKeepsWithin | src/fivegram.rs:53-56 | `set_letter` keeps `word` inside `letter_mask` |
| Fivegram.SetLetterKeepsWellFormed | src/fivegram.rs:53-56 | `set_letter` keeps the record well formed: `word` inside the mask, each mask slot all-zero or all-one, nothing above bit 24 |
| Fivegram.EmptyWellFormed | src/fivegram.rs:14-19 | `Fivegram::default()` is well formed |
| Fivegram.FromBytes | src/fivegram.rs:41-50 | the loop sets letter `i` at position `i`, giving the fold `Packed` of the bytes |
| Fivegram.SparseSlotKept | src/fivegram.rs:41-56 | after writing, a written position holds its letter's code under a full mask |
| Fivegram.SparseSlotSkipped | src/fivegram.rs:41-56 | an unwritten position holds code 0 under an empty mask |
| Fivegram.SparseSlotFree | src/fivegram.rs:41-56 | positions past the input are empty |
| Fivegram.SparseWellFormed | src/fivegram.rs:41-56 | writing lower-case letters yields a well-formed record, so `from_bytes` preserves the invariant |
| Fivegram.WordFullMask | src/fivegram.rs:41-56 | a five-letter word's mask is the low 25 bits |
| Fivegram.AbcdeWord | src/fivegram.rs:189-193 | "abcde" packs to `0b00101_00100_00011_00010_00001` |
| Fivegram.ExactMatchMeaning | src/fivegram.rs:59-61 | for a well-formed pattern, `exact_match` iff every slot the pattern constrains holds the same code in the word |
| Fivegram.AnyPosMatchMeaning | src/fivegram.rs:69-78 | `any_pos_match` iff some slot the pattern constrains holds the same code in the word |
| Fivegram.ExactMatchEmpty | src/fivegram.rs:59-61 | every word matches the empty pattern |
| Fivegram.AnyPosMatchEmpty | src/fivegram.rs:69-78 | no word hits the empty pattern |
| Fivegram.ExactMatchOracle | src/fivegram.rs:59-61 | a word against a partly written record: match iff every written position agrees |
| Fivegram.AnyPosMatchOracle | src/fivegram.rs:69-78 | a word against a partly written record: hit iff some written position agrees |
| Fivegram.TemplateExactMatch | src/fivegram.rs:143-154 | the property test: a match iff each position agrees or is '_' |
| Fivegram.TemplateAnyPosMatch | src/fivegram.rs:175-186 | the property test: a hit iff some position agrees and is not '_' |
| Fivegram.PrefixExactMatch | src/fivegram.rs:203-209 | a word matches the record of any of its prefixes |
| Fivegram.WrongLetterNoMatch | src/fivegram.rs:211-217 | a word does not match a record whose first letter differs |
| Fivegram.DecodeKept | src/fivegram.rs:22-36 | `Display` prints a written slot as its letter |
| Fivegram.DecodeHole | src/fivegram.rs:22-36 | `Display` prints an unwritten slot as '_' |
| Fivegram.DecodeWord | src/fivegram.rs:22-36 | `Display` of `from_bytes(s)` is `s` |
| Fivegram.ExactMatchSimd | src/fivegram.rs:64-66 | lane `k` of `exact_match_simd` is zero iff scalar `exact_match` holds against pattern `k` |
| Fivegram.AnyPosMatchSimd | src/fivegram.rs:81-99 | lane `k` of the OR-accumulated mask equals scalar `any_pos_match` against pattern `k` |
| Fivegram.ExactMatchSimdOracle | src/fivegram.rs:124-140 | the four-lane property test of `exact_match_simd` |
| Fivegram.AnyPosMatchSimdOracle | src/fivegram.rs:157-172 | the four-lane property test of `any_pos_match_simd` |
| Word.WordBytesFromStr | src/word.rs:6-13 | requires the length 5 that the assertion checks, and returns the five bytes unchanged |
| Word.FromStr | src/word.rs:31-39 | `from_str` stores the bytes, their `Fivegram::from_bytes` and their `AsciiBitSet::from_bytes` |
| Word.ToStr | src/word.rs:27-29 | `to_str` maps each byte to its character |
| Word.ToStrFromStr | src/word.rs:27-39 | `to_str(from_str(s)) == s` for every accepted five-letter string |
| Pattern.PatternCountValue | src/pattern.rs:6 | `PATTERN_COUNT == 3^5 == 243` |
| Pattern.Digit | src/pattern.rs:44 | every digit `(j / 3^i) % 3` is below 3, so the `unreachable!` arm is dead |
| Pattern.PatternStep | src/pattern.rs:42-62 | one position more is the match arm for that position's digit |
| Pattern.FromBytes | src/pattern.rs:38-66 | the nested loops return 243 patterns, pattern `j` being `PatternOf(g, j)` |
| Pattern.PatternOfParts | src/pattern.rs:41-63 | pattern `j`'s four parts hold the positions whose digit is 0, 1, 1 and 2 respectively |
| Pattern.FirstPatternFields | src/pattern.rs:41-63 | pattern 0 is `match_word = Fivegram::from_bytes(g)` with the other parts empty |
| Pattern.LastPatternFields | src/pattern.rs:41-63 | pattern 242 has only `absent_letter` set, equal to the guess's letters |
| Pattern.DefaultMatchesEveryWord | src/pattern.rs:133-138 | the default pattern matches every word |
| Pattern.MatchesWordOracle | src/pattern.rs:85-130 | the property test: `matches_word` iff the string-level conditions hold (positions agree, no letter at a forbidden position, required letters present, forbidden letters absent) |
| Pattern.MatchWordOfPattern | src/pattern.rs:72 | the `match_word` term of pattern `j` holds iff the word agrees at every digit-0 position |
| Pattern.AbsentWordOfPattern | src/pattern.rs:73 | the `absent_word` term holds iff the word differs at every digit-1 position |
| Pattern.PresentLetterOfPattern | src/pattern.rs:70 | the `present_letter` term holds iff every digit-1 letter occurs in the word |
| Pattern.AbsentLetterOfPattern | src/pattern.rs:71 | the `absent_letter` term holds iff no digit-2 letter occurs in the word |
| Pattern.MatchesPatternOf | src/pattern.rs:68-74 | pattern `j` matches word `t` iff every digit of `j` fits `t` at its position |
| Pattern.FeedbackDigits | src/pattern.rs:41-63 | the feedback of a guess on a word is below 243, and its digits are the per-position verdicts |
| Pattern.DigitsDetermine | src/pattern.rs:44 | two indices below 243 with equal digits are equal |
| Pattern.ExactlyOnePattern | src/pattern.rs:41-74 | pattern `j` of a guess matches a dictionary word iff `j` is the per-position verdict `Feedback`: exactly one of the 243 matches |
| Pattern.FirstPatternIsGuess | src/pattern.rs:41-74 | pattern 0 matches the guess itself and no other word |
| Pattern.LastPatternIsDisjoint | src/pattern.rs:41-74 | pattern 242 matches exactly the words sharing no letter with the guess |
| SimdPattern.DivCeil | src/simd_pattern.rs:6 | `div_ceil`: the least multiple bound, `a <= r*b < a + b` |
| SimdPattern.SimdPatternCountValue | src/simd_pattern.rs:5-6 | `SIMD_PATTERN_COUNT == 61` |
| SimdPattern.FromChunk | src/simd_pattern.rs:28-53 | lane `k` of the group holds chunk pattern `k`'s six fields, and lanes past the chunk the zero (default) pattern |
| SimdPattern.FromPatterns | src/simd_pattern.rs:25-57 | group `g`, lane `k` holds pattern `4g + k` or the default when that is past 243 |
| SimdPattern.RegroupedLane | src/simd_pattern.rs:25-57 | every pattern `j` sits in group `j / 4`, lane `j % 4`: nothing lost, order kept |
| SimdPattern.RegroupedPadding | src/simd_pattern.rs:29-34 | lane 3 of group 60, the one empty lane, holds the match-everything default |
| SimdPattern.MatchesWord | src/simd_pattern.rs:59-76 | lane `k` of the four-lane `matches_word` is scalar `matches_word` of lane `k`'s pattern |
| SimdPattern.LaneConjunction | src/simd_pattern.rs:110-122 | the four lane tests at lane `k` combine to the scalar test of that lane's pattern |
| Solver.Count | src/main.rs:121-127 | the number of matching words among the first `n` is at most `n` |
| Solver.MatchPatterns | src/main.rs:117-130 | `matches[i]` is the number of words among the first `n` that pattern `i` matches |
| Solver.Frequencies | src/main.rs:145-149 | after the words, each lane of the accumulator holds plus the count of its pattern (subtracting -1 adds 1) |
| Solver.AccumulateWord | src/main.rs:147-148 | one `f -= mask.to_int()` step adds 1 exactly to the lanes that match |
| Solver.CopyBackSlots | src/main.rs:150-154 | group `i` writes exactly the slots `4i .. 4i + slice_length`; each slot has one writer; the last group copies 3 lanes |
| Solver.MatchPatternsSimd | src/main.rs:140-158 | the returned counts are the lane counts of each slot's group, copied back through `unsigned_abs` |
| Solver.GroupCounts | src/main.rs:150-154 | the copied lanes of group `i` are the slots' counts |
| Solver.SimdCountsAreCounts | src/main.rs:140-158 | on the regrouped patterns, the four-lane counts equal `match_patterns`' counts |
| Solver.CountsSumToWords | src/main.rs:117-130 | for the patterns of a guess, the 243 counts sum to the number of words |
| TopK.TopKIndices | src/main.rs:88-98 | the loop returns the as-written buffer function `TopK` |
| TopK.PushFront | src/main.rs:92-93 | `copy_within(0..K - 1, 1)` then `idx[0] = i`: the new buffer is `i` followed by the old buffer without its last entry |
| TopK.Running | src/main.rs:89-95 | the buffer has `K` entries, each 0 or an index already looked at |
| TopK.TopKFront | src/main.rs:88-98 | for non-empty keys `idx[0]` is a maximal key, and the last index with that key (`<=`) |
| TopK.TopKOrdered | src/main.rs:89-95 | entries are below `keys.len()` and keys along the buffer never increase |
| TopK.RecordHoldersOnly | src/main.rs:88-98 | keys `[5, 1, 2, 3]`, `K = 2`: the buffer is `[0, 0]` |
| TopK.TopKRankedIsTopK | src/main.rs:55 | the corrected buffer holds `min(K, n)` distinct indices, keys non-increasing, equal keys in index order, and no index left out beats a kept one (a higher key, or an equal key and a lower index) |
| TopK.RankedExample | src/main.rs:55 | the corrected buffer for `[5, 1, 2, 3]`, `K = 2` is `[0, 3]` |
| TopK.RankedTieExample | src/main.rs:55 | on equal keys `[1, 1]` with `K = 1` the corrected buffer keeps the lower index, `[0]` |
| Shader.PatternCountValue | shader/src/lib.rs:69-70 | the kernel's `PATTERN_COUNT` is the host's 243 |
| Shader.SetTestsAgree | shader/src/lib.rs:24-34 | the kernel's `is_superset` and `is_disjoint` give the host's answers |
| Shader.PositionalTestsAgree | shader/src/lib.rs:43-60 | the kernel's `exact_match` and `any_pos_match` give the host's answers |
| Shader.MatchesWordAgrees | shader/src/lib.rs:82-90 | the kernel's `matches_word` equals the host's on every pattern and word, the kernel word lacking the bytes |
| Shader.ExactlyOnePattern | shader/src/lib.rs:82-90 | the kernel, too, sees exactly one matching pattern per word: the per-position verdict `Feedback` |
| Shader.CountAgrees | shader/src/lib.rs:106-112 | the inner loop's count equals the host's `match_patterns` count |
| Shader.Kernel | shader/src/lib.rs:96-121 | invocation `idx` writes the entropy sum over its nonzero counts to `entropies[idx]` and changes no other slot |

## Left out

- Floating point. `counts_to_entropy` (src/main.rs:100-107) is not part of this model. `match_freq` and `match_freq_simd` (src/main.rs:109-115, 132-138) are left out too: they are that function mapped in parallel with rayon.
- Shader.Kernel: the `f32` expression `-p * p.log2()` becomes a `term` parameter applied to the integer count. The `f32` match counter is an integer in this model; the two agree while counts stay below 2^24.
- Shader.Kernel: the GPU dispatch (`global_invocation_id`), the storage-buffer layout and concurrent invocations are not modelled. `idx` and the buffers are parameters.
- src/shader.rs (wgpu device, buffers and `bytemuck` casts) and build.rs are not part of this model: they are foreign calls with no matcher logic.
- `main`, `all_words` (`include_str!` of dict.txt), `all_patterns` and `all_simd_patterns`: command-line parsing, dictionary loading, printing and timing. A dictionary is a parameter `words` with `n <= |words|`.
- The `KNOWN_BINS` tests (src/main.rs:165-226) need dict.txt, which is not part of this model. `Solver.SimdCountsAreCounts` states the agreement they check, for every dictionary.
- The `Display` impl of `AsciiBitSet` (src/ascii_bit_set.rs:13-27) and of `Pattern` (src/pattern.rs:29-35): debugging output only. The slot decoding of `Fivegram`'s `Display` is modelled.
- Integer widths: the `i32` lane accumulator cannot wrap for fewer than 2^31 words, and `usize` indices are unbounded integers here.
- TopK.TopKIndices: keys are integers rather than `f32`, so NaN and signed zeros are not modelled.
- TopK.TopKIndices: requires `0 < K`. With `K = 0` and at least two keys the source panics on `keys[idx[0]]` (src/main.rs:91), which indexes the empty buffer before `K - 1` is reached; with at most one key it returns the empty array. The model does not capture either case. The source only calls it with `K = 10`.
- Pattern.Feedback: the per-position verdict ignores letter multiplicities, as the source's patterns do (src/pattern.rs:17-18, "Repeated letter, one is at known position" is listed as ignored). For guess `speed` and word `abide`, the game answers absent for the second `e`, while this verdict answers elsewhere.
- Rust stack arrays (`[0u32; SIMD_WIDTH]`, `[0; PATTERN_COUNT]`) that are filled and then returned by value are sequences. The buffers of `wordbytes_from_str`, `match_patterns_simd` and `top_k_indices` stay arrays.
- Bytes 123 to 127 (`{`, `|`, `}`, `~`, DEL) pass the debug-build range of `set_letter` but are not letters. Operations accept them, as Rust does. The properties about letters are stated for `a`..`z`.

## Findings

| source | as written | input that shows it | evidently intended | confidence | as-written member | corrected member |
|---|---|---|---|---|---|---|
| src/main.rs:88-98 | `top_k_indices` compares each key only against the key at `idx[0]` and shifts the buffer. So it keeps the successive running maxima, padded with index 0, not the `K` largest keys. `main` prints these 10 as the "Top choices by information gain". | keys `[5, 1, 2, 3]`, `K = 2` give `[0, 0]` | the indices of the `K` largest keys in non-increasing key order, ties broken by preferring the lowest index (a stable descending sort, then the first `K`), here `[0, 3]` | not executed | TopK.RecordHoldersOnly | TopK.TopKRankedIsTopK |
