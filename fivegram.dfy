/**
 * The positional word `Fivegram` (src/fivegram.rs): five 5-bit letter codes
 * packed into `word` (0 = no letter, 1..26 = 'a'..'z'), with `letter_mask`
 * holding `0b11111` in every slot that carries a letter.
 *
 * Positions are `usize` in the source; only positions whose shift
 * `pos * FIVEGRAM` stays below 32 are legal, so they are modelled as `bv32`
 * values below 7, which keeps integer-to-bit-vector conversions out of the
 * bit-level proofs.
 */
module Fivegram {
  import opened Bytes
  import opened Lanes

  /** `FIVEGRAM`: the number of letters in a word and the width of one slot. */
  const FIVEGRAM: nat := 5

  /** `0b11111`, one slot's worth of bits. */
  const SLOT_MASK: bv32 := 0x1F

  /** The low 25 bits: every slot of a word. */
  const ALL_SLOTS: bv32 := 0x1FF_FFFF

  datatype Fivegram = Fivegram(word: bv32, letterMask: bv32)

  /** `Fivegram::default()`. */
  const EMPTY: Fivegram := Fivegram(0, 0)

  /** Slot `i` of a packed value: `x >> (i * FIVEGRAM) & 0b11111`. */
  function Slot(x: bv32, i: bv32): bv32
    requires i < 5
  {
    (x >> (i * 5)) & SLOT_MASK
  }

  /** The letter code `l - b'a' + 1` that `set_letter` writes. */
  function Code(l: byte): bv32
    requires LOWER_A <= l
  {
    (l - LOWER_A + 1) as bv32
  }

  lemma CodeOfLower(l: byte)
    requires IsLower(l)
    ensures 1 <= Code(l) <= 26
  {
  }

  lemma CodeInjective(a: byte, b: byte)
    requires IsLower(a) && IsLower(b) && Code(a) == Code(b)
    ensures a == b
  {
  }

  /**
   * `set_letter`: ORs the letter code into slot `pos` of `word` and `0b11111`
   * into the same slot of `letter_mask`. The preconditions are the two debug
   * panics: `l - b'a'` must not underflow and the shift must stay below 32.
   */
  function SetLetter(f: Fivegram, l: byte, pos: bv32): Fivegram
    requires LOWER_A <= l && pos < 7
  {
    Fivegram(f.word | (Code(l) << (pos * 5)), f.letterMask | (SLOT_MASK << (pos * 5)))
  }

  /** Writing into slot `pos` ORs the code into that slot and fills its mask. */
  lemma SetLetterSameSlot(f: Fivegram, l: byte, pos: bv32)
    requires IsLower(l) && pos < 5
    ensures Slot(SetLetter(f, l, pos).word, pos) == Slot(f.word, pos) | Code(l)
    ensures Slot(SetLetter(f, l, pos).letterMask, pos) == SLOT_MASK
  {
  }

  /** On an empty slot, `set_letter` leaves exactly the letter's code there. */
  lemma SetLetterEmptySlot(f: Fivegram, l: byte, pos: bv32)
    requires IsLower(l) && pos < 5 && Slot(f.word, pos) == 0
    ensures Slot(SetLetter(f, l, pos).word, pos) == Code(l)
    ensures 1 <= Code(l) <= 26
    ensures Slot(SetLetter(f, l, pos).letterMask, pos) == SLOT_MASK
  {
    SetLetterSameSlot(f, l, pos);
  }

  /** Every other slot of `word` and of `letter_mask` is unchanged. */
  lemma SetLetterOtherSlot(f: Fivegram, l: byte, pos: bv32, i: bv32)
    requires IsLower(l) && pos < 7 && i < 5 && i != pos
    ensures Slot(SetLetter(f, l, pos).word, i) == Slot(f.word, i)
    ensures Slot(SetLetter(f, l, pos).letterMask, i) == Slot(f.letterMask, i)
  {
  }

  /** The record invariant: `word` has no bit outside `letter_mask`. */
  predicate WordWithinMask(f: Fivegram) {
    f.word & !f.letterMask == 0
  }

  lemma SetLetterKeepsWithin(f: Fivegram, l: byte, pos: bv32)
    requires IsLower(l) && pos < 7 && WordWithinMask(f)
    ensures WordWithinMask(SetLetter(f, l, pos))
  {
  }

  /** Slot `i` of a mask is empty or full. */
  predicate WholeSlot(m: bv32, i: bv32)
    requires i < 5
  {
    Slot(m, i) == 0 || Slot(m, i) == SLOT_MASK
  }

  /** A mask made of whole slots: each of the five slots is empty or full, nothing above them. */
  predicate WholeSlots(m: bv32) {
    m >> 25 == 0 && WholeSlot(m, 0) && WholeSlot(m, 1) && WholeSlot(m, 2) && WholeSlot(m, 3) && WholeSlot(m, 4)
  }

  /** What every constructed record satisfies: word within mask, mask made of whole slots. */
  predicate WellFormed(f: Fivegram) {
    WordWithinMask(f) && WholeSlots(f.letterMask)
  }

  lemma EmptyWellFormed()
    ensures WellFormed(EMPTY)
  {
  }

  lemma SetLetterKeepsHighBitsClear(f: Fivegram, l: byte, pos: bv32)
    requires LOWER_A <= l && pos < 5 && f.letterMask >> 25 == 0
    ensures SetLetter(f, l, pos).letterMask >> 25 == 0
  {
  }

  lemma SetLetterKeepsWholeSlot(f: Fivegram, l: byte, pos: bv32, i: bv32)
    requires IsLower(l) && pos < 5 && i < 5 && WholeSlot(f.letterMask, i)
    ensures WholeSlot(SetLetter(f, l, pos).letterMask, i)
  {
    if i == pos {
      SetLetterSameSlot(f, l, pos);
    } else {
      SetLetterOtherSlot(f, l, pos, i);
    }
  }

  lemma SetLetterKeepsWellFormed(f: Fivegram, l: byte, pos: bv32)
    requires IsLower(l) && pos < 5 && WellFormed(f)
    ensures WellFormed(SetLetter(f, l, pos))
  {
    SetLetterKeepsWithin(f, l, pos);
    SetLetterKeepsHighBitsClear(f, l, pos);
    SetLetterKeepsWholeSlot(f, l, pos, 0);
    SetLetterKeepsWholeSlot(f, l, pos, 1);
    SetLetterKeepsWholeSlot(f, l, pos, 2);
    SetLetterKeepsWholeSlot(f, l, pos, 3);
    SetLetterKeepsWholeSlot(f, l, pos, 4);
  }

  /**
   * A word to write letter by letter: `keep[k]` says whether byte `k` is
   * written at position `k`. The written bytes must not make `set_letter`
   * panic, and there are at most `FIVEGRAM` of them.
   */
  predicate Writable(bytes: seq<byte>, keep: seq<bool>) {
    |keep| == |bytes| <= FIVEGRAM && forall k :: 0 <= k < |bytes| && keep[k] ==> LOWER_A <= bytes[k]
  }

  /** The same, with every written byte a lower-case letter. */
  predicate WritableLower(bytes: seq<byte>, keep: seq<bool>) {
    |keep| == |bytes| <= FIVEGRAM && forall k :: 0 <= k < |bytes| && keep[k] ==> IsLower(bytes[k])
  }

  /** Keep every position. */
  function Everywhere(n: nat): (r: seq<bool>)
    ensures |r| == n && forall k :: 0 <= k < n ==> r[k]
  {
    seq(n, _ => true)
  }

  /** Position `i` (a `usize` below 7) as the `bv32` operand of the shift. */
  function Pos(i: nat): (r: bv32)
    requires i < 7
    ensures r < 7
  {
    if i == 0 then 0 else if i == 1 then 1 else if i == 2 then 2 else if i == 3 then 3
    else if i == 4 then 4 else if i == 5 then 5 else 6
  }

  lemma SlotIndexBound(i: nat)
    requires i < FIVEGRAM
    ensures Pos(i) < 5
  {
  }

  lemma PosInjective(i: nat, j: nat)
    requires i < 7 && j < 7 && i != j
    ensures Pos(i) != Pos(j)
  {
  }

  /** Slot `j` for a sequence index `j`. */
  function SlotAt(x: bv32, j: nat): bv32
    requires j < FIVEGRAM
  {
    SlotIndexBound(j);
    Slot(x, Pos(j))
  }

  /** Writing `bytes[k]` at position `k` for every kept `k`, in order, starting from the empty record. */
  function Sparse(bytes: seq<byte>, keep: seq<bool>): Fivegram
    requires Writable(bytes, keep)
  {
    if |bytes| == 0 then EMPTY
    else
      var n := |bytes| - 1;
      var prev := Sparse(bytes[..n], keep[..n]);
      if keep[n] then SetLetter(prev, bytes[n], Pos(n)) else prev
  }

  /** `from_bytes` as a fold: byte `k` is set at position `k`. */
  function Packed(bytes: seq<byte>): Fivegram
    requires |bytes| <= FIVEGRAM && forall k :: 0 <= k < |bytes| ==> LOWER_A <= bytes[k]
  {
    Sparse(bytes, Everywhere(|bytes|))
  }

  /**
   * `Fivegram::from_bytes`: the assertion on the length becomes a precondition
   * and the loop sets letter `i` at position `i`.
   */
  method FromBytes(bytes: seq<byte>) returns (res: Fivegram)
    requires |bytes| <= FIVEGRAM && forall k :: 0 <= k < |bytes| ==> LOWER_A <= bytes[k]
    ensures res == Packed(bytes)
  {
    res := EMPTY;
    for i := 0 to |bytes|
      invariant res == Sparse(bytes[..i], Everywhere(i))
    {
      assert bytes[..i + 1][..i] == bytes[..i];
      assert Everywhere(i + 1)[..i] == Everywhere(i);
      res := SetLetter(res, bytes[i], Pos(i));
    }
    assert bytes[..|bytes|] == bytes;
  }

  /** One unfolding of the fold, at a kept last byte. */
  lemma SparseStepKept(bytes: seq<byte>, keep: seq<bool>)
    requires Writable(bytes, keep) && 0 < |bytes| && keep[|bytes| - 1]
    ensures Sparse(bytes, keep)
      == SetLetter(Sparse(bytes[..|bytes| - 1], keep[..|bytes| - 1]), bytes[|bytes| - 1], Pos(|bytes| - 1))
  {
  }

  /** One unfolding of the fold, at a skipped last byte. */
  lemma SparseStepSkipped(bytes: seq<byte>, keep: seq<bool>)
    requires Writable(bytes, keep) && 0 < |bytes| && !keep[|bytes| - 1]
    ensures Sparse(bytes, keep) == Sparse(bytes[..|bytes| - 1], keep[..|bytes| - 1])
  {
  }

  /** Slots past the end of the written word are empty in both fields. */
  lemma {:induction false} SparseSlotFree(bytes: seq<byte>, keep: seq<bool>, j: nat)
    requires WritableLower(bytes, keep) && |bytes| <= j < FIVEGRAM
    ensures SlotAt(Sparse(bytes, keep).word, j) == 0
    ensures SlotAt(Sparse(bytes, keep).letterMask, j) == 0
  {
    SlotIndexBound(j);
    if |bytes| > 0 {
      var n := |bytes| - 1;
      SparseSlotFree(bytes[..n], keep[..n], j);
      SparseSlotEarlier(bytes, keep, j);
    }
  }

  /** A kept byte `bytes[j]` is in slot `j`, whose mask is full. */
  lemma {:induction false} SparseSlotKept(bytes: seq<byte>, keep: seq<bool>, j: nat)
    requires WritableLower(bytes, keep) && j < |bytes| && keep[j]
    ensures SlotAt(Sparse(bytes, keep).word, j) == Code(bytes[j])
    ensures SlotAt(Sparse(bytes, keep).letterMask, j) == SLOT_MASK
  {
    if j == |bytes| - 1 {
      SparseSlotLast(bytes, keep);
    } else {
      SparseSlotKept(bytes[..|bytes| - 1], keep[..|bytes| - 1], j);
      SparseSlotEarlier(bytes, keep, j);
    }
  }

  /** A skipped position `j` stays empty in both fields. */
  lemma {:induction false} SparseSlotSkipped(bytes: seq<byte>, keep: seq<bool>, j: nat)
    requires WritableLower(bytes, keep) && j < |bytes| && !keep[j]
    ensures SlotAt(Sparse(bytes, keep).word, j) == 0
    ensures SlotAt(Sparse(bytes, keep).letterMask, j) == 0
  {
    var n := |bytes| - 1;
    if j == n {
      SparseSlotFree(bytes[..n], keep[..n], j);
      SparseStepSkipped(bytes, keep);
    } else {
      SparseSlotSkipped(bytes[..n], keep[..n], j);
      SparseSlotEarlier(bytes, keep, j);
    }
  }

  /** A kept last byte lands in its empty slot. */
  lemma SparseSlotLast(bytes: seq<byte>, keep: seq<bool>)
    requires WritableLower(bytes, keep) && 0 < |bytes| && keep[|bytes| - 1]
    ensures SlotAt(Sparse(bytes, keep).word, |bytes| - 1) == Code(bytes[|bytes| - 1])
    ensures SlotAt(Sparse(bytes, keep).letterMask, |bytes| - 1) == SLOT_MASK
  {
    var n := |bytes| - 1;
    WritablePrefix(bytes, keep, n);
    SparseSlotFree(bytes[..n], keep[..n], n);
    SparseStepKept(bytes, keep);
    WriteIntoFreeSlot(Sparse(bytes[..n], keep[..n]), bytes[n], n);
  }

  /** Set-letter into an empty slot, stated at a sequence index. */
  lemma WriteIntoFreeSlot(g: Fivegram, l: byte, n: nat)
    requires IsLower(l) && n < FIVEGRAM && SlotAt(g.word, n) == 0
    ensures SlotAt(SetLetter(g, l, Pos(n)).word, n) == Code(l)
    ensures SlotAt(SetLetter(g, l, Pos(n)).letterMask, n) == SLOT_MASK
  {
    SlotIndexBound(n);
    SetLetterEmptySlot(g, l, Pos(n));
  }

  lemma WritablePrefix(bytes: seq<byte>, keep: seq<bool>, n: nat)
    requires WritableLower(bytes, keep) && n <= |bytes|
    ensures WritableLower(bytes[..n], keep[..n])
  {
  }

  /** Writing the last byte leaves every other slot as the prefix left it. */
  lemma SparseSlotEarlier(bytes: seq<byte>, keep: seq<bool>, j: nat)
    requires WritableLower(bytes, keep) && 0 < |bytes| && j < FIVEGRAM && j != |bytes| - 1
    ensures SlotAt(Sparse(bytes, keep).word, j) == SlotAt(Sparse(bytes[..|bytes| - 1], keep[..|bytes| - 1]).word, j)
    ensures SlotAt(Sparse(bytes, keep).letterMask, j)
      == SlotAt(Sparse(bytes[..|bytes| - 1], keep[..|bytes| - 1]).letterMask, j)
  {
    var n := |bytes| - 1;
    if !keep[n] {
      SparseStepSkipped(bytes, keep);
    } else {
      SparseStepKept(bytes, keep);
      SlotIndexBound(j);
      PosInjective(j, n);
      var p := Pos(n);
      var q := Pos(j);
      var g := Sparse(bytes[..n], keep[..n]);
      var h := SetLetter(g, bytes[n], p);
      assert Sparse(bytes, keep) == h;
      SetLetterOtherSlot(g, bytes[n], p, q);
      assert SlotAt(Sparse(bytes, keep).word, j) == Slot(h.word, q);
      assert SlotAt(Sparse(bytes, keep).letterMask, j) == Slot(h.letterMask, q);
    }
  }

  /** Every record written from lower-case letters is well formed. */
  lemma {:induction false} SparseWellFormed(bytes: seq<byte>, keep: seq<bool>)
    requires WritableLower(bytes, keep)
    ensures WellFormed(Sparse(bytes, keep))
  {
    if |bytes| == 0 {
      EmptyWellFormed();
    } else {
      var n := |bytes| - 1;
      SparseWellFormed(bytes[..n], keep[..n]);
      if !keep[n] {
        SparseStepSkipped(bytes, keep);
      } else {
        SparseStepKept(bytes, keep);
        SlotIndexBound(n);
        var g := Sparse(bytes[..n], keep[..n]);
        SetLetterKeepsWellFormed(g, bytes[n], Pos(n));
        assert Sparse(bytes, keep) == SetLetter(g, bytes[n], Pos(n));
      }
    }
  }

  /** The word's letters under the pattern's mask, XORed with the pattern's letters. */
  function Difference(word: bv32, pattern: Fivegram): bv32 {
    (word & pattern.letterMask) ^ pattern.word
  }

  /** `exact_match` (the word's own `letter_mask` is not used). */
  predicate ExactMatch(w: Fivegram, pattern: Fivegram) {
    Difference(w.word, pattern) == 0
  }

  /** Slot `i`, if the pattern constrains it, holds the same code in the word. */
  predicate SlotAgrees(w: Fivegram, pattern: Fivegram, i: bv32)
    requires i < 5
  {
    Slot(pattern.letterMask, i) == SLOT_MASK ==> Slot(w.word, i) == Slot(pattern.word, i)
  }

  /** Every slot the pattern constrains holds the same code in the word. */
  predicate AgreesOnConstrained(w: Fivegram, pattern: Fivegram) {
    SlotAgrees(w, pattern, 0) && SlotAgrees(w, pattern, 1) && SlotAgrees(w, pattern, 2)
    && SlotAgrees(w, pattern, 3) && SlotAgrees(w, pattern, 4)
  }

  lemma ExactMatchSlot(w: bv32, m: bv32, pw: bv32, i: bv32)
    requires (w & m) ^ pw == 0 && i < 5 && Slot(m, i) == SLOT_MASK
    ensures Slot(w, i) == Slot(pw, i)
  {
  }

  /** A slot of the difference `word & mask ^ pattern` is zero where the slot agrees or is unconstrained. */
  lemma DifferenceSlotZero(w: bv32, m: bv32, pw: bv32, i: bv32)
    requires pw & !m == 0 && i < 5
    requires Slot(m, i) == 0 || (Slot(m, i) == SLOT_MASK && Slot(w, i) == Slot(pw, i))
    ensures Slot((w & m) ^ pw, i) == 0
  {
  }

  /** A value below bit 25 whose five slots are zero is zero. */
  lemma ZeroBySlots(x: bv32)
    requires x >> 25 == 0
    requires Slot(x, 0) == 0 && Slot(x, 1) == 0 && Slot(x, 2) == 0 && Slot(x, 3) == 0 && Slot(x, 4) == 0
    ensures x == 0
  {
  }

  lemma DifferenceBelowSlots(w: bv32, m: bv32, pw: bv32)
    requires pw & !m == 0 && m >> 25 == 0
    ensures ((w & m) ^ pw) >> 25 == 0
  {
  }

  lemma ExactMatchSlotAgrees(w: Fivegram, pattern: Fivegram, i: bv32)
    requires ExactMatch(w, pattern) && i < 5
    ensures SlotAgrees(w, pattern, i)
  {
    if Slot(pattern.letterMask, i) == SLOT_MASK {
      ExactMatchSlot(w.word, pattern.letterMask, pattern.word, i);
    }
  }

  lemma ExactMatchAgrees(w: Fivegram, pattern: Fivegram)
    requires ExactMatch(w, pattern)
    ensures AgreesOnConstrained(w, pattern)
  {
    ExactMatchSlotAgrees(w, pattern, 0);
    ExactMatchSlotAgrees(w, pattern, 1);
    ExactMatchSlotAgrees(w, pattern, 2);
    ExactMatchSlotAgrees(w, pattern, 3);
    ExactMatchSlotAgrees(w, pattern, 4);
  }

  lemma DifferenceSlotZeroAt(w: Fivegram, pattern: Fivegram, i: bv32)
    requires WordWithinMask(pattern) && i < 5 && WholeSlot(pattern.letterMask, i) && SlotAgrees(w, pattern, i)
    ensures Slot(Difference(w.word, pattern), i) == 0
  {
    DifferenceSlotZero(w.word, pattern.letterMask, pattern.word, i);
  }

  lemma AgreesExactMatch(w: Fivegram, pattern: Fivegram)
    requires WellFormed(pattern) && AgreesOnConstrained(w, pattern)
    ensures ExactMatch(w, pattern)
  {
    DifferenceSlotZeroAt(w, pattern, 0);
    DifferenceSlotZeroAt(w, pattern, 1);
    DifferenceSlotZeroAt(w, pattern, 2);
    DifferenceSlotZeroAt(w, pattern, 3);
    DifferenceSlotZeroAt(w, pattern, 4);
    DifferenceBelowSlots(w.word, pattern.letterMask, pattern.word);
    ZeroBySlots(Difference(w.word, pattern));
  }

  /**
   * For a well-formed pattern, `exact_match` holds iff every slot the pattern
   * constrains holds the same letter in the word.
   */
  lemma ExactMatchMeaning(w: Fivegram, pattern: Fivegram)
    requires WellFormed(pattern)
    ensures ExactMatch(w, pattern) <==> AgreesOnConstrained(w, pattern)
  {
    if ExactMatch(w, pattern) {
      ExactMatchAgrees(w, pattern);
    }
    if AgreesOnConstrained(w, pattern) {
      AgreesExactMatch(w, pattern);
    }
  }

  /** `intersection` in `any_pos_match`: zero exactly in the slots that are constrained and agree. */
  function Intersection(word: bv32, pattern: Fivegram): bv32 {
    Difference(word, pattern) | !pattern.letterMask
  }

  /** One of the five slots of `x` is zero. */
  predicate AnyZeroSlot(x: bv32) {
    x & SLOT_MASK == 0 || (x >> 5) & SLOT_MASK == 0 || (x >> 10) & SLOT_MASK == 0
    || (x >> 15) & SLOT_MASK == 0 || (x >> 20) & SLOT_MASK == 0
  }

  /** `any_pos_match`: one of the five slots of the intersection is zero. */
  predicate AnyPosMatch(w: Fivegram, pattern: Fivegram) {
    AnyZeroSlot(Intersection(w.word, pattern))
  }

  /** Slot `i` is constrained by the pattern and holds the same code in the word. */
  predicate SlotMatches(w: Fivegram, pattern: Fivegram, i: bv32)
    requires i < 5
  {
    Slot(pattern.letterMask, i) == SLOT_MASK && Slot(w.word, i) == Slot(pattern.word, i)
  }

  predicate MatchesSomeSlot(w: Fivegram, pattern: Fivegram) {
    SlotMatches(w, pattern, 0) || SlotMatches(w, pattern, 1) || SlotMatches(w, pattern, 2)
    || SlotMatches(w, pattern, 3) || SlotMatches(w, pattern, 4)
  }

  lemma IntersectionSlotZero(w: Fivegram, pattern: Fivegram, i: bv32)
    requires i < 5 && Slot(Intersection(w.word, pattern), i) == 0
    ensures SlotMatches(w, pattern, i)
  {
  }

  lemma SlotMatchesIntersection(w: Fivegram, pattern: Fivegram, i: bv32)
    requires i < 5 && SlotMatches(w, pattern, i)
    ensures Slot(Intersection(w.word, pattern), i) == 0
  {
  }

  lemma AnyPosMatchSomeSlot(w: Fivegram, pattern: Fivegram)
    requires AnyPosMatch(w, pattern)
    ensures MatchesSomeSlot(w, pattern)
  {
    var x := Intersection(w.word, pattern);
    if Slot(x, 0) == 0 {
      IntersectionSlotZero(w, pattern, 0);
    } else if Slot(x, 1) == 0 {
      IntersectionSlotZero(w, pattern, 1);
    } else if Slot(x, 2) == 0 {
      IntersectionSlotZero(w, pattern, 2);
    } else if Slot(x, 3) == 0 {
      IntersectionSlotZero(w, pattern, 3);
    } else {
      IntersectionSlotZero(w, pattern, 4);
    }
  }

  lemma SomeSlotAnyPosMatch(w: Fivegram, pattern: Fivegram)
    requires MatchesSomeSlot(w, pattern)
    ensures AnyPosMatch(w, pattern)
  {
    if SlotMatches(w, pattern, 0) {
      SlotMatchesIntersection(w, pattern, 0);
    } else if SlotMatches(w, pattern, 1) {
      SlotMatchesIntersection(w, pattern, 1);
    } else if SlotMatches(w, pattern, 2) {
      SlotMatchesIntersection(w, pattern, 2);
    } else if SlotMatches(w, pattern, 3) {
      SlotMatchesIntersection(w, pattern, 3);
    } else {
      SlotMatchesIntersection(w, pattern, 4);
    }
  }

  /**
   * `any_pos_match` holds iff some slot the pattern constrains holds the same
   * letter in the word; no well-formedness is needed, as a partly masked slot
   * keeps a one bit of `!letter_mask`.
   */
  lemma AnyPosMatchMeaning(w: Fivegram, pattern: Fivegram)
    ensures AnyPosMatch(w, pattern) <==> MatchesSomeSlot(w, pattern)
  {
    if AnyPosMatch(w, pattern) {
      AnyPosMatchSomeSlot(w, pattern);
    }
    if MatchesSomeSlot(w, pattern) {
      SomeSlotAnyPosMatch(w, pattern);
    }
  }

  /** Every word matches the empty pattern exactly. */
  lemma ExactMatchEmpty(w: Fivegram)
    ensures ExactMatch(w, EMPTY)
  {
  }

  /** No word matches the empty pattern at any position. */
  lemma AnyPosMatchEmpty(w: Fivegram)
    ensures !AnyPosMatch(w, EMPTY)
  {
  }

  // The letters of a five-letter word against a pattern written letter by letter,
  // the form the property tests compare with.

  /** A five-letter lower-case word. */
  predicate IsWord(s: seq<byte>) {
    |s| == FIVEGRAM && AllLower(s)
  }

  /** Position `j` of the pattern, if written, holds the word's letter. */
  predicate AgreesAt(s: seq<byte>, bytes: seq<byte>, keep: seq<bool>, j: nat)
    requires |keep| == |bytes|
  {
    j < |bytes| && keep[j] ==> j < |s| && s[j] == bytes[j]
  }

  /** Position `j` of the pattern is written and holds the word's letter. */
  predicate HitsAt(s: seq<byte>, bytes: seq<byte>, keep: seq<bool>, j: nat)
    requires |keep| == |bytes|
  {
    j < |bytes| && keep[j] && j < |s| && s[j] == bytes[j]
  }

  lemma WordSlot(s: seq<byte>, j: nat)
    requires IsWord(s) && j < FIVEGRAM
    ensures SlotAt(Packed(s).word, j) == Code(s[j])
  {
    SparseSlotKept(s, Everywhere(|s|), j);
  }

  lemma SlotAgreesKept(s: seq<byte>, bytes: seq<byte>, keep: seq<bool>, j: nat)
    requires IsWord(s) && WritableLower(bytes, keep) && j < |bytes| && keep[j]
    ensures SlotAgrees(Packed(s), Sparse(bytes, keep), Pos(j)) == (s[j] == bytes[j])
  {
    WordSlot(s, j);
    SparseSlotKept(bytes, keep, j);
    if Code(s[j]) == Code(bytes[j]) {
      CodeInjective(s[j], bytes[j]);
    }
  }

  lemma SlotAgreesAt(s: seq<byte>, bytes: seq<byte>, keep: seq<bool>, j: nat)
    requires IsWord(s) && WritableLower(bytes, keep) && j < FIVEGRAM
    ensures SlotAgrees(Packed(s), Sparse(bytes, keep), Pos(j)) == AgreesAt(s, bytes, keep, j)
  {
    if j < |bytes| && keep[j] {
      SlotAgreesKept(s, bytes, keep, j);
    } else if j < |bytes| {
      SparseSlotSkipped(bytes, keep, j);
    } else {
      SparseSlotFree(bytes, keep, j);
    }
  }

  lemma SlotMatchesKept(s: seq<byte>, bytes: seq<byte>, keep: seq<bool>, j: nat)
    requires IsWord(s) && WritableLower(bytes, keep) && j < |bytes| && keep[j]
    ensures SlotMatches(Packed(s), Sparse(bytes, keep), Pos(j)) == (s[j] == bytes[j])
  {
    WordSlot(s, j);
    SparseSlotKept(bytes, keep, j);
    if Code(s[j]) == Code(bytes[j]) {
      CodeInjective(s[j], bytes[j]);
    }
  }

  lemma SlotMatchesAt(s: seq<byte>, bytes: seq<byte>, keep: seq<bool>, j: nat)
    requires IsWord(s) && WritableLower(bytes, keep) && j < FIVEGRAM
    ensures SlotMatches(Packed(s), Sparse(bytes, keep), Pos(j)) == HitsAt(s, bytes, keep, j)
  {
    if j < |bytes| && keep[j] {
      SlotMatchesKept(s, bytes, keep, j);
    } else if j < |bytes| {
      SparseSlotSkipped(bytes, keep, j);
    } else {
      SparseSlotFree(bytes, keep, j);
    }
  }

  /** Every written position of the pattern holds the word's letter. */
  predicate Agrees(s: seq<byte>, bytes: seq<byte>, keep: seq<bool>)
    requires |keep| == |bytes|
  {
    forall j :: 0 <= j < |bytes| && keep[j] ==> j < |s| && s[j] == bytes[j]
  }

  /** Some written position of the pattern holds the word's letter. */
  predicate Hits(s: seq<byte>, bytes: seq<byte>, keep: seq<bool>)
    requires |keep| == |bytes|
  {
    exists j :: 0 <= j < |bytes| && keep[j] && j < |s| && s[j] == bytes[j]
  }

  lemma AgreesBySlots(s: seq<byte>, bytes: seq<byte>, keep: seq<bool>)
    requires IsWord(s) && WritableLower(bytes, keep)
    ensures AgreesOnConstrained(Packed(s), Sparse(bytes, keep))
      == (AgreesAt(s, bytes, keep, 0) && AgreesAt(s, bytes, keep, 1) && AgreesAt(s, bytes, keep, 2)
          && AgreesAt(s, bytes, keep, 3) && AgreesAt(s, bytes, keep, 4))
  {
    SlotAgreesAt(s, bytes, keep, 0);
    SlotAgreesAt(s, bytes, keep, 1);
    SlotAgreesAt(s, bytes, keep, 2);
    SlotAgreesAt(s, bytes, keep, 3);
    SlotAgreesAt(s, bytes, keep, 4);
  }

  lemma AgreesByPositions(s: seq<byte>, bytes: seq<byte>, keep: seq<bool>)
    requires IsWord(s) && WritableLower(bytes, keep)
    ensures Agrees(s, bytes, keep)
      == (AgreesAt(s, bytes, keep, 0) && AgreesAt(s, bytes, keep, 1) && AgreesAt(s, bytes, keep, 2)
          && AgreesAt(s, bytes, keep, 3) && AgreesAt(s, bytes, keep, 4))
  {
    if AgreesAt(s, bytes, keep, 0) && AgreesAt(s, bytes, keep, 1) && AgreesAt(s, bytes, keep, 2)
      && AgreesAt(s, bytes, keep, 3) && AgreesAt(s, bytes, keep, 4)
    {
      forall j | 0 <= j < |bytes| && keep[j]
        ensures j < |s| && s[j] == bytes[j]
      {
        assert AgreesAt(s, bytes, keep, j);
      }
    }
  }

  /**
   * Against a five-letter word, `exact_match` of a pattern written letter by
   * letter holds iff every written letter is the word's letter at that position
   * (the oracle of the `exact_match` property test, `l == r || r == '_'`).
   */
  lemma ExactMatchOracle(s: seq<byte>, bytes: seq<byte>, keep: seq<bool>)
    requires IsWord(s) && WritableLower(bytes, keep)
    ensures ExactMatch(Packed(s), Sparse(bytes, keep)) <==> Agrees(s, bytes, keep)
  {
    SparseWellFormed(bytes, keep);
    ExactMatchMeaning(Packed(s), Sparse(bytes, keep));
    AgreesBySlots(s, bytes, keep);
    AgreesByPositions(s, bytes, keep);
  }

  lemma HitsBySlots(s: seq<byte>, bytes: seq<byte>, keep: seq<bool>)
    requires IsWord(s) && WritableLower(bytes, keep)
    ensures MatchesSomeSlot(Packed(s), Sparse(bytes, keep))
      == (HitsAt(s, bytes, keep, 0) || HitsAt(s, bytes, keep, 1) || HitsAt(s, bytes, keep, 2)
          || HitsAt(s, bytes, keep, 3) || HitsAt(s, bytes, keep, 4))
  {
    SlotMatchesAt(s, bytes, keep, 0);
    SlotMatchesAt(s, bytes, keep, 1);
    SlotMatchesAt(s, bytes, keep, 2);
    SlotMatchesAt(s, bytes, keep, 3);
    SlotMatchesAt(s, bytes, keep, 4);
  }

  lemma HitsByPositions(s: seq<byte>, bytes: seq<byte>, keep: seq<bool>)
    requires IsWord(s) && WritableLower(bytes, keep)
    ensures Hits(s, bytes, keep)
      == (HitsAt(s, bytes, keep, 0) || HitsAt(s, bytes, keep, 1) || HitsAt(s, bytes, keep, 2)
          || HitsAt(s, bytes, keep, 3) || HitsAt(s, bytes, keep, 4))
  {
    if Hits(s, bytes, keep) {
      var j :| 0 <= j < |bytes| && keep[j] && j < |s| && s[j] == bytes[j];
      assert HitsAt(s, bytes, keep, j);
    }
  }

  /**
   * Against a five-letter word, `any_pos_match` of a pattern written letter by
   * letter holds iff some written letter is the word's letter at that position
   * (the oracle of the `any_pos_match` property test, `l == r && r != '_'`).
   */
  lemma AnyPosMatchOracle(s: seq<byte>, bytes: seq<byte>, keep: seq<bool>)
    requires IsWord(s) && WritableLower(bytes, keep)
    ensures AnyPosMatch(Packed(s), Sparse(bytes, keep)) <==> Hits(s, bytes, keep)
  {
    AnyPosMatchMeaning(Packed(s), Sparse(bytes, keep));
    HitsBySlots(s, bytes, keep);
    HitsByPositions(s, bytes, keep);
  }

  /** A prefix of a word, as a pattern, matches the word exactly (`test_matches_prefix`, `test_matches_full`). */
  lemma PrefixExactMatch(s: seq<byte>, k: nat)
    requires IsWord(s) && k <= FIVEGRAM
    ensures ExactMatch(Packed(s), Packed(s[..k]))
  {
    ExactMatchOracle(s, s[..k], Everywhere(k));
  }

  /** A pattern whose first letter differs from the word's does not match it (`test_doesnt_match_wrong_letters`). */
  lemma WrongLetterNoMatch(s: seq<byte>, bytes: seq<byte>)
    requires IsWord(s) && 0 < |bytes| <= FIVEGRAM && AllLower(bytes) && bytes[0] != s[0]
    ensures !ExactMatch(Packed(s), Packed(bytes))
  {
    ExactMatchOracle(s, bytes, Everywhere(|bytes|));
  }

  /** Two values below bit 25 with the same five slots are equal. */
  lemma SlotsDetermine(x: bv32, y: bv32)
    requires x >> 25 == 0 && y >> 25 == 0
    requires Slot(x, 0) == Slot(y, 0) && Slot(x, 1) == Slot(y, 1) && Slot(x, 2) == Slot(y, 2)
    requires Slot(x, 3) == Slot(y, 3) && Slot(x, 4) == Slot(y, 4)
    ensures x == y
  {
  }

  lemma WithinBelowSlots(f: Fivegram)
    requires WellFormed(f)
    ensures f.word >> 25 == 0
  {
  }

  /** A word built from five letters has all five slots constrained: `letter_mask` is the low 25 bits. */
  lemma WordFullMask(s: seq<byte>)
    requires IsWord(s)
    ensures Packed(s).letterMask == ALL_SLOTS
  {
    var m := Packed(s).letterMask;
    SparseWellFormed(s, Everywhere(|s|));
    SparseSlotKept(s, Everywhere(|s|), 0);
    SparseSlotKept(s, Everywhere(|s|), 1);
    SparseSlotKept(s, Everywhere(|s|), 2);
    SparseSlotKept(s, Everywhere(|s|), 3);
    SparseSlotKept(s, Everywhere(|s|), 4);
    SlotsDetermine(m, ALL_SLOTS);
  }

  /** `test_from_bytes`: the packed word of "abcde" is `0b00101_00100_00011_00010_00001`. */
  lemma AbcdeWord()
    ensures Packed([97, 98, 99, 100, 101]).word == 0x520C41
  {
    var s: seq<byte> := [97, 98, 99, 100, 101];
    assert IsWord(s);
    var x := Packed(s).word;
    SparseWellFormed(s, Everywhere(|s|));
    WithinBelowSlots(Packed(s));
    WordSlot(s, 0);
    WordSlot(s, 1);
    WordSlot(s, 2);
    WordSlot(s, 3);
    WordSlot(s, 4);
    SlotsDetermine(x, 0x520C41);
  }

  // Decoding (`Display::fmt`): an unconstrained slot prints '_', a constrained
  // one the letter `b - 1 + b'a'` of its code `b`, which panics on code 0.

  /** Slot `j` can be printed: if it is constrained its code is not 0. */
  predicate PrintableSlot(f: Fivegram, j: nat)
    requires j < FIVEGRAM
  {
    SlotAt(f.letterMask, j) != 0 ==> SlotAt(f.word, j) != 0
  }

  predicate Printable(f: Fivegram) {
    forall j :: 0 <= j < FIVEGRAM ==> PrintableSlot(f, j)
  }

  /** The character printed for slot `j`. */
  function DecodeSlot(f: Fivegram, j: nat): char
    requires j < FIVEGRAM && PrintableSlot(f, j)
  {
    if SlotAt(f.letterMask, j) == 0 then '_'
    else ToChar((SlotAt(f.word, j) as byte) - 1 + LOWER_A)
  }

  /** The string `Display::fmt` writes. */
  function Decode(f: Fivegram): (r: string)
    requires Printable(f)
    ensures |r| == FIVEGRAM && forall j :: 0 <= j < FIVEGRAM ==> r[j] == DecodeSlot(f, j)
  {
    seq(FIVEGRAM, j requires 0 <= j < FIVEGRAM => DecodeSlot(f, j))
  }

  /** A letter's code decodes back to the letter. */
  lemma DecodeCode(l: byte)
    requires IsLower(l)
    ensures ((Code(l) as byte) - 1 + LOWER_A) == l
  {
  }

  lemma SparsePrintableSlot(bytes: seq<byte>, keep: seq<bool>, j: nat)
    requires WritableLower(bytes, keep) && j < FIVEGRAM
    ensures PrintableSlot(Sparse(bytes, keep), j)
  {
    if j < |bytes| && keep[j] {
      SparseSlotKept(bytes, keep, j);
      CodeOfLower(bytes[j]);
    } else if j < |bytes| {
      SparseSlotSkipped(bytes, keep, j);
    } else {
      SparseSlotFree(bytes, keep, j);
    }
  }

  lemma SparsePrintable(bytes: seq<byte>, keep: seq<bool>)
    requires WritableLower(bytes, keep)
    ensures Printable(Sparse(bytes, keep))
  {
    forall j | 0 <= j < FIVEGRAM
      ensures PrintableSlot(Sparse(bytes, keep), j)
    {
      SparsePrintableSlot(bytes, keep, j);
    }
  }

  /** A written position prints its letter. */
  lemma DecodeKept(bytes: seq<byte>, keep: seq<bool>, j: nat)
    requires WritableLower(bytes, keep) && j < |bytes| && keep[j]
    ensures Printable(Sparse(bytes, keep)) && Decode(Sparse(bytes, keep))[j] == ToChar(bytes[j])
  {
    SparsePrintable(bytes, keep);
    SparseSlotKept(bytes, keep, j);
    DecodeCode(bytes[j]);
  }

  /** An unwritten position prints '_'. */
  lemma DecodeHole(bytes: seq<byte>, keep: seq<bool>, j: nat)
    requires WritableLower(bytes, keep) && j < FIVEGRAM && !(j < |bytes| && keep[j])
    ensures Printable(Sparse(bytes, keep)) && Decode(Sparse(bytes, keep))[j] == '_'
  {
    SparsePrintable(bytes, keep);
    if j < |bytes| {
      SparseSlotSkipped(bytes, keep, j);
    } else {
      SparseSlotFree(bytes, keep, j);
    }
  }

  /** Printing the record of a five-letter word gives back the word. */
  lemma DecodeWord(s: seq<byte>)
    requires IsWord(s)
    ensures Printable(Packed(s)) && Decode(Packed(s)) == seq(FIVEGRAM, k requires 0 <= k < FIVEGRAM => ToChar(s[k]))
  {
    SparsePrintable(s, Everywhere(|s|));
    forall k | 0 <= k < FIVEGRAM
      ensures Decode(Packed(s))[k] == ToChar(s[k])
    {
      DecodeKept(s, Everywhere(|s|), k);
    }
  }

  // The patterns of the property tests: five characters of `[a-z_]`, where
  // '_' leaves the position unwritten (the test helper `fivegram_from_pattern`).

  /** The byte `b'_'`. */
  const UNDERSCORE: byte := 95

  predicate IsTemplate(t: seq<byte>) {
    |t| == FIVEGRAM && forall k :: 0 <= k < |t| ==> IsLower(t[k]) || t[k] == UNDERSCORE
  }

  /** The written positions of a template. */
  function Written(t: seq<byte>): (keep: seq<bool>)
    ensures |keep| == |t| && forall k :: 0 <= k < |t| ==> keep[k] == (t[k] != UNDERSCORE)
  {
    seq(|t|, k requires 0 <= k < |t| => t[k] != UNDERSCORE)
  }

  /** `fivegram_from_pattern`: `set_letter` at every position that is not '_'. */
  function FromTemplate(t: seq<byte>): Fivegram
    requires IsTemplate(t)
  {
    Sparse(t, Written(t))
  }

  /** The `exact_match` property test: a match iff every position agrees or is '_'. */
  lemma TemplateExactMatch(s: seq<byte>, t: seq<byte>)
    requires IsWord(s) && IsTemplate(t)
    ensures ExactMatch(Packed(s), FromTemplate(t))
      <==> forall k :: 0 <= k < FIVEGRAM ==> s[k] == t[k] || t[k] == UNDERSCORE
  {
    ExactMatchOracle(s, t, Written(t));
  }

  /** The `any_pos_match` property test: a match iff some position agrees and is not '_'. */
  lemma TemplateAnyPosMatch(s: seq<byte>, t: seq<byte>)
    requires IsWord(s) && IsTemplate(t)
    ensures AnyPosMatch(Packed(s), FromTemplate(t))
      <==> exists k :: 0 <= k < FIVEGRAM && s[k] == t[k] && t[k] != UNDERSCORE
  {
    AnyPosMatchOracle(s, t, Written(t));
  }

  // The four-lane forms: one candidate word against four patterns given as
  // lanes of words and masks. Only the candidate's `word` is passed; every word
  // built by `Word::from_str` has the full mask (`WordFullMask`), so lane `k`'s
  // candidate is `Candidate(word[k])`.

  /** A candidate word as `Word::from_str` builds it: all five slots constrained. */
  function Candidate(word: bv32): Fivegram {
    Fivegram(word, ALL_SLOTS)
  }

  /** Lane `k` of a pattern given as lanes of words and masks. */
  function PatternLane(pattern: Simd, letterMask: Simd, k: nat): Fivegram
    requires k < SIMD_WIDTH
  {
    Fivegram(pattern[k], letterMask[k])
  }

  /** `exact_match_simd`: `word & letter_mask ^ pattern`; a lane is zero exactly when scalar `exact_match` holds there. */
  function ExactMatchSimd(word: Simd, letterMask: Simd, pattern: Simd): (r: Simd)
    ensures forall k :: 0 <= k < SIMD_WIDTH ==>
      (r[k] == 0 <==> ExactMatch(Candidate(word[k]), PatternLane(pattern, letterMask, k)))
  {
    Xor(And(word, letterMask), pattern)
  }

  /** Whether one of the first `t` slots of `x` is zero. */
  function SomeSlotZero(x: bv32, t: nat): bool
    requires t <= FIVEGRAM
  {
    t > 0 && (SomeSlotZero(x, t - 1) || SlotAt(x, t - 1) == 0)
  }

  lemma SomeSlotZeroIsAnyZeroSlot(x: bv32)
    ensures SomeSlotZero(x, FIVEGRAM) == AnyZeroSlot(x)
  {
    assert SomeSlotZero(x, 1) == (SlotAt(x, 0) == 0);
    assert SomeSlotZero(x, 2) == (SomeSlotZero(x, 1) || SlotAt(x, 1) == 0);
    assert SomeSlotZero(x, 3) == (SomeSlotZero(x, 2) || SlotAt(x, 2) == 0);
    assert SomeSlotZero(x, 4) == (SomeSlotZero(x, 3) || SlotAt(x, 3) == 0);
  }

  /** One step of the accumulation in `any_pos_match_simd`. */
  lemma AccumulateSlot(acc: Mask, intersection: Simd, t: nat)
    requires t < FIVEGRAM && forall k :: 0 <= k < SIMD_WIDTH ==> acc[k] == SomeSlotZero(intersection[k], t)
    ensures forall lane :: 0 <= lane < SIMD_WIDTH ==> SHIFTS[t][lane] < 32
    ensures var next := MaskOr(acc, LanesEq(And(Shr(intersection, SHIFTS[t]), Splat(SLOT_MASK)), Splat(0)));
      forall k :: 0 <= k < SIMD_WIDTH ==> next[k] == SomeSlotZero(intersection[k], t + 1)
  {
    ShiftLanes(intersection, t);
  }

  lemma ShiftLanes(x: Simd, t: nat)
    requires t < FIVEGRAM
    ensures forall lane :: 0 <= lane < SIMD_WIDTH ==> SHIFTS[t][lane] < 32
    ensures forall lane :: 0 <= lane < SIMD_WIDTH ==> And(Shr(x, SHIFTS[t]), Splat(SLOT_MASK))[lane] == SlotAt(x[lane], t)
  {
    ShiftIsSlot(x, t, 0);
    forall lane | 0 <= lane < SIMD_WIDTH
      ensures And(Shr(x, SHIFTS[t]), Splat(SLOT_MASK))[lane] == SlotAt(x[lane], t)
    {
      ShiftIsSlot(x, t, lane);
    }
  }

  /** The five shift vectors `any_pos_match_simd` iterates over. */
  const SHIFTS: seq<Simd> := [Splat(0), Splat(5), Splat(10), Splat(15), Splat(20)]

  lemma ShiftIsSlot(x: Simd, t: nat, k: nat)
    requires t < FIVEGRAM && k < SIMD_WIDTH
    ensures forall lane :: 0 <= lane < SIMD_WIDTH ==> SHIFTS[t][lane] < 32
    ensures And(Shr(x, SHIFTS[t]), Splat(SLOT_MASK))[k] == SlotAt(x[k], t)
  {
    assert t == 0 || t == 1 || t == 2 || t == 3 || t == 4;
  }

  /**
   * `any_pos_match_simd`: builds the intersection lane by lane and ORs into
   * `acc` whether each of the five slots is zero; lane `k` of the result is
   * scalar `any_pos_match` of the candidate against pattern `k`.
   */
  method AnyPosMatchSimd(word: Simd, letterMask: Simd, pattern: Simd) returns (acc: Mask)
    ensures forall k :: 0 <= k < SIMD_WIDTH ==>
      acc[k] == AnyPosMatch(Candidate(word[k]), PatternLane(pattern, letterMask, k))
  {
    var intersection := Or(Xor(And(word, letterMask), pattern), Not(letterMask));
    acc := [false, false, false, false];
    var zeros := Splat(0);
    var firstFiveMask := Splat(SLOT_MASK);
    for t := 0 to |SHIFTS|
      invariant forall k :: 0 <= k < SIMD_WIDTH ==> acc[k] == SomeSlotZero(intersection[k], t)
    {
      AccumulateSlot(acc, intersection, t);
      acc := MaskOr(acc, LanesEq(And(Shr(intersection, SHIFTS[t]), firstFiveMask), zeros));
    }
    forall k | 0 <= k < SIMD_WIDTH
      ensures acc[k] == AnyPosMatch(Candidate(word[k]), PatternLane(pattern, letterMask, k))
    {
      assert intersection[k] == Intersection(word[k], PatternLane(pattern, letterMask, k));
      SomeSlotZeroIsAnyZeroSlot(intersection[k]);
    }
  }

  /** The record of a five-letter word is the candidate of its `word`. */
  lemma CandidateOfWord(s: seq<byte>)
    requires IsWord(s)
    ensures Candidate(Packed(s).word) == Packed(s)
  {
    WordFullMask(s);
  }

  predicate AllTemplates(ts: seq<seq<byte>>) {
    |ts| == SIMD_WIDTH && forall k :: 0 <= k < SIMD_WIDTH ==> IsTemplate(ts[k])
  }

  /** `Simd::from_array(pattern.map(|fg| fg.word))` for four templates. */
  function TemplateWords(ts: seq<seq<byte>>): (r: Simd)
    requires AllTemplates(ts)
    ensures forall k :: 0 <= k < SIMD_WIDTH ==> r[k] == FromTemplate(ts[k]).word
  {
    seq(SIMD_WIDTH, k requires 0 <= k < SIMD_WIDTH => FromTemplate(ts[k]).word)
  }

  /** `Simd::from_array(pattern.map(|fg| fg.letter_mask))` for four templates. */
  function TemplateMasks(ts: seq<seq<byte>>): (r: Simd)
    requires AllTemplates(ts)
    ensures forall k :: 0 <= k < SIMD_WIDTH ==> r[k] == FromTemplate(ts[k]).letterMask
  {
    seq(SIMD_WIDTH, k requires 0 <= k < SIMD_WIDTH => FromTemplate(ts[k]).letterMask)
  }

  /** The `exact_match_simd` property test: lane `k` is zero iff template `k` agrees with the word. */
  lemma ExactMatchSimdOracle(s: seq<byte>, ts: seq<seq<byte>>, k: nat)
    requires IsWord(s) && AllTemplates(ts) && k < SIMD_WIDTH
    ensures ExactMatchSimd(Splat(Packed(s).word), TemplateMasks(ts), TemplateWords(ts))[k] == 0
      <==> forall i :: 0 <= i < FIVEGRAM ==> s[i] == ts[k][i] || ts[k][i] == UNDERSCORE
  {
    CandidateOfWord(s);
    assert PatternLane(TemplateWords(ts), TemplateMasks(ts), k) == FromTemplate(ts[k]);
    TemplateExactMatch(s, ts[k]);
  }

  /** The `any_pos_match_simd` property test, lane `k`: the lane's value is true iff template `k` hits the word. */
  lemma AnyPosMatchSimdOracle(s: seq<byte>, ts: seq<seq<byte>>, k: nat)
    requires IsWord(s) && AllTemplates(ts) && k < SIMD_WIDTH
    ensures AnyPosMatch(Candidate(Splat(Packed(s).word)[k]), PatternLane(TemplateWords(ts), TemplateMasks(ts), k))
      <==> exists i :: 0 <= i < FIVEGRAM && s[i] == ts[k][i] && ts[k][i] != UNDERSCORE
  {
    CandidateOfWord(s);
    assert PatternLane(TemplateWords(ts), TemplateMasks(ts), k) == FromTemplate(ts[k]);
    TemplateAnyPosMatch(s, ts[k]);
  }
}
