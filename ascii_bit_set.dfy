/** The 26-letter presence mask `AsciiBitSet` (src/ascii_bit_set.rs). */
module BitSet {
  import opened Bytes
  import opened Lanes

  /** Bit `b - 'a'` of `bits` says that letter `b` is present (Rust's field `set`). */
  datatype AsciiBitSet = AsciiBitSet(bits: bv32)

  /** `AsciiBitSet::default()`. */
  const EMPTY: AsciiBitSet := AsciiBitSet(0)

  /** Bits 26 to 31, which no lower-case letter reaches. */
  const HIGH_BITS: bv32 := 0xFC00_0000

  /**
   * The bytes for which `1 << (b - b'a')` is defined in a debug build:
   * the subtraction must not underflow and the shift must stay below 32.
   */
  predicate InRange(b: byte) {
    LOWER_A <= b && b - LOWER_A < 32
  }

  predicate AllInRange(s: seq<byte>) {
    forall k :: 0 <= k < |s| ==> InRange(s[k])
  }

  lemma LowerInRange(s: seq<byte>)
    requires AllLower(s)
    ensures AllInRange(s)
  {
  }

  /** `1 << (b - b'a')`. */
  function Bit(b: byte): bv32
    requires InRange(b)
  {
    (1 as bv32) << ((b - LOWER_A) as bv32)
  }

  /** Letter `b` is in the set. */
  predicate Contains(s: AsciiBitSet, b: byte)
    requires InRange(b)
  {
    s.bits & Bit(b) != 0
  }

  /** The one-bit masks of two bytes overlap exactly when the bytes are equal. */
  lemma BitsMeet(a: byte, b: byte)
    requires InRange(a) && InRange(b)
    ensures (Bit(a) & Bit(b) != 0) <==> a == b
  {
    assert Bit(a) & Bit(b) != 0 ==> a == b;
  }

  /** `set_letter`: ORs `1 << (l - b'a')` into the set. */
  function SetLetter(s: AsciiBitSet, l: byte): AsciiBitSet
    requires InRange(l)
  {
    AsciiBitSet(s.bits | Bit(l))
  }

  lemma SetLetterAddsOnlyIf(s: AsciiBitSet, l: byte, c: byte)
    requires InRange(l) && InRange(c)
    ensures Contains(SetLetter(s, l), c) ==> Contains(s, c) || c == l
  {
  }

  lemma SetLetterAddsIf(s: AsciiBitSet, l: byte, c: byte)
    requires InRange(l) && InRange(c)
    ensures Contains(s, c) || c == l ==> Contains(SetLetter(s, l), c)
  {
  }

  /**
   * `set_letter` adds letter `l` and leaves every other letter as it was. Since
   * `InRange` reaches all 32 bit positions, this says that every bit other than
   * bit `l - 'a'` is unchanged.
   */
  lemma SetLetterAdds(s: AsciiBitSet, l: byte, c: byte)
    requires InRange(l) && InRange(c)
    ensures Contains(SetLetter(s, l), c) <==> Contains(s, c) || c == l
  {
    SetLetterAddsOnlyIf(s, l, c);
    SetLetterAddsIf(s, l, c);
  }

  /** The set that `from_bytes` builds: the bytes ORed in one after the other. */
  function Letters(bytes: seq<byte>): AsciiBitSet
    requires AllInRange(bytes)
  {
    if bytes == [] then EMPTY else SetLetter(Letters(bytes[..|bytes| - 1]), bytes[|bytes| - 1])
  }

  /** A letter is in `Letters(bytes)` exactly when it occurs in `bytes`. */
  lemma {:induction false} LettersContains(bytes: seq<byte>, c: byte)
    requires AllInRange(bytes) && InRange(c)
    ensures Contains(Letters(bytes), c) <==> c in bytes
  {
    if bytes == [] {
      assert EMPTY.bits & Bit(c) == 0;
    } else {
      var init := bytes[..|bytes| - 1];
      assert bytes == init + [bytes[|bytes| - 1]];
      LettersContains(init, c);
      SetLetterAdds(Letters(init), bytes[|bytes| - 1], c);
    }
  }

  lemma LettersHas(bytes: seq<byte>, c: byte)
    requires AllInRange(bytes) && InRange(c) && c in bytes
    ensures Contains(Letters(bytes), c)
  {
    LettersContains(bytes, c);
  }

  /** `AsciiBitSet::from_bytes`: the loop that ORs `1 << (b - b'a')` into a local set. */
  method FromBytes(bytes: seq<byte>) returns (set_: AsciiBitSet)
    requires AllInRange(bytes)
    ensures set_ == Letters(bytes)
  {
    set_ := EMPTY;
    for k := 0 to |bytes|
      invariant set_ == Letters(bytes[..k])
    {
      LettersStep(bytes, k);
      set_ := SetLetter(set_, bytes[k]);
    }
    assert bytes[..|bytes|] == bytes;
  }

  lemma {:induction false} LettersBelowHighBits(bytes: seq<byte>)
    requires AllLower(bytes)
    ensures AllInRange(bytes) && Letters(bytes).bits & HIGH_BITS == 0
  {
    if bytes != [] {
      var init := bytes[..|bytes| - 1];
      LettersBelowHighBits(init);
      SetLetterBelowHighBits(Letters(init), bytes[|bytes| - 1]);
    }
  }

  lemma SetLetterBelowHighBits(s: AsciiBitSet, l: byte)
    requires IsLower(l)
    ensures InRange(l) && (s.bits & HIGH_BITS == 0 ==> SetLetter(s, l).bits & HIGH_BITS == 0)
  {
  }

  /** `is_superset`: `self.set & set.set ^ set.set == 0`. */
  predicate IsSuperset(a: AsciiBitSet, b: AsciiBitSet) {
    (a.bits & b.bits) ^ b.bits == 0
  }

  /** `is_disjoint`: `self.set & set.set == 0`. */
  predicate IsDisjoint(a: AsciiBitSet, b: AsciiBitSet) {
    a.bits & b.bits == 0
  }

  lemma SupersetOfSetLetterOnlyIf(a: AsciiBitSet, s: AsciiBitSet, l: byte)
    requires InRange(l)
    ensures IsSuperset(a, SetLetter(s, l)) ==> IsSuperset(a, s) && Contains(a, l)
  {
  }

  lemma SupersetOfSetLetterIf(a: AsciiBitSet, s: AsciiBitSet, l: byte)
    requires InRange(l)
    ensures IsSuperset(a, s) && Contains(a, l) ==> IsSuperset(a, SetLetter(s, l))
  {
  }

  /** Adding a letter to `s` keeps `a` a superset exactly when `a` has that letter. */
  lemma SupersetOfSetLetter(a: AsciiBitSet, s: AsciiBitSet, l: byte)
    requires InRange(l)
    ensures IsSuperset(a, SetLetter(s, l)) <==> IsSuperset(a, s) && Contains(a, l)
  {
    SupersetOfSetLetterOnlyIf(a, s, l);
    SupersetOfSetLetterIf(a, s, l);
  }

  lemma DisjointFromSetLetterOnlyIf(a: AsciiBitSet, s: AsciiBitSet, l: byte)
    requires InRange(l)
    ensures IsDisjoint(a, SetLetter(s, l)) ==> IsDisjoint(a, s) && !Contains(a, l)
  {
  }

  lemma DisjointFromSetLetterIf(a: AsciiBitSet, s: AsciiBitSet, l: byte)
    requires InRange(l)
    ensures IsDisjoint(a, s) && !Contains(a, l) ==> IsDisjoint(a, SetLetter(s, l))
  {
  }

  /** Adding a letter to `s` keeps `a` disjoint from it exactly when `a` lacks that letter. */
  lemma DisjointFromSetLetter(a: AsciiBitSet, s: AsciiBitSet, l: byte)
    requires InRange(l)
    ensures IsDisjoint(a, SetLetter(s, l)) <==> IsDisjoint(a, s) && !Contains(a, l)
  {
    DisjointFromSetLetterOnlyIf(a, s, l);
    DisjointFromSetLetterIf(a, s, l);
  }

  /** `a` is a superset of the letters of `bytes` iff it contains each of them. */
  lemma {:induction false} SupersetOfLetters(a: AsciiBitSet, bytes: seq<byte>)
    requires AllInRange(bytes)
    ensures IsSuperset(a, Letters(bytes)) <==> forall k :: 0 <= k < |bytes| ==> Contains(a, bytes[k])
  {
    if bytes != [] {
      var init := bytes[..|bytes| - 1];
      SupersetOfLetters(a, init);
      SupersetOfSetLetter(a, Letters(init), bytes[|bytes| - 1]);
      assert forall k :: 0 <= k < |init| ==> init[k] == bytes[k];
    }
  }

  /** `a` is disjoint from the letters of `bytes` iff it contains none of them. */
  lemma {:induction false} DisjointFromLetters(a: AsciiBitSet, bytes: seq<byte>)
    requires AllInRange(bytes)
    ensures IsDisjoint(a, Letters(bytes)) <==> forall k :: 0 <= k < |bytes| ==> !Contains(a, bytes[k])
  {
    if bytes != [] {
      var init := bytes[..|bytes| - 1];
      DisjointFromLetters(a, init);
      DisjointFromSetLetter(a, Letters(init), bytes[|bytes| - 1]);
      assert forall k :: 0 <= k < |init| ==> init[k] == bytes[k];
    }
  }

  /** `is_superset` on two built sets is inclusion of their letters (the `HashSet::is_superset` oracle). */
  lemma SupersetIsInclusion(left: seq<byte>, right: seq<byte>)
    requires AllInRange(left) && AllInRange(right)
    ensures IsSuperset(Letters(left), Letters(right)) <==> (forall c :: c in right ==> c in left)
  {
    SupersetOfLetters(Letters(left), right);
    forall k | 0 <= k < |right|
      ensures Contains(Letters(left), right[k]) <==> right[k] in left
    {
      LettersContains(left, right[k]);
    }
  }

  /** `is_disjoint` on two built sets says that no letter is shared (the `HashSet::is_disjoint` oracle). */
  lemma DisjointIsNoCommonLetter(left: seq<byte>, right: seq<byte>)
    requires AllInRange(left) && AllInRange(right)
    ensures IsDisjoint(Letters(left), Letters(right)) <==> (forall c :: c in right ==> c !in left)
  {
    DisjointFromLetters(Letters(left), right);
    forall k | 0 <= k < |right|
      ensures Contains(Letters(left), right[k]) <==> right[k] in left
    {
      LettersContains(left, right[k]);
    }
  }

  /** `is_superset_simd`: `a & b ^ b` lane by lane; a lane is zero exactly when the scalar test holds there. */
  function IsSupersetSimd(a: Simd, b: Simd): (r: Simd)
    ensures forall k :: 0 <= k < SIMD_WIDTH ==>
      (r[k] == 0 <==> IsSuperset(AsciiBitSet(a[k]), AsciiBitSet(b[k])))
  {
    Xor(And(a, b), b)
  }

  /** `is_disjoint_simd`: `a & b` lane by lane; a lane is zero exactly when the scalar test holds there. */
  function IsDisjointSimd(a: Simd, b: Simd): (r: Simd)
    ensures forall k :: 0 <= k < SIMD_WIDTH ==>
      (r[k] == 0 <==> IsDisjoint(AsciiBitSet(a[k]), AsciiBitSet(b[k])))
  {
    And(a, b)
  }

  /** The four-lane superset test on sets built from byte strings agrees with letter inclusion in every lane. */
  lemma SupersetSimdIsInclusion(left: seq<seq<byte>>, right: seq<seq<byte>>)
    requires |left| == SIMD_WIDTH && |right| == SIMD_WIDTH
    requires forall k :: 0 <= k < SIMD_WIDTH ==> AllInRange(left[k]) && AllInRange(right[k])
    ensures forall k :: 0 <= k < SIMD_WIDTH ==>
      (IsSupersetSimd(LettersLanes(left), LettersLanes(right))[k] == 0 <==>
       (forall c :: c in right[k] ==> c in left[k]))
  {
    forall k | 0 <= k < SIMD_WIDTH
      ensures IsSupersetSimd(LettersLanes(left), LettersLanes(right))[k] == 0 <==>
              (forall c :: c in right[k] ==> c in left[k])
    {
      SupersetIsInclusion(left[k], right[k]);
    }
  }

  /** The four-lane disjointness test on sets built from byte strings agrees with "no common letter" in every lane. */
  lemma DisjointSimdIsNoCommonLetter(left: seq<seq<byte>>, right: seq<seq<byte>>)
    requires |left| == SIMD_WIDTH && |right| == SIMD_WIDTH
    requires forall k :: 0 <= k < SIMD_WIDTH ==> AllInRange(left[k]) && AllInRange(right[k])
    ensures forall k :: 0 <= k < SIMD_WIDTH ==>
      (IsDisjointSimd(LettersLanes(left), LettersLanes(right))[k] == 0 <==>
       (forall c :: c in right[k] ==> c !in left[k]))
  {
    forall k | 0 <= k < SIMD_WIDTH
      ensures IsDisjointSimd(LettersLanes(left), LettersLanes(right))[k] == 0 <==>
              (forall c :: c in right[k] ==> c !in left[k])
    {
      DisjointIsNoCommonLetter(left[k], right[k]);
    }
  }

  /** `Simd::from_array(strings.map(|s| AsciiBitSet::from_bytes(s).set))`. */
  function LettersLanes(strings: seq<seq<byte>>): (r: Simd)
    requires |strings| == SIMD_WIDTH
    requires forall k :: 0 <= k < SIMD_WIDTH ==> AllInRange(strings[k])
    ensures forall k :: 0 <= k < SIMD_WIDTH ==> r[k] == Letters(strings[k]).bits
  {
    seq(SIMD_WIDTH, k requires 0 <= k < SIMD_WIDTH => Letters(strings[k]).bits)
  }

  /** The bytes `b"abcdefghijklmnopqrstuvwxyz"`. */
  function Alphabet(): (r: seq<byte>)
    ensures |r| == 26 && AllLower(r)
  {
    [97, 98, 99, 100, 101, 102, 103, 104, 105, 106, 107, 108, 109,
     110, 111, 112, 113, 114, 115, 116, 117, 118, 119, 120, 121, 122]
  }

  /** A word with no high bit and every letter bit set is `0x3FF_FFFF`. */
  lemma AllLetterBits(x: bv32)
    requires x & HIGH_BITS == 0
    requires forall c: byte {:trigger Bit(c)} :: IsLower(c) ==> x & Bit(c) != 0
    ensures x == 0x3FF_FFFF
  {
    assert x & Bit(97) != 0;
    assert x & Bit(98) != 0;
    assert x & Bit(99) != 0;
    assert x & Bit(100) != 0;
    assert x & Bit(101) != 0;
    assert x & Bit(102) != 0;
    assert x & Bit(103) != 0;
    assert x & Bit(104) != 0;
    assert x & Bit(105) != 0;
    assert x & Bit(106) != 0;
    assert x & Bit(107) != 0;
    assert x & Bit(108) != 0;
    assert x & Bit(109) != 0;
    assert x & Bit(110) != 0;
    assert x & Bit(111) != 0;
    assert x & Bit(112) != 0;
    assert x & Bit(113) != 0;
    assert x & Bit(114) != 0;
    assert x & Bit(115) != 0;
    assert x & Bit(116) != 0;
    assert x & Bit(117) != 0;
    assert x & Bit(118) != 0;
    assert x & Bit(119) != 0;
    assert x & Bit(120) != 0;
    assert x & Bit(121) != 0;
    assert x & Bit(122) != 0;
  }

  /** A lower-case string that uses every letter gives `0x3FF_FFFF`. */
  lemma EveryLetterBits(bytes: seq<byte>)
    requires AllLower(bytes)
    requires forall c: byte :: IsLower(c) ==> c in bytes
    ensures AllInRange(bytes) && Letters(bytes).bits == 0x3FF_FFFF
  {
    LettersBelowHighBits(bytes);
    EveryLetterPresent(bytes);
    AllLetterBits(Letters(bytes).bits);
  }

  lemma EveryLetterPresent(bytes: seq<byte>)
    requires AllLower(bytes)
    requires forall c: byte :: IsLower(c) ==> c in bytes
    ensures AllInRange(bytes)
    ensures forall c: byte {:trigger Bit(c)} :: IsLower(c) ==> Letters(bytes).bits & Bit(c) != 0
  {
    forall c: byte | IsLower(c)
      ensures Letters(bytes).bits & Bit(c) != 0
    {
      LettersHas(bytes, c);
    }
  }

  /** The full alphabet gives `0x3FF_FFFF`, as the unit test expects. */
  lemma AlphabetBits()
    ensures Letters(Alphabet()).bits == 0x3FF_FFFF
  {
    EveryLetterBits(Alphabet());
  }

  /** `"abcde"` gives `0b11111`, as the unit test expects. */
  lemma AbcdeBits()
    ensures Letters([97, 98, 99, 100, 101]).bits == 0x1F
  {
    var abcde: seq<byte> := [97, 98, 99, 100, 101];
    assert Letters(abcde[..1]).bits == 0x1 by { LettersStep(abcde, 0); }
    assert Letters(abcde[..2]).bits == 0x3 by { LettersStep(abcde, 1); }
    assert Letters(abcde[..3]).bits == 0x7 by { LettersStep(abcde, 2); }
    assert Letters(abcde[..4]).bits == 0xF by { LettersStep(abcde, 3); }
    assert Letters(abcde[..5]).bits == 0x1F by { LettersStep(abcde, 4); }
    assert abcde[..5] == abcde;
  }

  /** One more step of the fold behind `Letters`. */
  lemma LettersStep(bytes: seq<byte>, k: nat)
    requires AllInRange(bytes) && k < |bytes|
    ensures Letters(bytes[..k + 1]) == SetLetter(Letters(bytes[..k]), bytes[k])
  {
    assert bytes[..k + 1][..k] == bytes[..k];
  }

}
