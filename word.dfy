/** A dictionary word (src/word.rs): its five bytes with their packed forms precomputed. */
module Word {
  import opened Bytes
  import BitSet
  import Fivegram

  /** `WordBytes`: exactly `FIVEGRAM` bytes. */
  type WordBytes = s: seq<byte> | |s| == Fivegram.FIVEGRAM witness [0, 0, 0, 0, 0]

  /**
   * `wordbytes_from_str`: the length assertion becomes a precondition and
   * `copy_from_slice` copies the five bytes of `s.as_bytes()` into a zeroed buffer.
   */
  method WordBytesFromStr(s: seq<byte>) returns (bytes: WordBytes)
    requires |s| == Fivegram.FIVEGRAM
    ensures bytes == s
  {
    var buffer := new byte[Fivegram.FIVEGRAM](_ => 0);
    for k := 0 to Fivegram.FIVEGRAM
      invariant buffer[..k] == s[..k]
    {
      buffer[k] := s[k];
    }
    assert buffer[..] == s;
    bytes := buffer[..];
  }

  /** `Word`: the bytes, the positional record and the letter set. */
  datatype Word = Word(bytes: WordBytes, fivegram: Fivegram.Fivegram, letters: BitSet.AsciiBitSet)

  /**
   * The strings `from_str` accepts without a panic: five characters, each a
   * single-byte (ASCII) character from 'a' on, so that both `set_letter`s can take it.
   */
  predicate Encodable(s: string) {
    |s| == Fivegram.FIVEGRAM && forall k :: 0 <= k < |s| ==> 97 <= s[k] as int < 128
  }

  lemma EncodableBytes(s: string)
    requires Encodable(s)
    ensures |AsciiBytes(s)| == Fivegram.FIVEGRAM
    ensures BitSet.AllInRange(AsciiBytes(s))
    ensures forall k :: 0 <= k < |s| ==> LOWER_A <= AsciiBytes(s)[k]
  {
    var b := AsciiBytes(s);
    forall k | 0 <= k < |s|
      ensures LOWER_A <= b[k] && BitSet.InRange(b[k])
    {
      assert ToChar(b[k]) == s[k];
    }
  }

  /** The record `from_str` builds from the bytes of `s`. */
  function Encode(bytes: WordBytes): Word
    requires BitSet.AllInRange(bytes)
  {
    InRangeFromA(bytes);
    Word(bytes, Fivegram.Packed(bytes), BitSet.Letters(bytes))
  }

  lemma InRangeFromA(bytes: seq<byte>)
    requires BitSet.AllInRange(bytes)
    ensures forall k :: 0 <= k < |bytes| ==> LOWER_A <= bytes[k]
  {
    forall k | 0 <= k < |bytes|
      ensures LOWER_A <= bytes[k]
    {
      assert BitSet.InRange(bytes[k]);
    }
  }

  /** `Word::from_str`. */
  method FromStr(s: string) returns (w: Word)
    requires Encodable(s)
    ensures w == Encode(AsciiBytes(s))
  {
    EncodableBytes(s);
    var bytes := WordBytesFromStr(AsciiBytes(s));
    var fivegram := Fivegram.FromBytes(bytes);
    var letters := BitSet.FromBytes(bytes);
    w := Word(bytes, fivegram, letters);
  }

  /** `Word::to_str`: each byte as the character with that code. */
  function ToStr(w: Word): (r: string)
    ensures |r| == Fivegram.FIVEGRAM
    ensures forall k :: 0 <= k < Fivegram.FIVEGRAM ==> r[k] == ToChar(w.bytes[k])
  {
    seq(Fivegram.FIVEGRAM, k requires 0 <= k < Fivegram.FIVEGRAM => ToChar(w.bytes[k]))
  }

  /** `to_str(from_str(s)) == s`. */
  lemma ToStrFromStr(s: string)
    requires Encodable(s)
    ensures |AsciiBytes(s)| == Fivegram.FIVEGRAM && BitSet.AllInRange(AsciiBytes(s))
      && ToStr(Encode(AsciiBytes(s))) == s
  {
    EncodableBytes(s);
  }
}
