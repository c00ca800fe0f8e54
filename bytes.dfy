/** Raw bytes of the words (Rust `u8`) and the letter ranges the packed records depend on. */
module Bytes {

  /**
   * An unsigned 8-bit value (Rust `u8`). Bit-vector arithmetic wraps, so every
   * subtraction the source performs on bytes is guarded by a precondition that
   * keeps it from wrapping, as a debug build panics there.
   */
  type byte = bv8

  /** The byte `b'a'`. */
  const LOWER_A: byte := 97

  /** The byte `b'z'`. */
  const LOWER_Z: byte := 122

  /** A lower-case ASCII letter. */
  predicate IsLower(b: byte) {
    LOWER_A <= b <= LOWER_Z
  }

  predicate AllLower(s: seq<byte>) {
    forall k :: 0 <= k < |s| ==> IsLower(s[k])
  }

  /** The character `char::from(b)` names: the code point equal to the byte. */
  function ToChar(b: byte): char {
    (b as int) as char
  }

  /** The UTF-8 bytes of an ASCII string (`str::as_bytes`); every ASCII character is one byte. */
  function AsciiBytes(s: string): (r: seq<byte>)
    requires forall k :: 0 <= k < |s| ==> (s[k] as int) < 128
    ensures |r| == |s|
    ensures forall k :: 0 <= k < |s| ==> ToChar(r[k]) == s[k]
  {
    seq(|s|, k requires 0 <= k < |s| => s[k] as byte)
  }
}
