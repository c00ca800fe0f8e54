/** Four-lane vectors (`core_simd::Simd<u32, 4>`, `Mask<i32, 4>` and `Simd<i32, 4>`) as sequences of length four. */
module Lanes {

  /** Four lanes: the portable minimum width (ARM NEON has 128-bit registers). */
  const SIMD_WIDTH: nat := 4

  type Simd = s: seq<bv32> | |s| == SIMD_WIDTH witness [0, 0, 0, 0]

  type Mask = m: seq<bool> | |m| == SIMD_WIDTH witness [false, false, false, false]

  /** `Simd::splat(x)`. */
  function Splat(x: bv32): Simd {
    [x, x, x, x]
  }

  function And(a: Simd, b: Simd): Simd {
    seq(SIMD_WIDTH, k requires 0 <= k < SIMD_WIDTH => a[k] & b[k])
  }

  function Or(a: Simd, b: Simd): Simd {
    seq(SIMD_WIDTH, k requires 0 <= k < SIMD_WIDTH => a[k] | b[k])
  }

  function Xor(a: Simd, b: Simd): Simd {
    seq(SIMD_WIDTH, k requires 0 <= k < SIMD_WIDTH => a[k] ^ b[k])
  }

  function Not(a: Simd): Simd {
    seq(SIMD_WIDTH, k requires 0 <= k < SIMD_WIDTH => !a[k])
  }

  /** `a >> s`: lane `k` of `a` shifted right by lane `k` of `s`. */
  function Shr(a: Simd, s: Simd): Simd
    requires forall k :: 0 <= k < SIMD_WIDTH ==> s[k] < 32
  {
    [a[0] >> s[0], a[1] >> s[1], a[2] >> s[2], a[3] >> s[3]]
  }

  /** `lanes_eq`: lane-wise equality. */
  function LanesEq(a: Simd, b: Simd): Mask {
    seq(SIMD_WIDTH, k requires 0 <= k < SIMD_WIDTH => a[k] == b[k])
  }

  function MaskAnd(a: Mask, b: Mask): Mask {
    seq(SIMD_WIDTH, k requires 0 <= k < SIMD_WIDTH => a[k] && b[k])
  }

  function MaskOr(a: Mask, b: Mask): Mask {
    seq(SIMD_WIDTH, k requires 0 <= k < SIMD_WIDTH => a[k] || b[k])
  }

  function MaskNot(a: Mask): Mask {
    seq(SIMD_WIDTH, k requires 0 <= k < SIMD_WIDTH => !a[k])
  }

  /** `Mask::to_int`: a true lane becomes the all-ones signed integer, -1, and a false lane 0. */
  function ToInt(m: Mask): (r: seq<int>)
    ensures |r| == SIMD_WIDTH
    ensures forall k :: 0 <= k < SIMD_WIDTH ==> -1 <= r[k] <= 0 && (r[k] == -1 <==> m[k])
  {
    seq(SIMD_WIDTH, k requires 0 <= k < SIMD_WIDTH => if m[k] then -1 else 0)
  }
}
