/**
 * Fixed-width integers of the C++ side and the conversions between them that
 * the camera code performs implicitly (two's-complement wrap-around).
 */
module Native {

  const Two32: int := 0x1_0000_0000
  const Int32Max: int := 0x7fff_ffff

  /** AIMAGE_FORMAT_YUV_420_888, the only image format the capture engine requests and accepts. */
  const ImageFormatYuv420888: int := 0x23

  type int32 = x: int | -0x8000_0000 <= x < 0x8000_0000
  type uint32 = x: int | 0 <= x < 0x1_0000_0000

  /** Conversion of any integer to `uint32_t` (reduction modulo 2^32). */
  function U32(x: int): (r: uint32)
    ensures 0 <= x < Two32 ==> r == x
  {
    x % Two32
  }

  /** Conversion of any integer to `int32_t` (two's complement). */
  function I32(x: int): (r: int32)
    ensures -0x8000_0000 <= x < 0x8000_0000 ==> r == x
  {
    var u := x % Two32;
    if u < 0x8000_0000 then u else u - Two32
  }

  function Abs(x: int): nat
  {
    if x < 0 then -x else x
  }

  // ----- arithmetic facts the index computations rely on -----

  lemma MulMono(a: int, b: int, c: int)
    requires 0 <= a <= b && 0 <= c
    ensures a * c <= b * c
  {
    assert b * c - a * c == (b - a) * c;
  }

  /** Quotient and remainder are determined by `p == q * w + r` with `0 <= r < w`. */
  lemma DivUnique(p: int, w: int, q: int, r: int)
    requires w > 0 && 0 <= r < w && p == q * w + r
    ensures p / w == q && p % w == r
  {
    var q', r' := p / w, p % w;
    assert p == q' * w + r';
    if q' < q {
      MulMono(q' + 1, q, w);
    } else if q < q' {
      MulMono(q + 1, q', w);
    }
  }

  lemma DivLess(a: nat, b: nat, d: nat)
    requires d > 0 && a < b * d
    ensures a / d < b
  {
    var q := a / d;
    if q >= b {
      MulMono(b, q, d);
    }
  }
}
