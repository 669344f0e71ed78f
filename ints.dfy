/** Fixed-width unsigned integers of Rust, as bounded mathematical integers. */
module Ints {

  type u8 = x: int | 0 <= x < 0x100
  type u16 = x: int | 0 <= x < 0x1_0000
  type u32 = x: int | 0 <= x < 0x1_0000_0000
  type u64 = x: int | 0 <= x < 0x1_0000_0000_0000_0000

  type Bytes = seq<u8>

  const U16_MODULUS: int := 0x1_0000
  const U32_MODULUS: int := 0x1_0000_0000
  const U64_MODULUS: int := 0x1_0000_0000_0000_0000

  /** 256 to the power k: the weight of byte k in a little-endian number. */
  function Pow256(k: nat): (r: nat)
    ensures r >= 1
  {
    if k == 0 then 1 else 256 * Pow256(k - 1)
  }

  /** Rust's `n as u16` for a non-negative n: keep the low 16 bits. */
  function AsU16(n: int): (r: u16)
    requires n >= 0
  {
    n % U16_MODULUS
  }

  /** Rust's `n as u32` for a non-negative n: keep the low 32 bits. */
  function AsU32(n: int): (r: u32)
    requires n >= 0
  {
    n % U32_MODULUS
  }

  /** `u64::wrapping_add` of non-negative operands: keep the low 64 bits. */
  function AsU64(n: int): (r: u64)
    requires n >= 0
  {
    n % U64_MODULUS
  }

  /** `u16::wrapping_add`. */
  function WrappingAdd16(a: u16, b: u16): u16 {
    (a + b) % U16_MODULUS
  }

  /** Reducing a partial sum modulo 2^16 does not change the final residue. */
  lemma ModAddLeft(x: int, y: int)
    requires x >= 0 && y >= 0
    ensures (x % U16_MODULUS + y) % U16_MODULUS == (x + y) % U16_MODULUS
  {
    var q := x / U16_MODULUS;
    var r := x % U16_MODULUS;
    var r2 := (r + y) % U16_MODULUS;
    var q2 := (r + y) / U16_MODULUS;
    assert x + y == U16_MODULUS * (q + q2) + r2;
    DivModUnique(x + y, U16_MODULUS, q + q2, r2);
  }

  lemma MulMono(d: int, a: int, b: int)
    requires d > 0 && a <= b
    ensures d * a <= d * b
  {
  }

  /** Quotient and remainder are determined by `n == d * q + r, 0 <= r < d`. */
  lemma DivModUnique(n: int, d: int, q: int, r: int)
    requires d > 0 && 0 <= r < d && n == d * q + r
    ensures n / d == q && n % d == r
  {
    var q' := n / d;
    var r' := n % d;
    assert n == d * q' + r';
    if q' > q {
      assert d * q' >= d * (q + 1) by { MulMono(d, q + 1, q'); }
      assert false;
    } else if q' < q {
      assert d * q >= d * (q' + 1) by { MulMono(d, q' + 1, q); }
      assert false;
    }
  }
}
