/** The `UnifiedEndian` trait: `to_bytes` / `from_bytes` of every Rust integer
    type, both implemented with the little-endian `to_le_bytes` /
    `from_le_bytes`, whatever the byte order of the host. */
module UnifiedEndian {
  import opened Ints

  /** The integer types the macro is instantiated for. */
  datatype IntKind = U8 | U16 | U32 | U64 | U128 | Usize | I8 | I16 | I32 | I64 | I128 | Isize

  /** `size_of::<T>()`; `usize` and `isize` are taken on a 64-bit target. */
  function Size(k: IntKind): (n: nat)
    ensures n >= 1
  {
    match k
    case U8 => 1
    case I8 => 1
    case U16 => 2
    case I16 => 2
    case U32 => 4
    case I32 => 4
    case U64 => 8
    case I64 => 8
    case Usize => 8
    case Isize => 8
    case U128 => 16
    case I128 => 16
  }

  predicate Signed(k: IntKind) {
    k.I8? || k.I16? || k.I32? || k.I64? || k.I128? || k.Isize?
  }

  /** The values of type k. */
  predicate InRange(k: IntKind, v: int) {
    if Signed(k) then -(Pow256(Size(k)) / 2) <= v < Pow256(Size(k)) / 2
    else 0 <= v < Pow256(Size(k))
  }

  /** Little-endian byte string of n in `width` bytes: byte 0 is the least significant. */
  function ToLe(n: nat, width: nat): (r: Bytes)
    requires n < Pow256(width)
    ensures |r| == width
    decreases width
  {
    if width == 0 then [] else [n % 256] + ToLe(n / 256, width - 1)
  }

  /** The number a little-endian byte string denotes. */
  function FromLe(b: Bytes): (n: nat)
    ensures n < Pow256(|b|)
  {
    if b == [] then 0 else b[0] + 256 * FromLe(b[1..])
  }

  /** Decoding undoes encoding. */
  lemma {:induction false} FromLeToLe(n: nat, width: nat)
    requires n < Pow256(width)
    ensures FromLe(ToLe(n, width)) == n
  {
    if width > 0 {
      FromLeToLe(n / 256, width - 1);
      assert ToLe(n, width)[1..] == ToLe(n / 256, width - 1);
    }
  }

  /** Encoding undoes decoding, so the encoding of each width is a bijection. */
  lemma {:induction false} ToLeFromLe(b: Bytes)
    ensures ToLe(FromLe(b), |b|) == b
  {
    if b != [] {
      ToLeFromLe(b[1..]);
      var n := FromLe(b);
      assert n % 256 == b[0] && n / 256 == FromLe(b[1..]);
    }
  }

  /** Two numbers with the same encoding are equal. */
  lemma ToLeInjective(m: nat, n: nat, width: nat)
    requires m < Pow256(width) && n < Pow256(width)
    requires ToLe(m, width) == ToLe(n, width)
    ensures m == n
  {
    FromLeToLe(m, width);
    FromLeToLe(n, width);
  }

  /** Two's complement: the unsigned number that stands for v in type k. */
  function Unsigned(k: IntKind, v: int): (u: nat)
    requires InRange(k, v)
    ensures u < Pow256(Size(k))
  {
    if v < 0 then v + Pow256(Size(k)) else v
  }

  /** `v.to_bytes()`: `Size(k)` bytes, little-endian, two's complement for signed types. */
  function ToBytes(k: IntKind, v: int): (r: Bytes)
    requires InRange(k, v)
    ensures |r| == Size(k)
  {
    ToLe(Unsigned(k, v), Size(k))
  }

  /** `T::from_bytes(b)`. */
  function FromBytes(k: IntKind, b: Bytes): (v: int)
    requires |b| == Size(k)
    ensures InRange(k, v)
  {
    var u := FromLe(b);
    if Signed(k) && u >= Pow256(Size(k)) / 2 then u - Pow256(Size(k)) else u
  }

  lemma FromBytesToBytes(k: IntKind, v: int)
    requires InRange(k, v)
    ensures FromBytes(k, ToBytes(k, v)) == v
  {
    FromLeToLe(Unsigned(k, v), Size(k));
  }

  lemma ToBytesFromBytes(k: IntKind, b: Bytes)
    requires |b| == Size(k)
    ensures ToBytes(k, FromBytes(k, b)) == b
  {
    ToLeFromLe(b);
  }

  /** The byte order is little-endian whatever the host: the examples of the test suite. */
  lemma LittleEndianExamples()
    ensures ToBytes(U16, 0x1234) == [0x34, 0x12]
    ensures ToBytes(U32, 0x1234_5678) == [0x78, 0x56, 0x34, 0x12]
  {
  }

  /** Negative numbers are written in two's complement. */
  lemma TwosComplementExamples()
    ensures ToBytes(I16, -0x1234) == [0xcc, 0xed]
    ensures ToBytes(I32, -0x1234_5678) == [0x88, 0xa9, 0xcb, 0xed]
  {
  }
}
