/** The `UniversalEndian<u8>` trait: the same `to_le_bytes` / `from_le_bytes`
    conversions, stated here independently, byte by byte, and shown to agree
    with `UnifiedEndian`. */
module BytesEndian {
  import opened Ints
  import UE = UnifiedEndian

  /** The integer instances of the macro: every kind except `usize` and `isize`. */
  predicate Universal(k: UE.IntKind) {
    !k.Usize? && !k.Isize?
  }

  /** `to_bytes`: byte i is `(n >> 8i) & 0xFF` of the two's complement value n. */
  function ToBytes(k: UE.IntKind, v: int): (r: Bytes)
    requires Universal(k) && UE.InRange(k, v)
    ensures |r| == UE.Size(k)
  {
    var n := UE.Unsigned(k, v);
    seq(UE.Size(k), i requires 0 <= i < UE.Size(k) => (n / Pow256(i)) % 256)
  }

  /** The weighted sum of the bytes, byte i weighing `256^i`. */
  function WeightedSum(b: Bytes): (n: nat)
  {
    if b == [] then 0 else WeightedSum(b[..|b| - 1]) + b[|b| - 1] * Pow256(|b| - 1)
  }

  /** `from_bytes`: the weighted sum, read back as two's complement for signed kinds. */
  function FromBytes(k: UE.IntKind, b: Bytes): (v: int)
    requires Universal(k) && |b| == UE.Size(k)
    ensures UE.InRange(k, v)
  {
    WeightedSumIsFromLe(b);
    var u := WeightedSum(b);
    var p := Pow256(UE.Size(k));
    assert u < p && p == 256 * Pow256(UE.Size(k) - 1);
    if UE.Signed(k) && u >= p / 2 then u - p else u
  }

  /** Division by 256 and then by 256^k is division by 256^(k+1). */
  lemma DivDiv256(n: nat, k: nat)
    ensures n / 256 / Pow256(k) == n / Pow256(k + 1)
  {
    var p := Pow256(k);
    var q := n / 256;
    var r1 := n % 256;
    var q2 := q / p;
    var r2 := q % p;
    assert n == 256 * q + r1;
    assert q == p * q2 + r2;
    assert n == (256 * p) * q2 + (256 * r2 + r1) by {
      assert 256 * q == 256 * (p * q2) + 256 * r2;
      assert 256 * (p * q2) == (256 * p) * q2;
    }
    assert 0 <= 256 * r2 + r1 < 256 * p;
    DivModUnique(n, 256 * p, q2, 256 * r2 + r1);
  }

  /** Byte i of the little-endian encoding is `(n / 256^i) % 256`. */
  lemma {:induction false} ToLeByte(n: nat, width: nat, i: nat)
    requires n < Pow256(width) && i < width
    ensures UE.ToLe(n, width)[i] == (n / Pow256(i)) % 256
  {
    if i > 0 {
      ToLeByte(n / 256, width - 1, i - 1);
      DivDiv256(n, i - 1);
    }
  }

  /** Appending a most significant byte adds its weight. */
  lemma {:induction false} FromLeSnoc(b: Bytes, x: u8)
    ensures UE.FromLe(b + [x]) == UE.FromLe(b) + x * Pow256(|b|)
  {
    if b != [] {
      assert (b + [x])[1..] == b[1..] + [x];
      FromLeSnoc(b[1..], x);
      calc {
        UE.FromLe(b + [x]);
        b[0] + 256 * UE.FromLe(b[1..] + [x]);
        b[0] + 256 * (UE.FromLe(b[1..]) + x * Pow256(|b| - 1));
        { assert 256 * (x * Pow256(|b| - 1)) == x * (256 * Pow256(|b| - 1)); }
        UE.FromLe(b) + x * Pow256(|b|);
      }
    }
  }

  lemma {:induction false} WeightedSumIsFromLe(b: Bytes)
    ensures WeightedSum(b) == UE.FromLe(b)
  {
    if b != [] {
      var init := b[..|b| - 1];
      WeightedSumIsFromLe(init);
      assert b == init + [b[|b| - 1]];
      FromLeSnoc(init, b[|b| - 1]);
    }
  }

  /** For every shared integer type both traits produce the same bytes. */
  lemma ToBytesAgree(k: UE.IntKind, v: int)
    requires Universal(k) && UE.InRange(k, v)
    ensures ToBytes(k, v) == UE.ToBytes(k, v)
  {
    var n := UE.Unsigned(k, v);
    forall i | 0 <= i < UE.Size(k)
      ensures ToBytes(k, v)[i] == UE.ToBytes(k, v)[i]
    {
      ToLeByte(n, UE.Size(k), i);
    }
  }

  /** ... and read the same number back from the same bytes. */
  lemma FromBytesAgree(k: UE.IntKind, b: Bytes)
    requires Universal(k) && |b| == UE.Size(k)
    ensures FromBytes(k, b) == UE.FromBytes(k, b)
  {
    WeightedSumIsFromLe(b);
  }

  /** `from_bytes(to_bytes(v)) == v` for the integer instances. */
  lemma RoundTrip(k: UE.IntKind, v: int)
    requires Universal(k) && UE.InRange(k, v)
    ensures FromBytes(k, ToBytes(k, v)) == v
  {
    ToBytesAgree(k, v);
    FromBytesAgree(k, ToBytes(k, v));
    UE.FromBytesToBytes(k, v);
  }
}
