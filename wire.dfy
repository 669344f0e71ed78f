/** The fixed-width little-endian fields every packet layout is built from:
    `to_bytes` / `from_bytes` of `UnifiedEndian` on u16, u32 and u64, written
    out byte by byte, and the fact that a field written at some position reads
    back from there. */
module Wire {
  import opened Ints
  import UE = UnifiedEndian

  /** `v.to_bytes()` for a `u16`. */
  function Le16(v: u16): (r: Bytes)
    ensures |r| == 2
  {
    [v % 0x100, v / 0x100]
  }

  /** `v.to_bytes()` for a `u32`: two u16 halves, low half first. */
  function Le32(v: u32): (r: Bytes)
    ensures |r| == 4
  {
    Le16(v % 0x1_0000) + Le16(v / 0x1_0000)
  }

  /** `v.to_bytes()` for a `u64`: two u32 halves, low half first. */
  function Le64(v: u64): (r: Bytes)
    ensures |r| == 8
  {
    Le32(v % 0x1_0000_0000) + Le32(v / 0x1_0000_0000)
  }

  /** `u16::from_bytes([b[i], b[i + 1]])`. */
  function Read16(b: Bytes, i: nat): (v: u16)
    requires i + 2 <= |b|
  {
    b[i] as int + 0x100 * (b[i + 1] as int)
  }

  /** `u32::from_bytes([b[i], ..., b[i + 3]])`. */
  function Read32(b: Bytes, i: nat): (v: u32)
    requires i + 4 <= |b|
  {
    Read16(b, i) + 0x1_0000 * Read16(b, i + 2)
  }

  /** `u64::from_bytes([b[i], ..., b[i + 7]])`. */
  function Read64(b: Bytes, i: nat): (v: u64)
    requires i + 8 <= |b|
  {
    Read32(b, i) + 0x1_0000_0000 * Read32(b, i + 4)
  }

  lemma Read16Le16(pre: Bytes, v: u16, post: Bytes)
    ensures Read16(pre + Le16(v) + post, |pre|) == v
  {
    var s := pre + Le16(v) + post;
    assert s[|pre|] == v % 0x100 && s[|pre| + 1] == v / 0x100;
  }

  lemma Read32Le32(pre: Bytes, v: u32, post: Bytes)
    ensures Read32(pre + Le32(v) + post, |pre|) == v
  {
    var lo, hi := Le16(v % 0x1_0000), Le16(v / 0x1_0000);
    assert pre + Le32(v) + post == pre + lo + (hi + post);
    Read16Le16(pre, v % 0x1_0000, hi + post);
    assert pre + Le32(v) + post == (pre + lo) + hi + post;
    Read16Le16(pre + lo, v / 0x1_0000, post);
  }

  lemma Read64Le64(pre: Bytes, v: u64, post: Bytes)
    ensures Read64(pre + Le64(v) + post, |pre|) == v
  {
    var lo, hi := Le32(v % 0x1_0000_0000), Le32(v / 0x1_0000_0000);
    assert pre + Le64(v) + post == pre + lo + (hi + post);
    Read32Le32(pre, v % 0x1_0000_0000, hi + post);
    assert pre + Le64(v) + post == (pre + lo) + hi + post;
    Read32Le32(pre + lo, v / 0x1_0000_0000, post);
  }

  /** The same, for a field at the very front. */
  lemma Front16(v: u16, post: Bytes)
    ensures Read16(Le16(v) + post, 0) == v
  {
    assert Le16(v) + post == [] + Le16(v) + post;
    Read16Le16([], v, post);
  }

  lemma Front64(v: u64, post: Bytes)
    ensures Read64(Le64(v) + post, 0) == v
  {
    assert Le64(v) + post == [] + Le64(v) + post;
    Read64Le64([], v, post);
  }

  /** A field read from b and written again gives back b's bytes. */
  lemma Le16Read16(b: Bytes, i: nat)
    requires i + 2 <= |b|
    ensures Le16(Read16(b, i)) == b[i..i + 2]
  {
  }

  lemma Le32Read32(b: Bytes, i: nat)
    requires i + 4 <= |b|
    ensures Le32(Read32(b, i)) == b[i..i + 4]
  {
    DivModUnique(Read32(b, i), 0x1_0000, Read16(b, i + 2), Read16(b, i));
    Le16Read16(b, i);
    Le16Read16(b, i + 2);
  }

  lemma Le64Read64(b: Bytes, i: nat)
    requires i + 8 <= |b|
    ensures Le64(Read64(b, i)) == b[i..i + 8]
  {
    DivModUnique(Read64(b, i), 0x1_0000_0000, Read32(b, i + 4), Read32(b, i));
    Le32Read32(b, i);
    Le32Read32(b, i + 4);
  }

  /** These fields are exactly `to_bytes` / `from_bytes` of `UnifiedEndian`. */
  lemma Le16IsToBytes(v: u16)
    ensures UE.InRange(UE.U16, v) && Le16(v) == UE.ToBytes(UE.U16, v)
  {
    assert UE.Size(UE.U16) == 2 && Pow256(2) == 0x1_0000;
    assert UE.ToLe(v, 2) == [v % 0x100] + UE.ToLe(v / 0x100, 1);
  }

  lemma PowValues()
    ensures Pow256(2) == 0x1_0000 && Pow256(4) == 0x1_0000_0000
    ensures Pow256(8) == 0x1_0000_0000_0000_0000
  {
    assert Pow256(2) == 0x1_0000;
    assert Pow256(4) == 0x1_0000_0000 by {
      assert Pow256(4) == 0x100 * (0x100 * Pow256(2));
    }
    assert Pow256(8) == 0x100 * (0x100 * (0x100 * (0x100 * Pow256(4))));
  }

  lemma Le32IsToBytes(v: u32)
    ensures UE.InRange(UE.U32, v) && Le32(v) == UE.ToBytes(UE.U32, v)
  {
    PowValues();
    var low, high := v % 0x1_0000, v / 0x1_0000;
    assert v == low + Pow256(2) * high;
    SplitToLe(low, high, 2, 2);
    Le16IsToBytes(low);
    Le16IsToBytes(high);
  }

  lemma Le64IsToBytes(v: u64)
    ensures UE.InRange(UE.U64, v) && Le64(v) == UE.ToBytes(UE.U64, v)
  {
    PowValues();
    var low, high := v % 0x1_0000_0000, v / 0x1_0000_0000;
    assert v == low + Pow256(4) * high;
    SplitToLe(low, high, 4, 4);
    Le32IsToBytes(low);
    Le32IsToBytes(high);
  }

  /** The little-endian bytes of `low + 256^lo * high` are those of low
      followed by those of high. */
  lemma {:induction false} SplitToLe(low: nat, high: nat, lo: nat, hi: nat)
    requires low < Pow256(lo) && high < Pow256(hi)
    ensures low + Pow256(lo) * high < Pow256(lo + hi)
    ensures UE.ToLe(low + Pow256(lo) * high, lo + hi) == UE.ToLe(low, lo) + UE.ToLe(high, hi)
    decreases lo
  {
    var n := low + Pow256(lo) * high;
    var p := Pow256(lo + hi);
    assert n < p by {
      assert Pow256(lo) * high <= Pow256(lo) * (Pow256(hi) - 1) by {
        MulMono(Pow256(lo), high, Pow256(hi) - 1);
      }
      PowAdd(lo, hi);
    }
    if lo > 0 {
      var m := Pow256(lo - 1) * high;
      assert Pow256(lo) * high == 0x100 * m;
      SplitToLe(low / 0x100, high, lo - 1, hi);
      DivModUnique(n, 0x100, low / 0x100 + m, low % 0x100);
    }
  }

  lemma {:induction false} PowAdd(a: nat, b: nat)
    ensures Pow256(a + b) == Pow256(a) * Pow256(b)
  {
    if a > 0 {
      PowAdd(a - 1, b);
      assert Pow256(a + b) == 0x100 * Pow256(a - 1 + b);
    }
  }

  lemma Read16IsFromBytes(b: Bytes, i: nat)
    requires i + 2 <= |b|
    ensures Read16(b, i) == UE.FromBytes(UE.U16, b[i..i + 2])
  {
    Le16Read16(b, i);
    Le16IsToBytes(Read16(b, i));
    UE.FromBytesToBytes(UE.U16, Read16(b, i));
  }

  lemma Read32IsFromBytes(b: Bytes, i: nat)
    requires i + 4 <= |b|
    ensures Read32(b, i) == UE.FromBytes(UE.U32, b[i..i + 4])
  {
    Le32Read32(b, i);
    Le32IsToBytes(Read32(b, i));
    UE.FromBytesToBytes(UE.U32, Read32(b, i));
  }

  lemma Read64IsFromBytes(b: Bytes, i: nat)
    requires i + 8 <= |b|
    ensures Read64(b, i) == UE.FromBytes(UE.U64, b[i..i + 8])
  {
    Le64Read64(b, i);
    Le64IsToBytes(Read64(b, i));
    UE.FromBytesToBytes(UE.U64, Read64(b, i));
  }
}
