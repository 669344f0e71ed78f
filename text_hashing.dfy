/** `text_hash`, the 16-bit checksum both text packet formats carry: a seed
    of `0xFFFF ^ 0x12 ^ 0x13 ^ 0x8`, plus, with wrap-around, `(i * c) as u16`
    for the character c at character index i. */
module TextHashing {
  import opened Ints

  const SEED: u16 := ((0xFFFF as bv16) ^ 0x12 ^ 0x13 ^ 0x8) as int

  /** `(i * c as usize) as u16`: the low 16 bits of index times code point. */
  function Weight(i: nat, c: char): u16 {
    (i * (c as int)) % U16_MODULUS
  }

  /** The value of `ret` after the loop has seen all of s. */
  function HashOf(s: string): u16
    decreases |s|
  {
    if s == [] then SEED
    else (HashOf(s[..|s| - 1]) + Weight(|s| - 1, s[|s| - 1])) % U16_MODULUS
  }

  /** `text_hash(text)`: the loop over `text.chars().enumerate()`. */
  method TextHash(text: string) returns (ret: u16)
    ensures ret == HashOf(text)
  {
    ret := SEED;
    var i := 0;
    while i < |text|
      invariant 0 <= i <= |text|
      invariant ret == HashOf(text[..i])
    {
      assert text[..i + 1][..i] == text[..i];
      ret := (ret + Weight(i, text[i])) % U16_MODULUS;
      i := i + 1;
    }
    assert text[..|text|] == text;
  }

  lemma SeedValue()
    ensures SEED == 0xFFF6
  {
  }

  /** The sum of the weights of s, where s starts at character index k. */
  function WeightsFrom(s: string, k: nat): nat
  {
    if s == [] then 0 else Weight(k, s[0]) + WeightsFrom(s[1..], k + 1)
  }

  lemma {:induction false} WeightsFromSnoc(s: string, c: char, k: nat)
    ensures WeightsFrom(s + [c], k) == WeightsFrom(s, k) + Weight(k + |s|, c)
  {
    if s != [] {
      assert (s + [c])[1..] == s[1..] + [c];
      WeightsFromSnoc(s[1..], c, k + 1);
    }
  }

  /** The checksum is the seed plus the sum of all weights, modulo 2^16. */
  lemma {:induction false} HashIsSum(s: string)
    ensures HashOf(s) == (SEED + WeightsFrom(s, 0)) % U16_MODULUS
    decreases |s|
  {
    if s != [] {
      var init := s[..|s| - 1];
      HashIsSum(init);
      assert s == init + [s[|s| - 1]];
      WeightsFromSnoc(init, s[|s| - 1], 0);
      ModAddLeft(SEED + WeightsFrom(init, 0), Weight(|s| - 1, s[|s| - 1]));
    }
  }

  /** The first character has weight 0, so it never affects the checksum. */
  lemma FirstCharIgnored(c: char, d: char, t: string)
    ensures HashOf([c] + t) == HashOf([d] + t)
  {
    HashIsSum([c] + t);
    HashIsSum([d] + t);
    assert ([c] + t)[1..] == t && ([d] + t)[1..] == t;
  }
}
