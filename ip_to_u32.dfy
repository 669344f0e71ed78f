/** `ConvertIpU32` for `Ipv4Addr`: the address as a big-endian u32 and back. */
module IpToU32 {
  import opened Ints
  import opened NetTypes

  /** The number the four octets spell, octet 0 most significant. */
  function Value(ip: Ipv4Addr): nat
  {
    (ip[0] as int) * 0x100_0000 + (ip[1] as int) * 0x1_0000 + (ip[2] as int) * 0x100 + ip[3]
  }

  /** `(value >> (8 * (3 - i))) & 0xFF`. */
  function Octet(value: u32, i: nat): u8
    requires i < 4
  {
    (value / Pow256(3 - i)) % 0x100
  }

  /** The octets `from_u32` produces. */
  function Octets(value: u32): (r: Ipv4Addr)
    ensures forall i :: 0 <= i < 4 ==> r[i] == Octet(value, i)
  {
    [Octet(value, 0), Octet(value, 1), Octet(value, 2), Octet(value, 3)]
  }

  /** `result` after the loop of `to_u32` has added the first i shifted octets. */
  function Partial(ip: Ipv4Addr, i: nat): nat
    requires i <= 4
  {
    if i == 0 then 0 else Partial(ip, i - 1) + (ip[i - 1] as int) * Pow256(3 - (i - 1))
  }

  lemma PowSmall()
    ensures Pow256(0) == 1 && Pow256(1) == 0x100 && Pow256(2) == 0x1_0000
    ensures Pow256(3) == 0x100_0000
  {
  }

  /** Every partial sum stays below the full value, and the full value is the
      big-endian number. */
  lemma {:induction false} PartialBound(ip: Ipv4Addr, i: nat)
    requires i <= 4
    ensures Partial(ip, i) <= Partial(ip, 4) == Value(ip) < U32_MODULUS
    decreases 4 - i
  {
    PowSmall();
    if i < 4 {
      PartialBound(ip, i + 1);
    } else {
      assert Partial(ip, 1) == (ip[0] as int) * 0x100_0000;
      assert Partial(ip, 2) == Partial(ip, 1) + (ip[1] as int) * 0x1_0000;
      assert Partial(ip, 3) == Partial(ip, 2) + (ip[2] as int) * 0x100;
    }
  }

  /** `to_u32`. The accumulation `result += …` never overflows. */
  method ToU32(ip: Ipv4Addr) returns (result: u32)
    ensures result == Value(ip)
  {
    var octets := ip;
    result := 0;
    for i := 0 to 4
      invariant result == Partial(octets, i)
    {
      PartialBound(octets, i + 1);
      result := result + (octets[i] as int) * Pow256(3 - i);
    }
    PartialBound(octets, 4);
  }

  /** `from_u32`: fills a four-byte array one octet at a time. */
  method FromU32(value: u32) returns (ip: Ipv4Addr)
    ensures ip == Octets(value)
  {
    var octets := new u8[4](_ => 0);
    for i := 0 to 4
      invariant forall j :: 0 <= j < i ==> octets[j] == Octet(value, j)
    {
      octets[i] := (value / Pow256(3 - i)) % 0x100;
    }
    ip := octets[..];
  }

  lemma FromToU32(ip: Ipv4Addr)
    ensures Value(ip) < U32_MODULUS && Octets(Value(ip)) == ip
  {
    PowSmall();
    var v := Value(ip);
    var a, b, c, d := ip[0] as int, ip[1] as int, ip[2] as int, ip[3] as int;
    DivModUnique(v, 0x100_0000, a, b * 0x1_0000 + c * 0x100 + d);
    DivModUnique(v, 0x1_0000, a * 0x100 + b, c * 0x100 + d);
    DivModUnique(v, 0x100, a * 0x1_0000 + b * 0x100 + c, d);
    DivModUnique(a * 0x100 + b, 0x100, a, b);
    DivModUnique(a * 0x1_0000 + b * 0x100 + c, 0x100, a * 0x100 + b, c);
    DivModUnique(a, 0x100, 0, a);
  }

  lemma ToFromU32(value: u32)
    ensures Value(Octets(value)) == value
  {
    PowSmall();
    var o := Octets(value);
    var q1 := value / 0x100;
    var q2 := q1 / 0x100;
    var q3 := q2 / 0x100;
    assert value / 0x1_0000 == q2 by { DivDiv(value, 0x100, 0x100); }
    assert value / 0x100_0000 == q3 by { DivDiv(value, 0x100, 0x100); DivDiv(value, 0x1_0000, 0x100); }
    assert q3 < 0x100;
  }

  lemma DivDiv(n: nat, a: nat, b: nat)
    requires a > 0 && b > 0
    ensures n / a / b == n / (a * b)
  {
    var q := n / a / b;
    var r := n / a % b;
    assert n / a == b * q + r;
    assert n == a * (n / a) + n % a;
    assert n == (a * b) * q + (a * r + n % a);
    assert a * r + n % a < a * b by {
      MulMono(a, r, b - 1);
    }
    DivModUnique(n, a * b, q, a * r + n % a);
  }
}
