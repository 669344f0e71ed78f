/** The address types of `std::net` that the core passes around, and the
    text `to_string` gives an IP address (the peer registry keys on it). */
module NetTypes {
  import opened Ints

  /** `Ipv4Addr`, as its four octets, most significant first. */
  type Ipv4Addr = s: seq<u8> | |s| == 4 witness [0, 0, 0, 0]

  /** `Ipv6Addr`, as its eight 16-bit segments. */
  type Ipv6Addr = s: seq<u16> | |s| == 8 witness [0, 0, 0, 0, 0, 0, 0, 0]

  datatype IpAddr = V4(v4: Ipv4Addr) | V6(v6: Ipv6Addr)

  datatype SocketAddr = SocketAddr(ip: IpAddr, port: u16)

  const BROADCAST: Ipv4Addr := [255, 255, 255, 255]

  /** `Ipv4Addr::is_private`: 10/8, 172.16/12 and 192.168/16. */
  predicate IsPrivate(a: Ipv4Addr) {
    a[0] == 10 || (a[0] == 172 && 16 <= a[1] < 32) || (a[0] == 192 && a[1] == 168)
  }

  /** `Ipv4Addr::is_loopback`: 127/8. */
  predicate IsLoopback(a: Ipv4Addr) {
    a[0] == 127
  }

  /** The decimal digits of n, without leading zeros. */
  function Decimal(n: nat): (r: string)
    ensures |r| >= 1
    decreases n
  {
    if n < 10 then [(('0' as int) + n) as char]
    else Decimal(n / 10) + [(('0' as int) + n % 10) as char]
  }

  /** The lower-case hexadecimal digits of n, without leading zeros. */
  function Hex(n: nat): (r: string)
    ensures |r| >= 1
    decreases n
  {
    if n < 16 then ["0123456789abcdef"[n]]
    else Hex(n / 16) + ["0123456789abcdef"[n % 16]]
  }

  function JoinHex(segments: seq<u16>): string
  {
    if segments == [] then ""
    else if |segments| == 1 then Hex(segments[0])
    else Hex(segments[0]) + ":" + JoinHex(segments[1..])
  }

  /** `ip.to_string()`: dotted decimal for IPv4, colon-separated hexadecimal
      segments for IPv6. */
  function HostString(ip: IpAddr): string
  {
    match ip
    case V4(a) => Decimal(a[0]) + "." + Decimal(a[1]) + "." + Decimal(a[2]) + "." + Decimal(a[3])
    case V6(s) => JoinHex(s)
  }

  /** The dotted-decimal form, as the source's own test expects it. */
  lemma HostStringExample()
    ensures HostString(V4([10, 10, 10, 9])) == "10.10.10.9"
  {
    assert Decimal(10) == "10";
  }
}
