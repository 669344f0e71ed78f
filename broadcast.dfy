/** Network interfaces as the discovery services see them, and
    `to_broadcast_addr`: the broadcast address of an interface computed from
    its address and netmask as `ip | !mask`, octet by octet. */
module Broadcast {
  import opened Ints
  import opened Wrappers
  import opened NetTypes

  /** An interface address: its IP, and the netmask and broadcast address
      the system may or may not report. */
  datatype InterfaceAddr = InterfaceAddr(ip: IpAddr, netmask: Option<IpAddr>, broadcast: Option<IpAddr>)

  datatype NetworkInterface = NetworkInterface(addr: Option<InterfaceAddr>)

  /** `ip | !mask` on one octet. */
  function BroadcastOctet(ip: u8, mask: u8): u8 {
    ((ip as bv8) | !(mask as bv8)) as int
  }

  /** The IPv4 address used for the computation, 255.255.255.255 otherwise. */
  function V4OrAllOnes(ip: IpAddr): Ipv4Addr {
    match ip
    case V4(x) => x
    case V6(_) => BROADCAST
  }

  function MaskOrAllOnes(mask: Option<IpAddr>): Ipv4Addr {
    match mask
    case Some(V4(x)) => x
    case _ => BROADCAST
  }

  function BroadcastOf(ip: Ipv4Addr, mask: Ipv4Addr): (r: Ipv4Addr)
  {
    [BroadcastOctet(ip[0], mask[0]), BroadcastOctet(ip[1], mask[1]),
     BroadcastOctet(ip[2], mask[2]), BroadcastOctet(ip[3], mask[3])]
  }

  /** `to_broadcast_addr`: the loop `ip_octets[i] |= !mask_octets[i]`. */
  method ToBroadcastAddr(addr: InterfaceAddr) returns (r: Ipv4Addr)
    ensures r == BroadcastOf(V4OrAllOnes(addr.ip), MaskOrAllOnes(addr.netmask))
  {
    var ipv4 := V4OrAllOnes(addr.ip);
    var mask := MaskOrAllOnes(addr.netmask);
    var ipOctets := new u8[4](i requires 0 <= i < 4 => ipv4[i]);
    for i := 0 to 4
      invariant forall j :: 0 <= j < i ==> ipOctets[j] == BroadcastOctet(ipv4[j], mask[j])
      invariant forall j :: i <= j < 4 ==> ipOctets[j] == ipv4[j]
    {
      ipOctets[i] := BroadcastOctet(ipOctets[i], mask[i]);
    }
    r := ipOctets[..];
  }

  lemma IntOfBv(b: bv8)
    ensures (b as int) as bv8 == b
  {
  }

  lemma BvOfInt(x: u8)
    ensures (x as bv8) as int == x
  {
  }

  lemma OrNotMask(ip: bv8, mask: bv8)
    ensures (ip | !mask) & mask == ip & mask
    ensures (ip | !mask) | mask == 0xFF
  {
  }

  /** Per octet: the bits the mask sets are the address's, the others are 1. */
  lemma OctetBits(ip: u8, mask: u8)
    ensures (BroadcastOctet(ip, mask) as bv8) & (mask as bv8) == (ip as bv8) & (mask as bv8)
    ensures (BroadcastOctet(ip, mask) as bv8) | (mask as bv8) == 0xFF
  {
    var b := (ip as bv8) | !(mask as bv8);
    IntOfBv(b);
    assert BroadcastOctet(ip, mask) as bv8 == b;
    OrNotMask(ip as bv8, mask as bv8);
  }

  /** Network bits are kept and host bits are all ones, in every octet. */
  lemma BroadcastBits(ip: Ipv4Addr, mask: Ipv4Addr, i: nat)
    requires i < 4
    ensures (BroadcastOf(ip, mask)[i] as bv8) & (mask[i] as bv8) == (ip[i] as bv8) & (mask[i] as bv8)
    ensures (BroadcastOf(ip, mask)[i] as bv8) | (mask[i] as bv8) == 0xFF
  {
    OctetBits(ip[i], mask[i]);
  }

  lemma OctetAllOnesMask(ip: u8)
    ensures BroadcastOctet(ip, 255) == ip && BroadcastOctet(255, ip) == 255
  {
    assert (ip as bv8) | !(255 as bv8) == ip as bv8;
    BvOfInt(ip);
    assert (255 as bv8) | !(ip as bv8) == 255;
  }

  /** The fallbacks: without an IPv4 address the result is 255.255.255.255;
      without an IPv4 netmask the mask is all ones and the result is the address. */
  lemma Fallbacks(addr: InterfaceAddr)
    ensures addr.ip.V6? ==> BroadcastOf(V4OrAllOnes(addr.ip), MaskOrAllOnes(addr.netmask)) == BROADCAST
    ensures addr.ip.V4? && !(addr.netmask.Some? && addr.netmask.value.V4?)
            ==> BroadcastOf(V4OrAllOnes(addr.ip), MaskOrAllOnes(addr.netmask)) == addr.ip.v4
  {
    var ip := V4OrAllOnes(addr.ip);
    var mask := MaskOrAllOnes(addr.netmask);
    OctetAllOnesMask(ip[0]);
    OctetAllOnesMask(ip[1]);
    OctetAllOnesMask(ip[2]);
    OctetAllOnesMask(ip[3]);
    OctetAllOnesMask(mask[0]);
    OctetAllOnesMask(mask[1]);
    OctetAllOnesMask(mask[2]);
    OctetAllOnesMask(mask[3]);
  }

  /** A /24 example: 192.168.1.23 with 255.255.255.0 broadcasts to 192.168.1.255. */
  lemma Example()
    ensures BroadcastOf([192, 168, 1, 23], [255, 255, 255, 0]) == [192, 168, 1, 255]
  {
  }

  /** The target an interface is given: its reported IPv4 broadcast address,
      255.255.255.255 for a reported non-IPv4 one or for no address, and
      otherwise the computed one. */
  function BroadcastTarget(i: NetworkInterface): Ipv4Addr {
    match i.addr
    case None => BROADCAST
    case Some(a) =>
      match a.broadcast
      case Some(V4(b)) => b
      case Some(V6(_)) => BROADCAST
      case None => BroadcastOf(V4OrAllOnes(a.ip), MaskOrAllOnes(a.netmask))
  }

  /** The IPv4 address of an interface, if it has one. */
  function LocalV4(i: NetworkInterface): Option<Ipv4Addr> {
    match i.addr
    case Some(InterfaceAddr(V4(ip), _, _)) => Some(ip)
    case _ => None
  }
}
