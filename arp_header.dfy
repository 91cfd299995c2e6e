/** The ARP packet of arp.h (RFC 826), for Ethernet and IPv4 addresses.
    `arp` is the offset of the packet inside the buffer. */
module ArpHeader {
  import opened Bytes

  const ARP_HEADER_LEN: nat := 28
  const ARP_HWLEN_OFFSET: nat := 4
  const ARP_PRLEN_OFFSET: nat := 5
  const ARP_SRC_HARDWARE_OFFSET: nat := 8
  const ARP_SRC_PROTOCOL_OFFSET: nat := 14
  const ARP_DST_HARDWARE_OFFSET: nat := 18
  const ARP_DST_PROTOCOL_OFFSET: nat := 24
  const ARP_DATA_OFFSET: nat := 28

  const ARP_HARDWARE_ETHER: nat := 0x0001
  const ARP_PROTOCOL_IP: nat := 0x0800
  const ARP_HWLEN_ETHER: bv8 := 6
  const ARP_PRLEN_IP: bv8 := 4
  const ARP_OPCODE_REQUEST: nat := 0x0001
  const ARP_OPCODE_REPLY: nat := 0x0002

  /** The 16-bit words of the packet. */
  datatype Field = Hardware | Protocol | Opcode

  function Offset(f: Field): (o: nat)
    ensures o + 2 <= ARP_SRC_HARDWARE_OFFSET
    ensures o + 2 <= ARP_HWLEN_OFFSET || ARP_PRLEN_OFFSET < o
  {
    match f
    case Hardware => 0
    case Protocol => 2
    case Opcode => 6
  }

  /** The address fields follow each other without gap or overlap: sender
      MAC (6 bytes), sender IP (4), target MAC (6), target IP (4), ending at
      the 28-byte header length. */
  lemma AddressLayout()
    ensures ARP_SRC_HARDWARE_OFFSET + 6 == ARP_SRC_PROTOCOL_OFFSET
    ensures ARP_SRC_PROTOCOL_OFFSET + 4 == ARP_DST_HARDWARE_OFFSET
    ensures ARP_DST_HARDWARE_OFFSET + 6 == ARP_DST_PROTOCOL_OFFSET
    ensures ARP_DST_PROTOCOL_OFFSET + 4 == ARP_HEADER_LEN
  {
  }

  lemma FieldsDisjoint(f: Field, g: Field)
    ensures f != g ==> Offset(f) + 2 <= Offset(g) || Offset(g) + 2 <= Offset(f)
  {
  }

  predicate HasHeader(p: seq<bv8>, arp: nat)
  {
    arp + ARP_HEADER_LEN <= |p|
  }

  /** ARP_GET_HARDWARE, ARP_GET_PROTOCOL, ARP_GET_OPCODE */
  function Get(p: seq<bv8>, arp: nat, f: Field): nat
    requires HasHeader(p, arp)
  {
    Read2Byte(p, arp + Offset(f))
  }

  function SrcMac(p: seq<bv8>, arp: nat): seq<bv8>
    requires HasHeader(p, arp)
  {
    p[arp + ARP_SRC_HARDWARE_OFFSET .. arp + ARP_SRC_HARDWARE_OFFSET + 6]
  }

  function SrcIp(p: seq<bv8>, arp: nat): seq<bv8>
    requires HasHeader(p, arp)
  {
    p[arp + ARP_SRC_PROTOCOL_OFFSET .. arp + ARP_SRC_PROTOCOL_OFFSET + 4]
  }

  function DstMac(p: seq<bv8>, arp: nat): seq<bv8>
    requires HasHeader(p, arp)
  {
    p[arp + ARP_DST_HARDWARE_OFFSET .. arp + ARP_DST_HARDWARE_OFFSET + 6]
  }

  function DstIp(p: seq<bv8>, arp: nat): seq<bv8>
    requires HasHeader(p, arp)
  {
    p[arp + ARP_DST_PROTOCOL_OFFSET .. arp + ARP_DST_PROTOCOL_OFFSET + 4]
  }

  /** ARP_DST_IP_IS_US: the four target-address bytes equal `ip` one by one. */
  predicate DstIpIsUs(p: seq<bv8>, arp: nat, ip: seq<bv8>)
    requires HasHeader(p, arp) && |ip| >= 4
  {
    p[arp + 24] == ip[0] && p[arp + 25] == ip[1] && p[arp + 26] == ip[2] && p[arp + 27] == ip[3]
  }

  /** ARP_DST_IP_IS_US holds exactly when bytes 24-27 are the address. */
  lemma DstIpIsUsIffAddress(p: seq<bv8>, arp: nat, ip: seq<bv8>)
    requires HasHeader(p, arp) && |ip| >= 4
    ensures DstIpIsUs(p, arp, ip) <==> DstIp(p, arp) == ip[..4]
  {
    if DstIpIsUs(p, arp, ip) {
      assert forall k | 0 <= k < 4 :: DstIp(p, arp)[k] == ip[..4][k];
    }
    if DstIp(p, arp) == ip[..4] {
      assert forall k | 0 <= k < 4 :: p[arp + 24 + k] == DstIp(p, arp)[k];
    }
  }

  /** ARP_SET_HWLEN */
  method SetHwLen(a: array<bv8>, arp: nat, v: bv8)
    requires HasHeader(a[..], arp)
    modifies a
    ensures a[..] == old(a[..])[arp + ARP_HWLEN_OFFSET := v]
  {
    a[arp + ARP_HWLEN_OFFSET] := v;
  }

  /** ARP_SET_PRLEN */
  method SetPrLen(a: array<bv8>, arp: nat, v: bv8)
    requires HasHeader(a[..], arp)
    modifies a
    ensures a[..] == old(a[..])[arp + ARP_PRLEN_OFFSET := v]
  {
    a[arp + ARP_PRLEN_OFFSET] := v;
  }

  /** ARP_SET_HARDWARE, ARP_SET_PROTOCOL, ARP_SET_OPCODE: the word reads back
      as `v mod 2^16`, and nothing outside its two bytes changes. */
  method Set(a: array<bv8>, arp: nat, f: Field, v: nat)
    requires HasHeader(a[..], arp)
    modifies a
    ensures Get(a[..], arp, f) == v % 0x1_0000
    ensures forall g :: g != f ==> Get(a[..], arp, g) == Get(old(a[..]), arp, g)
    ensures SameOutside(a[..], old(a[..]), arp + Offset(f), arp + Offset(f) + 2)
  {
    Write2Byte(a, arp + Offset(f), v);
    OthersUnchanged(a[..], old(a[..]), arp, f);
  }

  /** A write confined to the bytes of word `f` leaves every other word as it was. */
  lemma OthersUnchanged(p: seq<bv8>, q: seq<bv8>, arp: nat, f: Field)
    requires HasHeader(q, arp) && SameOutside(p, q, arp + Offset(f), arp + Offset(f) + 2)
    ensures forall g :: g != f ==> Get(p, arp, g) == Get(q, arp, g)
  {
    forall g | g != f
      ensures Get(p, arp, g) == Get(q, arp, g)
    {
      FieldsDisjoint(f, g);
      Read2Outside(p, q, arp + Offset(f), arp + Offset(f) + 2, arp + Offset(g));
    }
  }

  /** The four byte stores of ARP_SET_SRC_PROTOCOL_ADDR_IP and
      ARP_SET_DST_PROTOCOL_ADDR_IP, at `o`. */
  method Store4(a: array<bv8>, o: nat, ip: seq<bv8>)
    requires o + 4 <= a.Length && |ip| >= 4
    modifies a
    ensures a[o .. o + 4] == ip[..4]
    ensures SameOutside(a[..], old(a[..]), o, o + 4)
  {
    ghost var p := a[..];
    a[o] := ip[0];
    a[o + 1] := ip[1];
    a[o + 2] := ip[2];
    a[o + 3] := ip[3];
    assert a[..] == p[o := ip[0]][o + 1 := ip[1]][o + 2 := ip[2]][o + 3 := ip[3]];
    PutAddress(p, o, ip);
  }

  lemma PutAddress(p: seq<bv8>, o: nat, ip: seq<bv8>)
    requires o + 4 <= |p| && |ip| >= 4
    ensures var r := p[o := ip[0]][o + 1 := ip[1]][o + 2 := ip[2]][o + 3 := ip[3]];
      r[o .. o + 4] == ip[..4] && SameOutside(r, p, o, o + 4)
  {
    var r := p[o := ip[0]][o + 1 := ip[1]][o + 2 := ip[2]][o + 3 := ip[3]];
    assert forall k | 0 <= k < 4 :: r[o .. o + 4][k] == ip[..4][k];
  }

  /** ARP_SET_SRC_PROTOCOL_ADDR_IP: only bytes 14-17 change, to `ip`. */
  method SetSrcProtocolAddr(a: array<bv8>, arp: nat, ip: seq<bv8>)
    requires HasHeader(a[..], arp) && |ip| >= 4
    modifies a
    ensures SrcIp(a[..], arp) == ip[..4]
    ensures SameOutside(a[..], old(a[..]), arp + 14, arp + 18)
  {
    Store4(a, arp + ARP_SRC_PROTOCOL_OFFSET, ip);
  }

  /** ARP_SET_DST_PROTOCOL_ADDR_IP: only bytes 24-27 change, to `ip`; the
      packet is then addressed to `ip` in the sense of ARP_DST_IP_IS_US. */
  method SetDstProtocolAddr(a: array<bv8>, arp: nat, ip: seq<bv8>)
    requires HasHeader(a[..], arp) && |ip| >= 4
    modifies a
    ensures DstIp(a[..], arp) == ip[..4]
    ensures DstIpIsUs(a[..], arp, ip)
    ensures SameOutside(a[..], old(a[..]), arp + 24, arp + 28)
  {
    Store4(a, arp + ARP_DST_PROTOCOL_OFFSET, ip);
    DstIpIsUsIffAddress(a[..], arp, ip);
  }
}
