/** The frames nw-stack.c builds from scratch in the packet buffer rather
    than by rewriting a received one: the broadcast ARP request of
    send_arp_request and the SNTP request of send_sntp_request. */
module Requests {
  import opened Bytes
  import Eth
  import ArpHeader
  import Ip
  import Udp
  import NtpHeader
  import Checksum

  /** Where the ARP packet of a frame starts. */
  const ARP: nat := 14

  /** The length of an ARP frame: Ethernet header and ARP packet. */
  const ARP_FRAME_LEN: nat := 42

  const BROADCAST_MAC: MacAddr := [0xff, 0xff, 0xff, 0xff, 0xff, 0xff]
  const ZERO_MAC: MacAddr := [0, 0, 0, 0, 0, 0]

  /** The fields of a broadcast ARP request from `mac`/`myIp` for `reqIp`,
      as RFC 826 lays them out for Ethernet and IPv4. */
  predicate IsArpRequest(p: seq<bv8>, mac: MacAddr, myIp: IpAddr, reqIp: IpAddr)
    requires |p| >= ARP_FRAME_LEN
  {
    Eth.DstMac(p, 0) == BROADCAST_MAC && Eth.SrcMac(p, 0) == mac &&
    Eth.EthType(p, 0) == Eth.ETH_PROTOCOL_ARP &&
    ArpWordsOfRequest(p) &&
    ArpHeader.SrcMac(p, ARP) == mac && ArpHeader.SrcIp(p, ARP) == myIp &&
    ArpHeader.DstMac(p, ARP) == ZERO_MAC && ArpHeader.DstIp(p, ARP) == reqIp
  }

  /** Hardware type Ethernet, protocol IPv4, address lengths 6 and 4, opcode
      REQUEST. */
  predicate ArpWordsOfRequest(p: seq<bv8>)
    requires |p| >= ARP_FRAME_LEN
  {
    ArpHeader.Get(p, ARP, ArpHeader.Hardware) == ArpHeader.ARP_HARDWARE_ETHER &&
    ArpHeader.Get(p, ARP, ArpHeader.Protocol) == ArpHeader.ARP_PROTOCOL_IP &&
    p[ARP + ArpHeader.ARP_HWLEN_OFFSET] == ArpHeader.ARP_HWLEN_ETHER &&
    p[ARP + ArpHeader.ARP_PRLEN_OFFSET] == ArpHeader.ARP_PRLEN_IP &&
    ArpHeader.Get(p, ARP, ArpHeader.Opcode) == ArpHeader.ARP_OPCODE_REQUEST
  }

  /** The frame of send_arp_request: the loop over the six address bytes,
      the type and header words, and the two protocol addresses. Only the
      42 bytes of the frame change. */
  method FillArpRequest(a: array<bv8>, mac: MacAddr, myIp: IpAddr, reqIp: IpAddr)
    requires ARP_FRAME_LEN <= a.Length
    modifies a
    ensures IsArpRequest(a[..], mac, myIp, reqIp)
    ensures a[ARP_FRAME_LEN..] == old(a[ARP_FRAME_LEN..])
  {
    ghost var p0 := a[..];
    ArpRequestAddresses(a, mac);
    ghost var p1 := a[..];
    ArpRequestWords(a);
    ghost var p2 := a[..];
    ArpHeader.SetSrcProtocolAddr(a, ARP, myIp);
    ghost var p3 := a[..];
    ArpHeader.SetDstProtocolAddr(a, ARP, reqIp);
    ghost var p4 := a[..];
    SliceOutside(p2, p1, 12, 22, 0, 6);
    SliceOutside(p2, p1, 12, 22, 6, 12);
    SliceOutside(p2, p1, 12, 22, 22, 28);
    SliceOutside(p2, p1, 12, 22, 32, 38);
    SameOutsideTrans(p4, p3, p2, 38, 42, 28, 32, 28, 42);
    SliceOutside(p4, p2, 28, 42, 0, 28);
    SliceOutside(p4, p3, 38, 42, 32, 38);
    SliceOutside(p3, p2, 28, 32, 32, 38);
    SliceOutside(p4, p3, 38, 42, 28, 32);
    Read2Outside(p4, p2, 28, 42, 12);
    Read2Outside(p4, p2, 28, 42, ARP + 0);
    Read2Outside(p4, p2, 28, 42, ARP + 2);
    Read2Outside(p4, p2, 28, 42, ARP + 6);
    SliceOutside(p2, p1, 12, 22, ARP_FRAME_LEN, |p0|);
    SliceOutside(p4, p2, 28, 42, ARP_FRAME_LEN, |p0|);
  }

  /** The address loop of send_arp_request: Ethernet destination broadcast,
      Ethernet and ARP sender MAC ours, ARP target MAC zero. */
  method ArpRequestAddresses(a: array<bv8>, mac: MacAddr)
    requires ARP_FRAME_LEN <= a.Length
    modifies a
    ensures a[0 .. 6] == BROADCAST_MAC && a[6 .. 12] == mac
    ensures a[ARP + 8 .. ARP + 14] == mac && a[ARP + 18 .. ARP + 24] == ZERO_MAC
    ensures a[12 .. ARP + 8] == old(a[12 .. ARP + 8])
    ensures a[ARP + 14 .. ARP + 18] == old(a[ARP + 14 .. ARP + 18])
    ensures a[ARP + 24 ..] == old(a[ARP + 24 ..])
  {
    ghost var p := a[..];
    var i := 0;
    while i < 6
      invariant 0 <= i <= 6
      invariant forall k :: 0 <= k < i ==> a[k] == 0xff
      invariant forall k :: 6 <= k < 6 + i ==> a[k] == mac[k - 6]
      invariant forall k :: ARP + 8 <= k < ARP + 8 + i ==> a[k] == mac[k - (ARP + 8)]
      invariant forall k :: ARP + 18 <= k < ARP + 18 + i ==> a[k] == 0
      invariant forall k :: 12 <= k < ARP + 8 || ARP + 14 <= k < ARP + 18 || ARP + 24 <= k < a.Length ==> a[k] == p[k]
    {
      a[Eth.ETH_SRC_OFFSET + i] := mac[i];
      a[Eth.ETH_DST_OFFSET + i] := 0xff;
      a[ARP + ArpHeader.ARP_SRC_HARDWARE_OFFSET + i] := mac[i];
      a[ARP + ArpHeader.ARP_DST_HARDWARE_OFFSET + i] := 0;
      i := i + 1;
    }
    ghost var r := a[..];
    assert r[0 .. 6] == BROADCAST_MAC;
    assert r[6 .. 12] == mac;
    assert r[ARP + 8 .. ARP + 14] == mac;
    assert r[ARP + 18 .. ARP + 24] == ZERO_MAC;
  }

  /** ETH_SET_TYPE and the ARP_SET_* calls of send_arp_request on the words
      of bytes 12-21. */
  method ArpRequestWords(a: array<bv8>)
    requires ARP_FRAME_LEN <= a.Length
    modifies a
    ensures Eth.EthType(a[..], 0) == Eth.ETH_PROTOCOL_ARP
    ensures ArpWordsOfRequest(a[..])
    ensures SameOutside(a[..], old(a[..]), 12, ARP + 8)
  {
    Eth.EthSetType(a, 0, Eth.ETH_PROTOCOL_ARP);
    ghost var p1 := a[..];
    ArpHeader.Set(a, ARP, ArpHeader.Hardware, ArpHeader.ARP_HARDWARE_ETHER);
    ArpHeader.Set(a, ARP, ArpHeader.Protocol, ArpHeader.ARP_PROTOCOL_IP);
    ghost var p2 := a[..];
    ArpHeader.SetHwLen(a, ARP, ArpHeader.ARP_HWLEN_ETHER);
    ArpHeader.SetPrLen(a, ARP, ArpHeader.ARP_PRLEN_IP);
    ghost var p3 := a[..];
    ArpHeader.Set(a, ARP, ArpHeader.Opcode, ArpHeader.ARP_OPCODE_REQUEST);
    ghost var p4 := a[..];
    DivMod65536(Eth.ETH_PROTOCOL_ARP, 0, Eth.ETH_PROTOCOL_ARP);
    DivMod65536(ArpHeader.ARP_HARDWARE_ETHER, 0, ArpHeader.ARP_HARDWARE_ETHER);
    DivMod65536(ArpHeader.ARP_PROTOCOL_IP, 0, ArpHeader.ARP_PROTOCOL_IP);
    DivMod65536(ArpHeader.ARP_OPCODE_REQUEST, 0, ArpHeader.ARP_OPCODE_REQUEST);
    assert SameOutside(p2, p1, ARP, ARP + 4);
    Read2Outside(p4, p1, ARP, ARP + 8, 12);
    assert SameOutside(p4, p2, ARP + 4, ARP + 8);
    Read2Outside(p4, p2, ARP + 4, ARP + 8, ARP);
    Read2Outside(p4, p2, ARP + 4, ARP + 8, ARP + 2);
  }

  // ---------------------------------------------------------------------
  // The SNTP request
  // ---------------------------------------------------------------------

  const IP: nat := 14
  const UDP: nat := 34
  const NTP: nat := 42

  /** Ethernet, IP, UDP and NTP headers: 14 + 20 + 8 + 48 bytes. */
  const SNTP_FRAME_LEN: nat := 90

  /** The LI/VN/mode byte `(3 << 3) + 3`: no leap warning, version 3,
      client mode (RFC 4330). */
  const SNTP_CLIENT_LIVNMODE: bv8 := 0x1b

  /** `(UDP_PORT_NTP << 8) + UDP_PORT_NTP`, mixed into the IP identification. */
  const IP_ID_MIX: nat := 0x7b7b

  /** The IP identification of a request sent at tick `now`: the 32-bit
      clock XOR 0x7b7b, of which WRITE_2BYTE keeps the low 16 bits. */
  function SntpId(now: nat): (r: nat)
    ensures r < 0x1_0000
  {
    ((now % 0x1_0000) as bv16 ^ IP_ID_MIX as bv16) as nat
  }

  /** The Ethernet header `h` (14 bytes): to the server's MAC, from ours, IPv4. */
  predicate SntpEthOk(h: seq<bv8>, mac: MacAddr, serverMac: MacAddr)
    requires |h| == Eth.ETH_HEADER_LEN
  {
    Eth.DstMac(h, 0) == serverMac && Eth.SrcMac(h, 0) == mac && Eth.EthType(h, 0) == Eth.ETH_PROTOCOL_IP
  }

  /** The first ten bytes `h` of the IP header: version 4, five header
      words, TOS 0, total length 76, the identification `id`, flags and
      fragment offset 0 (the don't-fragment flag set and then erased), TTL 64
      and protocol UDP. */
  predicate SntpIpWordsOk(h: seq<bv8>, id: nat)
    requires |h| == 10
  {
    Ip.VersionOf(h[0]) == Ip.IP_VERSION_IPV4 && Ip.HdrLenOf(h[0]) == 5 && h[1] == 0 &&
    Read2Byte(h, 2) == Ip.IP_HEADER_LEN + Udp.UDP_HEADER_LEN + NtpHeader.NTP_HEADER_LEN &&
    Read2Byte(h, 4) == id && h[6] == 0 && h[7] == 0 && h[8] == 64 && h[9] == Ip.IP_PROTOCOL_UDP
  }

  /** The first six bytes `h` of the UDP header: both ports 123 and the
      length 56. */
  predicate SntpUdpOk(h: seq<bv8>)
    requires |h| == 6
  {
    Read2Byte(h, 0) == Udp.UDP_PORT_NTP && Read2Byte(h, 2) == Udp.UDP_PORT_NTP &&
    Read2Byte(h, 4) == Udp.UDP_HEADER_LEN + NtpHeader.NTP_HEADER_LEN
  }

  /** The NTP header `h`: client mode, version 3, every other byte zero. */
  predicate SntpNtpOk(h: seq<bv8>)
    requires |h| == NtpHeader.NTP_HEADER_LEN
  {
    h[0] == SNTP_CLIENT_LIVNMODE && forall k :: 1 <= k < NtpHeader.NTP_HEADER_LEN ==> h[k] == 0
  }

  /** The frame of send_sntp_request from `mac`/`myIp` to `serverMac`/
      `serverIp`: every header field, and both checksums verifying. */
  predicate IsSntpRequest(p: seq<bv8>, mac: MacAddr, serverMac: MacAddr, myIp: IpAddr, serverIp: IpAddr, id: nat)
    requires |p| >= SNTP_FRAME_LEN
  {
    SntpEthOk(p[0 .. IP], mac, serverMac) && SntpIpWordsOk(p[IP .. IP + 10], id) &&
    p[IP + 12 .. IP + 16] == myIp && p[IP + 16 .. IP + 20] == serverIp &&
    SntpUdpOk(p[UDP .. UDP + 6]) && SntpNtpOk(p[NTP .. SNTP_FRAME_LEN]) &&
    Checksum.IpChecksumOk(p, IP) &&
    Checksum.SegmentChecksumOk(p, IP, UDP, Udp.UDP_HEADER_LEN + NtpHeader.NTP_HEADER_LEN)
  }

  /** The frame of send_sntp_request: the 90 bytes are zeroed, the headers
      filled in and both checksums computed. Nothing past the frame changes. */
  method FillSntpRequest(a: array<bv8>, mac: MacAddr, serverMac: MacAddr, myIp: IpAddr, serverIp: IpAddr, now: nat)
    requires SNTP_FRAME_LEN <= a.Length
    modifies a
    ensures IsSntpRequest(a[..], mac, serverMac, myIp, serverIp, SntpId(now))
    ensures a[SNTP_FRAME_LEN..] == old(a[SNTP_FRAME_LEN..])
  {
    ghost var id := SntpId(now);
    FillSntpHeaders(a, mac, serverMac, myIp, serverIp, now);
    ghost var p1 := a[..];
    Checksum.IpMakeChecksum(a, IP);
    ghost var p2 := a[..];
    Checksum.TcpUdpMakeChecksum(a, IP, UDP, Udp.UDP_HEADER_LEN + NtpHeader.NTP_HEADER_LEN, false);
    ghost var p3 := a[..];
    assert Checksum.CksumOffset(false) == 6;
    SliceOutside(p2, p1, IP + 10, IP + 12, 0, IP + 10);
    SliceOutside(p3, p2, UDP + 6, UDP + 8, 0, IP + 10);
    SliceOutside(p2, p1, IP + 10, IP + 12, IP + 12, UDP + 6);
    SliceOutside(p3, p2, UDP + 6, UDP + 8, IP + 12, UDP + 6);
    SliceOutside(p2, p1, IP + 10, IP + 12, NTP, |p1|);
    SliceOutside(p3, p2, UDP + 6, UDP + 8, NTP, |p1|);
    assert p3[0 .. IP] == p1[0 .. IP] && p3[IP .. IP + 10] == p1[IP .. IP + 10];
    assert p3[IP + 12 .. IP + 16] == p1[IP + 12 .. IP + 16] && p3[IP + 16 .. IP + 20] == p1[IP + 16 .. IP + 20];
    assert p3[UDP .. UDP + 6] == p1[UDP .. UDP + 6] && p3[NTP .. SNTP_FRAME_LEN] == p1[NTP .. SNTP_FRAME_LEN];
    assert p3[SNTP_FRAME_LEN..] == p1[SNTP_FRAME_LEN..];
    Checksum.IpChecksumOutside(p2, p3, IP, UDP + 6, UDP + 8);
  }

  /** send_sntp_request up to the checksums: the zeroing loop, then the
      Ethernet, IP, UDP and NTP fields in the source's order. */
  method FillSntpHeaders(a: array<bv8>, mac: MacAddr, serverMac: MacAddr, myIp: IpAddr, serverIp: IpAddr, now: nat)
    requires SNTP_FRAME_LEN <= a.Length
    modifies a
    ensures SntpEthOk(a[0 .. IP], mac, serverMac) && SntpIpWordsOk(a[IP .. IP + 10], SntpId(now))
    ensures a[IP + 12 .. IP + 16] == myIp && a[IP + 16 .. IP + 20] == serverIp
    ensures SntpUdpOk(a[UDP .. UDP + 6]) && SntpNtpOk(a[NTP .. SNTP_FRAME_LEN])
    ensures Ip.HdrLen(a[..], IP) == 5
    ensures a[SNTP_FRAME_LEN..] == old(a[SNTP_FRAME_LEN..])
  {
    ZeroPrefix(a, SNTP_FRAME_LEN);
    ghost var p0 := a[..];
    SntpEth(a, mac, serverMac);
    ghost var p1 := a[..];
    SntpIpWords(a, SntpId(now));
    ghost var p2 := a[..];
    CopyInto(a, IP + Ip.IP_SRC_IP_OFFSET, myIp);
    CopyInto(a, IP + Ip.IP_DST_IP_OFFSET, serverIp);
    ghost var p3 := a[..];
    SntpUdpNtp(a);
    ghost var p4 := a[..];
    assert SameOutside(p3, p2, IP + 12, IP + 20);
    SliceOutside(p2, p1, IP, IP + 10, 0, IP);
    SliceOutside(p3, p2, IP + 12, IP + 20, 0, IP);
    SliceOutside(p4, p3, UDP, NTP + 1, 0, IP);
    SliceOutside(p3, p2, IP + 12, IP + 20, IP, IP + 10);
    SliceOutside(p4, p3, UDP, NTP + 1, IP, IP + 10);
    SliceOutside(p4, p3, UDP, NTP + 1, IP + 12, IP + 16);
    SliceOutside(p4, p3, UDP, NTP + 1, IP + 16, IP + 20);
    NtpBodyKept(p0, p1, p2, p3, p4);
    SliceOutside(p1, p0, 0, IP, SNTP_FRAME_LEN, |p0|);
    SliceOutside(p2, p1, IP, IP + 10, SNTP_FRAME_LEN, |p0|);
    SliceOutside(p3, p2, IP + 12, IP + 20, SNTP_FRAME_LEN, |p0|);
    SliceOutside(p4, p3, UDP, NTP + 1, SNTP_FRAME_LEN, |p0|);
    assert a[IP] == p4[IP .. IP + 10][0];
  }

  /** The NTP bytes after the first stay as the zeroing loop left them. */
  lemma NtpBodyKept(p0: seq<bv8>, p1: seq<bv8>, p2: seq<bv8>, p3: seq<bv8>, p4: seq<bv8>)
    requires |p0| >= SNTP_FRAME_LEN
    requires forall k :: 0 <= k < SNTP_FRAME_LEN ==> p0[k] == 0
    requires SameOutside(p1, p0, 0, IP) && SameOutside(p2, p1, IP, IP + 10)
    requires SameOutside(p3, p2, IP + 12, IP + 20) && SameOutside(p4, p3, UDP, NTP + 1)
    requires p4[NTP] == SNTP_CLIENT_LIVNMODE
    ensures SntpNtpOk(p4[NTP .. SNTP_FRAME_LEN])
  {
    forall k | NTP + 1 <= k < SNTP_FRAME_LEN
      ensures p4[k] == 0
    {
      assert p4[k] == p3[k] == p2[k] == p1[k] == p0[k];
    }
  }

  /** The zeroing loop of send_sntp_request over the first `n` bytes. */
  method ZeroPrefix(a: array<bv8>, n: nat)
    requires n <= a.Length
    modifies a
    ensures forall k :: 0 <= k < n ==> a[k] == 0
    ensures a[n..] == old(a[n..])
  {
    var i := 0;
    while i < n
      invariant 0 <= i <= n
      invariant forall k :: 0 <= k < i ==> a[k] == 0
      invariant forall k :: n <= k < a.Length ==> a[k] == old(a[k])
    {
      a[i] := 0;
      i := i + 1;
    }
  }

  /** The Ethernet part of send_sntp_request: the MAC loop and the type. */
  method SntpEth(a: array<bv8>, mac: MacAddr, serverMac: MacAddr)
    requires SNTP_FRAME_LEN <= a.Length
    modifies a
    ensures SntpEthOk(a[0 .. IP], mac, serverMac)
    ensures SameOutside(a[..], old(a[..]), 0, IP)
  {
    ghost var p := a[..];
    var i := 0;
    while i < 6
      invariant 0 <= i <= 6
      invariant forall k :: 0 <= k < i ==> a[k] == serverMac[k]
      invariant forall k :: 6 <= k < 6 + i ==> a[k] == mac[k - 6]
      invariant forall k :: i <= k < 6 || 6 + i <= k < a.Length ==> a[k] == p[k]
    {
      a[Eth.ETH_SRC_OFFSET + i] := mac[i];
      a[Eth.ETH_DST_OFFSET + i] := serverMac[i];
      i := i + 1;
    }
    ghost var q := a[..];
    assert q[0 .. 6] == serverMac && q[6 .. 12] == mac;
    Eth.EthSetType(a, 0, Eth.ETH_PROTOCOL_IP);
    DivMod65536(Eth.ETH_PROTOCOL_IP, 0, Eth.ETH_PROTOCOL_IP);
    ghost var r := a[..];
    assert r[0 .. IP][0 .. 6] == r[0 .. 6] && r[0 .. IP][6 .. 12] == r[6 .. 12];
    assert Eth.EthType(r[0 .. IP], 0) == Eth.EthType(r, 0);
  }

  /** IP_SET_VERSION .. IP_SET_PROTOCOL of send_sntp_request, bytes 0-9 of
      the IP header. */
  method SntpIpWords(a: array<bv8>, id: nat)
    requires SNTP_FRAME_LEN <= a.Length && id < 0x1_0000
    modifies a
    ensures SntpIpWordsOk(a[IP .. IP + 10], id)
    ensures SameOutside(a[..], old(a[..]), IP, IP + 10)
  {
    SntpIpHead(a, id);
    ghost var p1 := a[..];
    SntpIpTail(a);
    ghost var p2 := a[..];
    Read2Outside(p2, p1, IP + 6, IP + 10, IP + 2);
    Read2Outside(p2, p1, IP + 6, IP + 10, IP + 4);
    ghost var h := p2[IP .. IP + 10];
    assert h[0] == p1[IP] && h[1] == p1[IP + 1];
    assert Read2Byte(h, 2) == Read2Byte(p2, IP + 2) && Read2Byte(h, 4) == Read2Byte(p2, IP + 4);
  }

  /** Version, header length, TOS, total length and identification. */
  method SntpIpHead(a: array<bv8>, id: nat)
    requires SNTP_FRAME_LEN <= a.Length && id < 0x1_0000
    modifies a
    ensures Ip.VersionOf(a[IP]) == Ip.IP_VERSION_IPV4 && Ip.HdrLenOf(a[IP]) == 5 && a[IP + 1] == 0
    ensures Read2Byte(a[..], IP + 2) == Ip.IP_HEADER_LEN + Udp.UDP_HEADER_LEN + NtpHeader.NTP_HEADER_LEN
    ensures Read2Byte(a[..], IP + 4) == id
    ensures SameOutside(a[..], old(a[..]), IP, IP + 6)
  {
    Ip.IpSetVersion(a, IP, Ip.IP_VERSION_IPV4);
    Ip.IpSetHdrLen(a, IP, 5);
    Ip.IpSetTos(a, IP, 0);
    ghost var p1 := a[..];
    Ip.IpSetLength(a, IP, Ip.IP_HEADER_LEN + Udp.UDP_HEADER_LEN + NtpHeader.NTP_HEADER_LEN);
    ghost var p2 := a[..];
    Ip.IpSetId(a, IP, id);
    ghost var p3 := a[..];
    DivMod65536(76, 0, 76);
    DivMod65536(id, 0, id);
    Read2Outside(p3, p2, IP + 4, IP + 6, IP + 2);
    assert p3[IP] == p1[IP] && p3[IP + 1] == p1[IP + 1];
  }

  /** Flags, fragment offset, TTL and protocol. */
  method SntpIpTail(a: array<bv8>)
    requires SNTP_FRAME_LEN <= a.Length
    modifies a
    ensures a[IP + 6] == 0 && a[IP + 7] == 0 && a[IP + 8] == 64 && a[IP + 9] == Ip.IP_PROTOCOL_UDP
    ensures SameOutside(a[..], old(a[..]), IP + 6, IP + 10)
  {
    Ip.IpSetFragFlags(a, IP, Ip.IP_FLAG_DONT_FRAGMENT);
    Ip.IpSetFragOffset(a, IP, 0);
    Ip.IpSetTtl(a, IP, 64);
    Ip.IpSetProtocol(a, IP, Ip.IP_PROTOCOL_UDP);
  }

  /** The UDP header words and the LI/VN/mode byte of send_sntp_request. */
  method SntpUdpNtp(a: array<bv8>)
    requires SNTP_FRAME_LEN <= a.Length
    modifies a
    ensures SntpUdpOk(a[UDP .. UDP + 6]) && a[NTP] == SNTP_CLIENT_LIVNMODE
    ensures SameOutside(a[..], old(a[..]), UDP, NTP + 1)
  {
    Udp.Set(a, UDP, Udp.SrcPort, Udp.UDP_PORT_NTP);
    Udp.Set(a, UDP, Udp.DstPort, Udp.UDP_PORT_NTP);
    Udp.Set(a, UDP, Udp.Length, Udp.UDP_HEADER_LEN + NtpHeader.NTP_HEADER_LEN);
    ghost var p := a[..];
    NtpHeader.SetLiVnMode(a, NTP, SNTP_CLIENT_LIVNMODE);
    DivMod65536(123, 0, 123);
    DivMod65536(56, 0, 56);
    ghost var h := a[UDP .. UDP + 6];
    assert Read2Byte(h, 0) == Udp.Get(p, UDP, Udp.SrcPort);
    assert Read2Byte(h, 2) == Udp.Get(p, UDP, Udp.DstPort);
    assert Read2Byte(h, 4) == Udp.Get(p, UDP, Udp.Length);
  }
}
