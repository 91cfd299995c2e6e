/** The decisions nw-stack.c takes on a received frame before it changes
    anything: which layer handler the frame reaches (eth_process_packet,
    ip_process_packet, udp_process_packet), what the ARP layer does with it,
    whether an NTP reply is accepted, and the TCP segment the connection
    table sees. The frame is the 256-byte packet buffer; the Ethernet header
    starts at byte 0. */
module Dispatch {
  import opened Bytes
  import Eth
  import Ip
  import ArpHeader
  import Udp
  import NtpHeader
  import TcpHeader
  import TcpConn
  import Checksum
  import Reply
  import Requests

  const PKT_BUFFER_SIZE: nat := 256
  const IP: nat := 14
  const ARP: nat := 14

  /** A TCP header with the largest data offset, 15 words. */
  const MAX_TCP_HEADER_LEN: nat := 60

  /** The longest HTTP answer the packet buffer holds wherever the
      handler is asked to write it: 256 - 14 - 60 - 60 - 1. */
  const MAX_HTTP_REPLY: nat := 121

  /** The handler a frame reaches, with where its header starts and the
      `left` count the handler is given. */
  datatype Route =
    | Dropped
    | ToArp(left: nat)
    | ToIcmp(icmp: nat, left: nat)
    | ToTcp(tcp: nat, left: nat)
    | ToUdp(udp: nat, left: nat)

  /** eth_process_packet on a frame of `bytes` bytes: too short for an
      Ethernet header, or neither IPv4 nor ARP, and the frame is dropped;
      an IPv4 frame goes on as the IP layer routes it, an ARP frame to the
      ARP layer. */
  function RouteOf(p: seq<bv8>, bytes: nat): (r: Route)
    requires |p| == PKT_BUFFER_SIZE
    ensures r.ToIcmp? || r.ToTcp? || r.ToUdp? ==>
      bytes >= Eth.ETH_HEADER_LEN + Ip.IP_HEADER_LEN && Eth.EthType(p, 0) == Eth.ETH_PROTOCOL_IP &&
      r == IpRoute(p, bytes - Eth.ETH_HEADER_LEN)
    ensures r.ToArp? <==> bytes >= Eth.ETH_HEADER_LEN && Eth.EthType(p, 0) == Eth.ETH_PROTOCOL_ARP
    ensures r.ToArp? ==> r.left == bytes - Eth.ETH_HEADER_LEN
  {
    if bytes < Eth.ETH_HEADER_LEN then Dropped
    else if Eth.EthType(p, 0) == Eth.ETH_PROTOCOL_IP then IpRoute(p, bytes - Eth.ETH_HEADER_LEN)
    else if Eth.EthType(p, 0) == Eth.ETH_PROTOCOL_ARP then ToArp(bytes - Eth.ETH_HEADER_LEN)
    else Dropped
  }

  /** The bytes ip_process_packet skips: `20 + (hdr_len - 5) * 4` in 16-bit
      unsigned arithmetic, which is `4 * hdr_len` for every header length,
      the malformed ones below 5 included. */
  function IpConsumed(p: seq<bv8>): (n: nat)
    requires |p| == PKT_BUFFER_SIZE
    ensures n == 2 * Checksum.HdrWords(p, IP) && n <= 60
  {
    4 * Val(Ip.HdrLen(p, IP))
  }

  /** ip_process_packet: `left` becomes the IP total length minus the header,
      again in 16-bit unsigned arithmetic. Every header a routed packet's
      handler reads lies inside the buffer behind an IP header of
      `4 * hdr_len` bytes: behind the largest IP header there is room for the
      largest TCP header, an HTTP answer of MAX_HTTP_REPLY bytes and the byte
      the checksum loop may read past an odd segment, or for a UDP and an
      NTP header. */
  function IpRoute(p: seq<bv8>, left: nat): (r: Route)
    requires |p| == PKT_BUFFER_SIZE
    ensures !r.ToArp?
    ensures r.ToIcmp? ==> r.icmp == IP + 2 * Checksum.HdrWords(p, IP) && r.icmp + 8 <= PKT_BUFFER_SIZE
    ensures r.ToTcp? ==> r.tcp == IP + 2 * Checksum.HdrWords(p, IP) &&
                         r.tcp + MAX_TCP_HEADER_LEN + MAX_HTTP_REPLY + 1 <= PKT_BUFFER_SIZE
    ensures r.ToUdp? ==> r.udp == IP + 2 * Checksum.HdrWords(p, IP) &&
                         r.udp + Udp.UDP_HEADER_LEN + NtpHeader.NTP_HEADER_LEN <= PKT_BUFFER_SIZE
    ensures !r.Dropped? ==> left >= Ip.IP_HEADER_LEN
  {
    if left < Ip.IP_HEADER_LEN then Dropped
    else
      var at := IP + IpConsumed(p);
      var rest := (Ip.Length(p, IP) - IpConsumed(p)) % 0x1_0000;
      var protocol := p[IP + Ip.IP_PROTOCOL_OFFSET];
      if protocol == Ip.IP_PROTOCOL_ICMP then ToIcmp(at, rest)
      else if protocol == Ip.IP_PROTOCOL_TCP then ToTcp(at, rest)
      else if protocol == Ip.IP_PROTOCOL_UDP then ToUdp(at, rest)
      else Dropped
  }

  // ---------------------------------------------------------------------
  // ARP
  // ---------------------------------------------------------------------

  /** What arp_process_packet does with a packet: nothing, answer a request
      for our address, or learn the sender's MAC address from a reply to us. */
  datatype ArpAction = ArpIgnore | ArpAnswer | ArpLearn(ip: IpAddr, mac: MacAddr)

  /** arp_process_packet with `left` bytes after the Ethernet header: an ARP
      packet for IPv4 over Ethernet is a request or a reply; either is acted
      on only when its target address is ours. */
  function ArpActionOf(p: seq<bv8>, left: nat, myIp: IpAddr): ArpAction
    requires |p| == PKT_BUFFER_SIZE
  {
    if left < ArpHeader.ARP_HEADER_LEN then ArpIgnore
    else if ArpHeader.Get(p, ARP, ArpHeader.Hardware) != ArpHeader.ARP_HARDWARE_ETHER ||
            ArpHeader.Get(p, ARP, ArpHeader.Protocol) != ArpHeader.ARP_PROTOCOL_IP then ArpIgnore
    else if ArpHeader.Get(p, ARP, ArpHeader.Opcode) == ArpHeader.ARP_OPCODE_REQUEST then
      if ArpHeader.DstIpIsUs(p, ARP, myIp) then ArpAnswer else ArpIgnore
    else if ArpHeader.Get(p, ARP, ArpHeader.Opcode) == ArpHeader.ARP_OPCODE_REPLY then
      if ArpHeader.DstIpIsUs(p, ARP, myIp) then ArpLearn(ArpHeader.SrcIp(p, ARP), ArpHeader.SrcMac(p, ARP)) else ArpIgnore
    else ArpIgnore
  }

  /** An ARP exchange between two hosts of this stack (RFC 826): the request
      host A (`macA`, `ipA`) broadcasts for `ipB` reaches host B's ARP layer,
      which answers it; the frame B makes of it reaches A's ARP layer, is
      addressed to A, and teaches A exactly B's addresses. */
  lemma ArpExchange(p: seq<bv8>, q: seq<bv8>, macA: MacAddr, ipA: IpAddr, macB: MacAddr, ipB: IpAddr)
    requires |p| == PKT_BUFFER_SIZE && |q| == PKT_BUFFER_SIZE
    requires Requests.IsArpRequest(p, macA, ipA, ipB)
    requires Reply.ArpReplied(q, p, macB, ipB)
    ensures RouteOf(p, Requests.ARP_FRAME_LEN) == ToArp(ArpHeader.ARP_HEADER_LEN)
    ensures ArpActionOf(p, ArpHeader.ARP_HEADER_LEN, ipB) == ArpAnswer
    ensures RouteOf(q, Requests.ARP_FRAME_LEN) == ToArp(ArpHeader.ARP_HEADER_LEN)
    ensures Eth.DstMac(q, 0) == macA
    ensures ArpActionOf(q, ArpHeader.ARP_HEADER_LEN, ipA) == ArpLearn(ipB, macB)
  {
    ArpHeader.DstIpIsUsIffAddress(p, ARP, ipB);
    ArpHeader.DstIpIsUsIffAddress(q, ARP, ipA);
    assert q[12 .. 20] == p[12 .. 20];
    assert q[12] == p[12] && q[13] == p[13];
    assert q[ARP] == p[ARP] && q[ARP + 1] == p[ARP + 1] && q[ARP + 2] == p[ARP + 2] && q[ARP + 3] == p[ARP + 3];
  }

  // ---------------------------------------------------------------------
  // UDP and NTP
  // ---------------------------------------------------------------------

  /** udp_process_packet hands a datagram with `left` bytes to the NTP layer
      when it holds a UDP header and goes to port 123. */
  predicate ToNtp(p: seq<bv8>, udp: nat, left: nat)
    requires udp + Udp.UDP_HEADER_LEN <= |p|
  {
    left >= Udp.UDP_HEADER_LEN && Udp.Get(p, udp, Udp.DstPort) == Udp.UDP_PORT_NTP
  }

  /** ntp_process_packet accepts an NTP message of `left` bytes at `udp + 8`
      as the reply to our request: a handler is set, it comes from the
      server asked and from port 123, and its mode is server (4). */
  predicate NtpAccepts(p: seq<bv8>, udp: nat, left: nat, requestIp: IpAddr, handlerSet: bool)
    requires |p| == PKT_BUFFER_SIZE && udp + Udp.UDP_HEADER_LEN + NtpHeader.NTP_HEADER_LEN <= |p|
  {
    left >= NtpHeader.NTP_HEADER_LEN && handlerSet && Ip.SrcIp(p, IP) == requestIp &&
    Udp.Get(p, udp, Udp.SrcPort) == Udp.UDP_PORT_NTP &&
    NtpHeader.LiVnMode(p, udp + Udp.UDP_HEADER_LEN) & 0x07 == 4
  }

  /** The frame send_sntp_request builds is routed, at any receiver, to the
      NTP layer with exactly one NTP header of payload; and because it says
      client mode (3), a copy of it is never taken for the server's answer. */
  lemma SntpRequestRoutes(p: seq<bv8>, mac: MacAddr, serverMac: MacAddr, myIp: IpAddr, serverIp: IpAddr, id: nat,
                          requestIp: IpAddr, handlerSet: bool)
    requires |p| == PKT_BUFFER_SIZE
    requires Requests.IsSntpRequest(p, mac, serverMac, myIp, serverIp, id)
    ensures RouteOf(p, Requests.SNTP_FRAME_LEN) == ToUdp(Requests.UDP, Udp.UDP_HEADER_LEN + NtpHeader.NTP_HEADER_LEN)
    ensures ToNtp(p, Requests.UDP, Udp.UDP_HEADER_LEN + NtpHeader.NTP_HEADER_LEN)
    ensures !NtpAccepts(p, Requests.UDP, NtpHeader.NTP_HEADER_LEN, requestIp, handlerSet)
  {
    var e := p[0 .. IP];
    assert Eth.EthType(p, 0) == Eth.EthType(e, 0);
    var h := p[IP .. IP + 10];
    assert p[IP] == h[0] && p[IP + 9] == h[9];
    assert Ip.Length(p, IP) == Read2Byte(h, 2);
    var u := p[Requests.UDP .. Requests.UDP + 6];
    assert Udp.Get(p, Requests.UDP, Udp.DstPort) == Read2Byte(u, 2);
    assert p[Requests.NTP] == p[Requests.NTP .. Requests.SNTP_FRAME_LEN][0];
    DivMod65536(56, 0, 56);
  }

  // ---------------------------------------------------------------------
  // TCP
  // ---------------------------------------------------------------------

  /** The bytes tcp_process_packet skips: `data_offset * 4` (the options
      length wraps and the header length adds it back). */
  function TcpConsumed(p: seq<bv8>, tcp: nat): nat
    requires TcpHeader.HasHeader(p, tcp)
  {
    4 * Val(TcpHeader.DataOffset(p, tcp))
  }

  /** The segment the connection table sees: the sender's address and
      port, our port, the flags and sequence number, and the data length,
      in 16-bit unsigned arithmetic. */
  function SegmentOf(p: seq<bv8>, tcp: nat, left: nat): TcpConn.Segment
    requires |p| == PKT_BUFFER_SIZE && TcpHeader.HasHeader(p, tcp)
  {
    TcpConn.Segment(Ip.SrcIp(p, IP), TcpHeader.Get16(p, tcp, TcpHeader.SrcPort),
                    TcpHeader.Get16(p, tcp, TcpHeader.DstPort), TcpHeader.Flags(p, tcp),
                    TcpHeader.Get32(p, tcp, TcpHeader.SeqNo), (left - TcpConsumed(p, tcp)) % 0x1_0000)
  }

  // ---------------------------------------------------------------------
  // The scheduled task data of an NTP retry
  // ---------------------------------------------------------------------

  /** network_send_ntp_request packs the server address into the scheduled task's
      32-bit data word, most significant byte first. */
  function PackIp(ip: IpAddr): bv32
  {
    ((ip[0] as bv32) << 24) + ((ip[1] as bv32) << 16) + ((ip[2] as bv32) << 8) + (ip[3] as bv32)
  }

  /** ntp_request_retry unpacks the address with masks and shifts. */
  function UnpackIp(d: bv32): IpAddr
  {
    [((d & 0xff00_0000) >> 24) as bv8, ((d & 0x00ff_0000) >> 16) as bv8,
     ((d & 0x0000_ff00) >> 8) as bv8, (d & 0x0000_00ff) as bv8]
  }

  /** Unpacking inverts packing: the retry asks the server that was asked. */
  lemma UnpackPackIp(ip: IpAddr)
    ensures UnpackIp(PackIp(ip)) == ip
  {
  }
}
