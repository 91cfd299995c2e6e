/** The in-place rewriting of a received frame into its reply, as
    nw-stack.c does it: the Ethernet and IP addresses are swapped with ours
    filling the source side, the TCP ports are swapped, and send_reply fills
    in the TCP header and both checksums. The frame starts at byte 0 of the
    packet buffer and its IP header at byte 14. */
module Reply {
  import opened Bytes
  import Eth
  import Ip
  import TcpHeader
  import Checksum
  import ArpHeader
  import Icmp

  /** The size of the packet buffer every frame lives in. */
  const PKT_BUFFER_SIZE: nat := 256

  /** Where the IP header of a frame starts. */
  const IP: nat := 14

  /** The loop shape eth_make_reply, ip_make_reply and handle_arp_request
      share: for each byte of an address pair, the destination field takes
      the source field's byte and the source field takes ours. */
  method TakeOver(a: array<bv8>, src: nat, dst: nat, mine: seq<bv8>)
    requires src + |mine| <= a.Length && dst + |mine| <= a.Length
    requires dst + |mine| <= src || src + |mine| <= dst
    modifies a
    ensures a[dst .. dst + |mine|] == old(a[src .. src + |mine|])
    ensures a[src .. src + |mine|] == mine
    ensures SameOutside2(a[..], old(a[..]), src, src + |mine|, dst, dst + |mine|)
  {
    ghost var p := a[..];
    ghost var had := p[src .. src + |mine|];
    var i := 0;
    while i < |mine|
      invariant 0 <= i <= |mine|
      invariant forall j :: 0 <= j < i ==> a[src + j] == mine[j]
      invariant forall j :: 0 <= j < i ==> a[dst + j] == had[j]
      invariant forall k :: src + i <= k < src + |mine| ==> a[k] == p[k]
      invariant SameOutside2(a[..], p, src, src + |mine|, dst, dst + |mine|)
    {
      a[dst + i] := a[src + i];
      a[src + i] := mine[i];
      i := i + 1;
    }
    ghost var r := a[..];
    assert r[dst .. dst + |mine|] == had;
    assert r[src .. src + |mine|] == mine;
  }

  /** eth_make_reply: the destination MAC becomes the old source, and the
      source becomes ours; nothing past the two address fields changes. */
  method EthMakeReply(a: array<bv8>, mac: MacAddr)
    requires Eth.HasHeader(a[..], 0)
    modifies a
    ensures Eth.DstMac(a[..], 0) == Eth.SrcMac(old(a[..]), 0)
    ensures Eth.SrcMac(a[..], 0) == mac
    ensures SameOutside(a[..], old(a[..]), 0, 12)
  {
    TakeOver(a, Eth.ETH_SRC_OFFSET, Eth.ETH_DST_OFFSET, mac);
    SameOutside2Covered(a[..], old(a[..]), 6, 12, 0, 6, 0, 12);
  }

  /** ip_make_reply: the destination address becomes the old source and the
      source becomes ours, the TTL is 64, and the fragment word ends up 0:
      IP_SET_FRAG_OFFSET rewrites the whole word and so erases the
      don't-fragment flag IP_SET_FRAG_FLAGS has just set. Nothing else of
      the header changes. */
  method IpMakeReply(a: array<bv8>, ip: nat, myIp: IpAddr)
    requires Ip.HasHeader(a[..], ip)
    modifies a
    ensures Ip.DstIp(a[..], ip) == Ip.SrcIp(old(a[..]), ip)
    ensures Ip.SrcIp(a[..], ip) == myIp
    ensures a[ip + Ip.IP_TTL_OFFSET] == 64
    ensures a[ip + 6] == 0 && a[ip + 7] == 0 && Ip.Flags(a[..], ip) == 0
    ensures a[ip + 9 .. ip + 12] == old(a[ip + 9 .. ip + 12])
    ensures SameOutside(a[..], old(a[..]), ip + 6, ip + 20)
  {
    TakeOver(a, ip + Ip.IP_SRC_IP_OFFSET, ip + Ip.IP_DST_IP_OFFSET, myIp);
    SameOutside2Covered(a[..], old(a[..]), ip + 12, ip + 16, ip + 16, ip + 20, ip + 12, ip + 20);
    ghost var q := a[..];
    Ip.IpSetTtl(a, ip, 64);
    Ip.IpSetFragFlags(a, ip, Ip.IP_FLAG_DONT_FRAGMENT);
    Ip.IpSetFragOffset(a, ip, 0);
    SliceOutside(a[..], q, ip + 6, ip + 9, ip + 12, ip + 16);
    SliceOutside(a[..], q, ip + 6, ip + 9, ip + 16, ip + 20);
    SliceOutside(a[..], q, ip + 6, ip + 9, ip + 9, ip + 12);
  }

  /** Where the ARP packet of a frame starts. */
  const ARP: nat := 14

  /** The frame `p` is the ARP reply `mac`/`myIp` makes of the received
      frame `o`: the Ethernet addresses swapped as by eth_make_reply, the
      opcode REPLY, the sender MAC and IP moved to the target fields with
      ours in their place, and bytes 12-19 (the Ethernet type, the hardware
      and protocol words) kept. */
  predicate ArpReplied(p: seq<bv8>, o: seq<bv8>, mac: MacAddr, myIp: IpAddr)
    requires ArpHeader.HasHeader(p, ARP) && |p| == |o|
  {
    Eth.DstMac(p, 0) == Eth.SrcMac(o, 0) && Eth.SrcMac(p, 0) == mac &&
    ArpHeader.Get(p, ARP, ArpHeader.Opcode) == ArpHeader.ARP_OPCODE_REPLY &&
    ArpHeader.DstMac(p, ARP) == ArpHeader.SrcMac(o, ARP) && ArpHeader.SrcMac(p, ARP) == mac &&
    ArpHeader.DstIp(p, ARP) == ArpHeader.SrcIp(o, ARP) && ArpHeader.SrcIp(p, ARP) == myIp &&
    p[12 .. ARP + 6] == o[12 .. ARP + 6]
  }

  /** handle_arp_request's rewrite of a request for our address into its
      reply: the Ethernet addresses are swapped as by eth_make_reply, the
      opcode becomes REPLY, the sender MAC and IP move to the target fields
      and ours take their place. The Ethernet type, the hardware and
      protocol words and their lengths (bytes 12-19) are kept, and nothing
      past the 42 bytes of the reply changes. */
  method ArpMakeReply(a: array<bv8>, mac: MacAddr, myIp: IpAddr)
    requires ArpHeader.HasHeader(a[..], ARP)
    modifies a
    ensures ArpReplied(a[..], old(a[..]), mac, myIp)
    ensures SameOutside(a[..], old(a[..]), 0, ARP + ArpHeader.ARP_HEADER_LEN)
  {
    ghost var p0 := a[..];
    EthMakeReply(a, mac);
    ghost var p1 := a[..];
    SliceOutside(p1, p0, 0, 12, ARP + 8, ARP + 18);
    ArpHeader.Set(a, ARP, ArpHeader.Opcode, ArpHeader.ARP_OPCODE_REPLY);
    ghost var p2 := a[..];
    assert ArpHeader.Offset(ArpHeader.Opcode) == 6;
    ghost var opcode := ArpHeader.Get(p2, ARP, ArpHeader.Opcode);
    assert opcode == Read2Byte(p2, ARP + 6);
    SliceOutside(p2, p1, ARP + 6, ARP + 8, ARP + 8, ARP + 18);
    SliceOutside(p2, p1, ARP + 6, ARP + 8, 12, ARP + 6);
    SliceOutside(p1, p0, 0, 12, 12, ARP + 6);
    SliceOutside(p2, p1, ARP + 6, ARP + 8, 0, 12);
    ArpSwapAddresses(a, mac, myIp);
    ghost var p4 := a[..];
    SliceOutside(p4, p2, ARP + 8, ARP + 28, 0, 12);
    SliceOutside(p4, p2, ARP + 8, ARP + 28, 12, ARP + 6);
    SameOutsideTrans(p2, p1, p0, ARP + 6, ARP + 8, 0, 12, 0, ARP + 28);
    SameOutsideTrans(p4, p2, p0, ARP + 8, ARP + 28, 0, ARP + 28, 0, ARP + 28);
    Read2Outside(p4, p2, ARP + 8, ARP + 28, ARP + 6);
    assert Read2Byte(p4, ARP + 6) == opcode;
    DivMod65536(ArpHeader.ARP_OPCODE_REPLY, 0, ArpHeader.ARP_OPCODE_REPLY);
  }

  /** The two address loops of handle_arp_request: the sender MAC (bytes
      8-13) and IP (14-17) move to the target fields (18-23, 24-27) and ours
      take their place. */
  method ArpSwapAddresses(a: array<bv8>, mac: MacAddr, myIp: IpAddr)
    requires ArpHeader.HasHeader(a[..], ARP)
    modifies a
    ensures a[ARP + 18 .. ARP + 24] == old(a[ARP + 8 .. ARP + 14])
    ensures a[ARP + 8 .. ARP + 14] == mac
    ensures a[ARP + 24 .. ARP + 28] == old(a[ARP + 14 .. ARP + 18])
    ensures a[ARP + 14 .. ARP + 18] == myIp
    ensures SameOutside(a[..], old(a[..]), ARP + 8, ARP + 28)
  {
    ghost var p2 := a[..];
    TakeOver(a, ARP + 8, ARP + 18, mac);
    ghost var p3 := a[..];
    SameOutside2Covered(p3, p2, ARP + 8, ARP + 14, ARP + 18, ARP + 24, ARP + 8, ARP + 24);
    SliceOutside2(p3, p2, ARP + 8, ARP + 14, ARP + 18, ARP + 24, ARP + 14, ARP + 18);
    TakeOver(a, ARP + 14, ARP + 24, myIp);
    ghost var p4 := a[..];
    SameOutside2Covered(p4, p3, ARP + 14, ARP + 18, ARP + 24, ARP + 28, ARP + 14, ARP + 28);
    SliceOutside(p4, p3, ARP + 14, ARP + 28, ARP + 8, ARP + 14);
    SliceOutside2(p4, p3, ARP + 14, ARP + 18, ARP + 24, ARP + 28, ARP + 18, ARP + 24);
    SameOutsideTrans(p4, p3, p2, ARP + 14, ARP + 28, ARP + 8, ARP + 24, ARP + 8, ARP + 28);
  }

  /** tcp_make_reply: the source and destination ports trade places. */
  method TcpMakeReply(a: array<bv8>, tcp: nat)
    requires TcpHeader.HasHeader(a[..], tcp)
    modifies a
    ensures TcpHeader.Get16(a[..], tcp, TcpHeader.SrcPort) == TcpHeader.Get16(old(a[..]), tcp, TcpHeader.DstPort)
    ensures TcpHeader.Get16(a[..], tcp, TcpHeader.DstPort) == TcpHeader.Get16(old(a[..]), tcp, TcpHeader.SrcPort)
    ensures SameOutside(a[..], old(a[..]), tcp, tcp + 4)
  {
    var tmp := TcpHeader.Get16(a[..], tcp, TcpHeader.SrcPort);
    var dst := TcpHeader.Get16(a[..], tcp, TcpHeader.DstPort);
    DivMod65536(tmp, 0, tmp);
    DivMod65536(dst, 0, dst);
    TcpHeader.Set16(a, tcp, TcpHeader.SrcPort, dst);
    ghost var q := a[..];
    TcpHeader.Set16(a, tcp, TcpHeader.DstPort, tmp);
    SameOutsideTrans(a[..], q, old(a[..]), tcp + 2, tcp + 4, tcp, tcp + 2, tcp, tcp + 4);
  }

  /** The TCP header fields send_reply sets after the ports: only `flags`
      among the six flag bits, the acknowledgement and sequence numbers
      modulo 2^32, and a data offset of 5 words (no options). Bytes 4-13
      are all that change. */
  method TcpFillHeader(a: array<bv8>, tcp: nat, flags: bv8, ackNo: nat, seqNo: nat)
    requires TcpHeader.HasHeader(a[..], tcp) && flags < 64
    modifies a
    ensures TcpHeader.Flags(a[..], tcp) == flags
    ensures TcpHeader.Get32(a[..], tcp, TcpHeader.AckNo) == ackNo % 0x1_0000_0000
    ensures TcpHeader.Get32(a[..], tcp, TcpHeader.SeqNo) == seqNo % 0x1_0000_0000
    ensures TcpHeader.DataOffset(a[..], tcp) == 5
    ensures SameOutside(a[..], old(a[..]), tcp + 4, tcp + 14)
  {
    ghost var p := a[..];
    TcpHeader.ClearFlags(a, tcp);
    TcpHeader.SetFlag(a, tcp, flags);
    TcpHeader.ClearThenSet(p[tcp + 13], flags);
    ghost var q := a[..];
    assert SameOutside(q, p, tcp + 13, tcp + 14);
    TcpHeader.Set32(a, tcp, TcpHeader.AckNo, ackNo);
    ghost var r := a[..];
    TcpHeader.Set32(a, tcp, TcpHeader.SeqNo, seqNo);
    ghost var s := a[..];
    Read4Outside(s, r, tcp + 4, tcp + 8, tcp + 8);
    TcpHeader.SetDataOffset(a, tcp, 5);
    ghost var t := a[..];
    assert SameOutside(t, s, tcp + 12, tcp + 13);
    Read4Outside(t, s, tcp + 12, tcp + 13, tcp + 8);
    Read4Outside(t, s, tcp + 12, tcp + 13, tcp + 4);
    SameOutsideTrans(s, r, q, tcp + 4, tcp + 8, tcp + 8, tcp + 12, tcp + 4, tcp + 12);
    SameOutsideTrans(s, q, p, tcp + 4, tcp + 12, tcp + 13, tcp + 14, tcp + 4, tcp + 14);
    SameOutsideTrans(t, s, p, tcp + 12, tcp + 13, tcp + 4, tcp + 14, tcp + 4, tcp + 14);
  }

  // ---------------------------------------------------------------------
  // send_reply
  // ---------------------------------------------------------------------

  /** The Ethernet and IP headers of the frame `p` that send_reply builds
      from the received frame `o`: addresses swapped with ours as the
      source, TTL 64, no fragment flags and offset, and the IP length of a
      20-byte TCP header plus `left` data bytes. */
  predicate EthIpReplied(p: seq<bv8>, o: seq<bv8>, mac: MacAddr, myIp: IpAddr, left: nat)
    requires |p| == |o| && IP + 20 <= |p|
  {
    Eth.DstMac(p, 0) == Eth.SrcMac(o, 0) && Eth.SrcMac(p, 0) == mac &&
    Ip.DstIp(p, IP) == Ip.SrcIp(o, IP) && Ip.SrcIp(p, IP) == myIp &&
    p[IP + Ip.IP_TTL_OFFSET] == 64 && Ip.Flags(p, IP) == 0 && Ip.FragOffset(p, IP) == 0 &&
    Ip.Length(p, IP) == (Ip.IP_HEADER_LEN + TcpHeader.TCP_HEADER_LEN + left) % 0x1_0000
  }

  /** The TCP header of the reply: ports swapped, and the flags, numbers and
      data offset given. */
  predicate TcpReplied(p: seq<bv8>, o: seq<bv8>, tcp: nat, flags: bv8, ackNo: nat, seqNo: nat)
    requires |p| == |o| && tcp + 20 <= |p|
  {
    TcpHeader.Get16(p, tcp, TcpHeader.SrcPort) == TcpHeader.Get16(o, tcp, TcpHeader.DstPort) &&
    TcpHeader.Get16(p, tcp, TcpHeader.DstPort) == TcpHeader.Get16(o, tcp, TcpHeader.SrcPort) &&
    TcpHeader.Flags(p, tcp) == flags &&
    TcpHeader.Get32(p, tcp, TcpHeader.AckNo) == ackNo % 0x1_0000_0000 &&
    TcpHeader.Get32(p, tcp, TcpHeader.SeqNo) == seqNo % 0x1_0000_0000 &&
    TcpHeader.DataOffset(p, tcp) == 5
  }

  /** The Ethernet and IP reply headers survive a write to the IP checksum
      word or past the IP header. */
  lemma EthIpOutside(q: seq<bv8>, p: seq<bv8>, o: seq<bv8>, lo: nat, hi: nat, mac: MacAddr, myIp: IpAddr, left: nat)
    requires |p| == |o| && IP + 20 <= |p|
    requires SameOutside(q, p, lo, hi) && ((lo == IP + 10 && hi == IP + 12) || IP + 20 <= lo)
    requires EthIpReplied(p, o, mac, myIp, left)
    ensures EthIpReplied(q, o, mac, myIp, left)
  {
    SliceOutside(q, p, lo, hi, 0, 6);
    SliceOutside(q, p, lo, hi, 6, 12);
    SliceOutside(q, p, lo, hi, IP + 12, IP + 16);
    SliceOutside(q, p, lo, hi, IP + 16, IP + 20);
    Read2Outside(q, p, lo, hi, IP + 2);
    Read2Outside(q, p, lo, hi, IP + 6);
    assert q[IP + 6] == p[IP + 6] && q[IP + 8] == p[IP + 8];
  }

  /** The TCP reply header survives a write outside its first 14 bytes. */
  lemma TcpOutside(q: seq<bv8>, p: seq<bv8>, o: seq<bv8>, lo: nat, hi: nat, tcp: nat, flags: bv8, ackNo: nat, seqNo: nat)
    requires |p| == |o| && tcp + 20 <= |p|
    requires SameOutside(q, p, lo, hi) && (hi <= tcp || tcp + 14 <= lo)
    requires TcpReplied(p, o, tcp, flags, ackNo, seqNo)
    ensures TcpReplied(q, o, tcp, flags, ackNo, seqNo)
  {
    Read2Outside(q, p, lo, hi, tcp);
    Read2Outside(q, p, lo, hi, tcp + 2);
    Read4Outside(q, p, lo, hi, tcp + 4);
    Read4Outside(q, p, lo, hi, tcp + 8);
    assert q[tcp + 12] == p[tcp + 12] && q[tcp + 13] == p[tcp + 13];
  }

  /** The Ethernet and IP part of send_reply: eth_make_reply, ip_make_reply
      and IP_SET_LENGTH. */
  method EthIpReply(a: array<bv8>, mac: MacAddr, myIp: IpAddr, left: nat)
    requires IP + 20 <= a.Length
    modifies a
    ensures SameOutside(a[..], old(a[..]), 0, IP + 20)
    ensures a[IP] == old(a[IP])
    ensures EthIpReplied(a[..], old(a[..]), mac, myIp, left)
  {
    ghost var p0 := a[..];
    EthMakeReply(a, mac);
    ghost var p1 := a[..];
    IpMakeReply(a, IP, myIp);
    ghost var p2 := a[..];
    Ip.IpSetLength(a, IP, Ip.IP_HEADER_LEN + TcpHeader.TCP_HEADER_LEN + left);
    ghost var p3 := a[..];
    SameOutsideTrans(p2, p1, p0, IP + 6, IP + 20, 0, 12, 0, IP + 20);
    SameOutsideTrans(p3, p2, p0, IP + 2, IP + 4, 0, IP + 20, 0, IP + 20);
    SameOutsideTrans(p3, p2, p1, IP + 2, IP + 4, IP + 6, IP + 20, IP + 2, IP + 20);
    SliceOutside(p3, p1, IP + 2, IP + 20, 0, 6);
    SliceOutside(p3, p1, IP + 2, IP + 20, 6, 12);
    SliceOutside(p3, p2, IP + 2, IP + 4, IP + 12, IP + 16);
    SliceOutside(p3, p2, IP + 2, IP + 4, IP + 16, IP + 20);
    Read2Outside(p3, p2, IP + 2, IP + 4, IP + 6);
    assert p3[IP + 8] == p2[IP + 8] && p3[IP + 6] == p2[IP + 6];
  }

  /** The TCP part of send_reply: tcp_make_reply, then the flags, numbers and
      data offset. */
  method TcpHeaderReply(a: array<bv8>, tcp: nat, flags: bv8, ackNo: nat, seqNo: nat)
    requires tcp + 20 <= a.Length && flags < 64
    modifies a
    ensures SameOutside(a[..], old(a[..]), tcp, tcp + 14)
    ensures TcpReplied(a[..], old(a[..]), tcp, flags, ackNo, seqNo)
  {
    ghost var p0 := a[..];
    TcpMakeReply(a, tcp);
    ghost var p1 := a[..];
    TcpFillHeader(a, tcp, flags, ackNo, seqNo);
    ghost var p2 := a[..];
    SameOutsideTrans(p2, p1, p0, tcp + 4, tcp + 14, tcp, tcp + 4, tcp, tcp + 14);
    Read2Outside(p2, p1, tcp + 4, tcp + 14, tcp);
    Read2Outside(p2, p1, tcp + 4, tcp + 14, tcp + 2);
  }

  /** The frame `p` is send_reply's answer to the received frame `o`:
      headers rewritten as EthIpReplied and TcpReplied say, and both
      checksums right over the header and `left` data bytes. */
  predicate TcpAnswered(p: seq<bv8>, o: seq<bv8>, tcp: nat, mac: MacAddr, myIp: IpAddr,
                        flags: bv8, ackNo: nat, seqNo: nat, left: nat)
    requires |p| == |o| == PKT_BUFFER_SIZE && IP + 20 <= tcp && tcp + TcpHeader.TCP_HEADER_LEN + left + 1 <= |p|
  {
    EthIpReplied(p, o, mac, myIp, left) &&
    TcpReplied(p, o, tcp, flags, ackNo, seqNo) &&
    Checksum.IpChecksumOk(p, IP) &&
    Checksum.SegmentChecksumOk(p, IP, tcp, TcpHeader.TCP_HEADER_LEN + left)
  }

  /** send_reply reads only the addresses and ports of the frame it
      rewrites, and writes nothing past the TCP checksum: a reply made from
      a frame `o1` that differs from `o` only behind the first 20 bytes of
      the TCP header is also the answer to `o`, and what `o1` holds there
      survives in the reply. */
  lemma AnsweredAcrossWrite(p: seq<bv8>, o1: seq<bv8>, o: seq<bv8>, at: nat, s: seq<bv8>, tcp: nat, mac: MacAddr,
                            myIp: IpAddr, flags: bv8, ackNo: nat, seqNo: nat, left: nat)
    requires |p| == |o1| == |o| == PKT_BUFFER_SIZE && IP + 20 <= tcp && tcp + TcpHeader.TCP_HEADER_LEN + left + 1 <= |p|
    requires tcp + 20 <= at && at + |s| <= |p|
    requires SameOutside(o1, o, at, at + |s|) && SameOutside(p, o1, 0, ReplyEnd(tcp))
    requires TcpAnswered(p, o1, tcp, mac, myIp, flags, ackNo, seqNo, left)
    ensures TcpAnswered(p, o, tcp, mac, myIp, flags, ackNo, seqNo, left)
    ensures o1[at .. at + |s|] == s ==> p[at .. at + |s|] == s
  {
    SliceOutside(o1, o, at, at + |s|, 6, 12);
    SliceOutside(o1, o, at, at + |s|, IP + 12, IP + 16);
    Read2Outside(o1, o, at, at + |s|, tcp);
    Read2Outside(o1, o, at, at + |s|, tcp + 2);
    SliceOutside(p, o1, 0, ReplyEnd(tcp), at, at + |s|);
  }

  /** The highest byte send_reply may write, plus one. */
  function ReplyEnd(tcp: nat): nat
  {
    if tcp + 18 < IP + 20 then IP + 20 else tcp + 18
  }

  /** The checksum arguments send_reply passes cover the 20-byte TCP header
      and `left` data bytes; the word loop may read one byte more. */
  predicate ReplyFits(a: array<bv8>, tcp: nat, left: nat)
    reads a
  {
    a.Length == PKT_BUFFER_SIZE && IP <= tcp && tcp + TcpHeader.TCP_HEADER_LEN + left + 1 <= a.Length
  }

  /** send_reply up to the checksums. */
  method TcpRewrite(a: array<bv8>, tcp: nat, mac: MacAddr, myIp: IpAddr, flags: bv8, ackNo: nat, seqNo: nat, left: nat)
    requires IP <= tcp && tcp + 20 <= a.Length && flags < 64
    modifies a
    ensures SameOutside(a[..], old(a[..]), 0, ReplyEnd(tcp))
    ensures IP + 20 <= tcp ==>
      a[IP] == old(a[IP]) &&
      EthIpReplied(a[..], old(a[..]), mac, myIp, left) &&
      TcpReplied(a[..], old(a[..]), tcp, flags, ackNo, seqNo)
  {
    ghost var p0 := a[..];
    EthIpReply(a, mac, myIp, left);
    ghost var p1 := a[..];
    TcpHeaderReply(a, tcp, flags, ackNo, seqNo);
    ghost var p2 := a[..];
    SameOutsideTrans(p2, p1, p0, tcp, tcp + 14, 0, IP + 20, 0, ReplyEnd(tcp));
    if IP + 20 <= tcp {
      EthIpOutside(p2, p1, p0, tcp, tcp + 14, mac, myIp, left);
      Read2Outside(p1, p0, 0, IP + 20, tcp);
      Read2Outside(p1, p0, 0, IP + 20, tcp + 2);
      assert p2[IP] == p1[IP];
    }
  }

  /** send_reply without the final hand-off to the controller: the headers
      rewritten, then ip_make_checksum and tcpudp_make_checksum over a
      20-byte TCP header and `left` data bytes. When `tcp` follows an IP
      header of at least 20 bytes, the reply carries the rewritten headers
      and both checksums verify at the receiver (RFC 1071, RFC 793 section
      3.1). */
  method TcpReply(a: array<bv8>, tcp: nat, mac: MacAddr, myIp: IpAddr, flags: bv8, ackNo: nat, seqNo: nat, left: nat)
    requires ReplyFits(a, tcp, left) && flags < 64
    requires IP + 20 <= tcp ==> tcp == IP + 2 * Checksum.HdrWords(a[..], IP)
    modifies a
    ensures SameOutside(a[..], old(a[..]), 0, ReplyEnd(tcp))
    ensures IP + 20 <= tcp ==>
      EthIpReplied(a[..], old(a[..]), mac, myIp, left) &&
      TcpReplied(a[..], old(a[..]), tcp, flags, ackNo, seqNo) &&
      Checksum.IpChecksumOk(a[..], IP) &&
      Checksum.SegmentChecksumOk(a[..], IP, tcp, TcpHeader.TCP_HEADER_LEN + left)
  {
    ghost var p0 := a[..];
    TcpRewrite(a, tcp, mac, myIp, flags, ackNo, seqNo, left);
    ghost var p2 := a[..];
    ghost var p3 := TcpChecksums(a, tcp, left);
    ghost var p4 := a[..];
    SameOutsideTrans(p3, p2, p0, IP + 10, IP + 12, 0, ReplyEnd(tcp), 0, ReplyEnd(tcp));
    SameOutsideTrans(p4, p3, p0, tcp + 16, tcp + 18, 0, ReplyEnd(tcp), 0, ReplyEnd(tcp));
    if IP + 20 <= tcp {
      EthIpOutside(p3, p2, p0, IP + 10, IP + 12, mac, myIp, left);
      EthIpOutside(p4, p3, p0, tcp + 16, tcp + 18, mac, myIp, left);
      TcpOutside(p3, p2, p0, IP + 10, IP + 12, tcp, flags, ackNo, seqNo);
      TcpOutside(p4, p3, p0, tcp + 16, tcp + 18, tcp, flags, ackNo, seqNo);
      Checksum.IpChecksumOutside(p3, p4, IP, tcp + 16, tcp + 18);
    }
  }

  /** The two checksum calls of send_reply; `mid` is the frame between
      them. */
  method TcpChecksums(a: array<bv8>, tcp: nat, left: nat) returns (ghost mid: seq<bv8>)
    requires ReplyFits(a, tcp, left)
    modifies a
    ensures SameOutside(mid, old(a[..]), IP + 10, IP + 12)
    ensures SameOutside(a[..], mid, tcp + 16, tcp + 18)
    ensures Ip.HasHeader(mid, IP) && IP + 2 * Checksum.HdrWords(mid, IP) <= |mid|
    ensures Checksum.HdrWords(mid, IP) >= 6 ==> Checksum.IpChecksumOk(mid, IP)
    ensures IP + 20 <= tcp ==> Checksum.SegmentChecksumOk(a[..], IP, tcp, TcpHeader.TCP_HEADER_LEN + left)
  {
    Checksum.IpMakeChecksum(a, IP);
    mid := a[..];
    assert 2 * Checksum.SegmentWords(TcpHeader.TCP_HEADER_LEN + left) <= TcpHeader.TCP_HEADER_LEN + left + 1;
    Checksum.TcpUdpMakeChecksum(a, IP, tcp, TcpHeader.TCP_HEADER_LEN + left, true);
  }

  // ---------------------------------------------------------------------
  // The echo reply
  // ---------------------------------------------------------------------

  /** The Ethernet and IP headers handle_echo_request makes of the received
      frame `o`: addresses swapped with ours as the source, TTL 64, the
      fragment word 0, the header length kept, and the IP checksum verifying
      whenever the header is long enough to hold it. */
  predicate EchoHeadersReplied(p: seq<bv8>, o: seq<bv8>, mac: MacAddr, myIp: IpAddr)
    requires |p| == PKT_BUFFER_SIZE && |o| == PKT_BUFFER_SIZE
  {
    Eth.DstMac(p, 0) == Eth.SrcMac(o, 0) && Eth.SrcMac(p, 0) == mac &&
    Ip.DstIp(p, IP) == Ip.SrcIp(o, IP) && Ip.SrcIp(p, IP) == myIp &&
    p[IP + Ip.IP_TTL_OFFSET] == 64 && p[IP + 6] == 0 && p[IP + 7] == 0 && p[IP] == o[IP] &&
    (Checksum.HdrWords(p, IP) >= 6 ==> Checksum.IpChecksumOk(p, IP))
  }

  /** eth_make_reply, ip_make_reply and ip_make_checksum, as
      handle_echo_request calls them. */
  method EchoHeaders(a: array<bv8>, mac: MacAddr, myIp: IpAddr)
    requires a.Length == PKT_BUFFER_SIZE
    modifies a
    ensures SameOutside(a[..], old(a[..]), 0, IP + 20)
    ensures EchoHeadersReplied(a[..], old(a[..]), mac, myIp)
  {
    ghost var p0 := a[..];
    EthMakeReply(a, mac);
    ghost var p1 := a[..];
    IpMakeReply(a, IP, myIp);
    ghost var p2 := a[..];
    Checksum.IpMakeChecksum(a, IP);
    ghost var p3 := a[..];
    SameOutsideTrans(p2, p1, p0, IP + 6, IP + 20, 0, 12, 0, IP + 20);
    SameOutsideTrans(p3, p2, p0, IP + 10, IP + 12, 0, IP + 20, 0, IP + 20);
    SameOutsideTrans(p3, p2, p1, IP + 10, IP + 12, IP + 6, IP + 20, IP + 6, IP + 20);
    SliceOutside(p3, p1, IP + 6, IP + 20, 0, 6);
    SliceOutside(p3, p1, IP + 6, IP + 20, 6, 12);
    SliceOutside(p1, p0, 0, 12, IP + 12, IP + 16);
    SliceOutside(p3, p2, IP + 10, IP + 12, IP + 12, IP + 16);
    SliceOutside(p3, p2, IP + 10, IP + 12, IP + 16, IP + 20);
    assert p3[IP + 8] == p2[IP + 8] && p3[IP + 6] == p2[IP + 6] && p3[IP + 7] == p2[IP + 7];
    assert p3[IP] == p0[IP];
  }

  /** The echo headers survive a write past the IP header. */
  lemma EchoHeadersOutside(q: seq<bv8>, p: seq<bv8>, o: seq<bv8>, lo: nat, hi: nat, mac: MacAddr, myIp: IpAddr)
    requires |p| == PKT_BUFFER_SIZE && |o| == PKT_BUFFER_SIZE
    requires SameOutside(q, p, lo, hi) && IP + 20 <= lo && IP + 2 * Checksum.HdrWords(p, IP) <= lo
    requires EchoHeadersReplied(p, o, mac, myIp)
    ensures EchoHeadersReplied(q, o, mac, myIp)
  {
    SliceOutside(q, p, lo, hi, 0, 6);
    SliceOutside(q, p, lo, hi, 6, 12);
    SliceOutside(q, p, lo, hi, IP + 12, IP + 16);
    SliceOutside(q, p, lo, hi, IP + 16, IP + 20);
    assert q[IP] == p[IP] && q[IP + 6] == p[IP + 6] && q[IP + 7] == p[IP + 7] && q[IP + 8] == p[IP + 8];
    if Checksum.HdrWords(p, IP) >= 6 {
      Checksum.IpChecksumOutside(p, q, IP, lo, hi);
    }
  }

  /** The whole reply handle_echo_request makes of an echo request of
      `left` bytes at `icmp`, behind an IP header of at least 20 bytes: the
      echo headers, the type echo reply, the code and the data kept, and the
      checksum adjusted as written; where that adjustment agrees with the
      ones'-complement update and the message lies inside the buffer, the
      reply's checksum verifies exactly when the request's did. */
  predicate EchoReplied(p: seq<bv8>, o: seq<bv8>, mac: MacAddr, myIp: IpAddr, icmp: nat, left: nat)
    requires |p| == PKT_BUFFER_SIZE && |o| == PKT_BUFFER_SIZE
    requires IP + 20 <= icmp && icmp + Icmp.ICMP_HEADER_LEN <= PKT_BUFFER_SIZE
  {
    EchoHeadersReplied(p, o, mac, myIp) &&
    p[icmp] == Icmp.ICMP_TYPE_ECHO_REPLY && p[icmp + 1] == o[icmp + 1] &&
    Icmp.Cksum(p, icmp) == Icmp.AdjustAsWritten(Val(o[icmp + 2]), Val(o[icmp + 3])) &&
    p[icmp + 4 ..] == o[icmp + 4 ..] &&
    (Icmp.ICMP_HEADER_LEN <= left && icmp + left <= PKT_BUFFER_SIZE && o[icmp] == Icmp.ICMP_TYPE_ECHO_REQUEST &&
     !(Val(o[icmp + 2]) > 0xf7 && o[icmp + 3] == 0xff) ==>
       (Icmp.ChecksumOk(p, icmp, left) <==> Icmp.ChecksumOk(o, icmp, left)))
  }

  /** The highest byte handle_echo_request may write, plus one. */
  function EchoEnd(icmp: nat): nat
  {
    if icmp + 4 < IP + 20 then IP + 20 else icmp + 4
  }

  /** handle_echo_request without the final hand-off to the controller. The
      ICMP header starts where ip_process_packet put it, behind the IP
      header; when that header is shorter than 20 bytes the two overlap and
      only the bytes written are stated. */
  method EchoReply(a: array<bv8>, icmp: nat, left: nat, mac: MacAddr, myIp: IpAddr)
    requires a.Length == PKT_BUFFER_SIZE && icmp == IP + 2 * Checksum.HdrWords(a[..], IP)
    modifies a
    ensures SameOutside(a[..], old(a[..]), 0, EchoEnd(icmp))
    ensures IP + 20 <= icmp ==> EchoReplied(a[..], old(a[..]), mac, myIp, icmp, left)
  {
    ghost var p0 := a[..];
    EchoHeaders(a, mac, myIp);
    ghost var p3 := a[..];
    Icmp.MakeEchoReply(a, icmp, if icmp + left <= a.Length then left else 0);
    ghost var p4 := a[..];
    SameOutsideTrans(p4, p3, p0, icmp, icmp + 4, 0, IP + 20, 0, EchoEnd(icmp));
    if IP + 20 <= icmp {
      EchoReplyComposed(p0, p3, p4, icmp, left, mac, myIp);
    }
  }

  /** The echo headers and the rewritten ICMP header together make the
      reply EchoReplied describes. */
  lemma EchoReplyComposed(p0: seq<bv8>, p3: seq<bv8>, p4: seq<bv8>, icmp: nat, left: nat, mac: MacAddr, myIp: IpAddr)
    requires |p0| == PKT_BUFFER_SIZE && |p3| == PKT_BUFFER_SIZE && |p4| == PKT_BUFFER_SIZE
    requires icmp == IP + 2 * Checksum.HdrWords(p0, IP) && IP + 20 <= icmp
    requires SameOutside(p3, p0, 0, IP + 20) && EchoHeadersReplied(p3, p0, mac, myIp)
    requires p4[icmp] == Icmp.ICMP_TYPE_ECHO_REPLY && p4[icmp + 1] == p3[icmp + 1]
    requires Icmp.Cksum(p4, icmp) == Icmp.AdjustAsWritten(Val(p3[icmp + 2]), Val(p3[icmp + 3]))
    requires SameOutside(p4, p3, icmp, icmp + 4)
    requires Icmp.ICMP_HEADER_LEN <= left && icmp + left <= PKT_BUFFER_SIZE && p3[icmp] == Icmp.ICMP_TYPE_ECHO_REQUEST &&
             !(Val(p3[icmp + 2]) > 0xf7 && p3[icmp + 3] == 0xff) ==>
               (Icmp.ChecksumOk(p4, icmp, left) <==> Icmp.ChecksumOk(p3, icmp, left))
    ensures EchoReplied(p4, p0, mac, myIp, icmp, left)
  {
    assert Checksum.HdrWords(p3, IP) == Checksum.HdrWords(p0, IP) by {
      assert p3[IP] == p0[IP];
    }
    EchoHeadersOutside(p4, p3, p0, icmp, icmp + 4, mac, myIp);
    EchoIcmpKept(p0, p3, p4, icmp, left);
  }

  /** The echo headers leave the ICMP message as it was received. */
  lemma EchoIcmpKept(p0: seq<bv8>, p3: seq<bv8>, p4: seq<bv8>, icmp: nat, left: nat)
    requires |p0| == PKT_BUFFER_SIZE && |p3| == PKT_BUFFER_SIZE && |p4| == PKT_BUFFER_SIZE
    requires IP + 20 <= icmp && icmp + Icmp.ICMP_HEADER_LEN <= PKT_BUFFER_SIZE
    requires SameOutside(p3, p0, 0, IP + 20) && SameOutside(p4, p3, icmp, icmp + 4)
    ensures p3[icmp] == p0[icmp] && p3[icmp + 1] == p0[icmp + 1]
    ensures p3[icmp + 2] == p0[icmp + 2] && p3[icmp + 3] == p0[icmp + 3]
    ensures p4[icmp + 4 ..] == p0[icmp + 4 ..]
    ensures icmp + left <= PKT_BUFFER_SIZE ==> (Icmp.ChecksumOk(p3, icmp, left) <==> Icmp.ChecksumOk(p0, icmp, left))
  {
    SliceOutside(p4, p3, icmp, icmp + 4, icmp + 4, PKT_BUFFER_SIZE);
    SliceOutside(p3, p0, 0, IP + 20, icmp + 4, PKT_BUFFER_SIZE);
    if icmp + left <= PKT_BUFFER_SIZE {
      Checksum.PaddedSumSame(p0, p3, icmp, left);
    }
  }
}
