/** The stack of nw-stack.c as one object: the 256-byte packet buffer every
    layer reads and rewrites in place, the ARP cache, the TCP connection
    table, the scheduler table the NTP retry is queued on, the addresses and
    handler settings, and the NTP request state. A handler returns the frame
    it hands to the controller, if any (the buffer's prefix and the length
    asked for), and the NTP layer returns the time it hands to the reply
    handler. The 10 ms tick is a parameter. */
module NwStack {
  import opened Bytes
  import opened Wrappers
  import Eth
  import Ip
  import ArpHeader
  import Udp
  import NtpHeader
  import TcpHeader
  import Checksum
  import Icmp
  import Reply
  import Requests
  import ArpCache
  import TcpConn
  import Task
  import opened Dispatch

  /** A frame handed to the controller: the packet buffer and the number
      of bytes asked for from its start, which may run past the buffer. */
  datatype Frame = Frame(buffer: seq<bv8>, len: nat)

  function FrameOf(p: seq<bv8>, len: nat): Frame
  {
    Frame(p, len)
  }

  /** The bytes of the buffer a frame covers. */
  function Payload(f: Frame): (s: seq<bv8>)
    ensures |s| == if f.len < |f.buffer| then f.len else |f.buffer|
  {
    f.buffer[..if f.len < |f.buffer| then f.len else |f.buffer|]
  }

  /** The ticks network_send_ntp_request and ntp_request_retry wait before
      the next attempt, and the attempts the retry task is given. */
  const NTP_RETRY_TICKS: nat := 10
  const NTP_RETRIES: nat := 20

  /** The callback number the retry task is queued with. */
  const NTP_RETRY: nat := 1

  /** The table part of tcp_process_packet on the received frame `p` with
      the TCP header at `tcp` and `left` bytes: the table `s` becomes `t`
      as TcpConn.Process says, `asked` tells whether the HTTP handler was
      asked, and `reply` is Process's reply, with the acknowledgement
      number re-read from the buffer when the handler may have overwritten
      the received header (data offset below 2) after asking it. */
  predicate SegmentHandled(p: seq<bv8>, s: seq<TcpConn.Tcb>, t: seq<TcpConn.Tcb>, tcp: nat, left: nat, now: nat,
                           replyLen: nat, reply: Option<TcpConn.Reply>, asked: bool)
    requires |p| == PKT_BUFFER_SIZE && tcp + TcpHeader.TCP_HEADER_LEN <= |p|
  {
    var g := SegmentOf(p, tcp, left);
    var o := TcpConn.Process(s, g, now, replyLen);
    t == o.0 && asked == TcpConn.Answers(s, g) && (reply.Some? <==> o.1.Some?) &&
    (reply.Some? ==> reply.value.flags == o.1.value.flags && reply.value.seqNo == o.1.value.seqNo &&
                     reply.value.len == o.1.value.len) &&
    (!asked || TcpHeader.DataOffset(p, tcp) >= 2 ==> reply == o.1)
  }

  /** What arp_process_packet did with the received frame `o`, the buffer
      now being `p`, the cache going from `c0` to `c`: what ArpActionOf
      decides, an answer sent as a 42-byte frame. */
  predicate ArpHandled(p: seq<bv8>, o: seq<bv8>, c0: seq<ArpCache.Entry>, c: seq<ArpCache.Entry>, left: nat,
                       mac: MacAddr, myIp: IpAddr, out: Option<Frame>)
    requires |p| == |o| == PKT_BUFFER_SIZE
  {
    match ArpActionOf(o, left, myIp)
    case ArpIgnore =>
      p == o && out == None && c == c0
    case ArpAnswer =>
      Reply.ArpReplied(p, o, mac, myIp) && SameOutside(p, o, 0, Requests.ARP_FRAME_LEN) &&
      out == Some(FrameOf(p, Requests.ARP_FRAME_LEN)) && c == c0
    case ArpLearn(ip, m) =>
      p == o && out == None && c == ArpCache.Resolve(c0, ip, m)
  }

  /** What icmp_process_packet did with the received frame `o`: an echo
      request of at least a header to our address is answered in place, the
      frame sent being `icmp + left` bytes in 16-bit arithmetic; anything
      else leaves the buffer alone. */
  predicate IcmpHandled(p: seq<bv8>, o: seq<bv8>, mac: MacAddr, myIp: IpAddr, icmp: nat, left: nat, out: Option<Frame>)
    requires |p| == |o| == PKT_BUFFER_SIZE && icmp + Icmp.ICMP_HEADER_LEN <= PKT_BUFFER_SIZE
  {
    var answered := left >= Icmp.ICMP_HEADER_LEN && o[icmp] == Icmp.ICMP_TYPE_ECHO_REQUEST && Ip.DstIp(o, IP) == myIp;
    (answered ==>
      SameOutside(p, o, 0, Reply.EchoEnd(icmp)) &&
      (IP + 20 <= icmp ==> Reply.EchoReplied(p, o, mac, myIp, icmp, left)) &&
      out == Some(FrameOf(p, (icmp + left) % 0x1_0000))) &&
    (!answered ==> p == o && out == None)
  }

  /** What udp_process_packet did with the received frame `p`: the NTP reply
      the stack waits for is handed to the handler (`time` is the transmit
      time it is given) and the request address `reqIp0` becomes `reqIp`,
      cleared; any other datagram changes nothing. */
  predicate UdpHandled(p: seq<bv8>, udp: nat, left: nat, reqIp0: IpAddr, handlerSet: bool, reqIp: IpAddr, time: Option<nat>)
    requires |p| == PKT_BUFFER_SIZE && udp + Udp.UDP_HEADER_LEN + NtpHeader.NTP_HEADER_LEN <= PKT_BUFFER_SIZE
  {
    var taken := ToNtp(p, udp, left) && NtpAccepts(p, udp, left - Udp.UDP_HEADER_LEN, reqIp0, handlerSet);
    (taken ==> time == Some(NtpHeader.Get(p, udp + Udp.UDP_HEADER_LEN, NtpHeader.TransmitSecs)) && reqIp == ZERO_IP) &&
    (!taken ==> time == None && reqIp == reqIp0)
  }

  /** What tcp_process_packet did with the received frame `o`, the buffer
      now being `p`, the table going from `s` to `t`, with an HTTP handler
      that answers `answer` when asked: a segment shorter than a header is
      ignored; otherwise the table moves as TcpConn.Process says and
      `reply`, Process's reply, is sent by send_reply as a frame of the
      headers and the reply length. For a segment with a complete header
      (data offset 5 or more) the frame sent is the answer to the received
      one, and an answer written by the handler is still in place behind
      the received header. */
  predicate TcpHandled(p: seq<bv8>, o: seq<bv8>, s: seq<TcpConn.Tcb>, t: seq<TcpConn.Tcb>, tcp: nat, left: nat,
                       now: nat, answer: seq<bv8>, mac: MacAddr, myIp: IpAddr, handlerSet: bool,
                       reply: Option<TcpConn.Reply>, asked: bool, out: Option<Frame>)
    requires |p| == |o| == PKT_BUFFER_SIZE && |answer| <= MAX_HTTP_REPLY
    requires tcp + MAX_TCP_HEADER_LEN + MAX_HTTP_REPLY + 1 <= PKT_BUFFER_SIZE
  {
    (left < TcpHeader.TCP_HEADER_LEN ==> p == o && t == s && reply == None && !asked && out == None) &&
    (left >= TcpHeader.TCP_HEADER_LEN ==> SegmentHandled(o, s, t, tcp, left, now, |answer|, reply, asked)) &&
    (reply.Some? ==> reply.value.flags < 64 && reply.value.len == if asked then |answer| else 0) &&
    (out.Some? <==> reply.Some?) &&
    (out.Some? ==> out.value == FrameOf(p, tcp + TcpHeader.TCP_HEADER_LEN + reply.value.len)) &&
    (reply.Some? && IP + 20 <= tcp && TcpHeader.DataOffset(o, tcp) >= 5 ==>
      Reply.TcpAnswered(p, o, tcp, mac, myIp, reply.value.flags, reply.value.ackNo, reply.value.seqNo, reply.value.len) &&
      (asked && handlerSet ==>
        p[tcp + TcpConsumed(o, tcp) .. tcp + TcpConsumed(o, tcp) + |answer|] == answer))
  }

  /** A route whose handler's headers lie inside the buffer. */
  predicate Fits(r: Route)
  {
    (r.ToIcmp? ==> r.icmp + Icmp.ICMP_HEADER_LEN <= PKT_BUFFER_SIZE) &&
    (r.ToTcp? ==> r.tcp + MAX_TCP_HEADER_LEN + MAX_HTTP_REPLY + 1 <= PKT_BUFFER_SIZE) &&
    (r.ToUdp? ==> r.udp + Udp.UDP_HEADER_LEN + NtpHeader.NTP_HEADER_LEN <= PKT_BUFFER_SIZE)
  }

  /** What ip_process_packet did with the received frame `o` on route `r`:
      a dropped packet changes nothing; otherwise the handler the route
      names did its work and nothing the other handlers own changed (the
      table `s` becomes `t`, the NTP request address `reqIp0` becomes
      `reqIp`). */
  predicate Delivered(r: Route, p: seq<bv8>, o: seq<bv8>, s: seq<TcpConn.Tcb>, t: seq<TcpConn.Tcb>,
                      reqIp0: IpAddr, reqIp: IpAddr, now: nat, answer: seq<bv8>, mac: MacAddr, myIp: IpAddr,
                      ntpSet: bool, httpSet: bool,
                      out: Option<Frame>, time: Option<nat>, reply: Option<TcpConn.Reply>, asked: bool)
    requires |p| == |o| == PKT_BUFFER_SIZE && |answer| <= MAX_HTTP_REPLY && Fits(r)
  {
    (!r.ToTcp? ==> t == s && reply == None && !asked) &&
    (!r.ToUdp? ==> reqIp == reqIp0 && time == None) &&
    match r
    case Dropped => p == o && out == None
    case ToArp(_) => false
    case ToIcmp(icmp, left) => IcmpHandled(p, o, mac, myIp, icmp, left, out)
    case ToTcp(tcp, left) => TcpHandled(p, o, s, t, tcp, left, now, answer, mac, myIp, httpSet, reply, asked, out)
    case ToUdp(udp, left) => p == o && out == None && UdpHandled(o, udp, left, reqIp0, ntpSet, reqIp, time)
  }

  class Stack {
    const pkt: array<bv8>
    const cache: ArpCache.Cache
    const tcb: TcpConn.Table
    const scheduler: Task.Scheduler

    var mac: MacAddr
    var myIp: IpAddr
    var ntpHandlerSet: bool
    var httpHandlerSet: bool
    var ntpRequestIp: IpAddr

    predicate Valid()
      reads this, cache, tcb, scheduler
    {
      pkt.Length == PKT_BUFFER_SIZE && cache.Valid() && tcb.Valid() && scheduler.Valid()
    }

    /** The static state at reset: everything zero, no handler set. */
    constructor ()
      ensures Valid() && fresh(pkt) && fresh(cache) && fresh(cache.entries) && fresh(tcb) && fresh(tcb.tcbs)
      ensures fresh(scheduler) && fresh(scheduler.tasks)
      ensures !ntpHandlerSet && !httpHandlerSet && ntpRequestIp == ZERO_IP && mac == Requests.ZERO_MAC && myIp == ZERO_IP
      ensures forall i :: 0 <= i < PKT_BUFFER_SIZE ==> pkt[i] == 0
      ensures forall i :: 0 <= i < TcpConn.MAX_TCP_CONNECTIONS ==> tcb.tcbs[i] == TcpConn.EMPTY_TCB
    {
      pkt := new bv8[PKT_BUFFER_SIZE](_ => 0);
      cache := new ArpCache.Cache();
      tcb := new TcpConn.Table();
      scheduler := new Task.Scheduler();
      mac := Requests.ZERO_MAC;
      myIp := ZERO_IP;
      ntpHandlerSet := false;
      httpHandlerSet := false;
      ntpRequestIp := ZERO_IP;
    }

    // -------------------------------------------------------------------
    // Settings
    // -------------------------------------------------------------------

    /** network_set_mac_address: the Ethernet layer's address (the copy
        into the controller is not part of this model). */
    method SetMacAddress(m: MacAddr)
      modifies this`mac
      ensures mac == m
    {
      mac := m;
    }

    /** network_set_ip_address */
    method SetIpAddress(ip: IpAddr)
      modifies this`myIp
      ensures myIp == ip
    {
      myIp := ip;
    }

    /** network_set_ntp_reply_handler: whether a handler is set. */
    method SetNtpReplyHandler(on: bool)
      modifies this`ntpHandlerSet
      ensures ntpHandlerSet == on
    {
      ntpHandlerSet := on;
    }

    /** network_set_http_request_handler: whether a handler is set. */
    method SetHttpRequestHandler(on: bool)
      modifies this`httpHandlerSet
      ensures httpHandlerSet == on
    {
      httpHandlerSet := on;
    }

    /** network_init without the controller set-up: the ARP cache is
        emptied, which makes it consistent. */
    method NetworkInit()
      requires Valid()
      modifies cache.entries
      ensures ArpCache.Consistent(cache.entries[..])
      ensures forall i :: 0 <= i < ArpCache.ARP_CACHE_SIZE ==> !cache.entries[i].alloc && !cache.entries[i].valid
    {
      cache.Init();
    }

    // -------------------------------------------------------------------
    // ARP
    // -------------------------------------------------------------------

    /** handle_arp_request: a request for our address is turned into its
        reply in place and the 42 bytes sent; any other is ignored. */
    method HandleArpRequest() returns (out: Option<Frame>)
      requires Valid()
      modifies pkt
      ensures ArpHeader.DstIpIsUs(old(pkt[..]), ARP, myIp) ==>
        Reply.ArpReplied(pkt[..], old(pkt[..]), mac, myIp) &&
        SameOutside(pkt[..], old(pkt[..]), 0, Requests.ARP_FRAME_LEN) &&
        out == Some(FrameOf(pkt[..], Requests.ARP_FRAME_LEN))
      ensures !ArpHeader.DstIpIsUs(old(pkt[..]), ARP, myIp) ==> pkt[..] == old(pkt[..]) && out == None
    {
      out := None;
      if ArpHeader.DstIpIsUs(pkt[..], ARP, myIp) {
        Reply.ArpMakeReply(pkt, mac, myIp);
        out := Some(FrameOf(pkt[..], ARP + ArpHeader.ARP_HEADER_LEN));
      }
    }

    /** handle_arp_reply: a reply to our address completes the first
        pending entry for the sender's address. */
    method HandleArpReply()
      requires Valid()
      modifies cache.entries
      ensures cache.entries[..] == if ArpHeader.DstIpIsUs(pkt[..], ARP, myIp)
        then ArpCache.Resolve(old(cache.entries[..]), ArpHeader.SrcIp(pkt[..], ARP), ArpHeader.SrcMac(pkt[..], ARP))
        else old(cache.entries[..])
    {
      if ArpHeader.DstIpIsUs(pkt[..], ARP, myIp) {
        cache.Complete(ArpHeader.SrcIp(pkt[..], ARP), ArpHeader.SrcMac(pkt[..], ARP));
      }
    }

    /** arp_process_packet with `left` bytes after the Ethernet header: it
        does what ArpActionOf decides, and the cache stays consistent. */
    method ArpProcessPacket(left: nat) returns (out: Option<Frame>)
      requires Valid()
      modifies pkt, cache.entries
      ensures ArpHandled(pkt[..], old(pkt[..]), old(cache.entries[..]), cache.entries[..], left, mac, myIp, out)
      ensures ArpCache.Consistent(old(cache.entries[..])) ==> ArpCache.Consistent(cache.entries[..])
    {
      out := None;
      if left < ArpHeader.ARP_HEADER_LEN {
        return;
      }
      if ArpHeader.Get(pkt[..], ARP, ArpHeader.Hardware) == ArpHeader.ARP_HARDWARE_ETHER &&
         ArpHeader.Get(pkt[..], ARP, ArpHeader.Protocol) == ArpHeader.ARP_PROTOCOL_IP {
        if ArpHeader.Get(pkt[..], ARP, ArpHeader.Opcode) == ArpHeader.ARP_OPCODE_REQUEST {
          out := HandleArpRequest();
        } else if ArpHeader.Get(pkt[..], ARP, ArpHeader.Opcode) == ArpHeader.ARP_OPCODE_REPLY {
          HandleArpReply();
          if ArpCache.Consistent(old(cache.entries[..])) {
            ArpCache.OperationsKeepConsistent(old(cache.entries[..]), -1, 0,
              ArpHeader.SrcIp(pkt[..], ARP), ArpHeader.SrcMac(pkt[..], ARP), 0);
          }
        }
      }
    }

    /** send_arp_request: the broadcast request for `reqIp` is built in the
        buffer and sent, and a slot chosen by arp_get_cache_slot becomes a
        pending entry for `reqIp`. The cache stays consistent. */
    method SendArpRequest(reqIp: IpAddr, now: nat) returns (f: Frame)
      requires Valid()
      modifies pkt, cache.entries
      ensures Requests.IsArpRequest(pkt[..], mac, myIp, reqIp)
      ensures pkt[Requests.ARP_FRAME_LEN..] == old(pkt[Requests.ARP_FRAME_LEN..])
      ensures f == FrameOf(pkt[..], Requests.ARP_FRAME_LEN)
      ensures cache.entries[..] ==
        ArpCache.Claim(ArpCache.AfterSlot(old(cache.entries[..]), now), ArpCache.Slot(old(cache.entries[..])), reqIp)
      ensures ArpCache.Consistent(old(cache.entries[..])) ==> ArpCache.Consistent(cache.entries[..])
    {
      Requests.FillArpRequest(pkt, mac, myIp, reqIp);
      f := FrameOf(pkt[..], Requests.ARP_FRAME_LEN);
      ghost var s0 := cache.entries[..];
      var slot := cache.GetSlot(now);
      ghost var s1 := cache.entries[..];
      cache.ClaimSlot(slot, reqIp);
      if ArpCache.Consistent(s0) {
        ArpCache.OperationsKeepConsistent(s0, -1, 0, reqIp, mac, now);
        ArpCache.OperationsKeepConsistent(s1, -1, slot, reqIp, mac, now);
      }
    }

    // -------------------------------------------------------------------
    // ICMP
    // -------------------------------------------------------------------

    /** handle_echo_request: an echo request to our address is turned into
        its reply in place and sent with the length `(icmp - eth) + left`
        in 16-bit arithmetic; any other is ignored. */
    method HandleEchoRequest(icmp: nat, left: nat) returns (out: Option<Frame>)
      requires Valid() && icmp == IP + 2 * Checksum.HdrWords(pkt[..], IP)
      modifies pkt
      ensures Ip.DstIp(old(pkt[..]), IP) == myIp ==>
        SameOutside(pkt[..], old(pkt[..]), 0, Reply.EchoEnd(icmp)) &&
        (IP + 20 <= icmp ==> Reply.EchoReplied(pkt[..], old(pkt[..]), mac, myIp, icmp, left)) &&
        out == Some(FrameOf(pkt[..], (icmp + left) % 0x1_0000))
      ensures Ip.DstIp(old(pkt[..]), IP) != myIp ==> pkt[..] == old(pkt[..]) && out == None
    {
      out := None;
      if pkt[IP + Ip.IP_DST_IP_OFFSET] == myIp[0] && pkt[IP + Ip.IP_DST_IP_OFFSET + 1] == myIp[1] &&
         pkt[IP + Ip.IP_DST_IP_OFFSET + 2] == myIp[2] && pkt[IP + Ip.IP_DST_IP_OFFSET + 3] == myIp[3] {
        assert Ip.DstIp(pkt[..], IP) == myIp;
        Reply.EchoReply(pkt, icmp, left, mac, myIp);
        out := Some(FrameOf(pkt[..], (icmp + left) % 0x1_0000));
      }
    }

    /** icmp_process_packet: a message of at least a header that is an echo
        request goes to handle_echo_request; everything else is ignored. */
    method IcmpProcessPacket(icmp: nat, left: nat) returns (out: Option<Frame>)
      requires Valid() && icmp == IP + 2 * Checksum.HdrWords(pkt[..], IP)
      modifies pkt
      ensures IcmpHandled(pkt[..], old(pkt[..]), mac, myIp, icmp, left, out)
    {
      out := None;
      if left < Icmp.ICMP_HEADER_LEN {
        return;
      }
      if pkt[icmp + Icmp.ICMP_TYPE_OFFSET] == Icmp.ICMP_TYPE_ECHO_REQUEST {
        out := HandleEchoRequest(icmp, left);
      }
    }

    // -------------------------------------------------------------------
    // UDP and NTP
    // -------------------------------------------------------------------

    /** ntp_process_packet with `left` bytes of NTP message at `udp + 8`:
        the reply to our request is handed to the handler (`time` is the
        transmit time it is given) and the request address cleared, so no
        other reply is taken. */
    method NtpProcessPacket(udp: nat, left: nat) returns (time: Option<nat>)
      requires Valid() && udp + Udp.UDP_HEADER_LEN + NtpHeader.NTP_HEADER_LEN <= PKT_BUFFER_SIZE
      modifies this`ntpRequestIp
      ensures NtpAccepts(pkt[..], udp, left, old(ntpRequestIp), ntpHandlerSet) ==>
        time == Some(NtpHeader.Get(pkt[..], udp + Udp.UDP_HEADER_LEN, NtpHeader.TransmitSecs)) &&
        ntpRequestIp == ZERO_IP
      ensures !NtpAccepts(pkt[..], udp, left, old(ntpRequestIp), ntpHandlerSet) ==>
        time == None && ntpRequestIp == old(ntpRequestIp)
    {
      time := None;
      if left < NtpHeader.NTP_HEADER_LEN {
        return;
      }
      var ntp := udp + Udp.UDP_HEADER_LEN;
      if ntpHandlerSet && Ip.SrcIp(pkt[..], IP) == ntpRequestIp &&
         Udp.Get(pkt[..], udp, Udp.SrcPort) == Udp.UDP_PORT_NTP &&
         NtpHeader.LiVnMode(pkt[..], ntp) & 0x07 == 4 {
        time := Some(NtpHeader.Get(pkt[..], ntp, NtpHeader.TransmitSecs));
        ntpRequestIp := ZERO_IP;
      }
    }

    /** udp_process_packet: a datagram to port 123 goes to the NTP layer
        with the UDP header skipped; everything else is ignored. */
    method UdpProcessPacket(udp: nat, left: nat) returns (time: Option<nat>)
      requires Valid() && udp + Udp.UDP_HEADER_LEN + NtpHeader.NTP_HEADER_LEN <= PKT_BUFFER_SIZE
      modifies this`ntpRequestIp
      ensures UdpHandled(pkt[..], udp, left, old(ntpRequestIp), ntpHandlerSet, ntpRequestIp, time)
    {
      time := None;
      if left < Udp.UDP_HEADER_LEN {
        return;
      }
      if Udp.Get(pkt[..], udp, Udp.DstPort) == Udp.UDP_PORT_NTP {
        time := NtpProcessPacket(udp, left - Udp.UDP_HEADER_LEN);
      }
    }

    /** send_sntp_request: the request frame is built and sent, and only
        the server asked may answer it. */
    method SendSntpRequest(serverMac: MacAddr, serverIp: IpAddr, now: nat) returns (f: Frame)
      requires Valid()
      modifies pkt, this`ntpRequestIp
      ensures Requests.IsSntpRequest(pkt[..], mac, serverMac, myIp, serverIp, Requests.SntpId(now))
      ensures pkt[Requests.SNTP_FRAME_LEN..] == old(pkt[Requests.SNTP_FRAME_LEN..])
      ensures ntpRequestIp == serverIp
      ensures f == FrameOf(pkt[..], Requests.SNTP_FRAME_LEN)
      ensures cache.entries[..] == old(cache.entries[..]) && scheduler.tasks[..] == old(scheduler.tasks[..])
    {
      ntpRequestIp := serverIp;
      Requests.FillSntpRequest(pkt, mac, serverMac, myIp, serverIp, now);
      f := FrameOf(pkt[..], Requests.SNTP_FRAME_LEN);
    }

    /** ntp_request_retry, the callback of the retry task, run at the tick
        `clock` for the scheduled task's `now`: with the server in the ARP cache the
        request is sent and the scheduled task ends (0); otherwise it asks to run
        again 10 ticks after `now`. */
    method NtpRequestRetry(now: nat, data: nat, clock: nat) returns (next: nat, out: Option<Frame>)
      requires Valid()
      modifies pkt, this`ntpRequestIp, cache.entries
      ensures var ip := UnpackIp((data % 0x1_0000_0000) as bv32);
        var r := ArpCache.Find(old(cache.entries[..]), ip, ArpCache.ValidOnly, 0);
        cache.entries[..] == ArpCache.Touch(old(cache.entries[..]), r, clock) &&
        (r < 0 ==> next == now + NTP_RETRY_TICKS && pkt[..] == old(pkt[..]) && out == None &&
                   ntpRequestIp == old(ntpRequestIp)) &&
        (r >= 0 ==> next == 0 && ntpRequestIp == ip &&
                    Requests.IsSntpRequest(pkt[..], mac, old(cache.entries[r]).mac, myIp, ip, Requests.SntpId(clock)) &&
                    out == Some(FrameOf(pkt[..], Requests.SNTP_FRAME_LEN)))
    {
      var ip := UnpackIp((data % 0x1_0000_0000) as bv32);
      var r := cache.Lookup(ip, clock);
      if r < 0 {
        return now + NTP_RETRY_TICKS, None;
      }
      var f := SendSntpRequest(cache.entries[r].mac, cache.entries[r].ip, clock);
      return 0, Some(f);
    }

    /** network_send_ntp_request at tick `clock`: `r` is the ARP cache
        lookup of the server. On a hit the request goes out at once; on a
        miss an ARP request is broadcast and a retry task queued. */
    method NetworkSendNtpRequest(serverIp: IpAddr, clock: nat) returns (r: int, f: Frame)
      requires Valid()
      modifies pkt, this`ntpRequestIp, cache.entries, scheduler.tasks
      ensures r == ArpCache.Find(old(cache.entries[..]), serverIp, ArpCache.ValidOnly, 0)
      ensures r >= 0 ==>
        cache.entries[..] == ArpCache.Touch(old(cache.entries[..]), r, clock) && ntpRequestIp == serverIp &&
        Requests.IsSntpRequest(pkt[..], mac, old(cache.entries[r]).mac, myIp, serverIp, Requests.SntpId(clock)) &&
        f == FrameOf(pkt[..], Requests.SNTP_FRAME_LEN) &&
        scheduler.tasks[..] == old(scheduler.tasks[..])
      ensures r < 0 ==>
        cache.entries[..] == ArpCache.Claim(ArpCache.AfterSlot(old(cache.entries[..]), clock),
                                            ArpCache.Slot(old(cache.entries[..])), serverIp) &&
        ntpRequestIp == old(ntpRequestIp) &&
        Requests.IsArpRequest(pkt[..], mac, myIp, serverIp) && f == FrameOf(pkt[..], Requests.ARP_FRAME_LEN) &&
        scheduler.tasks[..] == Task.Submitted(old(scheduler.tasks[..]), clock + NTP_RETRY_TICKS, NTP_RETRIES,
                                              NTP_RETRY, PackIp(serverIp) as nat)
      ensures ArpCache.Consistent(old(cache.entries[..])) ==> ArpCache.Consistent(cache.entries[..])
    {
      ghost var s0 := cache.entries[..];
      r := cache.Lookup(serverIp, clock);
      if ArpCache.Consistent(s0) {
        ArpCache.OperationsKeepConsistent(s0, r, 0, serverIp, mac, clock);
      }
      if r >= 0 {
        f := SendSntpRequest(cache.entries[r].mac, cache.entries[r].ip, clock);
      } else {
        f := QueueNtpRetry(serverIp, clock);
      }
    }

    /** The miss branch of network_send_ntp_request: an ARP request for the
        server is broadcast, and a retry task queued for 10 ticks later with
        20 attempts and the server address packed into its data word. */
    method QueueNtpRetry(serverIp: IpAddr, clock: nat) returns (f: Frame)
      requires Valid()
      modifies pkt, cache.entries, scheduler.tasks
      ensures cache.entries[..] == ArpCache.Claim(ArpCache.AfterSlot(old(cache.entries[..]), clock),
                                                  ArpCache.Slot(old(cache.entries[..])), serverIp)
      ensures ArpCache.Consistent(old(cache.entries[..])) ==> ArpCache.Consistent(cache.entries[..])
      ensures Requests.IsArpRequest(pkt[..], mac, myIp, serverIp) && f == FrameOf(pkt[..], Requests.ARP_FRAME_LEN)
      ensures scheduler.tasks[..] == Task.Submitted(old(scheduler.tasks[..]), clock + NTP_RETRY_TICKS, NTP_RETRIES,
                                                    NTP_RETRY, PackIp(serverIp) as nat)
    {
      scheduler.Submit(clock + NTP_RETRY_TICKS, NTP_RETRIES, NTP_RETRY, PackIp(serverIp) as nat);
      f := SendArpRequest(serverIp, clock);
    }

    // -------------------------------------------------------------------
    // TCP
    // -------------------------------------------------------------------

    /** tcp_expire_connections at the tick `clock`. */
    method TcpExpireConnections(clock: nat)
      requires Valid()
      modifies tcb.tcbs
      ensures forall i :: 0 <= i < TcpConn.MAX_TCP_CONNECTIONS ==> tcb.tcbs[i] == TcpConn.Expired(old(tcb.tcbs[i]), clock)
    {
      tcb.Expire(clock);
    }

    /** send_reply for the reply `r` to the segment whose TCP header is at
        `tcp`: the frame is turned into the reply in place and
        `(tcp - eth) + 20 + len` bytes, in 16-bit arithmetic, are sent. */
    method SendReply(tcp: nat, r: TcpConn.Reply) returns (f: Frame)
      requires Valid() && r.flags < 64 && Reply.ReplyFits(pkt, tcp, r.len)
      requires IP + 20 <= tcp ==> tcp == IP + 2 * Checksum.HdrWords(pkt[..], IP)
      modifies pkt
      ensures SameOutside(pkt[..], old(pkt[..]), 0, Reply.ReplyEnd(tcp))
      ensures IP + 20 <= tcp ==>
        Reply.TcpAnswered(pkt[..], old(pkt[..]), tcp, mac, myIp, r.flags, r.ackNo, r.seqNo, r.len)
      ensures f == FrameOf(pkt[..], tcp + TcpHeader.TCP_HEADER_LEN + r.len)
    {
      Reply.TcpReply(pkt, tcp, mac, myIp, r.flags, r.ackNo, r.seqNo, r.len);
      f := FrameOf(pkt[..], tcp + TcpHeader.TCP_HEADER_LEN + r.len);
    }

    /** tcp_process_packet from the skipped header to the state switch, for
        the segment at `tcp` with `left` bytes: the table moves as
        TcpConn.Process says, and when the segment reaches the HTTP handler
        (`asked`) and one is set, the handler writes `answer` behind the
        received header. The reply's acknowledgement number re-reads the
        sequence number from the buffer after that write, so it is
        Process's own unless the handler overwrote the header. */
    method TcpSegment(tcp: nat, left: nat, now: nat, answer: seq<bv8>) returns (reply: Option<TcpConn.Reply>, asked: bool)
      requires Valid() && tcp + MAX_TCP_HEADER_LEN + |answer| <= PKT_BUFFER_SIZE
      modifies pkt, tcb.tcbs
      ensures SegmentHandled(old(pkt[..]), old(tcb.tcbs[..]), tcb.tcbs[..], tcp, left, now, |answer|, reply, asked)
      ensures asked ==>
        reply.Some? &&
        reply.value.ackNo == TcpConn.Add32(TcpHeader.Get32(pkt[..], tcp, TcpHeader.SeqNo), SegmentOf(old(pkt[..]), tcp, left).left)
      ensures reply.Some? ==> reply.value.flags < 64 && reply.value.len == if asked then |answer| else 0
      ensures var at := tcp + TcpConsumed(old(pkt[..]), tcp);
        SameOutside(pkt[..], old(pkt[..]), at, at + |answer|) &&
        (asked && httpHandlerSet ==> pkt[at .. at + |answer|] == answer) &&
        (!(asked && httpHandlerSet) ==> pkt[..] == old(pkt[..]))
    {
      ghost var p0 := pkt[..];
      ghost var s0 := tcb.tcbs[..];
      var g := SegmentOf(pkt[..], tcp, left);
      reply, asked := tcb.ProcessSegment(g, now, |answer|);
      var at := tcp + TcpConsumed(pkt[..], tcp);
      if asked && httpHandlerSet {
        CopyInto(pkt, at, answer);
      }
      if asked {
        reply := Some(reply.value.(ackNo := TcpConn.Add32(TcpHeader.Get32(pkt[..], tcp, TcpHeader.SeqNo), g.left)));
        if TcpHeader.DataOffset(p0, tcp) >= 2 {
          Read4Outside(pkt[..], p0, at, at + |answer|, tcp + 4);
        }
      }
    }

    /** The send_reply call of tcp_process_packet for the reply `r` to the
        frame `o`, which the HTTP handler may have changed at `at` (behind
        the received header) into the buffer's present contents: the frame
        sent is the answer to `o`, and what the handler wrote stays. */
    method AnswerSegment(tcp: nat, r: TcpConn.Reply, ghost o: seq<bv8>, ghost at: nat, ghost answer: seq<bv8>)
      returns (f: Frame)
      requires Valid() && r.flags < 64 && Reply.ReplyFits(pkt, tcp, r.len) && |o| == PKT_BUFFER_SIZE
      requires tcp <= at && at + |answer| <= PKT_BUFFER_SIZE && SameOutside(pkt[..], o, at, at + |answer|)
      requires IP + 20 <= tcp ==> tcp == IP + 2 * Checksum.HdrWords(o, IP)
      modifies pkt
      ensures f == FrameOf(pkt[..], tcp + TcpHeader.TCP_HEADER_LEN + r.len)
      ensures IP + 20 <= tcp && tcp + 20 <= at ==>
        Reply.TcpAnswered(pkt[..], o, tcp, mac, myIp, r.flags, r.ackNo, r.seqNo, r.len) &&
        (old(pkt[at .. at + |answer|]) == answer ==> pkt[at .. at + |answer|] == answer)
    {
      ghost var p1 := pkt[..];
      if IP + 20 <= tcp {
        assert p1[IP] == o[IP];
      }
      f := SendReply(tcp, r);
      if IP + 20 <= tcp && tcp + 20 <= at {
        Reply.AnsweredAcrossWrite(pkt[..], p1, o, at, answer, tcp, mac, myIp, r.flags, r.ackNo, r.seqNo, r.len);
      }
    }

    /** tcp_process_packet for the segment at `tcp` with `left` bytes, of
        which the HTTP handler, if asked, answers `answer`. */
    method TcpProcessPacket(tcp: nat, left: nat, now: nat, answer: seq<bv8>)
      returns (reply: Option<TcpConn.Reply>, asked: bool, out: Option<Frame>)
      requires Valid() && tcp == IP + 2 * Checksum.HdrWords(pkt[..], IP)
      requires tcp + MAX_TCP_HEADER_LEN + MAX_HTTP_REPLY + 1 <= PKT_BUFFER_SIZE && |answer| <= MAX_HTTP_REPLY
      modifies pkt, tcb.tcbs
      ensures TcpHandled(pkt[..], old(pkt[..]), old(tcb.tcbs[..]), tcb.tcbs[..], tcp, left, now, answer, mac, myIp,
                         httpHandlerSet, reply, asked, out)
    {
      reply, asked, out := None, false, None;
      if left < TcpHeader.TCP_HEADER_LEN {
        return;
      }
      reply, asked, out := ProcessFullSegment(tcp, left, now, answer);
    }

    /** tcp_process_packet once the segment holds a whole header: the state
        step, the handler's answer and the reply sent. */
    method ProcessFullSegment(tcp: nat, left: nat, now: nat, answer: seq<bv8>)
      returns (reply: Option<TcpConn.Reply>, asked: bool, out: Option<Frame>)
      requires Valid() && tcp == IP + 2 * Checksum.HdrWords(pkt[..], IP) && left >= TcpHeader.TCP_HEADER_LEN
      requires tcp + MAX_TCP_HEADER_LEN + MAX_HTTP_REPLY + 1 <= PKT_BUFFER_SIZE && |answer| <= MAX_HTTP_REPLY
      modifies pkt, tcb.tcbs
      ensures TcpHandled(pkt[..], old(pkt[..]), old(tcb.tcbs[..]), tcb.tcbs[..], tcp, left, now, answer, mac, myIp,
                         httpHandlerSet, reply, asked, out)
    {
      out := None;
      ghost var p0 := pkt[..];
      ghost var at := tcp + TcpConsumed(p0, tcp);
      reply, asked := TcpSegment(tcp, left, now, answer);
      if reply.None? {
        return;
      }
      var f := AnswerSegment(tcp, reply.value, p0, at, answer);
      out := Some(f);
    }

    // -------------------------------------------------------------------
    // Ethernet and IP
    // -------------------------------------------------------------------

    /** ip_process_packet with `left` bytes after the Ethernet header: the
        packet goes where IpRoute sends it. */
    method IpProcessPacket(left: nat, now: nat, answer: seq<bv8>)
      returns (out: Option<Frame>, time: Option<nat>, reply: Option<TcpConn.Reply>, asked: bool)
      requires Valid() && |answer| <= MAX_HTTP_REPLY
      modifies pkt, tcb.tcbs, this`ntpRequestIp
      ensures Delivered(IpRoute(old(pkt[..]), left), pkt[..], old(pkt[..]), old(tcb.tcbs[..]), tcb.tcbs[..],
                        old(ntpRequestIp), ntpRequestIp, now, answer, mac, myIp, ntpHandlerSet, httpHandlerSet,
                        out, time, reply, asked)
    {
      out, time, reply, asked := None, None, None, false;
      var r := IpRoute(pkt[..], left);
      match r {
        case Dropped =>
        case ToArp(_) =>
        case ToIcmp(icmp, rest) =>
          out := IcmpProcessPacket(icmp, rest);
        case ToTcp(tcp, rest) =>
          reply, asked, out := TcpProcessPacket(tcp, rest, now, answer);
        case ToUdp(udp, rest) =>
          time := UdpProcessPacket(udp, rest);
      }
    }

    /** eth_process_packet on a received frame of `bytes` bytes: it goes to
        the ARP layer or the IP layer as RouteOf says, and the ARP cache
        stays consistent. */
    method EthProcessPacket(bytes: nat, now: nat, answer: seq<bv8>)
      returns (out: Option<Frame>, time: Option<nat>, reply: Option<TcpConn.Reply>, asked: bool)
      requires Valid() && |answer| <= MAX_HTTP_REPLY
      modifies pkt, cache.entries, tcb.tcbs, this`ntpRequestIp
      ensures var r := RouteOf(old(pkt[..]), bytes);
        r.ToArp? ==>
          ArpHandled(pkt[..], old(pkt[..]), old(cache.entries[..]), cache.entries[..], r.left, mac, myIp, out) &&
          tcb.tcbs[..] == old(tcb.tcbs[..]) && ntpRequestIp == old(ntpRequestIp) &&
          time == None && reply == None && !asked
      ensures var r := RouteOf(old(pkt[..]), bytes);
        !r.ToArp? ==>
          cache.entries[..] == old(cache.entries[..]) &&
          Delivered(r, pkt[..], old(pkt[..]), old(tcb.tcbs[..]), tcb.tcbs[..],
                    old(ntpRequestIp), ntpRequestIp, now, answer, mac, myIp, ntpHandlerSet, httpHandlerSet,
                    out, time, reply, asked)
      ensures ArpCache.Consistent(old(cache.entries[..])) ==> ArpCache.Consistent(cache.entries[..])
    {
      out, time, reply, asked := None, None, None, false;
      if bytes < Eth.ETH_HEADER_LEN {
        return;
      }
      if Eth.EthType(pkt[..], 0) == Eth.ETH_PROTOCOL_IP {
        out, time, reply, asked := IpProcessPacket(bytes - Eth.ETH_HEADER_LEN, now, answer);
      } else if Eth.EthType(pkt[..], 0) == Eth.ETH_PROTOCOL_ARP {
        out := ArpProcessPacket(bytes - Eth.ETH_HEADER_LEN);
      }
    }
  }
}
