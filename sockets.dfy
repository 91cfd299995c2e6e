/** The socket table of nw-stack2.c: four sockets, each a protocol, the
    local and remote ends, a state code, a callback and a timestamp. A
    socket is allocated from the lowest free slot, bound or connected,
    asked for its state, and closed; a connection resolves the remote
    address through the ARP cache, which in this variant accepts pending
    entries too, so each address is asked for once. The TCP state codes are
    kept by the table, whose TIME-WAIT sockets expire after 30 seconds.
    Callbacks are identified by number (0 for none); the 10 ms tick is a
    parameter. */
module Sockets {
  import opened Bytes
  import opened Wrappers
  import ArpCache
  import ArpHeader
  import Requests
  import NwStack
  import Dispatch

  const MAX_SOCKETS: nat := 4

  /** Socket states. */
  const S_UNALLOC: nat := 0
  const S_IDLE: nat := 1
  const S_ARPWAIT: nat := 2
  const S_TCP_LISTEN: nat := 3
  const S_TCP_CLOSED: nat := 4
  const S_TCP_SYNRCVD: nat := 5
  const S_TCP_SYNSENT: nat := 6
  const S_TCP_ESTABLISHED: nat := 7
  const S_TCP_FINWAIT1: nat := 8
  const S_TCP_FINWAIT2: nat := 9
  const S_TCP_CLOSING: nat := 10
  const S_TCP_TIMEWAIT: nat := 11
  const S_TCP_CLOSEWAIT: nat := 12
  const S_TCP_LASTACK: nat := 13

  /** Error results. */
  const EINVAL: int := -1
  const ENOSOCK: int := -2
  const ENOTREADY: int := -3
  const ENOTYET: int := -4

  /** Protocols. */
  const P_UDP: nat := 1
  const P_TCP: nat := 2

  /** What sock_state reports. */
  const SS_CLOSED: nat := 0
  const SS_INPROGRESS: nat := 1
  const SS_READY: nat := 2
  const SS_UNREACH: nat := 3

  /** The first local port sock_connect hands out; socket `s` gets this plus `s`. */
  const EPHEMERAL_PORT_BASE: nat := 16384

  /** Ticks a socket stays in TIME-WAIT: 30 seconds of 10 ms. */
  const TIME_WAIT_TICKS: nat := 3000

  datatype Socket = Socket(protocol: nat, localPort: nat, remoteIp: IpAddr, remotePort: nat,
                           state: nat, callback: nat, timestamp: nat)

  /** A socket with every field zero: free. */
  const FREE_SOCKET := Socket(0, 0, ZERO_IP, 0, S_UNALLOC, 0, 0)

  // ---------------------------------------------------------------------
  // Specification functions
  // ---------------------------------------------------------------------

  /** The first free slot at or after `i`, or -1. */
  function FirstFree(s: seq<Socket>, i: nat): (r: int)
    requires i <= |s|
    ensures r == -1 || (i <= r < |s| && s[r].state == S_UNALLOC)
    ensures forall j :: i <= j < |s| && (r == -1 || j < r) ==> s[j].state != S_UNALLOC
    decreases |s| - i
  {
    if i == |s| then -1
    else if s[i].state == S_UNALLOC then i
    else FirstFree(s, i + 1)
  }

  /** The report sock_state gives for a state code. */
  function Report(state: nat): nat
  {
    if state in {S_UNALLOC, S_TCP_CLOSED, S_TCP_FINWAIT1, S_TCP_FINWAIT2, S_TCP_CLOSING,
                 S_TCP_TIMEWAIT, S_TCP_CLOSEWAIT, S_TCP_LASTACK} then SS_CLOSED
    else if state in {S_ARPWAIT, S_TCP_SYNRCVD, S_TCP_SYNSENT} then SS_INPROGRESS
    else if state in {S_IDLE, S_TCP_LISTEN, S_TCP_ESTABLISHED} then SS_READY
    else SS_UNREACH
  }

  /** A socket after tcp_expire_connections at tick `clock`. */
  function Expired(k: Socket, clock: nat): Socket
  {
    if k.state == S_TCP_TIMEWAIT && clock >= k.timestamp + TIME_WAIT_TICKS then k.(state := S_TCP_LISTEN) else k
  }

  /** The state handle_arp_reply evidently meant to give a socket waiting
      for the address just resolved. */
  function Woken(k: Socket): nat
  {
    if k.protocol == P_UDP then S_IDLE else S_TCP_LISTEN
  }

  /** The table after a reply resolved `ip`, as handle_arp_reply evidently
      meant it: every socket waiting for `ip` moves on. */
  function Wake(s: seq<Socket>, ip: IpAddr): (t: seq<Socket>)
    ensures |t| == |s|
  {
    if s == [] then []
    else
      var k := s[0];
      [if k.state == S_ARPWAIT && k.remoteIp == ip then k.(state := Woken(k)) else k] + Wake(s[1..], ip)
  }

  // ---------------------------------------------------------------------
  // Properties of the specification
  // ---------------------------------------------------------------------

  /** sock_state sorts the fourteen defined codes into closed, in progress
      and ready, and reports "unreachable" for nothing but an undefined
      code; a socket is ready exactly when it is idle, listening or
      established. */
  lemma ReportCases(state: nat)
    ensures Report(state) == SS_UNREACH <==> state > S_TCP_LASTACK
    ensures Report(state) == SS_READY <==> state == S_IDLE || state == S_TCP_LISTEN || state == S_TCP_ESTABLISHED
    ensures Report(state) == SS_INPROGRESS <==> state == S_ARPWAIT || state == S_TCP_SYNRCVD || state == S_TCP_SYNSENT
    ensures Report(state) <= SS_UNREACH
  {
    if state <= S_TCP_LASTACK {
      assert state in {0, 1, 2, 3, 4, 5, 6, 7, 8, 9, 10, 11, 12, 13};
    }
  }

  /** Expiry moves exactly the TIME-WAIT sockets whose 30 seconds are up to
      LISTEN, and changes nothing else about them. */
  lemma ExpiryMovesOnlyDueTimeWait(k: Socket, clock: nat)
    ensures Expired(k, clock) != k <==> k.state == S_TCP_TIMEWAIT && clock >= k.timestamp + TIME_WAIT_TICKS
    ensures Expired(k, clock) == k.(state := Expired(k, clock).state)
    ensures Expired(k, clock).state == S_TCP_LISTEN || Expired(k, clock) == k
  {
  }

  /** Waking changes the state of exactly the sockets waiting for `ip`, to
      idle for UDP and to LISTEN otherwise, and nothing else. */
  lemma {:induction false} WakeMovesOnlyWaiting(s: seq<Socket>, ip: IpAddr, i: nat)
    requires i < |s|
    ensures Wake(s, ip)[i] == if s[i].state == S_ARPWAIT && s[i].remoteIp == ip then s[i].(state := Woken(s[i])) else s[i]
    ensures s[i].state == S_ARPWAIT && s[i].remoteIp == ip ==> Report(Wake(s, ip)[i].state) == SS_READY
  {
    if i > 0 {
      WakeMovesOnlyWaiting(s[1..], ip, i - 1);
    }
  }

  /** As written, handle_arp_reply compares a waiting socket's state
      instead of assigning it, so a socket that waits for the address just
      resolved keeps reporting "in progress", where waking would report it
      ready. */
  lemma ReplyLeavesSocketWaiting(s: seq<Socket>, ip: IpAddr, i: nat)
    requires i < |s| && s[i].state == S_ARPWAIT && s[i].remoteIp == ip
    ensures Report(s[i].state) == SS_INPROGRESS
    ensures Report(Wake(s, ip)[i].state) == SS_READY
  {
    WakeMovesOnlyWaiting(s, ip, i);
  }

  // ---------------------------------------------------------------------
  // The socket table
  // ---------------------------------------------------------------------

  /** The socket table together with the stack whose ARP cache and packet
      buffer address resolution uses. */
  class Table {
    const sockets: array<Socket>
    const stack: NwStack.Stack

    predicate Valid()
      reads this, stack, stack.cache, stack.tcb, stack.scheduler
    {
      sockets.Length == MAX_SOCKETS && stack.Valid()
    }

    /** The static table: every socket free. */
    constructor (st: NwStack.Stack)
      requires st.Valid()
      ensures Valid() && stack == st && fresh(sockets)
      ensures forall i :: 0 <= i < MAX_SOCKETS ==> sockets[i] == FREE_SOCKET
    {
      sockets := new Socket[MAX_SOCKETS](_ => FREE_SOCKET);
      stack := st;
    }

    /** alloc_socket: the lowest free slot has its fields cleared (its state
        stays free) and is returned; with none free the result is ENOSOCK
        and nothing changes. */
    method AllocSocket() returns (r: int)
      requires Valid()
      modifies sockets
      ensures r == ENOSOCK || 0 <= r < MAX_SOCKETS
      ensures r == ENOSOCK <==> forall i :: 0 <= i < MAX_SOCKETS ==> old(sockets[i]).state != S_UNALLOC
      ensures r >= 0 ==> r == FirstFree(old(sockets[..]), 0)
      ensures r >= 0 ==> sockets[..] == old(sockets[..])[r := FREE_SOCKET]
      ensures r < 0 ==> sockets[..] == old(sockets[..])
    {
      var s := 0;
      while s < MAX_SOCKETS
        invariant 0 <= s <= MAX_SOCKETS
        invariant sockets[..] == old(sockets[..])
        invariant FirstFree(sockets[..], s) == FirstFree(sockets[..], 0)
      {
        if sockets[s].state == S_UNALLOC {
          sockets[s] := sockets[s].(protocol := 0, localPort := 0, remoteIp := ZERO_IP, remotePort := 0,
                                    callback := 0, timestamp := 0);
          return s;
        }
        s := s + 1;
      }
      return ENOSOCK;
    }

    /** sock_bind: a free socket becomes idle with the protocol, the local
        port and the callback given; with none free the result is ENOSOCK
        and nothing changes. */
    method Bind(protocol: nat, localPort: nat, fn: nat) returns (r: int)
      requires Valid()
      modifies sockets
      ensures r == ENOSOCK <==> forall i :: 0 <= i < MAX_SOCKETS ==> old(sockets[i]).state != S_UNALLOC
      ensures r >= 0 ==>
        r == FirstFree(old(sockets[..]), 0) &&
        sockets[..] == old(sockets[..])[r := FREE_SOCKET.(protocol := protocol, localPort := localPort,
                                                         callback := fn, state := S_IDLE)]
      ensures r < 0 ==> r == ENOSOCK && sockets[..] == old(sockets[..])
    {
      r := AllocSocket();
      if r < 0 {
        return;
      }
      sockets[r] := sockets[r].(protocol := protocol, localPort := localPort, callback := fn);
      sockets[r] := sockets[r].(state := S_IDLE);
    }

    /** arp_resolve_ip_address of nw-stack2.c: 0 when the cache holds a
        valid entry for `ip`; otherwise 1, and an ARP request is sent (and a
        slot claimed) only when the cache holds no entry at all for `ip`,
        pending or valid. The lookup stamps the entry it finds. */
    method ArpResolve(ip: IpAddr, now: nat) returns (r: nat, out: Option<NwStack.Frame>)
      requires Valid()
      modifies stack.pkt, stack.cache.entries
      ensures var c := old(stack.cache.entries[..]); var k := ArpCache.Find(c, ip, ArpCache.Allocated, 0);
        (r == 0 <==> k >= 0 && c[k].valid) &&
        (k >= 0 ==> out == None && stack.pkt[..] == old(stack.pkt[..]) &&
                    stack.cache.entries[..] == ArpCache.Touch(c, k, now)) &&
        (k < 0 ==> out.Some? && Requests.IsArpRequest(stack.pkt[..], stack.mac, stack.myIp, ip) &&
                   out.value == NwStack.FrameOf(stack.pkt[..], Requests.ARP_FRAME_LEN) &&
                   stack.cache.entries[..] == ArpCache.Claim(ArpCache.AfterSlot(c, now), ArpCache.Slot(c), ip))
      ensures r <= 1
      ensures ArpCache.Consistent(old(stack.cache.entries[..])) && ArpCache.UniqueAllocated(old(stack.cache.entries[..])) ==>
        ArpCache.Consistent(stack.cache.entries[..]) && ArpCache.UniqueAllocated(stack.cache.entries[..])
      ensures ArpCache.Find(stack.cache.entries[..], ip, ArpCache.Allocated, 0) >= 0
    {
      ghost var c := stack.cache.entries[..];
      var k := stack.cache.LookupAllocated(ip, now);
      out := None;
      if k >= 0 {
        ArpCache.TouchKeepsLookups(c, k, now, ip, ArpCache.Allocated, 0);
        if ArpCache.Consistent(c) {
          ArpCache.OperationsKeepConsistent(c, k, 0, ip, Requests.ZERO_MAC, now);
        }
        if stack.cache.entries[k].valid {
          return 0, None;
        }
        return 1, None;
      }
      var f := stack.SendArpRequest(ip, now);
      if ArpCache.Consistent(c) && ArpCache.UniqueAllocated(c) {
        ArpCache.ResolveIsSingleFlight(c, ip, now);
      }
      ArpCache.ClaimFinds(ArpCache.AfterSlot(c, now), ArpCache.Slot(c), ip);
      return 1, Some(f);
    }

    /** sock_connect: a free socket takes the protocol, the remote end, the
        callback and the local port 16384 plus its index; it is idle when
        arp_resolve_ip_address finds the remote address resolved, and
        otherwise waits for ARP, stamped with the tick. A TCP connection
        reports ENOTYET but keeps its socket. With no free socket the result
        is ENOSOCK and nothing changes. */
    method Connect(protocol: nat, remotePort: nat, remoteIp: IpAddr, fn: nat, now: nat)
      returns (r: int, out: Option<NwStack.Frame>)
      requires Valid()
      modifies sockets, stack.pkt, stack.cache.entries
      ensures var n := FirstFree(old(sockets[..]), 0);
        n < 0 ==>
          r == ENOSOCK && out == None && sockets[..] == old(sockets[..]) &&
          stack.pkt[..] == old(stack.pkt[..]) && stack.cache.entries[..] == old(stack.cache.entries[..])
      ensures var n := FirstFree(old(sockets[..]), 0);
        var c := old(stack.cache.entries[..]); var k := ArpCache.Find(c, remoteIp, ArpCache.Allocated, 0);
        var ready := k >= 0 && c[k].valid;
        n >= 0 ==>
          sockets[..] == old(sockets[..])[n := Socket(protocol, EPHEMERAL_PORT_BASE + n, remoteIp, remotePort,
                                                      if ready then S_IDLE else S_ARPWAIT, fn, if ready then 0 else now)] &&
          (protocol == P_TCP ==> r == ENOTYET) &&
          (out.Some? <==> k < 0) &&
          stack.cache.entries[..] ==
            if k >= 0 then ArpCache.Touch(c, k, now)
            else ArpCache.Claim(ArpCache.AfterSlot(c, now), ArpCache.Slot(c), remoteIp)
    {
      out := None;
      var s := AllocSocket();
      if s < 0 {
        return s, None;
      }
      sockets[s] := sockets[s].(protocol := protocol, localPort := EPHEMERAL_PORT_BASE + s, remoteIp := remoteIp,
                                remotePort := remotePort, callback := fn);
      var pending;
      pending, out := ArpResolve(remoteIp, now);
      if pending != 0 {
        sockets[s] := sockets[s].(state := S_ARPWAIT, timestamp := now);
      } else {
        sockets[s] := sockets[s].(state := S_IDLE);
      }
      if protocol == P_TCP {
        return ENOTYET, out;
      }
      return s, out;
    }

    /** sock_state: CLOSED for a handle outside the table, otherwise what
        the socket's state code reports. */
    function SockState(s: int): (r: nat)
      requires Valid()
      reads this, stack, stack.cache, stack.tcb, stack.scheduler, sockets
      ensures r <= SS_UNREACH
      ensures r == SS_UNREACH ==> 0 <= s < MAX_SOCKETS && sockets[s].state > S_TCP_LASTACK
      ensures r == SS_READY <==>
        0 <= s < MAX_SOCKETS && sockets[s].state in {S_IDLE, S_TCP_LISTEN, S_TCP_ESTABLISHED}
      ensures !(0 <= s < MAX_SOCKETS) ==> r == SS_CLOSED
    {
      if s < 0 || s >= MAX_SOCKETS then SS_CLOSED
      else
        ReportCases(sockets[s].state);
        Report(sockets[s].state)
    }

    /** sock_send: EINVAL for a handle outside the table or a free socket,
        ENOTREADY for a socket that is not idle; nothing changes. */
    method Send(s: int, data: bv8) returns (r: int)
      requires Valid()
      ensures r == EINVAL <==> !(0 <= s < MAX_SOCKETS) || sockets[s].state == S_UNALLOC
      ensures r == ENOTREADY <==> 0 <= s < MAX_SOCKETS && sockets[s].state != S_UNALLOC && sockets[s].state != S_IDLE
      ensures r == 0 <==> 0 <= s < MAX_SOCKETS && sockets[s].state == S_IDLE
    {
      if s < 0 || s >= MAX_SOCKETS || sockets[s].state == S_UNALLOC {
        return EINVAL;
      }
      if sockets[s].state != S_IDLE {
        return ENOTREADY;
      }
      return 0;
    }

    /** sock_close: EINVAL, and nothing changes, for a handle outside the
        table or a free socket; otherwise the socket is cleared and free
        again, and the result is 0. */
    method Close(s: int) returns (r: int)
      requires Valid()
      modifies sockets
      ensures r == EINVAL <==> !(0 <= s < MAX_SOCKETS) || old(sockets[s]).state == S_UNALLOC
      ensures r == EINVAL ==> sockets[..] == old(sockets[..])
      ensures r != EINVAL ==> r == 0 && sockets[..] == old(sockets[..])[s := FREE_SOCKET]
    {
      if s < 0 || s >= MAX_SOCKETS {
        return EINVAL;
      }
      if sockets[s].state == S_UNALLOC {
        return EINVAL;
      }
      sockets[s] := FREE_SOCKET;
      return 0;
    }

    /** tcp_expire_connections of nw-stack2.c: every socket becomes what
        Expired says at tick `clock`. */
    method ExpireConnections(clock: nat)
      requires Valid()
      modifies sockets
      ensures forall i :: 0 <= i < MAX_SOCKETS ==> sockets[i] == Expired(old(sockets[i]), clock)
    {
      var s := 0;
      while s < MAX_SOCKETS
        invariant 0 <= s <= MAX_SOCKETS
        invariant forall i :: 0 <= i < s ==> sockets[i] == Expired(old(sockets[i]), clock)
        invariant forall i :: s <= i < MAX_SOCKETS ==> sockets[i] == old(sockets[i])
      {
        if sockets[s].state == S_TCP_TIMEWAIT && clock >= sockets[s].timestamp + TIME_WAIT_TICKS {
          sockets[s] := sockets[s].(state := S_TCP_LISTEN);
        }
        s := s + 1;
      }
    }

    /** handle_arp_reply of nw-stack2.c as written: a reply to us completes
        the sender's pending cache entry; the socket update it then runs
        compares states instead of assigning them, so no socket changes. */
    method HandleArpReply()
      requires Valid()
      modifies stack.cache.entries
      ensures stack.cache.entries[..] ==
        if ArpHeader.DstIpIsUs(stack.pkt[..], Dispatch.ARP, stack.myIp)
        then ArpCache.Resolve(old(stack.cache.entries[..]), ArpHeader.SrcIp(stack.pkt[..], Dispatch.ARP),
                              ArpHeader.SrcMac(stack.pkt[..], Dispatch.ARP))
        else old(stack.cache.entries[..])
      ensures sockets[..] == old(sockets[..])
    {
      stack.HandleArpReply();
    }

    /** handle_arp_reply as evidently intended: the cache is completed as
        above, and every socket waiting for the sender's address moves on
        when its entry was completed. */
    method HandleArpReplyWaking()
      requires Valid()
      modifies stack.cache.entries, sockets
      ensures var c := old(stack.cache.entries[..]); var ip := ArpHeader.SrcIp(stack.pkt[..], Dispatch.ARP);
        var done := ArpHeader.DstIpIsUs(stack.pkt[..], Dispatch.ARP, stack.myIp) &&
                    ArpCache.Find(c, ip, ArpCache.PendingOnly, 0) >= 0;
        sockets[..] == (if done then Wake(old(sockets[..]), ip) else old(sockets[..]))
      ensures stack.cache.entries[..] ==
        if ArpHeader.DstIpIsUs(stack.pkt[..], Dispatch.ARP, stack.myIp)
        then ArpCache.Resolve(old(stack.cache.entries[..]), ArpHeader.SrcIp(stack.pkt[..], Dispatch.ARP),
                              ArpHeader.SrcMac(stack.pkt[..], Dispatch.ARP))
        else old(stack.cache.entries[..])
    {
      var ip := ArpHeader.SrcIp(stack.pkt[..], Dispatch.ARP);
      var done := ArpHeader.DstIpIsUs(stack.pkt[..], Dispatch.ARP, stack.myIp) &&
                  ArpCache.Find(stack.cache.entries[..], ip, ArpCache.PendingOnly, 0) >= 0;
      stack.HandleArpReply();
      if !done {
        return;
      }
      var s := 0;
      while s < MAX_SOCKETS
        modifies sockets
        invariant 0 <= s <= MAX_SOCKETS
        invariant forall i :: 0 <= i < s ==> sockets[i] == Wake(old(sockets[..]), ip)[i]
        invariant forall i :: s <= i < MAX_SOCKETS ==> sockets[i] == old(sockets[i])
      {
        WakeMovesOnlyWaiting(old(sockets[..]), ip, s);
        if sockets[s].state == S_ARPWAIT && sockets[s].remoteIp == ip {
          sockets[s] := sockets[s].(state := Woken(sockets[s]));
        }
        s := s + 1;
      }
    }
  }
}
