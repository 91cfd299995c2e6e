/** The TCP connection table of nw-stack.c: four control blocks serving
    HTTP on port 80 with a reduced form of the state machine of section 3.2
    of RFC 793. A block in LISTEN is free; the first segment of a connection
    claims one, and TIME-WAIT blocks return to LISTEN once `msl2` passes. */
module TcpConn {
  import opened Bytes
  import opened Wrappers
  import TcpHeader

  const MAX_TCP_CONNECTIONS: nat := 4
  const HTTP_PORT: nat := 80
  /** 30 seconds of 10 ms ticks. */
  const MSL2_TICKS: nat := 3000
  const SEQ_MOD: nat := 0x1_0000_0000

  const FIN: bv8 := TcpHeader.TCP_FLAG_FIN
  const SYN: bv8 := TcpHeader.TCP_FLAG_SYN
  const RST: bv8 := TcpHeader.TCP_FLAG_RST
  const ACK: bv8 := TcpHeader.TCP_FLAG_ACK

  /** The state codes 0x00 .. 0x0b; CLOSED, SYN-SENT and CLOSE-WAIT are
      declared but never entered. */
  datatype State =
    | Listen | Closed | SynRcvd | SynSent | Established
    | FinWait1 | FinWait2 | Closing | TimeWait | CloseWait | LastAck

  datatype Tcb = Tcb(localPort: nat, remoteIp: IpAddr, remotePort: nat, state: State, seqno: nat, msl2: nat)

  /** The zero-filled static block: LISTEN, all fields 0. */
  const EMPTY_TCB: Tcb := Tcb(0, ZERO_IP, 0, Listen, 0, 0)

  /** What a received segment carries that the table looks at: its ports,
      the sender's address, its flags (`TCP_GET_FLAGS`), its sequence number
      and the length of its data. */
  datatype Segment = Segment(srcIp: IpAddr, srcPort: nat, dstPort: nat, flags: bv8, seqNo: nat, left: nat)

  /** A segment to send back: flags, acknowledgement and sequence number,
      and the length of the data it carries. */
  datatype Reply = Reply(flags: bv8, ackNo: nat, seqNo: nat, len: nat)

  // ---------------------------------------------------------------------
  // Finding the block of a segment
  // ---------------------------------------------------------------------

  /** The block already serving the segment's connection. */
  predicate Serves(t: Tcb, g: Segment)
  {
    t.state != Listen && t.localPort == g.dstPort && t.remotePort == g.srcPort && t.remoteIp == g.srcIp
  }

  /** The first index at or after `i` whose block serves the segment, or -1.
      A LISTEN block is never taken for an existing connection. */
  function Match(s: seq<Tcb>, g: Segment, i: nat): (r: int)
    requires i <= |s|
    ensures r == -1 || (i <= r < |s| && Serves(s[r], g) && s[r].state != Listen)
    ensures forall j :: i <= j < |s| && (r == -1 || j < r) ==> !Serves(s[j], g)
    decreases |s| - i
  {
    if i == |s| then -1
    else if Serves(s[i], g) then i
    else Match(s, g, i + 1)
  }

  /** The last LISTEN index of the first `n` blocks, or -1: the scan
      overwrites `unused` at every LISTEN block, so the last one wins. */
  function LastListen(s: seq<Tcb>, n: nat): (r: int)
    requires n <= |s|
    ensures r == -1 || (0 <= r < n && s[r].state == Listen)
    ensures forall j :: r < j < n ==> s[j].state != Listen
  {
    if n == 0 then -1
    else if s[n - 1].state == Listen then n - 1
    else LastListen(s, n - 1)
  }

  /** The block of the segment: the one serving its connection, otherwise a
      free block claimed for it, otherwise none (the segment is refused). */
  function Select(s: seq<Tcb>, g: Segment): (r: int)
    ensures r == -1 || 0 <= r < |s|
  {
    var m := Match(s, g, 0);
    if m >= 0 then m else LastListen(s, |s|)
  }

  /** Claiming a free block for the segment's connection: ports and address
      taken from the segment, the initial sequence number from the clock
      and `msl2` cleared. The block stays in LISTEN. */
  function Claimed(t: Tcb, g: Segment, now: nat): Tcb
  {
    t.(localPort := g.dstPort, remotePort := g.srcPort, remoteIp := g.srcIp, seqno := now % SEQ_MOD, msl2 := 0)
  }

  // ---------------------------------------------------------------------
  // The state machine
  // ---------------------------------------------------------------------

  function Add32(a: nat, b: nat): (r: nat)
    ensures r < SEQ_MOD
  {
    (a + b) % SEQ_MOD
  }

  /** One segment for the block `t` (tcp_process_packet from line 701 on):
      the block afterwards and the reply sent, if any. `replyLen` is the
      length the HTTP handler reports, used only in ESTABLISHED. */
  function Step(t: Tcb, g: Segment, now: nat, replyLen: nat): (Tcb, Option<Reply>)
  {
    match t.state
    case Listen =>
      if g.flags == SYN then
        (t.(seqno := Add32(t.seqno, 1), state := SynRcvd), Some(Reply(ACK | SYN, Add32(g.seqNo, 1), t.seqno, 0)))
      else (t, None)
    case SynRcvd =>
      if g.flags == ACK then (t.(state := Established), None) else (t, None)
    case Established =>
      if g.flags & FIN != 0 then
        (t.(seqno := Add32(t.seqno, 1), state := LastAck), Some(Reply(ACK | FIN, Add32(g.seqNo, g.left + 1), t.seqno, 0)))
      else
        (t.(seqno := Add32(t.seqno, replyLen + 1), state := FinWait1),
         Some(Reply(ACK | FIN, Add32(g.seqNo, g.left), t.seqno, replyLen)))
    case FinWait1 =>
      if g.flags == ACK | FIN then (t.(state := TimeWait), Some(Reply(ACK, Add32(g.seqNo, 1), t.seqno, 0)))
      else if g.flags == ACK then (t.(state := FinWait2), None)
      else if g.flags == FIN then (t.(state := Closing), Some(Reply(ACK, Add32(g.seqNo, 1), t.seqno, 0)))
      else (t, None)
    case FinWait2 =>
      if g.flags == FIN then (t.(state := TimeWait), Some(Reply(ACK, Add32(g.seqNo, 1), t.seqno, 0))) else (t, None)
    case Closing =>
      if g.flags == ACK then (t.(state := TimeWait), None) else (t, None)
    case TimeWait =>
      (t.(msl2 := now + MSL2_TICKS), None)
    case LastAck =>
      if g.flags == ACK then (t.(state := Listen), None) else (t, None)
    case _ => (t, None)
  }

  /** The reset sent for a segment the server does not take: not for port
      80, or no free block. It acknowledges the segment's sequence number
      and carries sequence number 0. */
  function Refusal(g: Segment): Reply
  {
    Reply(ACK | RST, g.seqNo % SEQ_MOD, 0, 0)
  }

  /** The whole of tcp_process_packet on the table: the new table and the
      reply. */
  function Process(s: seq<Tcb>, g: Segment, now: nat, replyLen: nat): (seq<Tcb>, Option<Reply>)
  {
    if g.dstPort != HTTP_PORT then (s, Some(Refusal(g)))
    else
      var n := Select(s, g);
      if n < 0 then (s, Some(Refusal(g)))
      else
        var t := if Match(s, g, 0) >= 0 then s[n] else Claimed(s[n], g, now);
        var o := Step(t, g, now, replyLen);
        (s[n := o.0], o.1)
  }

  /** The sequence space a reply occupies: its data plus one for SYN and one
      for FIN (section 3.3 of RFC 793). */
  function SeqSpace(r: Reply): nat
  {
    r.len + (if r.flags & SYN != 0 then 1 else 0) + (if r.flags & FIN != 0 then 1 else 0)
  }

  // ---------------------------------------------------------------------
  // Properties of the state machine
  // ---------------------------------------------------------------------

  /** Every reply of the machine acknowledges, is sent with the block's
      sequence number, and advances the block's sequence number by exactly
      the space it occupies; without a reply the number stays. */
  lemma StepTracksSequenceSpace(t: Tcb, g: Segment, now: nat, replyLen: nat)
    requires t.seqno < SEQ_MOD
    ensures Step(t, g, now, replyLen).1.None? ==> Step(t, g, now, replyLen).0.seqno == t.seqno
    ensures Step(t, g, now, replyLen).1.Some? ==>
      (Step(t, g, now, replyLen).1.value.flags & ACK != 0 &&
       Step(t, g, now, replyLen).1.value.seqNo == t.seqno &&
       Step(t, g, now, replyLen).0.seqno == Add32(t.seqno, SeqSpace(Step(t, g, now, replyLen).1.value)))
  {
  }

  /** The states CLOSED, SYN-SENT and CLOSE-WAIT are never entered, and the
      fields of the connection (ports, address) never change in a step. */
  lemma StepStaysInServedStates(t: Tcb, g: Segment, now: nat, replyLen: nat)
    ensures var u := Step(t, g, now, replyLen).0;
      (u.state in {Closed, SynSent, CloseWait} ==> u.state == t.state) &&
      u.localPort == t.localPort && u.remotePort == t.remotePort && u.remoteIp == t.remoteIp
  {
  }

  /** LISTEN moves only on a segment whose flags are exactly SYN, answering
      SYN|ACK for the received sequence number plus one. */
  lemma ListenNeedsExactSyn(t: Tcb, g: Segment, now: nat, replyLen: nat)
    requires t.state == Listen
    ensures var (u, r) := Step(t, g, now, replyLen);
      (u.state == SynRcvd <==> g.flags == SYN) &&
      (u.state != SynRcvd ==> u == t && r.None?) &&
      (g.flags == SYN ==> r == Some(Reply(ACK | SYN, Add32(g.seqNo, 1), t.seqno, 0)))
  {
  }

  /** ESTABLISHED always answers and closes: a FIN gets ACK|FIN for the data
      and the FIN and leads to LAST-ACK; anything else is handed to the HTTP
      handler and its reply goes out with a FIN, leading to FIN-WAIT-1. */
  lemma EstablishedAlwaysCloses(t: Tcb, g: Segment, now: nat, replyLen: nat)
    requires t.state == Established
    ensures var (u, r) := Step(t, g, now, replyLen);
      r.Some? && r.value.flags == ACK | FIN &&
      (g.flags & FIN != 0 ==> u.state == LastAck && r.value.ackNo == Add32(g.seqNo, g.left + 1) && r.value.len == 0) &&
      (g.flags & FIN == 0 ==>
        (u.state == FinWait1 && r.value.ackNo == Add32(g.seqNo, g.left) && r.value.len == replyLen &&
         u.seqno == Add32(t.seqno, replyLen + 1)))
  {
  }

  /** A segment received in TIME-WAIT is not answered and sets the timer
      to 30 seconds from now. Entering TIME-WAIT does not set it (see
      TimeWaitEntryExpiresAtOnce). */
  lemma TimeWaitRestartsTimer(t: Tcb, g: Segment, now: nat, replyLen: nat)
    requires t.state == TimeWait
    ensures Step(t, g, now, replyLen) == (t.(msl2 := now + MSL2_TICKS), None)
  {
  }

  /** The block chosen for a segment: an existing connection (never a LISTEN
      block) if there is one, otherwise the last LISTEN block; a refusal
      happens exactly when neither exists. */
  lemma SelectChoosesConnectionThenLastListen(s: seq<Tcb>, g: Segment)
    ensures var n := Select(s, g);
      (n >= 0 && s[n].state != Listen ==> Serves(s[n], g)) &&
      (n >= 0 && s[n].state == Listen ==>
        ((forall j :: 0 <= j < |s| ==> !Serves(s[j], g)) && forall j :: n < j < |s| ==> s[j].state != Listen)) &&
      (n == -1 <==> (forall j :: 0 <= j < |s| ==> !Serves(s[j], g) && s[j].state != Listen))
  {
    var m := Match(s, g, 0);
    var l := LastListen(s, |s|);
    if m == -1 && l == -1 {
      assert forall j :: 0 <= j < |s| ==> s[j].state != Listen;
    }
  }

  /** Segments for other ports, and segments that find neither their
      connection nor a free block, change no block and are refused with
      RST|ACK. */
  lemma RefusedSegments(s: seq<Tcb>, g: Segment, now: nat, replyLen: nat)
    requires g.dstPort != HTTP_PORT || Select(s, g) == -1
    ensures Process(s, g, now, replyLen) == (s, Some(Reply(ACK | RST, g.seqNo % SEQ_MOD, 0, 0)))
  {
  }

  /** A claimed block takes the segment's connection, starts its sequence
      numbers at the clock and clears `msl2` before its first step. */
  lemma ClaimStartsAtClock(s: seq<Tcb>, g: Segment, now: nat, replyLen: nat)
    requires g.dstPort == HTTP_PORT && Match(s, g, 0) == -1 && Select(s, g) >= 0
    ensures var n := Select(s, g);
      s[n].state == Listen &&
      Process(s, g, now, replyLen).0 == s[n := Step(Claimed(s[n], g, now), g, now, replyLen).0] &&
      Claimed(s[n], g, now).seqno == now % SEQ_MOD && Claimed(s[n], g, now).msl2 == 0
  {
  }

  /** The segment reaches the HTTP handler: it is for port 80, its
      connection is ESTABLISHED in a block of the table, and it carries no
      FIN. A claimed block is in LISTEN, so only an existing connection
      qualifies. */
  predicate Answers(s: seq<Tcb>, g: Segment)
  {
    var m := Match(s, g, 0);
    g.dstPort == HTTP_PORT && m >= 0 && s[m].state == Established && g.flags & FIN == 0
  }

  /** The handler is asked exactly when the reply of tcp_process_packet
      carries ACK|FIN and acknowledges the data but no FIN; its length is
      then the handler's length, and every other reply carries no data. */
  lemma AnswersIffDataReply(s: seq<Tcb>, g: Segment, now: nat, replyLen: nat)
    ensures var r := Process(s, g, now, replyLen).1;
      Answers(s, g) <==> (r.Some? && r.value.flags == ACK | FIN && r.value.ackNo == Add32(g.seqNo, g.left))
    ensures var r := Process(s, g, now, replyLen).1;
      r.Some? ==> r.value.len == (if Answers(s, g) then replyLen else 0)
  {
    var m := Match(s, g, 0);
    if g.dstPort == HTTP_PORT && Select(s, g) >= 0 {
      var n := Select(s, g);
      var t := if m >= 0 then s[n] else Claimed(s[n], g, now);
      if m < 0 {
        assert t.state == Listen;
      }
    }
  }

  /** Every reply has flags below 64, as send_reply needs to store them in
      the six flag bits. */
  lemma ReplyFlagsFit(s: seq<Tcb>, g: Segment, now: nat, replyLen: nat)
    ensures var r := Process(s, g, now, replyLen).1;
      r.Some? ==> r.value.flags < 64
  {
  }

  // ---------------------------------------------------------------------
  // Expiry
  // ---------------------------------------------------------------------

  /** A block after tcp_expire_connections at tick `clock`. */
  function Expired(t: Tcb, clock: nat): Tcb
  {
    if t.state == TimeWait && clock >= t.msl2 then t.(state := Listen) else t
  }

  /** Expiry moves exactly the TIME-WAIT blocks whose time has come to
      LISTEN, changes nothing else, and is idempotent. */
  lemma ExpiryMovesOnlyDueTimeWait(t: Tcb, clock: nat)
    ensures Expired(t, clock) != t <==> t.state == TimeWait && clock >= t.msl2
    ensures Expired(t, clock) != t ==> Expired(t, clock) == t.(state := Listen)
    ensures Expired(Expired(t, clock), clock) == Expired(t, clock)
  {
  }

  /** Outside TIME-WAIT a step leaves the timer as it was. */
  lemma StepKeepsTimerOutsideTimeWait(t: Tcb, g: Segment, now: nat, replyLen: nat)
    requires t.state != TimeWait
    ensures Step(t, g, now, replyLen).0.msl2 == t.msl2
  {
  }

  /** The transitions into TIME-WAIT (from FIN-WAIT-1, FIN-WAIT-2 and
      CLOSING) leave `msl2` as the claim set it, 0, so the next expiry
      sweep returns the block to LISTEN whatever the clock: TIME-WAIT
      lasts until the next sweep, not 30 seconds. */
  lemma TimeWaitEntryExpiresAtOnce(t: Tcb, g: Segment, now: nat, replyLen: nat, clock: nat)
    requires t.state != TimeWait && t.msl2 == 0
    requires Step(t, g, now, replyLen).0.state == TimeWait
    ensures Expired(Step(t, g, now, replyLen).0, clock).state == Listen
  {
    StepKeepsTimerOutsideTimeWait(t, g, now, replyLen);
  }

  /** The step with the timer set on entry to TIME-WAIT, as the 30-second
      TIME-WAIT period calls for; every other effect is that of Step. */
  function StepTimed(t: Tcb, g: Segment, now: nat, replyLen: nat): (Tcb, Option<Reply>)
  {
    var (u, r) := Step(t, g, now, replyLen);
    if t.state != TimeWait && u.state == TimeWait then (u.(msl2 := now + MSL2_TICKS), r) else (u, r)
  }

  /** With the timer set on entry, a block that enters TIME-WAIT at tick
      `now` survives every expiry sweep before `now + 3000` and returns to
      LISTEN at the first sweep from then on; every other step is Step's. */
  lemma TimeWaitLastsFullPeriod(t: Tcb, g: Segment, now: nat, replyLen: nat, clock: nat)
    ensures var (u, r) := StepTimed(t, g, now, replyLen);
      (t.state != TimeWait && u.state == TimeWait ==>
        (clock < now + MSL2_TICKS ==> Expired(u, clock) == u) &&
        (clock >= now + MSL2_TICKS ==> Expired(u, clock).state == Listen)) &&
      (t.state == TimeWait || u.state != TimeWait ==> (u, r) == Step(t, g, now, replyLen)) &&
      u.(msl2 := 0) == Step(t, g, now, replyLen).0.(msl2 := 0) &&
      r == Step(t, g, now, replyLen).1
  {
  }

  // ---------------------------------------------------------------------
  // The table
  // ---------------------------------------------------------------------

  class Table {
    const tcbs: array<Tcb>

    predicate Valid()
      reads this
    {
      tcbs.Length == MAX_TCP_CONNECTIONS
    }

    /** The zero-filled static table: every block in LISTEN. */
    constructor ()
      ensures Valid() && fresh(tcbs)
      ensures forall i :: 0 <= i < MAX_TCP_CONNECTIONS ==> tcbs[i] == EMPTY_TCB
    {
      tcbs := new Tcb[MAX_TCP_CONNECTIONS](_ => EMPTY_TCB);
    }

    /** tcp_expire_connections */
    method Expire(clock: nat)
      requires Valid()
      modifies tcbs
      ensures forall i :: 0 <= i < MAX_TCP_CONNECTIONS ==> tcbs[i] == Expired(old(tcbs[i]), clock)
    {
      var n := 0;
      while n < MAX_TCP_CONNECTIONS
        invariant 0 <= n <= MAX_TCP_CONNECTIONS
        invariant forall j :: 0 <= j < n ==> tcbs[j] == Expired(old(tcbs[j]), clock)
        invariant forall j :: n <= j < MAX_TCP_CONNECTIONS ==> tcbs[j] == old(tcbs[j])
      {
        if tcbs[n].state == TimeWait && clock >= tcbs[n].msl2 {
          tcbs[n] := tcbs[n].(state := Listen);
        }
        n := n + 1;
      }
    }

    /** The lookup loop of tcp_process_packet and the claim after it: the
        index of the segment's block (claimed if new), or -1. */
    method Find(g: Segment, now: nat) returns (n: int)
      requires Valid()
      modifies tcbs
      ensures n == Select(old(tcbs[..]), g)
      ensures tcbs[..] == if n >= 0 && Match(old(tcbs[..]), g, 0) == -1
        then old(tcbs[..])[n := Claimed(old(tcbs[n]), g, now)] else old(tcbs[..])
    {
      var unused := -1;
      n := 0;
      while n < MAX_TCP_CONNECTIONS
        invariant 0 <= n <= MAX_TCP_CONNECTIONS
        invariant Match(tcbs[..], g, n) == Match(tcbs[..], g, 0)
        invariant unused == LastListen(tcbs[..], n)
      {
        if tcbs[n].state == Listen {
          unused := n;
        } else if tcbs[n].localPort == g.dstPort && tcbs[n].remotePort == g.srcPort && tcbs[n].remoteIp == g.srcIp {
          return;
        }
        n := n + 1;
      }
      LastListenExtends(tcbs[..], g);
      n := unused;
      if n == -1 {
        return;
      }
      tcbs[n] := Claimed(tcbs[n], g, now);
    }

    /** The table part of tcp_process_packet for the segment `g`: the
        block is found or claimed and stepped, and `asked` tells whether the
        step hands the segment to the HTTP handler (ESTABLISHED, no FIN),
        whose answer is `replyLen` bytes long. */
    method ProcessSegment(g: Segment, now: nat, replyLen: nat) returns (reply: Option<Reply>, asked: bool)
      requires Valid()
      modifies tcbs
      ensures tcbs[..] == Process(old(tcbs[..]), g, now, replyLen).0 && reply == Process(old(tcbs[..]), g, now, replyLen).1
      ensures asked == Answers(old(tcbs[..]), g)
      ensures reply.Some? ==> reply.value.flags < 64 && reply.value.len == if asked then replyLen else 0
      ensures asked ==> reply.Some? && reply.value.ackNo == Add32(g.seqNo, g.left)
    {
      ghost var s0 := tcbs[..];
      AnswersIffDataReply(s0, g, now, replyLen);
      ReplyFlagsFit(s0, g, now, replyLen);
      if g.dstPort != HTTP_PORT {
        return Some(Refusal(g)), false;
      }
      var n := Find(g, now);
      if n < 0 {
        return Some(Refusal(g)), false;
      }
      asked := tcbs[n].state == Established && g.flags & FIN == 0;
      ghost var s1 := tcbs[..];
      reply := Advance(n, g, now, replyLen);
      assert tcbs[..] == s1[n := tcbs[n]];
    }

    /** The state switch of tcp_process_packet on block `n`: the fields are
        updated in place, and the reply to send is returned. */
    method Advance(n: nat, g: Segment, now: nat, replyLen: nat) returns (r: Option<Reply>)
      requires Valid() && n < MAX_TCP_CONNECTIONS
      modifies tcbs
      ensures (tcbs[n], r) == Step(old(tcbs[n]), g, now, replyLen)
      ensures forall j :: 0 <= j < MAX_TCP_CONNECTIONS && j != n ==> tcbs[j] == old(tcbs[j])
    {
      r := None;
      var t := tcbs[n];
      if t.state == Listen {
        if g.flags == SYN {
          r := Some(Reply(ACK | SYN, Add32(g.seqNo, 1), t.seqno, 0));
          t := t.(seqno := Add32(t.seqno, 1));
          t := t.(state := SynRcvd);
        }
      } else if t.state == SynRcvd {
        if g.flags == ACK {
          t := t.(state := Established);
        }
      } else if t.state == Established {
        if g.flags & FIN != 0 {
          r := Some(Reply(ACK | FIN, Add32(g.seqNo, g.left + 1), t.seqno, 0));
          t := t.(seqno := Add32(t.seqno, 1));
          t := t.(state := LastAck);
        } else {
          r := Some(Reply(ACK | FIN, Add32(g.seqNo, g.left), t.seqno, replyLen));
          t := t.(seqno := Add32(t.seqno, replyLen + 1));
          t := t.(state := FinWait1);
        }
      } else if t.state == FinWait1 {
        if g.flags == ACK | FIN {
          r := Some(Reply(ACK, Add32(g.seqNo, 1), t.seqno, 0));
          t := t.(state := TimeWait);
        } else if g.flags == ACK {
          t := t.(state := FinWait2);
        } else if g.flags == FIN {
          r := Some(Reply(ACK, Add32(g.seqNo, 1), t.seqno, 0));
          t := t.(state := Closing);
        }
      } else if t.state == FinWait2 {
        if g.flags == FIN {
          r := Some(Reply(ACK, Add32(g.seqNo, 1), t.seqno, 0));
          t := t.(state := TimeWait);
        }
      } else if t.state == Closing {
        if g.flags == ACK {
          t := t.(state := TimeWait);
        }
      } else if t.state == TimeWait {
        t := t.(msl2 := now + MSL2_TICKS);
      } else if t.state == LastAck {
        if g.flags == ACK {
          t := t.(state := Listen);
        }
      }
      tcbs[n] := t;
    }
  }

  lemma LastListenExtends(s: seq<Tcb>, g: Segment)
    requires Match(s, g, |s|) == Match(s, g, 0)
    ensures Match(s, g, 0) == -1
    ensures Select(s, g) == LastListen(s, |s|)
  {
  }
}
