/** The ICMP echo of nw-stack.c (RFC 792): a ping addressed to us is turned
    around in place, its type changed from echo request to echo reply and its
    checksum adjusted for that change instead of recomputed (RFC 1624). */
module Icmp {
  import opened Bytes
  import Checksum

  const ICMP_HEADER_LEN: nat := 8
  const ICMP_TYPE_OFFSET: nat := 0
  const ICMP_CKSUM_OFFSET: nat := 2
  const ICMP_TYPE_ECHO_REQUEST: bv8 := 8
  const ICMP_TYPE_ECHO_REPLY: bv8 := 0

  predicate HasHeader(p: seq<bv8>, icmp: nat)
  {
    icmp + ICMP_HEADER_LEN <= |p|
  }

  /** The checksum word, ICMP_CKSUM_H and ICMP_CKSUM_L read together. */
  function Cksum(p: seq<bv8>, icmp: nat): nat
    requires HasHeader(p, icmp)
  {
    Read2Byte(p, icmp + ICMP_CKSUM_OFFSET)
  }

  /** A message of `len` bytes the receiver accepts: its words, an odd last
      byte padded with zero, fold to 0xffff. */
  predicate ChecksumOk(p: seq<bv8>, icmp: nat, len: nat)
    requires icmp + len <= |p|
  {
    Checksum.Fold(Checksum.PaddedSegmentSum(p, icmp, len)) == 0xffff
  }

  /** A sum below 0x1_0000 + 0xffff folds in at most one step. */
  lemma FoldOnce(x: nat)
    requires x < 0x1_0000 + 0xffff
    ensures Checksum.Fold(x) == if x < 0x1_0000 then x else x - 0xffff
  {
    if x >= 0x1_0000 {
      DivMod65536(x, 1, x - 0x1_0000);
    }
  }

  /** The checksum after the type byte drops by 8: the old checksum plus
      0x0800 in ones'-complement arithmetic, the carry out of the top
      wrapped around to the bottom (equation 2 of RFC 1624). */
  function ReplyCksum(c: nat): (r: nat)
    requires c < 0x1_0000
    ensures r < 0x1_0000 && r > 0
    ensures r == c + 0x0800 || r + 0xffff == c + 0x0800
  {
    FoldOnce(c + 0x0800);
    Checksum.Fold(c + 0x0800)
  }

  /** handle_echo_request's adjustment as written, on the two checksum bytes
      as 8-bit unsigned values: when the high byte overflows, the low byte is
      incremented (and itself wraps), and the high byte gains 8. The carry
      out of the low byte is lost. */
  function AdjustAsWritten(h: nat, l: nat): (r: nat)
    requires h < 256 && l < 256
    ensures r < 0x1_0000
  {
    var l2 := if h > 0xff - 8 then (l + 1) % 256 else l;
    var h2 := (h + 8) % 256;
    h2 * 256 + l2
  }

  /** The adjustment as written agrees with the ones'-complement sum except
      when the high byte overflows and the low byte is 0xff. */
  lemma AdjustAsWrittenIff(h: nat, l: nat)
    requires h < 256 && l < 256
    ensures AdjustAsWritten(h, l) == ReplyCksum(h * 256 + l) <==> !(h > 0xf7 && l == 0xff)
  {
    var c := h * 256 + l;
    if h > 0xf7 {
      DivMod256(h + 8, 1, h + 8 - 256);
      if l == 0xff {
        DivMod256(l + 1, 1, 0);
        assert ReplyCksum(c) == (h + 8 - 256) * 256 + 256;
      } else {
        DivMod256(l + 1, 0, l + 1);
      }
    } else {
      DivMod256(h + 8, 0, h + 8);
    }
  }

  /** The losing input: a checksum of 0xf8ff becomes 0x0000 instead of 0x0100. */
  lemma AdjustAsWrittenDropsCarry()
    ensures AdjustAsWritten(0xf8, 0xff) == 0x0000
    ensures ReplyCksum(0xf8ff) == 0x0100
  {
    AdjustAsWrittenIff(0xf8, 0xff);
    DivMod256(0x0100, 1, 0);
  }

  /** Turning an echo request into a reply with the adjusted checksum keeps
      the message's checksum valid, and an invalid one invalid. */
  lemma EchoReplyVerifies(p: seq<bv8>, q: seq<bv8>, icmp: nat, len: nat)
    requires ICMP_HEADER_LEN <= len && icmp + len <= |p| && |q| == |p|
    requires p[icmp] == ICMP_TYPE_ECHO_REQUEST && q[icmp] == ICMP_TYPE_ECHO_REPLY
    requires Cksum(q, icmp) == ReplyCksum(Cksum(p, icmp))
    requires forall i :: icmp < i < icmp + len && i != icmp + 2 && i != icmp + 3 ==> p[i] == q[i]
    ensures ChecksumOk(q, icmp, len) <==> ChecksumOk(p, icmp, len)
  {
    var sp := Checksum.PaddedSegmentSum(p, icmp, len);
    var sq := Checksum.PaddedSegmentSum(q, icmp, len);
    EchoReplySums(p, q, icmp, len);
    if Cksum(q, icmp) != Cksum(p, icmp) + 0x0800 {
      assert sp == sq + 0xffff;
      DivMod65535Shift(sq);
    }
    Checksum.FoldAllOnes(sp);
    Checksum.FoldAllOnes(sq);
  }

  /** The sums of request and reply differ by exactly the two word changes:
      the type word loses 0x0800 and the checksum word changes. Both sums are
      non-zero, as each holds a non-zero word. */
  lemma {:induction false} EchoReplySums(p: seq<bv8>, q: seq<bv8>, icmp: nat, len: nat)
    requires ICMP_HEADER_LEN <= len && icmp + len <= |p| && |q| == |p|
    requires p[icmp] == ICMP_TYPE_ECHO_REQUEST && q[icmp] == ICMP_TYPE_ECHO_REPLY
    requires Cksum(q, icmp) == ReplyCksum(Cksum(p, icmp))
    requires forall i :: icmp < i < icmp + len && i != icmp + 2 && i != icmp + 3 ==> p[i] == q[i]
    ensures Checksum.PaddedSegmentSum(q, icmp, len) + Cksum(p, icmp) + 0x0800
         == Checksum.PaddedSegmentSum(p, icmp, len) + Cksum(q, icmp)
    ensures Checksum.PaddedSegmentSum(p, icmp, len) > 0
    ensures Checksum.PaddedSegmentSum(q, icmp, len) > 0
  {
    var n := len / 2;
    var m := p[icmp := ICMP_TYPE_ECHO_REPLY];
    Checksum.WordSumUpdate(p, m, icmp, n, 0);
    Checksum.WordSumUpdate(m, q, icmp, n, 1);
    assert Read2Byte(p, icmp) == Read2Byte(m, icmp) + 0x0800;
    assert Read2Byte(m, icmp + 2) == Cksum(p, icmp);
    if len % 2 == 1 {
      assert p[icmp + len - 1] == q[icmp + len - 1];
    }
    Checksum.WordSumAtLeast(p, icmp, n, 0);
    Checksum.WordSumAtLeast(q, icmp, n, 1);
  }

  lemma DivMod65535Shift(x: nat)
    ensures (x + 0xffff) % 0xffff == x % 0xffff
  {
    Checksum.DivMod65535(x + 0xffff, x / 0xffff + 1, x % 0xffff);
  }

  /** The ICMP part of handle_echo_request: the type becomes echo reply and
      the checksum bytes are adjusted as written. The code byte and the rest
      of the message are untouched. Whenever the adjustment agrees with the
      ones'-complement update (all but the losing input of
      AdjustAsWrittenIff), an echo request of `len` bytes that verified
      yields a reply that verifies, and one that did not, one that does not. */
  method MakeEchoReply(a: array<bv8>, icmp: nat, len: nat)
    requires icmp + ICMP_HEADER_LEN <= a.Length
    modifies a
    ensures a[icmp] == ICMP_TYPE_ECHO_REPLY
    ensures Cksum(a[..], icmp) == AdjustAsWritten(Val(old(a[icmp + 2])), Val(old(a[icmp + 3])))
    ensures a[icmp + 1] == old(a[icmp + 1])
    ensures SameOutside(a[..], old(a[..]), icmp, icmp + 4)
    ensures ICMP_HEADER_LEN <= len && icmp + len <= a.Length && old(a[icmp]) == ICMP_TYPE_ECHO_REQUEST &&
            !(Val(old(a[icmp + 2])) > 0xf7 && old(a[icmp + 3]) == 0xff) ==>
              (ChecksumOk(a[..], icmp, len) <==> ChecksumOk(old(a[..]), icmp, len))
  {
    ghost var p := a[..];
    a[icmp + ICMP_TYPE_OFFSET] := ICMP_TYPE_ECHO_REPLY;
    AdjustCksum(a, icmp);
    if ICMP_HEADER_LEN <= len && icmp + len <= a.Length && p[icmp] == ICMP_TYPE_ECHO_REQUEST &&
       !(Val(p[icmp + 2]) > 0xf7 && p[icmp + 3] == 0xff) {
      EchoAdjustKeepsValidity(p, a[..], icmp, len);
    }
  }

  /** The rewrite of handle_echo_request keeps the validity of an echo
      message's checksum, on every input where the adjustment agrees with
      the ones'-complement update. */
  lemma EchoAdjustKeepsValidity(p: seq<bv8>, q: seq<bv8>, icmp: nat, len: nat)
    requires ICMP_HEADER_LEN <= len && icmp + len <= |p| && |q| == |p|
    requires p[icmp] == ICMP_TYPE_ECHO_REQUEST && q[icmp] == ICMP_TYPE_ECHO_REPLY
    requires Cksum(q, icmp) == AdjustAsWritten(Val(p[icmp + 2]), Val(p[icmp + 3]))
    requires !(Val(p[icmp + 2]) > 0xf7 && p[icmp + 3] == 0xff)
    requires SameOutside(q, p, icmp, icmp + 4) && q[icmp + 1] == p[icmp + 1]
    ensures ChecksumOk(q, icmp, len) <==> ChecksumOk(p, icmp, len)
  {
    AdjustAsWrittenIff(Val(p[icmp + 2]), Val(p[icmp + 3]));
    assert Cksum(p, icmp) == Val(p[icmp + 2]) * 256 + Val(p[icmp + 3]);
    EchoReplyVerifies(p, q, icmp, len);
  }

  /** The checksum adjustment of handle_echo_request on the two bytes, with
      8-bit wrap-around: the high byte gains the type difference 8, and the
      low byte gains 1 when the high byte is above 0xff - 8. */
  method AdjustCksum(a: array<bv8>, icmp: nat)
    requires icmp + ICMP_HEADER_LEN <= a.Length
    modifies a
    ensures Cksum(a[..], icmp) == AdjustAsWritten(Val(old(a[icmp + 2])), Val(old(a[icmp + 3])))
    ensures SameOutside(a[..], old(a[..]), icmp + 2, icmp + 4)
  {
    var delta := Val(ICMP_TYPE_ECHO_REQUEST) - Val(ICMP_TYPE_ECHO_REPLY);
    if Val(a[icmp + 2]) > 0xff - delta {
      a[icmp + 3] := ByteOf(Val(a[icmp + 3]) + 1);
    }
    a[icmp + 2] := ByteOf(Val(a[icmp + 2]) + delta);
  }
}
