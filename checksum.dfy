/** The Internet checksum (RFC 1071): the IPv4 header checksum of
    ip_make_checksum (section 3.1 of RFC 791) and the TCP/UDP checksum over
    the pseudo-header of tcpudp_make_checksum (section 3.1 of RFC 793,
    RFC 768), both in nw-stack.c. */
module Checksum {
  import opened Bytes
  import Ip
  import TcpHeader
  import Udp

  // ---------------------------------------------------------------------
  // Ones-complement arithmetic
  // ---------------------------------------------------------------------

  /** End-around-carry folding of a sum into 16 bits: the carries out of the
      low 16 bits are added back in until none is left. The result keeps
      the residue modulo 0xffff, and only a zero sum folds to zero. */
  function Fold(x: nat): (r: nat)
    ensures r < 0x1_0000
    ensures x > 0 ==> r > 0
    ensures x < 0x1_0000 ==> r == x
    decreases x
  {
    if x < 0x1_0000 then x
    else
      var y := x % 0x1_0000 + x / 0x1_0000;
      FoldStep(x);
      Fold(y)
  }

  /** Folding keeps the residue modulo 0xffff. */
  lemma {:induction false} FoldResidue(x: nat)
    ensures Fold(x) % 0xffff == x % 0xffff
    decreases x
  {
    if x >= 0x1_0000 {
      FoldStep(x);
      FoldResidue(x % 0x1_0000 + x / 0x1_0000);
    }
  }

  /** One end-around-carry step lowers a sum of 2^16 or more, keeps it
      positive and keeps its residue modulo 0xffff (since 2^16 is 1 modulo
      0xffff). */
  lemma FoldStep(x: nat)
    requires x >= 0x1_0000
    ensures 0 < x % 0x1_0000 + x / 0x1_0000 < x
    ensures (x % 0x1_0000 + x / 0x1_0000) % 0xffff == x % 0xffff
  {
    var q := x / 0x1_0000;
    var r := x % 0x1_0000;
    var y := q + r;
    DivMod65535(y, y / 0xffff, y % 0xffff);
    assert x == (q + y / 0xffff) * 0xffff + y % 0xffff;
    DivMod65535(x, q + y / 0xffff, y % 0xffff);
  }

  lemma DivMod65535(a: int, q: int, r: int)
    requires 0 <= r < 0xffff && a == q * 0xffff + r
    ensures a / 0xffff == q && a % 0xffff == r
  {
  }

  /** The receiver's check: storing the complement of the folded sum makes
      the new sum fold to 0xffff (all ones), whatever the sum was. */
  lemma {:induction false} ComplementVerifies(s: nat)
    ensures Fold(s + (0xffff - Fold(s))) == 0xffff
  {
    var f := Fold(s);
    FoldResidue(s);
    var t := s + (0xffff - f);
    var k := s / 0xffff;
    var r := s % 0xffff;
    DivMod65535(s, k, r);
    var j := f / 0xffff;
    DivMod65535(f, j, r);
    assert j == 0 || (j == 1 && r == 0);
    assert t == (k + 1 - j) * 0xffff;
    DivMod65535(t, k + 1 - j, 0);
    var g := Fold(t);
    FoldResidue(t);
    DivMod65535(g, g / 0xffff, 0);
  }

  /** ip_make_checksum folds only twice: first `(c >> 16) + (c & 0xffff)`,
      then `c += c >> 16`, and keeps the low 16 bits. For a header of at most
      60 bytes (30 words) that is the complete fold. */
  lemma {:induction false} TwoStepFold(s: nat, x1: nat, x2: nat)
    requires s <= 30 * 0xffff
    requires x1 == s / 0x1_0000 + s % 0x1_0000 && x2 == x1 + x1 / 0x1_0000
    ensures x2 % 0x1_0000 == Fold(s)
  {
    if s < 0x1_0000 {
      DivMod65536(s, 0, s);
      DivMod65536(x1, 0, x1);
    } else {
      assert Fold(s) == Fold(x1);
      assert s / 0x1_0000 < 30;
      if x1 < 0x1_0000 {
        DivMod65536(x1, 0, x1);
        DivMod65536(x1, 0, x1);
      } else {
        var r := x1 - 0x1_0000;
        DivMod65536(x1, 1, r);
        assert Fold(x1) == Fold(r + 1);
        DivMod65536(x1 + 1, 1, r + 1);
      }
    }
  }

  // ---------------------------------------------------------------------
  // Sums of 16-bit words
  // ---------------------------------------------------------------------

  /** The sum of the `n` big-endian words starting at `o`. */
  function WordSum(p: seq<bv8>, o: nat, n: nat): nat
    requires o + 2 * n <= |p|
  {
    if n == 0 then 0 else WordSum(p, o, n - 1) + Read2Byte(p, o + 2 * (n - 1))
  }

  lemma {:induction false} WordSumBound(p: seq<bv8>, o: nat, n: nat)
    requires o + 2 * n <= |p|
    ensures WordSum(p, o, n) <= n * 0xffff
  {
    if n > 0 {
      WordSumBound(p, o, n - 1);
    }
  }

  /** Replacing word `k` of the range changes the sum by the difference of
      the two words and by nothing else. */
  lemma {:induction false} WordSumUpdate(p: seq<bv8>, q: seq<bv8>, o: nat, n: nat, k: nat)
    requires o + 2 * n <= |p| && |q| == |p| && k < n
    requires forall i :: o <= i < o + 2 * n && i != o + 2 * k && i != o + 2 * k + 1 ==> p[i] == q[i]
    ensures WordSum(q, o, n) + Read2Byte(p, o + 2 * k) == WordSum(p, o, n) + Read2Byte(q, o + 2 * k)
  {
    if n - 1 == k {
      WordSumSame(p, q, o, n - 1);
    } else {
      WordSumUpdate(p, q, o, n - 1, k);
      assert p[o + 2 * (n - 1)] == q[o + 2 * (n - 1)];
      assert p[o + 2 * (n - 1) + 1] == q[o + 2 * (n - 1) + 1];
    }
  }

  /** The sum is at least any one of its words. */
  lemma {:induction false} WordSumAtLeast(p: seq<bv8>, o: nat, n: nat, k: nat)
    requires o + 2 * n <= |p| && k < n
    ensures WordSum(p, o, n) >= Read2Byte(p, o + 2 * k)
  {
    if k < n - 1 {
      WordSumAtLeast(p, o, n - 1, k);
    }
  }

  /** A sum folds to all ones exactly when it is a non-zero multiple of 0xffff. */
  lemma FoldAllOnes(x: nat)
    ensures Fold(x) == 0xffff <==> x > 0 && x % 0xffff == 0
  {
    FoldResidue(x);
    var f := Fold(x);
    if x > 0 && x % 0xffff == 0 {
      DivMod65535(f, f / 0xffff, 0);
    }
  }

  /** The sum depends only on the bytes of the range. */
  lemma {:induction false} WordSumSame(p: seq<bv8>, q: seq<bv8>, o: nat, n: nat)
    requires o + 2 * n <= |p| && o + 2 * n <= |q|
    requires forall i :: o <= i < o + 2 * n ==> p[i] == q[i]
    ensures WordSum(q, o, n) == WordSum(p, o, n)
  {
    if n > 0 {
      WordSumSame(p, q, o, n - 1);
      assert p[o + 2 * (n - 1)] == q[o + 2 * (n - 1)];
      assert p[o + 2 * (n - 1) + 1] == q[o + 2 * (n - 1) + 1];
    }
  }

  /** The summing loop both checksum routines share: add the big-endian word
      at `o + i` for i = 0, 2, 4, ... while i < len. An odd `len` takes one
      byte past the range into the last word. */
  method SumWords(a: array<bv8>, o: nat, len: nat) returns (s: nat)
    requires o + 2 * SegmentWords(len) <= a.Length
    ensures s == WordSum(a[..], o, SegmentWords(len))
  {
    ghost var n := SegmentWords(len);
    s := 0;
    var i := 0;
    ghost var w := 0;
    while i < len
      invariant 0 <= w <= n && i == 2 * w
      invariant s == WordSum(a[..], o, w)
    {
      s := s + (Val(a[o + i]) * 256 + Val(a[o + i + 1]));
      i := i + 2;
      w := w + 1;
    }
  }

  /** The words summed for a range of `len` bytes: the loop steps two bytes
      at a time while below `len`, so for an odd length the last word takes
      its low byte from the byte after the range. */
  function SegmentWords(len: nat): nat
  {
    (len + 1) / 2
  }

  /** With the 16-bit word at `k` first zeroed, summed and folded, storing
      the complement of the fold there makes the whole range fold to 0xffff. */
  lemma StoredComplementVerifies(z: seq<bv8>, r: seq<bv8>, o: nat, n: nat, k: nat)
    requires o + 2 * n <= |z| && |r| == |z| && k < n
    requires Read2Byte(z, o + 2 * k) == 0
    requires Read2Byte(r, o + 2 * k) == 0xffff - Fold(WordSum(z, o, n))
    requires forall i :: o <= i < o + 2 * n && i != o + 2 * k && i != o + 2 * k + 1 ==> z[i] == r[i]
    ensures Fold(WordSum(r, o, n)) == 0xffff
  {
    WordSumUpdate(z, r, o, n, k);
    ComplementVerifies(WordSum(z, o, n));
  }

  // ---------------------------------------------------------------------
  // The IPv4 header checksum
  // ---------------------------------------------------------------------

  /** The header length in 16-bit words, `IP_GET_HDR_LEN(ip) * 2`; the
      header is twice as many bytes. */
  function HdrWords(p: seq<bv8>, ip: nat): (n: nat)
    requires Ip.HasHeader(p, ip)
    ensures n <= 30
  {
    Val(Ip.HdrLen(p, ip)) * 2
  }

  /** A header the receiver accepts: its words, the stored checksum
      included, fold to 0xffff (RFC 1071). */
  predicate IpChecksumOk(p: seq<bv8>, ip: nat)
    requires Ip.HasHeader(p, ip) && ip + 2 * HdrWords(p, ip) <= |p|
  {
    Fold(WordSum(p, ip, HdrWords(p, ip))) == 0xffff
  }

  /** ip_make_checksum: zero the checksum field, add up the header words,
      fold twice, and store the complement. Only bytes 10-11 change; when the
      header is long enough to hold its checksum field (at least 12 bytes)
      the result verifies. */
  method IpMakeChecksum(a: array<bv8>, ip: nat)
    requires Ip.HasHeader(a[..], ip) && ip + 2 * HdrWords(a[..], ip) <= a.Length
    modifies a
    ensures SameOutside(a[..], old(a[..]), ip + 10, ip + 12)
    ensures HdrWords(a[..], ip) >= 6 ==> IpChecksumOk(a[..], ip)
  {
    Ip.IpSetCksum(a, ip, 0);
    ghost var z := a[..];
    var hdrBytes := Val(a[ip] & 0x0f) * 4;
    ghost var n := HdrWords(z, ip);
    assert SegmentWords(hdrBytes) == n;
    var cksum := SumWords(a, ip, hdrBytes);
    ghost var sum := cksum;
    WordSumBound(z, ip, n);
    cksum := cksum / 0x1_0000 + cksum % 0x1_0000;
    ghost var x1 := cksum;
    cksum := cksum + cksum / 0x1_0000;
    TwoStepFold(sum, x1, cksum);
    var stored := 0xffff - cksum % 0x1_0000;
    Ip.IpSetCksum(a, ip, stored);
    DivMod65536(stored, 0, stored);
    SetCksumVerifies(z, a[..], ip);
  }

  /** A verified header stays verified when only bytes after it change. */
  lemma IpChecksumOutside(p: seq<bv8>, q: seq<bv8>, ip: nat, lo: nat, hi: nat)
    requires Ip.HasHeader(p, ip) && ip + 2 * HdrWords(p, ip) <= |p|
    requires SameOutside(q, p, lo, hi) && ip + 2 * HdrWords(p, ip) <= lo
    requires IpChecksumOk(p, ip)
    ensures HdrWords(q, ip) == HdrWords(p, ip) && IpChecksumOk(q, ip)
  {
    assert q[ip] == p[ip];
    WordSumSame(p, q, ip, HdrWords(p, ip));
  }

  lemma SetCksumVerifies(z: seq<bv8>, r: seq<bv8>, ip: nat)
    requires Ip.HasHeader(z, ip) && ip + 2 * HdrWords(z, ip) <= |z|
    requires SameOutside(r, z, ip + 10, ip + 12)
    requires Ip.Cksum(z, ip) == 0
    requires Ip.Cksum(r, ip) == 0xffff - Fold(WordSum(z, ip, HdrWords(z, ip)))
    ensures HdrWords(r, ip) == HdrWords(z, ip)
    ensures HdrWords(r, ip) >= 6 ==> IpChecksumOk(r, ip)
  {
    assert r[ip] == z[ip];
    var n := HdrWords(z, ip);
    if n >= 6 {
      StoredComplementVerifies(z, r, ip, n, 5);
    }
  }

  // ---------------------------------------------------------------------
  // The TCP and UDP checksum
  // ---------------------------------------------------------------------

  /** The sum over the pseudo-header (source and destination address, the
      protocol byte, the length) and the segment words. */
  function PseudoSum(p: seq<bv8>, ip: nat, t: nat, len: nat): nat
    requires Ip.HasHeader(p, ip) && t + 2 * SegmentWords(len) <= |p|
  {
    WordSum(p, ip + 12, 4) + Val(p[ip + 9]) + len + WordSum(p, t, SegmentWords(len))
  }

  /** The segment sum of RFC 793 and RFC 768, which pads an odd segment with
      a zero byte. */
  function PaddedSegmentSum(p: seq<bv8>, t: nat, len: nat): nat
    requires t + len <= |p|
  {
    WordSum(p, t, len / 2) + (if len % 2 == 1 then Val(p[t + len - 1]) * 256 else 0)
  }

  /** The padded sum reads only the segment's own bytes. */
  lemma PaddedSumSame(p: seq<bv8>, q: seq<bv8>, t: nat, len: nat)
    requires t + len <= |p| && t + len <= |q|
    requires forall i :: t <= i < t + len ==> p[i] == q[i]
    ensures PaddedSegmentSum(q, t, len) == PaddedSegmentSum(p, t, len)
  {
    WordSumSame(p, q, t, len / 2);
  }

  /** For an even length the sum is the one the RFCs prescribe; for an odd
      length it is off by the value of the byte after the segment, so the two
      agree exactly when that byte is zero. */
  lemma SegmentSumVersusPadded(p: seq<bv8>, t: nat, len: nat)
    requires t + 2 * SegmentWords(len) <= |p|
    ensures len % 2 == 0 ==> WordSum(p, t, SegmentWords(len)) == PaddedSegmentSum(p, t, len)
    ensures len % 2 == 1 ==> WordSum(p, t, SegmentWords(len)) == PaddedSegmentSum(p, t, len) + Val(p[t + len])
  {
    if len % 2 == 1 {
      assert SegmentWords(len) == len / 2 + 1;
    }
  }

  /** `pktlen - 1` for the `uint16_t` length: on the AVR an `int` has 16
      bits, so the length is not promoted to a signed type and the
      subtraction is unsigned 16-bit arithmetic, giving 0xffff for 0. */
  function LastIndex(len: nat): (r: nat)
    requires len < 0x1_0000
    ensures len > 0 ==> r == len - 1
    ensures len == 0 ==> r == 0xffff
  {
    (len + 0xffff) % 0x1_0000
  }

  /** What the step after the word loop adds: it runs when the loop's
      final `i` (twice the word count) is below `pktlen - 1`, which happens
      exactly for an empty segment, and then adds the byte at index 1 as
      a high byte. */
  function TailSum(p: seq<bv8>, t: nat, len: nat): (s: nat)
    requires len < 0x1_0000 && (len == 0 ==> t + 2 <= |p|)
    ensures s == (if len == 0 then Val(p[t + 1]) * 256 else 0)
  {
    var i := 2 * SegmentWords(len);
    if i < LastIndex(len) then Val(p[t + i + 1]) * 256 else 0
  }

  /** The sum tcpudp_make_checksum folds: the pseudo-header and segment
      sum together with the tail step's term. */
  function SourceSum(p: seq<bv8>, ip: nat, t: nat, len: nat): nat
    requires Ip.HasHeader(p, ip) && t + 2 * SegmentWords(len) <= |p|
    requires len < 0x1_0000 && (len == 0 ==> t + 2 <= |p|)
  {
    PseudoSum(p, ip, t, len) + TailSum(p, t, len)
  }

  /** For an empty segment the source's sum exceeds the pseudo-header sum
      by the segment's second byte taken as a high byte, so the checksum
      stored depends on a byte outside the segment; for any other length
      the two sums agree. */
  lemma EmptySegmentAddsSecondByte(p: seq<bv8>, ip: nat, t: nat, len: nat)
    requires Ip.HasHeader(p, ip) && t + 2 * SegmentWords(len) <= |p|
    requires len < 0x1_0000 && (len == 0 ==> t + 2 <= |p|)
    ensures len > 0 ==> SourceSum(p, ip, t, len) == PseudoSum(p, ip, t, len)
    ensures len == 0 ==> SourceSum(p, ip, t, len) == PseudoSum(p, ip, t, len) + Val(p[t + 1]) * 256
    ensures len == 0 ==> (SourceSum(p, ip, t, len) == PseudoSum(p, ip, t, len) <==> p[t + 1] == 0)
  {
    if len == 0 && Val(p[t + 1]) == 0 {
      ValInjective(p[t + 1], 0);
    }
  }

  /** The offset of the checksum word: 16 in a TCP header, 6 in a UDP header. */
  function CksumOffset(isTcp: bool): nat
  {
    if isTcp then TcpHeader.Offset16(TcpHeader.Cksum) else Udp.Offset(Udp.Cksum)
  }

  /** A segment the receiver accepts: pseudo-header and segment fold to 0xffff. */
  predicate SegmentChecksumOk(p: seq<bv8>, ip: nat, t: nat, len: nat)
    requires Ip.HasHeader(p, ip) && t + 2 * SegmentWords(len) <= |p|
  {
    Fold(PseudoSum(p, ip, t, len)) == 0xffff
  }

  /** tcpudp_make_checksum: zero the checksum word, add up the pseudo-header
      and the segment, fold until no carry is left, and store the complement.
      Only the checksum word changes; when the segment is long enough to hold
      it, and does not overlap the pseudo-header, the result verifies.
      For an odd `pktlen` the last word takes the byte after the segment.
      The tail step after the word loop runs exactly for `pktlen` 0 (see
      TailSum); the stored word is in every case the complement of the
      folded SourceSum of the buffer with the checksum word zeroed. */
  method TcpUdpMakeChecksum(a: array<bv8>, ip: nat, t: nat, pktlen: nat, isTcp: bool)
    requires Ip.HasHeader(a[..], ip)
    requires t + CksumOffset(isTcp) + 2 <= a.Length && t + 2 * SegmentWords(pktlen) <= a.Length
    requires pktlen < 0x1_0000
    modifies a
    ensures SameOutside(a[..], old(a[..]), t + CksumOffset(isTcp), t + CksumOffset(isTcp) + 2)
    ensures CksumOffset(isTcp) + 2 <= pktlen && ip + 20 <= t ==> SegmentChecksumOk(a[..], ip, t, pktlen)
    ensures var off := t + CksumOffset(isTcp);
      Read2Byte(a[..], off) == 0xffff - Fold(SourceSum(old(a[..])[off := 0][off + 1 := 0], ip, t, pktlen))
  {
    var off := CksumOffset(isTcp);
    assert off % 2 == 0;
    Write2Byte(a, t + off, 0);
    ghost var z := a[..];
    assert Read2Byte(z, t + off) == 0;
    ZeroedWord(z, old(a[..]), t + off);
    var cksum := FoldedSum(a, ip, t, pktlen);
    var stored := 0xffff - cksum;
    DivMod65536(stored, 0, stored);
    Write2Byte(a, t + off, stored);
    ghost var r := a[..];
    if ip + 20 <= t && off + 2 <= pktlen {
      EmptySegmentAddsSecondByte(z, ip, t, pktlen);
      SegmentCksumVerifies(z, r, ip, t, pktlen, off, PseudoSum(z, ip, t, pktlen));
    }
  }

  /** The summing part of tcpudp_make_checksum: the pseudo-header words, the
      protocol, the length, the segment words and the tail step, then the
      end-around carry folded in until none is left. */
  method FoldedSum(a: array<bv8>, ip: nat, t: nat, pktlen: nat) returns (cksum: nat)
    requires Ip.HasHeader(a[..], ip) && t + 2 * SegmentWords(pktlen) <= a.Length
    requires pktlen < 0x1_0000 && (pktlen == 0 ==> t + 2 <= a.Length)
    ensures cksum == Fold(SourceSum(a[..], ip, t, pktlen))
  {
    cksum := SumWords(a, ip + 12, 8);
    cksum := cksum + Val(a[ip + 9]);
    cksum := cksum + pktlen;
    var data := SumWords(a, t, pktlen);
    cksum := cksum + data;
    var i := 2 * SegmentWords(pktlen);
    if i < LastIndex(pktlen) {
      cksum := cksum + Val(a[t + i + 1]) * 256;
    }
    ghost var sum := cksum;
    while cksum >= 0x1_0000
      invariant Fold(cksum) == Fold(sum)
      decreases cksum
    {
      FoldStep(cksum);
      cksum := cksum % 0x1_0000 + cksum / 0x1_0000;
    }
  }

  lemma SegmentCksumVerifies(z: seq<bv8>, r: seq<bv8>, ip: nat, t: nat, len: nat, off: nat, s: nat)
    requires Ip.HasHeader(z, ip) && ip + 20 <= t && t + 2 * SegmentWords(len) <= |z|
    requires t + off + 2 <= |z| && off % 2 == 0
    requires SameOutside(r, z, t + off, t + off + 2)
    requires Read2Byte(z, t + off) == 0
    requires s == PseudoSum(z, ip, t, len)
    requires Read2Byte(r, t + off) == 0xffff - Fold(s)
    ensures off + 2 <= len ==> SegmentChecksumOk(r, ip, t, len)
  {
    if off + 2 <= len {
      var n := SegmentWords(len);
      var k := off / 2;
      var c := 0xffff - Fold(s);
      assert t + 2 * k == t + off;
      WordSumUpdate(z, r, t, n, k);
      assert WordSum(r, t, n) == WordSum(z, t, n) + c;
      WordSumSame(z, r, ip + 12, 4);
      assert r[ip + 9] == z[ip + 9];
      assert PseudoSum(r, ip, t, len) == s + c;
      ComplementVerifies(s);
    }
  }
}
