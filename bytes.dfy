/** Big-endian field access over the shared packet buffer: the READ_*,
    WRITE_*, IP_MATCH, IP_COPY and MAC_COPY macros of nw-stack2.h.
    A buffer position is a base offset ("pointer") plus a field offset. */
module Bytes {

  type IpAddr = s: seq<bv8> | |s| == 4 witness [0, 0, 0, 0]
  type MacAddr = s: seq<bv8> | |s| == 6 witness [0, 0, 0, 0, 0, 0]

  const ZERO_IP: IpAddr := [0, 0, 0, 0]

  // ---------------------------------------------------------------------
  // Byte values. Every use of a byte as a number goes through `Val`, and
  // every store of a number goes through `ByteOf`, so that the arithmetic
  // of the stack never mixes integers and bit-vectors directly.
  // ---------------------------------------------------------------------

  /** The unsigned value of a byte. */
  function Val(b: bv8): (n: nat)
    ensures n < 256
  {
    b as nat
  }

  /** Two bytes with the same value are the same byte. */
  lemma ValInjective(a: bv8, b: bv8)
    ensures Val(a) == Val(b) ==> a == b
  {
  }

  lemma ValZero(b: bv8)
    ensures Val(b) == 0 <==> b == 0
  {
  }

  lemma DivMod256(a: int, q: int, r: int)
    requires 0 <= r < 256 && a == q * 256 + r
    ensures a / 256 == q && a % 256 == r
  {
  }

  lemma DivMod65536(a: int, q: int, r: int)
    requires 0 <= r < 0x1_0000 && a == q * 0x1_0000 + r
    ensures a / 0x1_0000 == q && a % 0x1_0000 == r
  {
  }

  /** Every value below 256 is the value of some byte. */
  lemma ByteExists(x: nat)
    requires x < 256
    ensures exists b: bv8 :: Val(b) == x
  {
    var b: bv8 := 0;
    var i := 0;
    while i < x
      invariant 0 <= i <= x && Val(b) == i
    {
      b := b + 1;
      i := i + 1;
    }
  }

  /** The C `(uint8_t)` cast of a non-negative value: the byte whose value
      is the low eight bits. */
  function ByteOf(v: nat): (b: bv8)
    ensures Val(b) == v % 256
  {
    ByteExists(v % 256);
    forall b1: bv8, b2: bv8 | Val(b1) == v % 256 && Val(b2) == v % 256
      ensures b1 == b2
    {
      ValInjective(b1, b2);
    }
    var b: bv8 :| Val(b) == v % 256;
    b
  }

  // ---------------------------------------------------------------------
  // Reads (pure expressions in the source)
  // ---------------------------------------------------------------------

  /** READ_2BYTE: the byte at `o` is the high byte. */
  function Read2Byte(p: seq<bv8>, o: nat): (r: nat)
    requires o + 2 <= |p|
    ensures r < 0x1_0000
  {
    Val(p[o]) * 256 + Val(p[o + 1])
  }

  /** READ_4BYTE: the byte at `o` is the most significant. */
  function Read4Byte(p: seq<bv8>, o: nat): (r: nat)
    requires o + 4 <= |p|
    ensures r < 0x1_0000_0000
  {
    Val(p[o]) * 0x100_0000 + Val(p[o + 1]) * 0x1_0000 + Val(p[o + 2]) * 0x100 + Val(p[o + 3])
  }

  /** READ_2BYTE splits back into the two bytes it was read from. */
  lemma {:induction false} Read2ByteBytes(p: seq<bv8>, o: nat)
    requires o + 2 <= |p|
    ensures Read2Byte(p, o) / 256 == Val(p[o]) && Read2Byte(p, o) % 256 == Val(p[o + 1])
  {
    DivMod256(Read2Byte(p, o), Val(p[o]), Val(p[o + 1]));
  }

  /** READ_4BYTE is the high 16-bit word followed by the low one. */
  lemma {:induction false} Read4ByteHalves(p: seq<bv8>, o: nat)
    requires o + 4 <= |p|
    ensures Read4Byte(p, o) == Read2Byte(p, o) * 0x1_0000 + Read2Byte(p, o + 2)
    ensures Read4Byte(p, o) / 0x1_0000 == Read2Byte(p, o)
    ensures Read4Byte(p, o) % 0x1_0000 == Read2Byte(p, o + 2)
  {
    DivMod65536(Read4Byte(p, o), Read2Byte(p, o), Read2Byte(p, o + 2));
  }

  // ---------------------------------------------------------------------
  // Encodings: the bytes WRITE_2BYTE and WRITE_4BYTE store
  // ---------------------------------------------------------------------

  /** The two bytes WRITE_2BYTE stores, high byte `(v & 0xff00) >> 8` first;
      READ_2BYTE decodes them back to `v mod 2^16`. */
  function Encode16(v: nat): (r: seq<bv8>)
    ensures |r| == 2
    ensures Read2Byte(r, 0) == v % 0x1_0000
    ensures Val(r[0]) == v % 0x1_0000 / 256 && Val(r[1]) == v % 256
  {
    var hi := ByteOf(v / 256);
    var lo := ByteOf(v);
    var r := [hi, lo];
    Split16(v);
    Read2ByteBytes(r, 0);
    r
  }

  /** The four bytes WRITE_4BYTE stores, most significant first; READ_4BYTE
      decodes them back to `v mod 2^32`, and the two 16-bit halves are the
      high and low words. */
  function Encode32(v: nat): (r: seq<bv8>)
    ensures |r| == 4
    ensures Read4Byte(r, 0) == v % 0x1_0000_0000
    ensures Read2Byte(r, 0) == v % 0x1_0000_0000 / 0x1_0000
    ensures Read2Byte(r, 2) == v % 0x1_0000
  {
    var r := [ByteOf(v / 0x100_0000), ByteOf(v / 0x1_0000), ByteOf(v / 0x100), ByteOf(v)];
    Split32(v);
    Read4ByteHalves(r, 0);
    Split16(v);
    r
  }

  /** The two bytes of a 16-bit value recombine to it. */
  lemma Split16(v: nat)
    ensures ((v / 256) % 256) * 256 + v % 256 == v % 0x1_0000
  {
    var q := v / 0x1_0000;
    var w := v % 0x1_0000;
    var hi := w / 256;
    var lo := w % 256;
    assert v == (q * 256 + hi) * 256 + lo;
    DivMod256(v, q * 256 + hi, lo);
    DivMod256(v / 256, q, hi);
  }

  /** The four bytes of a 32-bit value recombine to it. */
  lemma Split32(v: nat)
    ensures ((v / 0x100_0000) % 256) * 0x100_0000 + ((v / 0x1_0000) % 256) * 0x1_0000
            + ((v / 0x100) % 256) * 0x100 + v % 256 == v % 0x1_0000_0000
  {
    var hi := v / 0x1_0000;
    var lo := v % 0x1_0000;
    Split16(v);
    Split16(hi);
    var t := v % 0x1_0000_0000;
    var q := v / 0x1_0000_0000;
    assert v == q * 0x1_0000_0000 + t;
    assert hi % 0x1_0000 == t / 0x1_0000 by {
      assert v == (q * 0x1_0000 + t / 0x1_0000) * 0x1_0000 + t % 0x1_0000;
      DivMod65536(v, q * 0x1_0000 + t / 0x1_0000, t % 0x1_0000);
      DivMod65536(hi, q, t / 0x1_0000);
    }
    assert v / 0x100_0000 == hi / 256 by {
      assert v == (hi / 256) * 0x100_0000 + ((hi % 256) * 0x1_0000 + lo);
    }
    assert (v / 0x100) % 256 == lo / 256;
    assert t == (hi % 0x1_0000) * 0x1_0000 + lo;
  }

  // ---------------------------------------------------------------------
  // The write macros as in-place updates of the buffer
  // ---------------------------------------------------------------------

  /** `p` and `q` have the same length and agree outside positions `lo .. hi-1`. */
  predicate SameOutside(p: seq<bv8>, q: seq<bv8>, lo: nat, hi: nat)
  {
    |p| == |q| && forall i :: 0 <= i < |p| && (i < lo || hi <= i) ==> p[i] == q[i]
  }

  /** WRITE_BYTE */
  method WriteByte(a: array<bv8>, o: nat, v: nat)
    requires o < a.Length
    modifies a
    ensures Val(a[o]) == v % 256 && a[o] == ByteOf(v)
    ensures SameOutside(a[..], old(a[..]), o, o + 1)
  {
    a[o] := ByteOf(v);
  }

  /** WRITE_2BYTE: only bytes `o` and `o + 1` change, and they hold `Encode16(v)`. */
  method Write2Byte(a: array<bv8>, o: nat, v: nat)
    requires o + 2 <= a.Length
    modifies a
    ensures a[o] == Encode16(v)[0] && a[o + 1] == Encode16(v)[1]
    ensures Read2Byte(a[..], o) == v % 0x1_0000
    ensures SameOutside(a[..], old(a[..]), o, o + 2)
  {
    ghost var p := a[..];
    var e := Encode16(v);
    a[o] := e[0];
    a[o + 1] := e[1];
    assert a[..] == p[o := e[0]][o + 1 := e[1]];
    Put2(p, o, e);
  }

  /** WRITE_4BYTE: only bytes `o .. o + 3` change, and they hold `Encode32(v)`. */
  method Write4Byte(a: array<bv8>, o: nat, v: nat)
    requires o + 4 <= a.Length
    modifies a
    ensures a[o] == Encode32(v)[0] && a[o + 1] == Encode32(v)[1]
    ensures a[o + 2] == Encode32(v)[2] && a[o + 3] == Encode32(v)[3]
    ensures Read4Byte(a[..], o) == v % 0x1_0000_0000
    ensures Read2Byte(a[..], o) == v % 0x1_0000_0000 / 0x1_0000
    ensures Read2Byte(a[..], o + 2) == v % 0x1_0000
    ensures SameOutside(a[..], old(a[..]), o, o + 4)
  {
    ghost var p := a[..];
    var e := Encode32(v);
    a[o] := e[0];
    a[o + 1] := e[1];
    a[o + 2] := e[2];
    a[o + 3] := e[3];
    assert a[..] == p[o := e[0]][o + 1 := e[1]][o + 2 := e[2]][o + 3 := e[3]];
    Put4(p, o, e);
  }

  /** Storing two bytes at `o` changes nothing else, and reading them back
      gives the stored word. */
  lemma Put2(p: seq<bv8>, o: nat, e: seq<bv8>)
    requires o + 2 <= |p| && |e| == 2
    ensures var r := p[o := e[0]][o + 1 := e[1]];
      Read2Byte(r, o) == Read2Byte(e, 0) && SameOutside(r, p, o, o + 2)
  {
  }

  /** A buffer that differs from `q` only in a word that reads 0 is `q`
      with that word cleared. */
  lemma ZeroedWord(z: seq<bv8>, q: seq<bv8>, o: nat)
    requires o + 2 <= |q| && SameOutside(z, q, o, o + 2) && Read2Byte(z, o) == 0
    ensures z == q[o := 0][o + 1 := 0]
  {
    ValZero(z[o]);
    ValZero(z[o + 1]);
  }

  /** Storing four bytes at `o` changes nothing else, and reading them back
      gives the stored word and its two halves. */
  lemma Put4(p: seq<bv8>, o: nat, e: seq<bv8>)
    requires o + 4 <= |p| && |e| == 4
    ensures var r := p[o := e[0]][o + 1 := e[1]][o + 2 := e[2]][o + 3 := e[3]];
      Read4Byte(r, o) == Read4Byte(e, 0) && Read2Byte(r, o) == Read2Byte(e, 0)
      && Read2Byte(r, o + 2) == Read2Byte(e, 2) && SameOutside(r, p, o, o + 4)
  {
    var r := p[o := e[0]][o + 1 := e[1]][o + 2 := e[2]][o + 3 := e[3]];
    assert r[o] == e[0] && r[o + 1] == e[1] && r[o + 2] == e[2] && r[o + 3] == e[3];
    assert Read2Byte(r, o) == Read2Byte(e, 0);
    assert Read2Byte(r, o + 2) == Read2Byte(e, 2);
    Read4ByteHalves(r, o);
    Read4ByteHalves(e, 0);
  }

  // ---------------------------------------------------------------------
  // Frames: what a write outside a field leaves of it
  // ---------------------------------------------------------------------

  /** Two frames compose into the smallest range covering both. */
  lemma SameOutsideTrans(p: seq<bv8>, q: seq<bv8>, r: seq<bv8>, lo1: nat, hi1: nat, lo2: nat, hi2: nat, lo: nat, hi: nat)
    requires SameOutside(p, q, lo1, hi1) && SameOutside(q, r, lo2, hi2)
    requires lo <= lo1 && lo <= lo2 && hi1 <= hi && hi2 <= hi
    ensures SameOutside(p, r, lo, hi)
  {
  }

  /** `p` and `q` agree outside two ranges. */
  predicate SameOutside2(p: seq<bv8>, q: seq<bv8>, lo1: nat, hi1: nat, lo2: nat, hi2: nat)
  {
    |p| == |q| && forall i :: 0 <= i < |p| && (i < lo1 || hi1 <= i) && (i < lo2 || hi2 <= i) ==> p[i] == q[i]
  }

  /** Two changed ranges lie inside any range covering both. */
  lemma SameOutside2Covered(p: seq<bv8>, q: seq<bv8>, lo1: nat, hi1: nat, lo2: nat, hi2: nat, lo: nat, hi: nat)
    requires SameOutside2(p, q, lo1, hi1, lo2, hi2)
    requires lo <= lo1 && lo <= lo2 && hi1 <= hi && hi2 <= hi
    ensures SameOutside(p, q, lo, hi)
  {
  }

  /** A slice that lies outside both changed ranges is unchanged. */
  lemma SliceOutside2(p: seq<bv8>, q: seq<bv8>, lo1: nat, hi1: nat, lo2: nat, hi2: nat, from: nat, to: nat)
    requires SameOutside2(p, q, lo1, hi1, lo2, hi2) && from <= to <= |p|
    requires to <= lo1 || hi1 <= from
    requires to <= lo2 || hi2 <= from
    ensures p[from .. to] == q[from .. to]
  {
    assert forall k :: 0 <= k < to - from ==> p[from .. to][k] == p[from + k];
  }

  /** A slice that lies outside the changed range is unchanged. */
  lemma SliceOutside(p: seq<bv8>, q: seq<bv8>, lo: nat, hi: nat, from: nat, to: nat)
    requires SameOutside(p, q, lo, hi) && from <= to <= |p|
    requires to <= lo || hi <= from
    ensures p[from .. to] == q[from .. to]
  {
    assert forall k :: 0 <= k < to - from ==> p[from .. to][k] == p[from + k];
  }

  /** A 16-bit field that lies outside the changed range reads the same. */
  lemma Read2Outside(p: seq<bv8>, q: seq<bv8>, lo: nat, hi: nat, o: nat)
    requires SameOutside(p, q, lo, hi) && o + 2 <= |p|
    requires o + 2 <= lo || hi <= o
    ensures Read2Byte(p, o) == Read2Byte(q, o)
  {
    assert p[o] == q[o] && p[o + 1] == q[o + 1];
  }

  /** A 32-bit field that lies outside the changed range reads the same. */
  lemma Read4Outside(p: seq<bv8>, q: seq<bv8>, lo: nat, hi: nat, o: nat)
    requires SameOutside(p, q, lo, hi) && o + 4 <= |p|
    requires o + 4 <= lo || hi <= o
    ensures Read4Byte(p, o) == Read4Byte(q, o)
  {
    assert p[o] == q[o] && p[o + 1] == q[o + 1] && p[o + 2] == q[o + 2] && p[o + 3] == q[o + 3];
  }

  // ---------------------------------------------------------------------
  // Addresses
  // ---------------------------------------------------------------------

  /** IP_MATCH: the first four bytes agree one by one. */
  predicate IpMatch(a: seq<bv8>, b: seq<bv8>)
    requires |a| >= 4 && |b| >= 4
  {
    a[0] == b[0] && a[1] == b[1] && a[2] == b[2] && a[3] == b[3]
  }

  /** IP_MATCH is equality of the four-byte prefixes, hence reflexive and symmetric. */
  lemma {:induction false} IpMatchIsPrefixEquality(a: seq<bv8>, b: seq<bv8>)
    requires |a| >= 4 && |b| >= 4
    ensures IpMatch(a, b) <==> a[..4] == b[..4]
    ensures IpMatch(a, a)
    ensures IpMatch(a, b) <==> IpMatch(b, a)
  {
    if IpMatch(a, b) {
      assert forall k | 0 <= k < 4 :: a[..4][k] == b[..4][k];
    }
  }

  /** The buffer with `s` written over positions `at .. at + |s|`. */
  function Splice(p: seq<bv8>, at: nat, s: seq<bv8>): (r: seq<bv8>)
    requires at + |s| <= |p|
    ensures |r| == |p| && r[at .. at + |s|] == s
    ensures forall i :: 0 <= i < |p| && (i < at || at + |s| <= i) ==> r[i] == p[i]
  {
    p[..at] + s + p[at + |s|..]
  }

  /** The copy loop of IP_COPY and MAC_COPY: `src` is stored byte by byte
      from position `at` on. */
  method CopyInto(a: array<bv8>, at: nat, src: seq<bv8>)
    requires at + |src| <= a.Length
    modifies a
    ensures a[..] == Splice(old(a[..]), at, src)
  {
    var i := 0;
    while i < |src|
      invariant 0 <= i <= |src|
      invariant a[at .. at + i] == src[..i]
      invariant forall k :: 0 <= k < a.Length && (k < at || at + i <= k) ==> a[k] == old(a[k])
    {
      a[at + i] := src[i];
      i := i + 1;
    }
    assert a[..] == Splice(old(a[..]), at, src) by {
      forall k | 0 <= k < a.Length ensures a[k] == Splice(old(a[..]), at, src)[k] {
        if at <= k < at + |src| {
          assert a[at .. at + |src|][k - at] == src[k - at];
        }
      }
    }
  }

  /** IP_COPY into the buffer at `at`: afterwards the four bytes there match `src`. */
  method IpCopy(a: array<bv8>, at: nat, src: seq<bv8>)
    requires at + 4 <= a.Length && |src| >= 4
    modifies a
    ensures a[..] == Splice(old(a[..]), at, src[..4])
    ensures IpMatch(a[at..], src)
  {
    CopyInto(a, at, src[..4]);
    assert a[at..][..4] == a[at .. at + 4];
    IpMatchIsPrefixEquality(a[at..], src);
  }

  /** MAC_COPY into the buffer at `at`. */
  method MacCopy(a: array<bv8>, at: nat, src: seq<bv8>)
    requires at + 6 <= a.Length && |src| >= 6
    modifies a
    ensures a[..] == Splice(old(a[..]), at, src[..6])
    ensures a[at .. at + 6] == src[..6]
  {
    CopyInto(a, at, src[..6]);
  }
}
