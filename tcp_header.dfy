/** The TCP header of tcp.h (section 3.1 of RFC 793). `tcp` is the offset
    of the header inside the packet buffer. */
module TcpHeader {
  import opened Bytes

  const TCP_HEADER_LEN: nat := 20
  const TCP_PROTOCOL_HTTP: nat := 80
  const TCP_DATA_OFFSET_OFFSET: nat := 12
  const TCP_FLAGS_OFFSET: nat := 13

  const TCP_FLAG_FIN: bv8 := 1
  const TCP_FLAG_SYN: bv8 := 2
  const TCP_FLAG_RST: bv8 := 4
  const TCP_FLAG_PSH: bv8 := 8
  const TCP_FLAG_ACK: bv8 := 16
  const TCP_FLAG_URG: bv8 := 32

  /** The 16-bit words of the header. */
  datatype Word16 = SrcPort | DstPort | Window | Cksum | UrgPtr

  /** The 32-bit words of the header. */
  datatype Word32 = SeqNo | AckNo

  function Offset16(f: Word16): (o: nat)
    ensures o + 2 <= TCP_HEADER_LEN
    ensures o + 2 <= TCP_DATA_OFFSET_OFFSET || TCP_FLAGS_OFFSET < o
  {
    match f
    case SrcPort => 0
    case DstPort => 2
    case Window => 14
    case Cksum => 16
    case UrgPtr => 18
  }

  function Offset32(f: Word32): (o: nat)
    ensures o + 4 <= TCP_DATA_OFFSET_OFFSET
  {
    match f
    case SeqNo => 4
    case AckNo => 8
  }

  /** No two words of the header share a byte, and none covers bytes 12-13. */
  lemma WordsDisjoint(f: Word16, g: Word16, h: Word32, k: Word32)
    ensures f != g ==> Offset16(f) + 2 <= Offset16(g) || Offset16(g) + 2 <= Offset16(f)
    ensures h != k ==> Offset32(h) + 4 <= Offset32(k) || Offset32(k) + 4 <= Offset32(h)
    ensures Offset16(f) + 2 <= Offset32(h) || Offset32(h) + 4 <= Offset16(f)
  {
  }

  predicate HasHeader(p: seq<bv8>, tcp: nat)
  {
    tcp + TCP_HEADER_LEN <= |p|
  }

  /** TCP_GET_SRC_PORT, TCP_GET_DST_PORT, TCP_GET_WINDOW, TCP_GET_CKSUM, TCP_GET_URG_PTR */
  function Get16(p: seq<bv8>, tcp: nat, f: Word16): nat
    requires HasHeader(p, tcp)
  {
    Read2Byte(p, tcp + Offset16(f))
  }

  /** TCP_GET_SEQNO, TCP_GET_ACKNO */
  function Get32(p: seq<bv8>, tcp: nat, f: Word32): nat
    requires HasHeader(p, tcp)
  {
    Read4Byte(p, tcp + Offset32(f))
  }

  // ---------------------------------------------------------------------
  // Bytes 12 and 13: data offset and flags
  // ---------------------------------------------------------------------

  /** TCP_GET_DATA_OFFSET: the high nibble of byte 12, in 32-bit words. */
  function DataOffsetOf(b: bv8): bv8
  {
    (b & 0xf0) >> 4
  }

  /** Byte 12 after TCP_SET_DATA_OFFSET, which adds `v << 4` to the kept low
      nibble: the addition never carries into the low nibble, so it is the
      same as an or, the low nibble is kept and the offset reads back as `v`
      for every `v < 16`. */
  function SetDataOffsetByte(b: bv8, v: bv8): (r: bv8)
    ensures r == (b & 0x0f) | (v << 4)
    ensures r & 0x0f == b & 0x0f
    ensures DataOffsetOf(r) == v & 0x0f
    ensures v < 16 ==> DataOffsetOf(r) == v
  {
    (b & 0x0f) + (v << 4)
  }

  /** TCP_GET_FLAGS: the low six bits of byte 13. */
  function FlagsOf(b: bv8): bv8
  {
    b & 0x3f
  }

  /** Byte 13 after TCP_CLEAR_FLAGS: only bits 6-7 are kept. */
  function ClearFlagsByte(b: bv8): (r: bv8)
    ensures FlagsOf(r) == 0 && r & 0xc0 == b & 0xc0
  {
    b & 0xc0
  }

  /** Byte 13 after TCP_SET_FLAG: the flag bits are added to those set. */
  function SetFlagByte(b: bv8, flag: bv8): (r: bv8)
    ensures FlagsOf(r) == FlagsOf(b) | FlagsOf(flag)
    ensures flag < 64 ==> r & 0xc0 == b & 0xc0
  {
    b | flag
  }

  /** Clearing the flags and then setting `f < 64` leaves exactly `f` as the
      flags, with bits 6-7 untouched. */
  lemma ClearThenSet(b: bv8, f: bv8)
    requires f < 64
    ensures FlagsOf(SetFlagByte(ClearFlagsByte(b), f)) == f
    ensures SetFlagByte(ClearFlagsByte(b), f) & 0xc0 == b & 0xc0
  {
  }

  /** The six flags are distinct single bits inside the six-bit flag field,
      so or-ing a set of them loses none. */
  lemma FlagsAreDistinctBits()
    ensures TCP_FLAG_FIN == 1 << 0 && TCP_FLAG_SYN == 1 << 1 && TCP_FLAG_RST == 1 << 2
    ensures TCP_FLAG_PSH == 1 << 3 && TCP_FLAG_ACK == 1 << 4 && TCP_FLAG_URG == 1 << 5
    ensures FlagsOf(TCP_FLAG_FIN | TCP_FLAG_SYN | TCP_FLAG_RST | TCP_FLAG_PSH | TCP_FLAG_ACK | TCP_FLAG_URG) == 0x3f
  {
  }

  function DataOffset(p: seq<bv8>, tcp: nat): bv8
    requires HasHeader(p, tcp)
  {
    DataOffsetOf(p[tcp + TCP_DATA_OFFSET_OFFSET])
  }

  function Flags(p: seq<bv8>, tcp: nat): bv8
    requires HasHeader(p, tcp)
  {
    FlagsOf(p[tcp + TCP_FLAGS_OFFSET])
  }

  // ---------------------------------------------------------------------
  // Setters over the buffer
  // ---------------------------------------------------------------------

  /** TCP_SET_SRC_PORT .. TCP_SET_URG_PTR */
  method Set16(a: array<bv8>, tcp: nat, f: Word16, v: nat)
    requires HasHeader(a[..], tcp)
    modifies a
    ensures Get16(a[..], tcp, f) == v % 0x1_0000
    ensures forall g :: g != f ==> Get16(a[..], tcp, g) == Get16(old(a[..]), tcp, g)
    ensures forall h :: Get32(a[..], tcp, h) == Get32(old(a[..]), tcp, h)
    ensures SameOutside(a[..], old(a[..]), tcp + Offset16(f), tcp + Offset16(f) + 2)
  {
    Write2Byte(a, tcp + Offset16(f), v);
    Others16Unchanged(a[..], old(a[..]), tcp, f);
  }

  /** TCP_SET_SEQNO, TCP_SET_ACKNO */
  method Set32(a: array<bv8>, tcp: nat, f: Word32, v: nat)
    requires HasHeader(a[..], tcp)
    modifies a
    ensures Get32(a[..], tcp, f) == v % 0x1_0000_0000
    ensures forall g :: Get16(a[..], tcp, g) == Get16(old(a[..]), tcp, g)
    ensures forall h :: h != f ==> Get32(a[..], tcp, h) == Get32(old(a[..]), tcp, h)
    ensures SameOutside(a[..], old(a[..]), tcp + Offset32(f), tcp + Offset32(f) + 4)
  {
    Write4Byte(a, tcp + Offset32(f), v);
    Others32Unchanged(a[..], old(a[..]), tcp, f);
  }

  lemma Others16Unchanged(p: seq<bv8>, q: seq<bv8>, tcp: nat, f: Word16)
    requires HasHeader(q, tcp) && SameOutside(p, q, tcp + Offset16(f), tcp + Offset16(f) + 2)
    ensures forall g :: g != f ==> Get16(p, tcp, g) == Get16(q, tcp, g)
    ensures forall h :: Get32(p, tcp, h) == Get32(q, tcp, h)
  {
    forall g | g != f
      ensures Get16(p, tcp, g) == Get16(q, tcp, g)
    {
      WordsDisjoint(f, g, SeqNo, SeqNo);
      Read2Outside(p, q, tcp + Offset16(f), tcp + Offset16(f) + 2, tcp + Offset16(g));
    }
    forall h
      ensures Get32(p, tcp, h) == Get32(q, tcp, h)
    {
      WordsDisjoint(f, f, h, h);
      Read4Outside(p, q, tcp + Offset16(f), tcp + Offset16(f) + 2, tcp + Offset32(h));
    }
  }

  lemma Others32Unchanged(p: seq<bv8>, q: seq<bv8>, tcp: nat, f: Word32)
    requires HasHeader(q, tcp) && SameOutside(p, q, tcp + Offset32(f), tcp + Offset32(f) + 4)
    ensures forall g :: Get16(p, tcp, g) == Get16(q, tcp, g)
    ensures forall h :: h != f ==> Get32(p, tcp, h) == Get32(q, tcp, h)
  {
    forall g
      ensures Get16(p, tcp, g) == Get16(q, tcp, g)
    {
      WordsDisjoint(g, g, f, f);
      Read2Outside(p, q, tcp + Offset32(f), tcp + Offset32(f) + 4, tcp + Offset16(g));
    }
    forall h | h != f
      ensures Get32(p, tcp, h) == Get32(q, tcp, h)
    {
      WordsDisjoint(SrcPort, SrcPort, f, h);
      Read4Outside(p, q, tcp + Offset32(f), tcp + Offset32(f) + 4, tcp + Offset32(h));
    }
  }

  /** TCP_SET_DATA_OFFSET */
  method SetDataOffset(a: array<bv8>, tcp: nat, v: bv8)
    requires HasHeader(a[..], tcp)
    modifies a
    ensures a[..] == old(a[..])[tcp + 12 := SetDataOffsetByte(old(a[tcp + 12]), v)]
  {
    a[tcp + 12] := SetDataOffsetByte(a[tcp + 12], v);
  }

  /** TCP_CLEAR_FLAGS */
  method ClearFlags(a: array<bv8>, tcp: nat)
    requires HasHeader(a[..], tcp)
    modifies a
    ensures a[..] == old(a[..])[tcp + 13 := ClearFlagsByte(old(a[tcp + 13]))]
  {
    a[tcp + 13] := ClearFlagsByte(a[tcp + 13]);
  }

  /** TCP_SET_FLAG */
  method SetFlag(a: array<bv8>, tcp: nat, flag: bv8)
    requires HasHeader(a[..], tcp)
    modifies a
    ensures a[..] == old(a[..])[tcp + 13 := SetFlagByte(old(a[tcp + 13]), flag)]
  {
    a[tcp + 13] := SetFlagByte(a[tcp + 13], flag);
  }
}
