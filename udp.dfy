/** The UDP header of udp.h (RFC 768): four big-endian 16-bit words. */
module Udp {
  import opened Bytes

  const UDP_HEADER_LEN: nat := 8
  const UDP_PORT_NTP: nat := 123

  /** The four header words. */
  datatype Field = SrcPort | DstPort | Length | Cksum

  /** The offset of each word: source port 0, destination port 2, length 4,
      checksum 6, all inside the 8-byte header. */
  function Offset(f: Field): (o: nat)
    ensures o + 2 <= UDP_HEADER_LEN && o % 2 == 0
  {
    match f
    case SrcPort => 0
    case DstPort => 2
    case Length => 4
    case Cksum => 6
  }

  predicate HasHeader(p: seq<bv8>, udp: nat)
  {
    udp + UDP_HEADER_LEN <= |p|
  }

  /** UDP_GET_SRC_PORT, UDP_GET_DST_PORT, UDP_GET_LENGTH, UDP_GET_CKSUM */
  function Get(p: seq<bv8>, udp: nat, f: Field): nat
    requires HasHeader(p, udp)
  {
    Read2Byte(p, udp + Offset(f))
  }

  /** Distinct words occupy disjoint byte pairs. */
  lemma FieldsDisjoint(f: Field, g: Field)
    ensures f != g ==> Offset(f) + 2 <= Offset(g) || Offset(g) + 2 <= Offset(f)
  {
  }

  /** UDP_SET_SRC_PORT, UDP_SET_DST_PORT, UDP_SET_LENGTH, UDP_SET_CKSUM: the
      word reads back as `v mod 2^16` and every other word, and every byte
      outside the two written, is unchanged. */
  method Set(a: array<bv8>, udp: nat, f: Field, v: nat)
    requires HasHeader(a[..], udp)
    modifies a
    ensures Get(a[..], udp, f) == v % 0x1_0000
    ensures forall g :: g != f ==> Get(a[..], udp, g) == Get(old(a[..]), udp, g)
    ensures SameOutside(a[..], old(a[..]), udp + Offset(f), udp + Offset(f) + 2)
  {
    Write2Byte(a, udp + Offset(f), v);
    OthersUnchanged(a[..], old(a[..]), udp, f);
  }

  /** A write confined to the bytes of word `f` leaves every other word as it was. */
  lemma OthersUnchanged(p: seq<bv8>, q: seq<bv8>, udp: nat, f: Field)
    requires HasHeader(q, udp) && SameOutside(p, q, udp + Offset(f), udp + Offset(f) + 2)
    ensures forall g :: g != f ==> Get(p, udp, g) == Get(q, udp, g)
  {
    forall g | g != f
      ensures Get(p, udp, g) == Get(q, udp, g)
    {
      FieldsDisjoint(f, g);
      Read2Outside(p, q, udp + Offset(f), udp + Offset(f) + 2, udp + Offset(g));
    }
  }
}
