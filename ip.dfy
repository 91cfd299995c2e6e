/** The IPv4 header of ip.h (section 3.1 of RFC 791). `ip` is the offset of
    the header inside the packet buffer. */
module Ip {
  import opened Bytes

  const IP_HEADER_LEN: nat := 20
  const IP_VL_OFFSET: nat := 0
  const IP_TOS_OFFSET: nat := 1
  const IP_LENGTH_OFFSET: nat := 2
  const IP_ID_OFFSET: nat := 4
  const IP_FRAGMENT_OFFSET: nat := 6
  const IP_TTL_OFFSET: nat := 8
  const IP_PROTOCOL_OFFSET: nat := 9
  const IP_CKSUM_OFFSET: nat := 10
  const IP_SRC_IP_OFFSET: nat := 12
  const IP_DST_IP_OFFSET: nat := 16
  const IP_DATA_OFFSET: nat := 20

  const IP_VERSION_IPV4: bv8 := 4

  const IP_FLAG_RESERVED: bv8 := 0x04
  const IP_FLAG_DONT_FRAGMENT: bv8 := 0x02
  const IP_FLAG_MORE_FRAGMENTS: bv8 := 0x01

  const IP_PROTOCOL_ICMP: bv8 := 1
  const IP_PROTOCOL_TCP: bv8 := 6
  const IP_PROTOCOL_UDP: bv8 := 17

  predicate HasHeader(p: seq<bv8>, ip: nat)
  {
    ip + IP_HEADER_LEN <= |p|
  }

  // ---------------------------------------------------------------------
  // Byte 0: version and header length
  // ---------------------------------------------------------------------

  /** The version nibble of byte 0 (IP_GET_VERSION). */
  function VersionOf(b: bv8): bv8
  {
    (b & 0xf0) >> 4
  }

  /** The header-length nibble of byte 0, in 32-bit words (IP_GET_HDR_LEN). */
  function HdrLenOf(b: bv8): bv8
  {
    b & 0x0f
  }

  /** Byte 0 after IP_SET_VERSION. The stored value is truncated to eight
      bits, so only the low nibble of `v` survives the shift: the version
      reads back as `v` for every `v < 16`, and the header length is kept. */
  function SetVersionByte(b: bv8, v: bv8): (r: bv8)
    ensures VersionOf(r) == v & 0x0f
    ensures v < 16 ==> VersionOf(r) == v
    ensures HdrLenOf(r) == HdrLenOf(b)
  {
    (b & 0x0f) | (v << 4)
  }

  /** Byte 0 after IP_SET_HDR_LEN. For `v < 16` the length reads back as `v`
      and the version is kept; a wider `v` spills into the version nibble. */
  function SetHdrLenByte(b: bv8, v: bv8): (r: bv8)
    ensures HdrLenOf(r) == v & 0x0f
    ensures VersionOf(r) == VersionOf(b) | (v >> 4)
    ensures v < 16 ==> HdrLenOf(r) == v && VersionOf(r) == VersionOf(b)
  {
    (b & 0xf0) | v
  }

  // ---------------------------------------------------------------------
  // Byte 6: the flag bits
  // ---------------------------------------------------------------------

  /** IP_GET_FLAGS: the three top bits of byte 6 (reserved, don't fragment,
      more fragments). */
  function FlagsOf(b: bv8): bv8
  {
    (b & 0xe0) >> 5
  }

  /** IP_GET_FRAG_FLAGS: byte 6 under the mask 0xd0, shifted down five. */
  function FragFlagsOf(b: bv8): bv8
  {
    (b & 0xd0) >> 5
  }

  /** Byte 6 after IP_SET_FRAG_FLAGS: bits 0-4 kept, `v` in bits 5-7. */
  function SetFragFlagsByte(b: bv8, v: bv8): (r: bv8)
    ensures r & 0x1f == b & 0x1f
    ensures FlagsOf(r) == v & 0x07
  {
    (b & 0x1f) | (v << 5)
  }

  /** Byte 6 after IP_CLEAR_FLAGS: no flag left, bits 0-4 kept. */
  function ClearFlagsByte(b: bv8): (r: bv8)
    ensures FlagsOf(r) == 0 && r & 0x1f == b & 0x1f
  {
    b & 0x1f
  }

  /** Byte 6 after IP_SET_FLAG: the flag is added to those already set. */
  function SetFlagByte(b: bv8, flag: bv8): (r: bv8)
    ensures FlagsOf(r) == FlagsOf(b) | (flag & 0x07)
    ensures r & 0x1f == b & 0x1f
  {
    b | (flag << 5)
  }

  /** The mask 0xd0 of IP_GET_FRAG_FLAGS misses bit 5, so it reports the
      reserved and don't-fragment flags of IP_GET_FLAGS but never the
      more-fragments flag: the two getters differ exactly when that flag is set. */
  lemma FragFlagsMissesMoreFragments(b: bv8)
    ensures FragFlagsOf(b) == FlagsOf(b) & 0x06
    ensures FragFlagsOf(b) & IP_FLAG_MORE_FRAGMENTS == 0
    ensures FragFlagsOf(b) != FlagsOf(b) <==> FlagsOf(b) & IP_FLAG_MORE_FRAGMENTS != 0
  {
  }

  /** A byte below 32 has none of the three flag bits. */
  lemma NoFlagsBelow32(b: bv8)
    requires Val(b) < 32
    ensures FlagsOf(b) == 0
  {
  }

  // ---------------------------------------------------------------------
  // Getters over the buffer
  // ---------------------------------------------------------------------

  function Version(p: seq<bv8>, ip: nat): bv8
    requires HasHeader(p, ip)
  {
    VersionOf(p[ip + IP_VL_OFFSET])
  }

  function HdrLen(p: seq<bv8>, ip: nat): bv8
    requires HasHeader(p, ip)
  {
    HdrLenOf(p[ip + IP_VL_OFFSET])
  }

  /** IP_GET_LENGTH */
  function Length(p: seq<bv8>, ip: nat): nat
    requires HasHeader(p, ip)
  {
    Read2Byte(p, ip + IP_LENGTH_OFFSET)
  }

  function Flags(p: seq<bv8>, ip: nat): bv8
    requires HasHeader(p, ip)
  {
    FlagsOf(p[ip + IP_FRAGMENT_OFFSET])
  }

  /** IP_GET_FRAG_OFFSET: the 16-bit word at 6 under the mask 0x1fff. */
  function FragOffset(p: seq<bv8>, ip: nat): nat
    requires HasHeader(p, ip)
  {
    Read2Byte(p, ip + IP_FRAGMENT_OFFSET) % 0x2000
  }

  function Cksum(p: seq<bv8>, ip: nat): nat
    requires HasHeader(p, ip)
  {
    Read2Byte(p, ip + IP_CKSUM_OFFSET)
  }

  function SrcIp(p: seq<bv8>, ip: nat): seq<bv8>
    requires HasHeader(p, ip)
  {
    p[ip + IP_SRC_IP_OFFSET .. ip + IP_SRC_IP_OFFSET + 4]
  }

  function DstIp(p: seq<bv8>, ip: nat): seq<bv8>
    requires HasHeader(p, ip)
  {
    p[ip + IP_DST_IP_OFFSET .. ip + IP_DST_IP_OFFSET + 4]
  }

  // ---------------------------------------------------------------------
  // Setters over the buffer
  // ---------------------------------------------------------------------

  /** IP_SET_VERSION */
  method IpSetVersion(a: array<bv8>, ip: nat, v: bv8)
    requires HasHeader(a[..], ip)
    modifies a
    ensures a[..] == old(a[..])[ip := SetVersionByte(old(a[ip]), v)]
  {
    a[ip] := SetVersionByte(a[ip], v);
  }

  /** IP_SET_HDR_LEN */
  method IpSetHdrLen(a: array<bv8>, ip: nat, v: bv8)
    requires HasHeader(a[..], ip)
    modifies a
    ensures a[..] == old(a[..])[ip := SetHdrLenByte(old(a[ip]), v)]
  {
    a[ip] := SetHdrLenByte(a[ip], v);
  }

  /** IP_SET_FRAG_FLAGS */
  method IpSetFragFlags(a: array<bv8>, ip: nat, v: bv8)
    requires HasHeader(a[..], ip)
    modifies a
    ensures a[..] == old(a[..])[ip + 6 := SetFragFlagsByte(old(a[ip + 6]), v)]
  {
    a[ip + 6] := SetFragFlagsByte(a[ip + 6], v);
  }

  /** IP_CLEAR_FLAGS */
  method IpClearFlags(a: array<bv8>, ip: nat)
    requires HasHeader(a[..], ip)
    modifies a
    ensures a[..] == old(a[..])[ip + 6 := ClearFlagsByte(old(a[ip + 6]))]
  {
    a[ip + 6] := ClearFlagsByte(a[ip + 6]);
  }

  /** IP_SET_FLAG */
  method IpSetFlag(a: array<bv8>, ip: nat, flag: bv8)
    requires HasHeader(a[..], ip)
    modifies a
    ensures a[..] == old(a[..])[ip + 6 := SetFlagByte(old(a[ip + 6]), flag)]
  {
    a[ip + 6] := SetFlagByte(a[ip + 6], flag);
  }

  /** IP_SET_FRAG_OFFSET writes the whole 16-bit word at 6 as `v & 0x1fff`:
      the offset reads back as `v mod 2^13` and all three flag bits are
      cleared, whatever was set before. */
  method IpSetFragOffset(a: array<bv8>, ip: nat, v: nat)
    requires HasHeader(a[..], ip)
    modifies a
    ensures FragOffset(a[..], ip) == v % 0x2000
    ensures Flags(a[..], ip) == 0
    ensures v % 0x2000 == 0 ==> a[ip + 6] == 0 && a[ip + 7] == 0
    ensures SameOutside(a[..], old(a[..]), ip + 6, ip + 8)
  {
    var w := v % 0x2000;
    FragOffsetWord(w);
    Write2Byte(a, ip + IP_FRAGMENT_OFFSET, w);

  }

  /** A word below 2^13, as IP_SET_FRAG_OFFSET stores it, has no flag bit
      in its high byte, reads back unchanged, and is two zero bytes when it
      is 0. */
  lemma FragOffsetWord(w: nat)
    requires w < 0x2000
    ensures Read2Byte(Encode16(w), 0) == w
    ensures FlagsOf(Encode16(w)[0]) == 0
    ensures w == 0 ==> Encode16(w)[0] == 0 && Encode16(w)[1] == 0
  {
    var e := Encode16(w);
    SmallWord(w, 0x2000);
    NoFlagsBelow32(e[0]);
    ValZero(e[0]);
    ValZero(e[1]);
  }

  /** A value below `m <= 2^16` is its own residue, and its high byte is below `m / 256`. */
  lemma SmallWord(w: nat, m: nat)
    requires w < m <= 0x1_0000 && m % 256 == 0
    ensures w % 0x1_0000 == w && w % 0x1_0000 / 256 < m / 256
  {
    DivMod256(w, w / 256, w % 256);
  }

  /** IP_SET_TOS */
  method IpSetTos(a: array<bv8>, ip: nat, v: bv8)
    requires HasHeader(a[..], ip)
    modifies a
    ensures a[..] == old(a[..])[ip + IP_TOS_OFFSET := v]
  {
    a[ip + IP_TOS_OFFSET] := v;
  }

  /** IP_SET_TTL */
  method IpSetTtl(a: array<bv8>, ip: nat, v: bv8)
    requires HasHeader(a[..], ip)
    modifies a
    ensures a[..] == old(a[..])[ip + IP_TTL_OFFSET := v]
  {
    a[ip + IP_TTL_OFFSET] := v;
  }

  /** IP_SET_PROTOCOL */
  method IpSetProtocol(a: array<bv8>, ip: nat, v: bv8)
    requires HasHeader(a[..], ip)
    modifies a
    ensures a[..] == old(a[..])[ip + IP_PROTOCOL_OFFSET := v]
  {
    a[ip + IP_PROTOCOL_OFFSET] := v;
  }

  /** IP_SET_LENGTH */
  method IpSetLength(a: array<bv8>, ip: nat, v: nat)
    requires HasHeader(a[..], ip)
    modifies a
    ensures Length(a[..], ip) == v % 0x1_0000
    ensures SameOutside(a[..], old(a[..]), ip + 2, ip + 4)
  {
    Write2Byte(a, ip + IP_LENGTH_OFFSET, v);
  }

  /** IP_SET_ID */
  method IpSetId(a: array<bv8>, ip: nat, v: nat)
    requires HasHeader(a[..], ip)
    modifies a
    ensures Read2Byte(a[..], ip + IP_ID_OFFSET) == v % 0x1_0000
    ensures SameOutside(a[..], old(a[..]), ip + 4, ip + 6)
  {
    Write2Byte(a, ip + IP_ID_OFFSET, v);
  }

  /** IP_SET_CKSUM */
  method IpSetCksum(a: array<bv8>, ip: nat, v: nat)
    requires HasHeader(a[..], ip)
    modifies a
    ensures Cksum(a[..], ip) == v % 0x1_0000
    ensures SameOutside(a[..], old(a[..]), ip + 10, ip + 12)
  {
    Write2Byte(a, ip + IP_CKSUM_OFFSET, v);
  }
}
