/** The Ethernet II header of eth.h: destination MAC, source MAC, ether-type. */
module Eth {
  import opened Bytes

  const ETH_HEADER_LEN: nat := 14
  const ETH_DST_OFFSET: nat := 0
  const ETH_SRC_OFFSET: nat := 6
  const ETH_TYPE_OFFSET: nat := 12
  const ETH_DATA_OFFSET: nat := 14

  const ETH_PROTOCOL_IP: nat := 0x0800
  const ETH_PROTOCOL_ARP: nat := 0x0806

  predicate HasHeader(p: seq<bv8>, eth: nat)
  {
    eth + ETH_HEADER_LEN <= |p|
  }

  /** ETH_TYPE: the big-endian type field at bytes 12-13. */
  function EthType(p: seq<bv8>, eth: nat): nat
    requires HasHeader(p, eth)
  {
    Read2Byte(p, eth + ETH_TYPE_OFFSET)
  }

  function DstMac(p: seq<bv8>, eth: nat): seq<bv8>
    requires HasHeader(p, eth)
  {
    p[eth + ETH_DST_OFFSET .. eth + ETH_DST_OFFSET + 6]
  }

  function SrcMac(p: seq<bv8>, eth: nat): seq<bv8>
    requires HasHeader(p, eth)
  {
    p[eth + ETH_SRC_OFFSET .. eth + ETH_SRC_OFFSET + 6]
  }

  /** ETH_SET_TYPE: the type reads back as `v mod 2^16`, the high byte at
      12 and the low byte at 13, and both MAC fields are untouched. */
  method EthSetType(a: array<bv8>, eth: nat, v: nat)
    requires HasHeader(a[..], eth)
    modifies a
    ensures EthType(a[..], eth) == v % 0x1_0000
    ensures a[eth + 12] == Encode16(v)[0] && a[eth + 13] == Encode16(v)[1]
    ensures DstMac(a[..], eth) == DstMac(old(a[..]), eth)
    ensures SrcMac(a[..], eth) == SrcMac(old(a[..]), eth)
    ensures SameOutside(a[..], old(a[..]), eth + 12, eth + 14)
  {
    Write2Byte(a, eth + ETH_TYPE_OFFSET, v);
    SliceOutside(a[..], old(a[..]), eth + 12, eth + 14, eth, eth + 6);
    SliceOutside(a[..], old(a[..]), eth + 12, eth + 14, eth + 6, eth + 12);
  }

  /** The type field is decoded big-endian: its high byte is byte 12 and its
      low byte is byte 13. The IP and ARP type words differ in their low
      byte, so the demultiplexer's two tests exclude each other. */
  lemma {:induction false} EthTypeBytes(p: seq<bv8>, eth: nat)
    requires HasHeader(p, eth)
    ensures EthType(p, eth) / 256 == Val(p[eth + 12]) && EthType(p, eth) % 256 == Val(p[eth + 13])
    ensures EthType(p, eth) == ETH_PROTOCOL_IP <==> Val(p[eth + 12]) == 8 && Val(p[eth + 13]) == 0
    ensures EthType(p, eth) == ETH_PROTOCOL_ARP <==> Val(p[eth + 12]) == 8 && Val(p[eth + 13]) == 6
  {
    Read2ByteBytes(p, eth + ETH_TYPE_OFFSET);
  }
}
