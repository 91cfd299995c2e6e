/** The MAC addresses this project assigns to its boards
    (include/ethernet-assign.h): the three bytes of the project's own OUI
    followed by the three low bytes of a board ID, most significant first. */
module EtherAssign {
  const ETHER_OUI: bv32 := 0x524342

  const GOOGLE_CLIENT_ETHER_ID: bv32 := 0x000004
  const WLREC2_ETHER_ID: bv32 := 0x000005
  const UDP_ROUTER_ETHER_ID: bv32 := 0x000006

  /** ETHER_MAC_0 .. ETHER_MAC_5: byte `i` of the address for `id`. */
  function MacByte(id: bv32, i: nat): (byte: bv32)
    requires i < 6
    ensures byte < 256
  {
    match i
    case 0 => (ETHER_OUI & 0xff0000) >> 16
    case 1 => (ETHER_OUI & 0x00ff00) >> 8
    case 2 => ETHER_OUI & 0x0000ff
    case 3 => (id & 0xff0000) >> 16
    case 4 => (id & 0x00ff00) >> 8
    case 5 => id & 0x0000ff
  }

  /** The six address bytes for `id`. */
  function Mac(id: bv32): (mac: seq<bv32>)
    ensures |mac| == 6 && forall i | 0 <= i < 6 :: mac[i] == MacByte(id, i)
  {
    [MacByte(id, 0), MacByte(id, 1), MacByte(id, 2),
     MacByte(id, 3), MacByte(id, 4), MacByte(id, 5)]
  }

  /** The first three bytes are the OUI 52:43:42, whatever the ID. */
  lemma OuiBytes(id: bv32)
    ensures MacByte(id, 0) == 0x52 && MacByte(id, 1) == 0x43 && MacByte(id, 2) == 0x42
  {
  }

  /** The last three bytes recombine to the low 24 bits of the ID, so two
      IDs give the same address exactly when their low 24 bits agree. */
  lemma IdBytes(id: bv32)
    ensures (MacByte(id, 3) << 16) | (MacByte(id, 4) << 8) | MacByte(id, 5) == id & 0xffffff
  {
  }

  /** Masking to 24 bits first changes none of the ID's three bytes. */
  lemma Low24Bytes(id: bv32)
    ensures (id & 0xffffff) & 0xff0000 == id & 0xff0000
    ensures (id & 0xffffff) & 0x00ff00 == id & 0x00ff00
    ensures (id & 0xffffff) & 0x0000ff == id & 0x0000ff
  {
  }

  lemma MacInjective(id1: bv32, id2: bv32)
    ensures Mac(id1) == Mac(id2) <==> id1 & 0xffffff == id2 & 0xffffff
  {
    IdBytes(id1);
    IdBytes(id2);
    if Mac(id1) == Mac(id2) {
      assert MacByte(id1, 3) == Mac(id1)[3] == Mac(id2)[3] == MacByte(id2, 3);
      assert MacByte(id1, 4) == Mac(id1)[4] == Mac(id2)[4] == MacByte(id2, 4);
      assert MacByte(id1, 5) == Mac(id1)[5] == Mac(id2)[5] == MacByte(id2, 5);
    }
    if id1 & 0xffffff == id2 & 0xffffff {
      Low24Bytes(id1);
      Low24Bytes(id2);
      assert forall i | 0 <= i < 6 :: Mac(id1)[i] == Mac(id2)[i];
    }
  }

  /** The boards' addresses are distinct. */
  lemma AssignedDistinct()
    ensures Mac(GOOGLE_CLIENT_ETHER_ID) != Mac(WLREC2_ETHER_ID)
    ensures Mac(WLREC2_ETHER_ID) != Mac(UDP_ROUTER_ETHER_ID)
    ensures Mac(GOOGLE_CLIENT_ETHER_ID) != Mac(UDP_ROUTER_ETHER_ID)
  {
    MacInjective(GOOGLE_CLIENT_ETHER_ID, WLREC2_ETHER_ID);
    MacInjective(WLREC2_ETHER_ID, UDP_ROUTER_ETHER_ID);
    MacInjective(GOOGLE_CLIENT_ETHER_ID, UDP_ROUTER_ETHER_ID);
  }
}
