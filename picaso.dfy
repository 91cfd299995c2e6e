/** The colour byte of the uVGA Picaso display (include/uvga-picaso.h):
    three bits of red, three of green and two of blue packed into one
    byte, red lowest. */
module Picaso {
  const PICASO_REPLY_ACK: bv8 := 0x06
  const PICASO_REPLY_NAK: bv8 := 0x15

  /** PICASO_MAKE_COLOUR: red in bits 0-2, green in bits 3-5, blue in bits
      6-7; the bits of each component above its field are dropped. The
      sum cannot carry out of the byte, as the lemmas below show. */
  function MakeColour(r: bv8, g: bv8, b: bv8): (colour: bv8)
    ensures colour & 0x07 == r & 0x07
    ensures (colour >> 3) & 0x07 == g & 0x07
    ensures colour >> 6 == b & 0x03
  {
    (r & 0x07) + ((g & 0x07) << 3) + ((b & 0x03) << 6)
  }

  /** The components of a colour byte. */
  function Red(colour: bv8): bv8 { colour & 0x07 }
  function Green(colour: bv8): bv8 { (colour >> 3) & 0x07 }
  function Blue(colour: bv8): bv8 { colour >> 6 }

  /** Every byte is the colour of its own components, so the packing
      reaches all 256 colours. */
  lemma ColourOfComponents(colour: bv8)
    ensures MakeColour(Red(colour), Green(colour), Blue(colour)) == colour
  {
  }

  /** Two colours are equal exactly when their masked components are. */
  lemma MakeColourInjective(r1: bv8, g1: bv8, b1: bv8, r2: bv8, g2: bv8, b2: bv8)
    ensures MakeColour(r1, g1, b1) == MakeColour(r2, g2, b2) <==>
      (r1 & 0x07 == r2 & 0x07 && g1 & 0x07 == g2 & 0x07 && b1 & 0x03 == b2 & 0x03)
  {
  }
}
