/** The NTP header of ntp.h (section 7.3 of RFC 5905): four single bytes
    followed by eleven big-endian 32-bit words. */
module NtpHeader {
  import opened Bytes

  const NTP_HEADER_LEN: nat := 48
  const NTP_LIVNMODE_OFFSET: nat := 0
  const NTP_STRATUM_OFFSET: nat := 1
  const NTP_POLL_OFFSET: nat := 2
  const NTP_PRECISION_OFFSET: nat := 3

  /** The eleven 32-bit words. */
  datatype Field =
    | RootDelay | RootDisp | RefId
    | ReferenceSecs | ReferenceFract
    | OriginateSecs | OriginateFract
    | ReceiveSecs | ReceiveFract
    | TransmitSecs | TransmitFract

  /** The offset of each word; the transmit-timestamp seconds are at 40. */
  function Offset(f: Field): (o: nat)
    ensures 4 <= o && o + 4 <= NTP_HEADER_LEN && o % 4 == 0
  {
    match f
    case RootDelay => 4
    case RootDisp => 8
    case RefId => 12
    case ReferenceSecs => 16
    case ReferenceFract => 20
    case OriginateSecs => 24
    case OriginateFract => 28
    case ReceiveSecs => 32
    case ReceiveFract => 36
    case TransmitSecs => 40
    case TransmitFract => 44
  }

  /** The word covering byte `i` of the header, for `4 <= i < 48`. */
  function FieldAt(i: nat): (f: Field)
    requires 4 <= i < NTP_HEADER_LEN
    ensures Offset(f) <= i < Offset(f) + 4
  {
    if i < 8 then RootDelay
    else if i < 12 then RootDisp
    else if i < 16 then RefId
    else if i < 20 then ReferenceSecs
    else if i < 24 then ReferenceFract
    else if i < 28 then OriginateSecs
    else if i < 32 then OriginateFract
    else if i < 36 then ReceiveSecs
    else if i < 40 then ReceiveFract
    else if i < 44 then TransmitSecs
    else TransmitFract
  }

  /** The words tile bytes 4 .. 47 without overlap: every byte there lies in
      exactly one word, and distinct words are disjoint. */
  lemma FieldsTile(i: nat, f: Field)
    requires 4 <= i < NTP_HEADER_LEN
    ensures Offset(f) <= i < Offset(f) + 4 <==> f == FieldAt(i)
  {
  }

  predicate HasHeader(p: seq<bv8>, ntp: nat)
  {
    ntp + NTP_HEADER_LEN <= |p|
  }

  /** NTP_GET_LIVNMODE */
  function LiVnMode(p: seq<bv8>, ntp: nat): bv8
    requires HasHeader(p, ntp)
  {
    p[ntp + NTP_LIVNMODE_OFFSET]
  }

  /** NTP_SET_LIVNMODE */
  method SetLiVnMode(a: array<bv8>, ntp: nat, v: bv8)
    requires HasHeader(a[..], ntp)
    modifies a
    ensures a[..] == old(a[..])[ntp + NTP_LIVNMODE_OFFSET := v]
  {
    a[ntp + NTP_LIVNMODE_OFFSET] := v;
  }

  /** NTP_GET_ROOTDELAY .. NTP_GET_TRANSMIT_FRACT */
  function Get(p: seq<bv8>, ntp: nat, f: Field): nat
    requires HasHeader(p, ntp)
  {
    Read4Byte(p, ntp + Offset(f))
  }

  /** NTP_SET_ROOTDELAY .. NTP_SET_TRANSMIT_FRACT: the word reads back as
      `v mod 2^32`; every other word and every byte outside the four written
      is unchanged. */
  method Set(a: array<bv8>, ntp: nat, f: Field, v: nat)
    requires HasHeader(a[..], ntp)
    modifies a
    ensures Get(a[..], ntp, f) == v % 0x1_0000_0000
    ensures forall g :: g != f ==> Get(a[..], ntp, g) == Get(old(a[..]), ntp, g)
    ensures SameOutside(a[..], old(a[..]), ntp + Offset(f), ntp + Offset(f) + 4)
  {
    Write4Byte(a, ntp + Offset(f), v);
    OthersUnchanged(a[..], old(a[..]), ntp, f);
  }

  /** A write confined to the bytes of word `f` leaves every other word as it was. */
  lemma OthersUnchanged(p: seq<bv8>, q: seq<bv8>, ntp: nat, f: Field)
    requires HasHeader(q, ntp) && SameOutside(p, q, ntp + Offset(f), ntp + Offset(f) + 4)
    ensures forall g :: g != f ==> Get(p, ntp, g) == Get(q, ntp, g)
  {
    forall g | g != f
      ensures Get(p, ntp, g) == Get(q, ntp, g)
    {
      FieldsDisjoint(f, g);
      Read4Outside(p, q, ntp + Offset(f), ntp + Offset(f) + 4, ntp + Offset(g));
    }
  }

  lemma FieldsDisjoint(f: Field, g: Field)
    ensures f != g ==> Offset(f) + 4 <= Offset(g) || Offset(g) + 4 <= Offset(f)
  {
  }
}
