/** The 1-Wire bus protocol of modules/one-wire.c above the bit level:
    bytes go out and come in least significant bit first, Match ROM
    addresses one device by its 64-bit ROM code, and the Search ROM pass
    walks the tree of ROM codes on the bus one branch per call. The bus
    itself (reset and presence pulse, the timed read and write slots) is
    the outside world here: bits written are returned as a sequence and
    bits read are given as one. */
module OneWire {
  import opened Wrappers

  const OW_CMD_SKIP_ROM: nat := 0xcc
  const OW_CMD_READ_ROM: nat := 0x33
  const OW_CMD_MATCH_ROM: nat := 0x55
  const OW_CMD_SEARCH_ROM: nat := 0xf0

  /** The number of bits in a ROM code. */
  const ROM_BITS: nat := 64

  // ---------------------------------------------------------------------
  // Bytes and ROM codes as bits. Unsigned values are naturals below 2^n;
  // their one-bit masks are tested, set and cleared arithmetically.
  // ---------------------------------------------------------------------

  /** 2 to the `n`. */
  function Pow2(n: nat): (p: nat)
    ensures p >= 1
  {
    if n == 0 then 1 else 2 * Pow2(n - 1)
  }

  /** A ROM code is a 64-bit unsigned value. */
  const ROM_LIMIT: nat := Pow2(ROM_BITS)

  /** The low `n` bits of a value, least significant first. */
  function Bits(x: nat, n: nat): (bits: seq<bool>)
    ensures |bits| == n
  {
    if n == 0 then [] else [x % 2 == 1] + Bits(x / 2, n - 1)
  }

  /** The value of bits given least significant first. */
  function FromBits(bits: seq<bool>): (x: nat)
    ensures x < Pow2(|bits|)
  {
    if bits == [] then 0 else (if bits[0] then 1 else 0) + 2 * FromBits(bits[1..])
  }

  /** Reading the bits of a value back gives the bits. */
  lemma {:induction false} BitsOfFromBits(bits: seq<bool>)
    ensures Bits(FromBits(bits), |bits|) == bits
  {
    if bits != [] {
      var x := FromBits(bits);
      var rest := FromBits(bits[1..]);
      DivMod2(x, rest, if bits[0] then 1 else 0);
      BitsOfFromBits(bits[1..]);
      assert [bits[0]] + bits[1..] == bits;
    }
  }

  /** A value below 2^n is the value of its low n bits. */
  lemma {:induction false} FromBitsOfBits(x: nat, n: nat)
    requires x < Pow2(n)
    ensures FromBits(Bits(x, n)) == x
  {
    if n > 0 {
      FromBitsOfBits(x / 2, n - 1);
      assert Bits(x, n)[1..] == Bits(x / 2, n - 1);
    }
  }

  lemma DivMod2(a: int, q: int, r: int)
    requires 0 <= r < 2 && a == 2 * q + r
    ensures a / 2 == q && a % 2 == r
  {
  }

  /** `x & mask` for the one-bit mask 2^k: whether bit `k` of `x` is set. */
  predicate TestBit(x: nat, k: nat)
  {
    if k == 0 then x % 2 == 1 else TestBit(x / 2, k - 1)
  }

  /** The bits of a value are its bit tests in order. */
  lemma {:induction false} BitsAreTests(x: nat, n: nat, i: nat)
    requires i < n
    ensures Bits(x, n)[i] == TestBit(x, i)
  {
    if i > 0 {
      BitsAreTests(x / 2, n - 1, i - 1);
    }
  }

  /** `x |= mask` for the one-bit mask 2^k. */
  function SetBit(x: nat, k: nat): nat
  {
    if k == 0 then x - x % 2 + 1 else 2 * SetBit(x / 2, k - 1) + x % 2
  }

  /** `x &= ~mask` for the one-bit mask 2^k. */
  function ClearBit(x: nat, k: nat): nat
  {
    if k == 0 then x - x % 2 else 2 * ClearBit(x / 2, k - 1) + x % 2
  }

  /** Below 2^k bit k is clear, so setting it adds 2^k and clearing it
      changes nothing. */
  lemma {:induction false} HighBitClear(x: nat, k: nat)
    requires x < Pow2(k)
    ensures !TestBit(x, k)
    ensures SetBit(x, k) == x + Pow2(k) && ClearBit(x, k) == x
  {
    if k > 0 {
      HighBitClear(x / 2, k - 1);
    }
  }

  /** Appending a bit at the top adds its place value. */
  lemma {:induction false} FromBitsAppend(bits: seq<bool>, b: bool)
    ensures FromBits(bits + [b]) == FromBits(bits) + (if b then Pow2(|bits|) else 0)
  {
    if bits != [] {
      assert (bits + [b])[1..] == bits[1..] + [b];
      FromBitsAppend(bits[1..], b);
    } else {
      assert [b][1..] == [];
    }
  }

  // ---------------------------------------------------------------------
  // Byte transfer and Match ROM
  // ---------------------------------------------------------------------

  /** onewire_send_byte: the bits written, one per slot, are the byte's
      bits least significant first (the mask of the loop is 2^i). */
  method SendByte(x: nat) returns (sent: seq<bool>)
    requires x < 256
    ensures sent == Bits(x, 8)
  {
    sent := [];
    for i := 0 to 8
      invariant |sent| == i
      invariant forall j | 0 <= j < i :: sent[j] == TestBit(x, j)
    {
      if TestBit(x, i) {
        sent := sent + [true];
      } else {
        sent := sent + [false];
      }
    }
    forall j | 0 <= j < 8
      ensures sent[j] == Bits(x, 8)[j]
    {
      BitsAreTests(x, 8, j);
    }
  }

  /** onewire_recv_byte: eight bits read, the first one the least
      significant, assembled into a byte (`x |= mask` with the mask 2^i). */
  method RecvByte(bits: seq<bool>) returns (x: nat)
    requires |bits| == 8
    ensures x == FromBits(bits) && x < 256
  {
    x := 0;
    for i := 0 to 8
      invariant x == FromBits(bits[..i])
    {
      FromBitsAppend(bits[..i], bits[i]);
      assert bits[..i + 1] == bits[..i] + [bits[i]];
      if bits[i] {
        HighBitClear(x, i);
        x := SetBit(x, i);
      }
    }
    assert bits[..8] == bits;
  }

  /** Receiving the bits of a sent byte gives the byte back, and sending a
      received byte repeats the bits. */
  lemma ByteRoundTrip(x: nat, bits: seq<bool>)
    requires x < 256 && |bits| == 8
    ensures FromBits(Bits(x, 8)) == x
    ensures Bits(FromBits(bits), 8) == bits
  {
    FromBitsOfBits(x, 8);
    BitsOfFromBits(bits);
  }

  /** onewire_cmd_match_rom: the Match ROM command byte and then the 64
      bits of the ROM code, least significant first (`rom & 1` is
      `rom % 2`, `rom >>= 1` is `rom / 2`). */
  method MatchRom(rom: nat) returns (sent: seq<bool>)
    requires rom < ROM_LIMIT
    ensures sent == Bits(OW_CMD_MATCH_ROM, 8) + Bits(rom, ROM_BITS)
  {
    sent := SendByte(OW_CMD_MATCH_ROM);
    var r := rom;
    for bit := 0 to ROM_BITS
      invariant sent + Bits(r, ROM_BITS - bit) == Bits(OW_CMD_MATCH_ROM, 8) + Bits(rom, ROM_BITS)
    {
      assert Bits(r, ROM_BITS - bit) == [r % 2 == 1] + Bits(r / 2, ROM_BITS - bit - 1);
      sent := sent + [r % 2 == 1];
      r := r / 2;
    }
  }

  /** The top bit of a value built from `chosen` is clear, and setting or
      clearing it appends a 1 or a 0. */
  lemma AppendBit(chosen: seq<bool>)
    ensures !TestBit(FromBits(chosen), |chosen|)
    ensures SetBit(FromBits(chosen), |chosen|) == FromBits(chosen + [true])
    ensures ClearBit(FromBits(chosen), |chosen|) == FromBits(chosen + [false]) == FromBits(chosen)
  {
    HighBitClear(FromBits(chosen), |chosen|);
    FromBitsAppend(chosen, true);
    FromBitsAppend(chosen, false);
  }

  /** Bit `i` of the value of some bits is bit `i` of the bits. */
  lemma {:induction false} TestBitOfFromBits(bits: seq<bool>, i: nat)
    requires i < |bits|
    ensures TestBit(FromBits(bits), i) == bits[i]
  {
    var x := FromBits(bits);
    DivMod2(x, FromBits(bits[1..]), if bits[0] then 1 else 0);
    if i > 0 {
      TestBitOfFromBits(bits[1..], i - 1);
    }
  }

  // ---------------------------------------------------------------------
  // Search ROM
  // ---------------------------------------------------------------------

  /** One search pass, as far as it got: the ROM bits chosen, and on a
      complete pass the discrepancy marker. A pass is abandoned when both
      bits of the pair read 1, which no device on the bus gives. */
  datatype Pass = Aborted(chosen: seq<bool>) | Completed(chosen: seq<bool>, marker: nat)

  /** The bit chosen at position `bit` (counted from 1) for the read pair
      (b1, b2) when the previous pass stopped at `last`, and whether the
      position is recorded as the new discrepancy. A clash (0, 0) at
      `last` takes the 1 branch, above it the 0 branch and is recorded,
      below it the 0 branch without a record: the ROM code is rebuilt from
      0 on every pass, so its bit there is still clear when it is tested.
      Without a clash every device has the bit b1. */
  function Choice(last: nat, bit: nat, b1: bool, b2: bool): (bool, bool)
  {
    if !b1 && !b2 then
      if bit == last then (true, false)
      else if bit > last then (false, true)
      else (false, false)
    else (b1, false)
  }

  /** The rest of a pass from position |chosen| + 1, given the pairs the bus
      answers with. */
  function Walk(last: nat, answers: seq<(bool, bool)>, chosen: seq<bool>, marker: nat): (p: Pass)
    requires |chosen| <= |answers| == ROM_BITS
    decreases ROM_BITS - |chosen|
  {
    if |chosen| == ROM_BITS then Completed(chosen, marker)
    else
      var pair := answers[|chosen|];
      if pair.0 && pair.1 then Aborted(chosen)
      else
        var choice := Choice(last, |chosen| + 1, pair.0, pair.1);
        Walk(last, answers, chosen + [choice.0], if choice.1 then |chosen| + 1 else marker)
  }

  /** A whole pass after the previous pass stopped at `last`. */
  function Search(last: nat, answers: seq<(bool, bool)>): Pass
    requires |answers| == ROM_BITS
  {
    Walk(last, answers, [], 0)
  }

  /** Whether the pair read at position `p` (counted from 1) is a clash. */
  predicate Clash(answers: seq<(bool, bool)>, p: nat)
    requires 1 <= p <= |answers|
  {
    !answers[p - 1].0 && !answers[p - 1].1
  }

  /** What a pass promises about its choices and its marker: every bit
      without a clash is the bit read, the bit at a clash is 1 exactly at
      `last`, a pass is only abandoned on a (1, 1) pair, and the marker of
      a complete pass is 0 or the highest clash above `last`, where the 0
      branch was taken. */
  predicate PassFacts(last: nat, answers: seq<(bool, bool)>, p: Pass)
    requires |answers| == ROM_BITS
  {
    |p.chosen| <= ROM_BITS &&
    (forall i | 0 <= i < |p.chosen| ::
      !(answers[i].0 && answers[i].1) &&
      p.chosen[i] == (if Clash(answers, i + 1) then i + 1 == last else answers[i].0)) &&
    (p.Aborted? ==> |p.chosen| < ROM_BITS && answers[|p.chosen|].0 && answers[|p.chosen|].1) &&
    (p.Completed? ==>
      |p.chosen| == ROM_BITS &&
      (p.marker == 0 || (last < p.marker <= ROM_BITS && Clash(answers, p.marker) && !p.chosen[p.marker - 1])) &&
      forall q | last < q <= ROM_BITS && Clash(answers, q) :: q <= p.marker)
  }

  lemma {:induction false} WalkFacts(last: nat, answers: seq<(bool, bool)>, chosen: seq<bool>, marker: nat)
    requires |chosen| <= |answers| == ROM_BITS
    requires forall i | 0 <= i < |chosen| ::
      !(answers[i].0 && answers[i].1) &&
      chosen[i] == (if Clash(answers, i + 1) then i + 1 == last else answers[i].0)
    requires marker == 0 || (last < marker <= |chosen| && Clash(answers, marker) && !chosen[marker - 1])
    requires forall q | last < q <= |chosen| && Clash(answers, q) :: q <= marker
    ensures PassFacts(last, answers, Walk(last, answers, chosen, marker))
    ensures chosen <= Walk(last, answers, chosen, marker).chosen
    decreases ROM_BITS - |chosen|
  {
    if |chosen| < ROM_BITS {
      var pair := answers[|chosen|];
      if !(pair.0 && pair.1) {
        var choice := Choice(last, |chosen| + 1, pair.0, pair.1);
        var m := if choice.1 then |chosen| + 1 else marker;
        var next := chosen + [choice.0];
        assert forall i | 0 <= i < |chosen| :: next[i] == chosen[i];
        WalkFacts(last, answers, next, m);
      }
    }
  }

  /** Every pass keeps PassFacts. */
  lemma SearchFacts(last: nat, answers: seq<(bool, bool)>)
    requires |answers| == ROM_BITS
    ensures PassFacts(last, answers, Search(last, answers))
  {
    WalkFacts(last, answers, [], 0);
  }

  /** The body of one search step of onewire_scan_next for a pair other
      than (1, 1): the ROM code built so far (the value of `chosen`) gains
      the bit Choice picks, and the marker moves to `bit` when Choice
      records it. */
  method ChooseBit(serial: nat, ghost chosen: seq<bool>, last: nat, bit: nat, b1: bool, b2: bool, marker: nat)
    returns (serial': nat, marker': nat)
    requires serial == FromBits(chosen) && bit == |chosen| + 1 && !(b1 && b2)
    ensures serial' == FromBits(chosen + [Choice(last, bit, b1, b2).0])
    ensures marker' == if Choice(last, bit, b1, b2).1 then bit else marker
  {
    AppendBit(chosen);
    var k := bit - 1;
    serial', marker' := serial, marker;
    if !b1 && !b2 {
      if bit == last {
        serial' := SetBit(serial, k);
      } else if bit > last {
        serial' := ClearBit(serial, k);
        marker' := bit;
      } else if TestBit(serial, k) {
        marker' := bit;
      }
    } else if b1 {
      serial' := SetBit(serial, k);
    } else {
      serial' := ClearBit(serial, k);
    }
  }

  /** The ROM code a complete pass returns is a 64-bit value whose bits,
      sent by Match ROM, are the bits the pass chose. */
  lemma FoundRomMatches(last: nat, answers: seq<(bool, bool)>)
    requires |answers| == ROM_BITS && Search(last, answers).Completed?
    ensures var chosen := Search(last, answers).chosen;
      FromBits(chosen) < ROM_LIMIT && Bits(FromBits(chosen), ROM_BITS) == chosen
  {
    SearchFacts(last, answers);
    BitsOfFromBits(Search(last, answers).chosen);
  }

  /** done_flag and last_discrepancy, the state kept between passes. */
  class Scanner {
    var doneFlag: bool
    var lastDiscrepancy: nat

    /** onewire_scan_init. */
    constructor()
      ensures !doneFlag && lastDiscrepancy == 0
    {
      doneFlag := false;
      lastDiscrepancy := 0;
    }

    /** onewire_scan_init: the next pass starts from the top of the tree. */
    method ScanInit()
      modifies this
      ensures !doneFlag && lastDiscrepancy == 0
    {
      lastDiscrepancy := 0;
      doneFlag := false;
    }

    /** onewire_scan_next with `detect` the presence pulse seen by the bus
        reset and `answers` the pairs of bits the bus answers with, one pair
        per ROM bit. It returns 1 and the ROM code when a pass completes,
        with the bits written (the Search ROM command and each chosen bit);
        it returns 0 and no code when the previous pass was the last (and
        clears done_flag), when no device answers the reset, or when a pair
        reads (1, 1). */
    method ScanNext(detect: bool, answers: seq<(bool, bool)>) returns (r: nat, rom: Option<nat>, sent: seq<bool>)
      requires |answers| == ROM_BITS
      modifies this
      ensures r == 0 || r == 1
      ensures rom.Some? <==> r == 1
      ensures old(doneFlag) ==>
        r == 0 && sent == [] && !doneFlag && lastDiscrepancy == old(lastDiscrepancy)
      ensures !old(doneFlag) && !detect ==>
        r == 0 && sent == [] && !doneFlag && lastDiscrepancy == 0
      ensures !old(doneFlag) && detect ==>
        var p := Search(old(lastDiscrepancy), answers);
        sent == Bits(OW_CMD_SEARCH_ROM, 8) + p.chosen &&
        match p
        case Aborted(_) => r == 0 && !doneFlag && lastDiscrepancy == 0
        case Completed(chosen, marker) =>
          r == 1 && rom == Some(FromBits(chosen)) && lastDiscrepancy == marker && doneFlag == (marker == 0)
    {
      if doneFlag {
        doneFlag := false;
        return 0, None, [];
      }
      if !detect {
        lastDiscrepancy := 0;
        return 0, None, [];
      }
      var last := lastDiscrepancy;
      var serial: nat := 0;
      var bit: nat := 1;
      var marker: nat := 0;
      sent := SendByte(OW_CMD_SEARCH_ROM);
      ghost var chosen: seq<bool> := [];
      while bit <= ROM_BITS
        invariant 1 <= bit <= ROM_BITS + 1 && |chosen| == bit - 1
        invariant serial == FromBits(chosen)
        invariant Walk(last, answers, chosen, marker) == Search(last, answers)
        invariant sent == Bits(OW_CMD_SEARCH_ROM, 8) + chosen
        invariant !doneFlag && lastDiscrepancy == last
        decreases ROM_BITS + 1 - bit
      {
        var b1 := answers[bit - 1].0;
        var b2 := answers[bit - 1].1;
        if b1 && b2 {
          lastDiscrepancy := 0;
          return 0, None, sent;
        }
        var k := bit - 1;
        serial, marker := ChooseBit(serial, chosen, last, bit, b1, b2, marker);
        chosen := chosen + [Choice(last, bit, b1, b2).0];
        TestBitOfFromBits(chosen, k);
        sent := sent + [TestBit(serial, k)];
        bit := bit + 1;
      }
      lastDiscrepancy := marker;
      if lastDiscrepancy == 0 {
        doneFlag := true;
      }
      return 1, Some(serial), sent;
    }

    /** onewire_scan_first: a pass from the top of the tree, whatever the
        previous passes left. */
    method ScanFirst(detect: bool, answers: seq<(bool, bool)>) returns (r: nat, rom: Option<nat>, sent: seq<bool>)
      requires |answers| == ROM_BITS
      modifies this
      ensures !detect ==> r == 0 && rom.None? && sent == [] && !doneFlag && lastDiscrepancy == 0
      ensures detect ==>
        var p := Search(0, answers);
        sent == Bits(OW_CMD_SEARCH_ROM, 8) + p.chosen &&
        match p
        case Aborted(_) => r == 0 && rom.None? && !doneFlag && lastDiscrepancy == 0
        case Completed(chosen, marker) =>
          r == 1 && rom == Some(FromBits(chosen)) && lastDiscrepancy == marker && doneFlag == (marker == 0)
    {
      lastDiscrepancy := 0;
      doneFlag := false;
      r, rom, sent := ScanNext(detect, answers);
    }
  }
}
