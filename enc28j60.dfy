/** The register codes and SPI instruction bytes of the ENC28J60 Ethernet
    controller (include/enc28j60.h). A register code packs the register
    number in bits 0-4, the bank in bits 5-6 and, in bit 7, whether the
    register is a MAC or MII register, whose reads differ. Registers
    0x1b-0x1f are common to all banks. */
module Enc28j60 {
  import opened Wrappers

  const REG_MASK_REGISTER: bv8 := 0x1f
  const REG_MASK_BANK: bv8 := 0x60
  const REG_MASK_EXTEND: bv8 := 0x80
  const REG_SHIFT_BANK: nat := 5
  const REG_SHIFT_EXTEND: nat := 7

  const F_BANK0: bv8 := 0 << REG_SHIFT_BANK
  const F_BANK1: bv8 := 1 << REG_SHIFT_BANK
  const F_BANK2: bv8 := 2 << REG_SHIFT_BANK
  const F_BANK3: bv8 := 3 << REG_SHIFT_BANK
  const F_EXTEND: bv8 := 1 << REG_SHIFT_EXTEND

  /** Registers from EIE up are present in every bank. */
  const FIRST_COMMON_REGISTER: bv8 := 0x1b

  // ---------------------------------------------------------------------
  // Register codes
  // ---------------------------------------------------------------------

  /** REGCODE_REGISTER */
  function RegcodeRegister(reg: bv8): bv8
  {
    reg & REG_MASK_REGISTER
  }

  /** REGCODE_BANK */
  function RegcodeBank(reg: bv8): bv8
  {
    (reg & REG_MASK_BANK) >> REG_SHIFT_BANK
  }

  /** REGCODE_EXTENDED */
  function RegcodeExtended(reg: bv8): bv8
  {
    (reg & REG_MASK_EXTEND) >> REG_SHIFT_EXTEND
  }

  /** The code of register `r` in bank `b`, `F_BANKb | r`, with F_EXTEND
      for a MAC or MII register. */
  function Regcode(r: bv8, b: bv8, extended: bool): bv8
  {
    (b << REG_SHIFT_BANK) | r | (if extended then F_EXTEND else 0)
  }

  /** The decoders give back what the code was built from. */
  lemma DecodeRegcode(r: bv8, b: bv8, extended: bool)
    requires r < 32 && b < 4
    ensures RegcodeRegister(Regcode(r, b, extended)) == r
    ensures RegcodeBank(Regcode(r, b, extended)) == b
    ensures RegcodeExtended(Regcode(r, b, extended)) == if extended then 1 else 0
  {
  }

  /** Every code is built from its decoded parts, so the three decoders
      lose nothing. */
  lemma RegcodeOfParts(c: bv8)
    ensures RegcodeRegister(c) < 32 && RegcodeBank(c) < 4 && RegcodeExtended(c) < 2
    ensures Regcode(RegcodeRegister(c), RegcodeBank(c), RegcodeExtended(c) == 1) == c
  {
  }

  // ---------------------------------------------------------------------
  // Instructions
  // ---------------------------------------------------------------------

  /** The opcode (top three bits) of each register instruction. */
  datatype Op = ReadControl | WriteControl | BitFieldSet | BitFieldClear

  function Opcode(op: Op): (code: bv8)
    ensures code < 8
  {
    match op
    case ReadControl => 0
    case WriteControl => 2
    case BitFieldSet => 4
    case BitFieldClear => 5
  }

  /** INSTR_RCR, INSTR_WCR, INSTR_BFS and INSTR_BFC: the register number
      added to the opcode's base 0x00, 0x40, 0x80 or 0xa0. */
  function Instr(op: Op, reg: bv8): (byte: bv8)
  {
    var base: bv8 := match op
      case ReadControl => 0x00
      case WriteControl => 0x40
      case BitFieldSet => 0x80
      case BitFieldClear => 0xa0;
    base + (reg & 0x1f)
  }

  const INSTR_RBM: bv8 := 0x3a
  const INSTR_WBM: bv8 := 0x7a
  const INSTR_SRC: bv8 := 0xff

  /** An instruction byte holds the register number in its low five bits
      and the opcode in its top three, whatever else the code carries. */
  lemma InstrFields(op: Op, reg: bv8)
    ensures Instr(op, reg) & 0x1f == reg & 0x1f
    ensures Instr(op, reg) >> 5 == Opcode(op)
  {
  }

  /** So two register instructions are the same byte only for the same
      opcode and register number. */
  lemma InstrInjective(op1: Op, reg1: bv8, op2: Op, reg2: bv8)
    requires Instr(op1, reg1) == Instr(op2, reg2)
    ensures op1 == op2 && reg1 & 0x1f == reg2 & 0x1f
  {
    InstrFields(op1, reg1);
    InstrFields(op2, reg2);
  }

  // ---------------------------------------------------------------------
  // The registers
  // ---------------------------------------------------------------------

  // Bank 0
  const ERDPTL: bv8 := F_BANK0 | 0x00
  const ERDPTH: bv8 := F_BANK0 | 0x01
  const EWRPTL: bv8 := F_BANK0 | 0x02
  const EWRPTH: bv8 := F_BANK0 | 0x03
  const ETXSTL: bv8 := F_BANK0 | 0x04
  const ETXSTH: bv8 := F_BANK0 | 0x05
  const ETXNDL: bv8 := F_BANK0 | 0x06
  const ETXNDH: bv8 := F_BANK0 | 0x07
  const ERXSTL: bv8 := F_BANK0 | 0x08
  const ERXSTH: bv8 := F_BANK0 | 0x09
  const ERXNDL: bv8 := F_BANK0 | 0x0a
  const ERXNDH: bv8 := F_BANK0 | 0x0b
  const ERXRDPTL: bv8 := F_BANK0 | 0x0c
  const ERXRDPTH: bv8 := F_BANK0 | 0x0d
  const ERXWRPTL: bv8 := F_BANK0 | 0x0e
  const ERXWRPTH: bv8 := F_BANK0 | 0x0f
  const EDMASTL: bv8 := F_BANK0 | 0x10
  const EDMASTH: bv8 := F_BANK0 | 0x11
  const EDMANDL: bv8 := F_BANK0 | 0x12
  const EDMANDH: bv8 := F_BANK0 | 0x13
  const EDMADSTL: bv8 := F_BANK0 | 0x14
  const EDMADSTH: bv8 := F_BANK0 | 0x15
  const EDMACTL: bv8 := F_BANK0 | 0x16
  const EDMACTH: bv8 := F_BANK0 | 0x17

  // Common to all banks
  const EIE: bv8 := F_BANK0 | 0x1b
  const EIR: bv8 := F_BANK0 | 0x1c
  const ESTAT: bv8 := F_BANK0 | 0x1d
  const ECON2: bv8 := F_BANK0 | 0x1e
  const ECON1: bv8 := F_BANK0 | 0x1f

  // Bank 1
  const ERXFCON: bv8 := F_BANK1 | 0x18
  const EPKTCNT: bv8 := F_BANK1 | 0x19

  // Bank 2
  const MACON1: bv8 := F_BANK2 | 0x00 | F_EXTEND
  const MACON3: bv8 := F_BANK2 | 0x02 | F_EXTEND
  const MACON4: bv8 := F_BANK2 | 0x03 | F_EXTEND
  const MABBIPG: bv8 := F_BANK2 | 0x04 | F_EXTEND
  const MAIPGL: bv8 := F_BANK2 | 0x06 | F_EXTEND
  const MAIPGH: bv8 := F_BANK2 | 0x07 | F_EXTEND
  const MACLCON1: bv8 := F_BANK2 | 0x08 | F_EXTEND
  const MACLCON2: bv8 := F_BANK2 | 0x09 | F_EXTEND
  const MAMXFLL: bv8 := F_BANK2 | 0x0a | F_EXTEND
  const MAMXFLH: bv8 := F_BANK2 | 0x0b | F_EXTEND
  const MICMD: bv8 := F_BANK2 | 0x12 | F_EXTEND
  const MIREGADR: bv8 := F_BANK2 | 0x14 | F_EXTEND
  const MIWRL: bv8 := F_BANK2 | 0x16 | F_EXTEND
  const MIWRH: bv8 := F_BANK2 | 0x17 | F_EXTEND
  const MIRDL: bv8 := F_BANK2 | 0x18 | F_EXTEND
  const MIRDH: bv8 := F_BANK2 | 0x19 | F_EXTEND

  // Bank 3
  const MADR5: bv8 := F_BANK3 | 0x00 | F_EXTEND
  const MADR6: bv8 := F_BANK3 | 0x01 | F_EXTEND
  const MADR3: bv8 := F_BANK3 | 0x02 | F_EXTEND
  const MADR4: bv8 := F_BANK3 | 0x03 | F_EXTEND
  const MADR1: bv8 := F_BANK3 | 0x04 | F_EXTEND
  const MADR2: bv8 := F_BANK3 | 0x05 | F_EXTEND
  const EBSTSD: bv8 := F_BANK3 | 0x06
  const EBSTCON: bv8 := F_BANK3 | 0x07
  const EBSTCSL: bv8 := F_BANK3 | 0x08
  const EBSTCSH: bv8 := F_BANK3 | 0x09
  const MISTAT: bv8 := F_BANK3 | 0x0a | F_EXTEND
  const EREVID: bv8 := F_BANK3 | 0x12
  const ECOCON: bv8 := F_BANK3 | 0x15
  const EFLOCON: bv8 := F_BANK3 | 0x17
  const EPAUSL: bv8 := F_BANK3 | 0x18
  const EPAUSH: bv8 := F_BANK3 | 0x19

  /** The registers common to all banks. */
  const COMMON: seq<bv8> := [EIE, EIR, ESTAT, ECON2, ECON1]

  /** The bank 0 buffer pointer registers. */
  const BANK0_POINTERS: seq<bv8> :=
    [ERDPTL, ERDPTH, EWRPTL, EWRPTH, ETXSTL, ETXSTH, ETXNDL, ETXNDH,
     ERXSTL, ERXSTH, ERXNDL, ERXNDH, ERXRDPTL, ERXRDPTH, ERXWRPTL, ERXWRPTH]

  /** The bank 0 DMA registers. */
  const BANK0_DMA: seq<bv8> :=
    [EDMASTL, EDMASTH, EDMANDL, EDMANDH, EDMADSTL, EDMADSTH, EDMACTL, EDMACTH]

  /** The bank 1 ethernet registers. */
  const BANK1_ETH: seq<bv8> := [ERXFCON, EPKTCNT]

  /** The bank 3 ethernet registers. */
  const BANK3_ETH: seq<bv8> :=
    [EBSTSD, EBSTCON, EBSTCSL, EBSTCSH, EREVID, ECOCON, EFLOCON, EPAUSL, EPAUSH]

  /** The bank 2 MAC and MII registers. */
  const BANK2_MAC_MII: seq<bv8> :=
    [MACON1, MACON3, MACON4, MABBIPG, MAIPGL, MAIPGH, MACLCON1, MACLCON2,
     MAMXFLL, MAMXFLH, MICMD, MIREGADR, MIWRL, MIWRH, MIRDL, MIRDH]

  /** The bank 3 MAC and MII registers. */
  const BANK3_MAC_MII: seq<bv8> := [MADR5, MADR6, MADR3, MADR4, MADR1, MADR2, MISTAT]

  /** A register of bank `bank`, numbered below FIRST_COMMON_REGISTER, that
      carries F_EXTEND exactly when `extended` is 1. */
  predicate InBank(c: bv8, bank: bv8, extended: bv8)
  {
    RegcodeRegister(c) < FIRST_COMMON_REGISTER && RegcodeBank(c) == bank &&
    RegcodeExtended(c) == extended
  }

  /** The common registers are numbered 0x1b-0x1f and are not MAC or MII
      registers. */
  lemma CommonRegisters()
    ensures forall c | c in COMMON ::
      RegcodeRegister(c) >= FIRST_COMMON_REGISTER && RegcodeExtended(c) == 0
  {
  }

  /** The bank 0 pointer registers are plain ethernet registers of bank 0. */
  lemma Bank0Pointers()
    ensures forall c | c in BANK0_POINTERS :: InBank(c, 0, 0)
  {
  }

  /** The bank 0 DMA registers are plain ethernet registers of bank 0. */
  lemma Bank0Dma()
    ensures forall c | c in BANK0_DMA :: InBank(c, 0, 0)
  {
  }

  /** The bank 1 and bank 3 ethernet registers lack F_EXTEND. */
  lemma Bank1And3Registers()
    ensures forall c | c in BANK1_ETH :: InBank(c, 1, 0)
    ensures forall c | c in BANK3_ETH :: InBank(c, 3, 0)
  {
  }

  /** The MAC and MII registers of bank 2 carry F_EXTEND. */
  lemma Bank2MacMiiRegisters()
    ensures forall c | c in BANK2_MAC_MII :: InBank(c, 2, 1)
  {
  }

  /** The station address registers and MISTAT of bank 3 carry F_EXTEND. */
  lemma Bank3MacMiiRegisters()
    ensures forall c | c in BANK3_MAC_MII :: InBank(c, 3, 1)
  {
  }

  // ---------------------------------------------------------------------
  // Bank selection (modules/enc28j60.c, _enc28j60_set_bank)
  // ---------------------------------------------------------------------

  /** The bank to switch to before accessing `regcode` when `current` is
      selected: none when the register is in the current bank or common
      to all banks. */
  function BankSwitch(current: bv8, regcode: bv8): (r: Option<bv8>)
    ensures r.Some? ==> r.value == RegcodeBank(regcode) && r.value < 4
  {
    var reg := RegcodeRegister(regcode);
    var bank := RegcodeBank(regcode);
    if current != bank && reg < FIRST_COMMON_REGISTER then Some(bank) else None
  }

  /** The ECON1 value written to select `bank`: the bank in BSEL1..0, the
      other six bits as read. */
  function SelectBank(econ1: bv8, bank: bv8): (w: bv8)
    ensures w & 0x03 == bank & 0x03 && w & 0xfc == econ1 & 0xfc
  {
    (econ1 & 0xfc) | (bank & 0x03)
  }

  /** A common register never causes a switch; a banked one does exactly
      when another bank is selected, and afterwards no switch is needed. */
  lemma BankSwitchCases(current: bv8, regcode: bv8)
    ensures RegcodeRegister(regcode) >= FIRST_COMMON_REGISTER ==> BankSwitch(current, regcode).None?
    ensures RegcodeRegister(regcode) < FIRST_COMMON_REGISTER ==>
      (BankSwitch(current, regcode).Some? <==> current != RegcodeBank(regcode))
    ensures BankSwitch(RegcodeBank(regcode), regcode).None?
  {
  }

  /** The driver's current_bank together with the controller's ECON1
      register, whose bits 1..0 select the bank. The driver's copy is kept
      equal to the bank the controller has selected. */
  class Controller {
    var currentBank: bv8
    var econ1: bv8

    predicate Valid()
      reads this
    {
      currentBank == econ1 & 0x03
    }

    /** The state after reset: bank 0 on both sides. */
    constructor ()
      ensures Valid() && currentBank == 0
    {
      currentBank := 0;
      econ1 := 0;
    }

    /** _enc28j60_set_bank: when BankSwitch asks for a switch, ECON1 is read,
        its bank bits replaced and written back, and current_bank follows.
        Afterwards the bank of any banked register is the one selected. */
    method SetBank(regcode: bv8)
      requires Valid()
      modifies this
      ensures Valid()
      ensures var sw := BankSwitch(old(currentBank), regcode);
        (sw.None? ==> currentBank == old(currentBank) && econ1 == old(econ1)) &&
        (sw.Some? ==> currentBank == sw.value && econ1 == SelectBank(old(econ1), sw.value))
      ensures RegcodeRegister(regcode) < FIRST_COMMON_REGISTER ==> econ1 & 0x03 == RegcodeBank(regcode)
    {
      var reg := RegcodeRegister(regcode);
      var bank := RegcodeBank(regcode);
      if currentBank != bank && reg < FIRST_COMMON_REGISTER {
        var e := econ1;
        e := (e & 0xfc) | (bank & 0x03);
        econ1 := e;
        currentBank := bank;
      }
    }
  }
}
