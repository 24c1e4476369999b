/** Constants and descriptor macros of the emitter's public header (ag/ag_gen.h):
    condition codes, data-processing opcodes, shift types and the operand-2
    shift descriptors built by AG_SHIFT_AMOUNT and AG_SHIFT_REG.

    Every value the C code shifts into an instruction word is an `int`; it is
    modelled here as its 32-bit pattern, a `Word`, so that an out-of-range value
    spills into neighbouring bits exactly as it does in the C expression. */
module AgDefs {

  /** One 32-bit instruction word, or the bit pattern of a C `int` operand. */
  type Word = bv32

  /** `enum ag_cond`: the ARM condition field (ARM DDI 0406C, section A8.3). */
  datatype Cond = EQ | NE | CS | CC | MI | PL | VS | VC | HI | LS | GE | LT | GT | LE | AL

  /** The enumerator value of each condition; all of them fit the top nibble. */
  function CondCode(c: Cond): (r: Word)
    ensures r <= 14
    ensures r == 14 <==> c == AL
  {
    match c
    case EQ => 0
    case NE => 1
    case CS => 2
    case CC => 3
    case MI => 4
    case PL => 5
    case VS => 6
    case VC => 7
    case HI => 8
    case LS => 9
    case GE => 10
    case LT => 11
    case GT => 12
    case LE => 13
    case AL => 14
  }

  /** Distinct conditions have distinct codes, so the field identifies the condition. */
  lemma CondCodeInjective(a: Cond, b: Cond)
    ensures CondCode(a) == CondCode(b) ==> a == b
  {
  }

  /** `enum ag_data_process_opcode` (ARM DDI 0406C, section A5.2.1). */
  datatype DpOpcode = AND | EOR | SUB | RSB | ADD | ADC | SBC | RSC
                    | TST | TEQ | CMP | CMN | ORR | MOV | BIC | MVN

  /** The enumerator value of each opcode; all of them fit the 4-bit field at bits 21-24. */
  function DpCode(op: DpOpcode): (r: Word)
    ensures r < 16
    ensures (r << 21) & !0x01E0_0000 == 0
  {
    match op
    case AND => 0
    case EOR => 1
    case SUB => 2
    case RSB => 3
    case ADD => 4
    case ADC => 5
    case SBC => 6
    case RSC => 7
    case TST => 8
    case TEQ => 9
    case CMP => 10
    case CMN => 11
    case ORR => 12
    case MOV => 13
    case BIC => 14
    case MVN => 15
  }

  lemma DpCodeInjective(a: DpOpcode, b: DpOpcode)
    ensures DpCode(a) == DpCode(b) ==> a == b
  {
  }

  /** Register aliases AG_SP, AG_LR and AG_PC. */
  const AG_SP: Word := 13
  const AG_LR: Word := 14
  const AG_PC: Word := 15

  /** Shift-type constants. The header names type 2 "arithmetic left"; the
      architecture calls it ASR. */
  const AG_SHIFT_LOG_LEFT: Word := 0
  const AG_SHIFT_LOG_RIGHT: Word := 1
  const AG_SHIFT_ARITH_LEFT: Word := 2
  const AG_SHIFT_ROTATE_RIGHT: Word := 3

  /** AG_SHIFT_AMOUNT(am, type): shift a register by an immediate amount.
      Bit 0 is always clear, which is what marks the immediate form. */
  function ShiftAmount(am: Word, shiftType: Word): (d: Word)
    ensures d & 1 == 0
  {
    (am << 3) | (shiftType << 1)
  }

  /** AG_SHIFT_REG(reg, type): shift a register by the amount held in `reg`.
      Bit 0 is always set, which is what marks the register form. */
  function ShiftReg(reg: Word, shiftType: Word): (d: Word)
    ensures d & 1 == 1
  {
    (reg << 4) | (shiftType << 1) | 1
  }

  /** The four descriptor macros whose shift-type names are defined. */
  function LslAm(am: Word): Word { ShiftAmount(am, AG_SHIFT_LOG_LEFT) }
  function LsrAm(am: Word): Word { ShiftAmount(am, AG_SHIFT_LOG_RIGHT) }
  function LslReg(r: Word): Word { ShiftReg(r, AG_SHIFT_LOG_LEFT) }
  function LsrReg(r: Word): Word { ShiftReg(r, AG_SHIFT_LOG_RIGHT) }

  /** Decoders of a shift descriptor (the 8-bit `shift` field of operand 2). */
  function DescIsReg(d: Word): bool { d & 1 == 1 }
  function DescType(d: Word): Word { (d >> 1) & 3 }
  function DescAmount(d: Word): Word { (d >> 3) & 0x1f }
  function DescReg(d: Word): Word { (d >> 4) & 0xf }

  /** An immediate-amount descriptor fits 8 bits and gives back its amount and type. */
  lemma ShiftAmountRoundTrip(am: Word, shiftType: Word)
    requires am < 32 && shiftType < 4
    ensures ShiftAmount(am, shiftType) < 256
    ensures !DescIsReg(ShiftAmount(am, shiftType))
    ensures DescType(ShiftAmount(am, shiftType)) == shiftType
    ensures DescAmount(ShiftAmount(am, shiftType)) == am
  {
  }

  /** A register descriptor fits 8 bits, keeps bit 3 clear and gives back its register and type. */
  lemma ShiftRegRoundTrip(reg: Word, shiftType: Word)
    requires reg < 16 && shiftType < 4
    ensures ShiftReg(reg, shiftType) < 256
    ensures DescIsReg(ShiftReg(reg, shiftType))
    ensures ShiftReg(reg, shiftType) & 8 == 0
    ensures DescType(ShiftReg(reg, shiftType)) == shiftType
    ensures DescReg(ShiftReg(reg, shiftType)) == reg
  {
  }

  /** Bit 0 alone tells the two descriptor forms apart, whatever the operands. */
  lemma ShiftFormsDisjoint(am: Word, t1: Word, reg: Word, t2: Word)
    ensures ShiftAmount(am, t1) != ShiftReg(reg, t2)
  {
  }

  /** The LSL/LSR helpers bind shift types 0 and 1, in the immediate-amount
      form for the `_AM` helpers and the register form for the `_REG` ones. */
  lemma NamedShiftTypes(am: Word, r: Word)
    requires am < 32 && r < 16
    ensures DescType(LslAm(am)) == 0 && DescType(LsrAm(am)) == 1
    ensures DescType(LslReg(r)) == 0 && DescType(LsrReg(r)) == 1
    ensures DescAmount(LslAm(am)) == am && DescAmount(LsrAm(am)) == am
    ensures DescReg(LslReg(r)) == r && DescReg(LsrReg(r)) == r
    ensures !DescIsReg(LslAm(am)) && !DescIsReg(LsrAm(am))
    ensures DescIsReg(LslReg(r)) && DescIsReg(LsrReg(r))
  {
    ShiftAmountRoundTrip(am, AG_SHIFT_LOG_LEFT);
    ShiftAmountRoundTrip(am, AG_SHIFT_LOG_RIGHT);
    ShiftRegRoundTrip(r, AG_SHIFT_LOG_LEFT);
    ShiftRegRoundTrip(r, AG_SHIFT_LOG_RIGHT);
  }
}
