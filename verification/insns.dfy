/** The Advanced SIMD three-register opcode constants and the binding tables
    that stamp out the per-mnemonic wrappers (ag/ag_insns.h). Each constant is
    the opcode part of an encoding from ARM DDI 0406C, section A7.4.1; the
    shared encoder ORs it into a word that already holds the register, size
    and Q fields. */
module AgInsns {
  import opened AgDefs

  datatype Option<T> = None | Some(value: T)

  const NEON_VR3_ADDI: Word := 0x0200_0800
  const NEON_VR3_ADDF: Word := 0x0200_0d00

  const NEON_VR3_VPMAXS: Word := 0x0200_0a00
  const NEON_VR3_VPMAXU: Word := 0x0300_0a00
  const NEON_VR3_VPMAXF: Word := 0x0300_0f00

  const NEON_VR3_VPMINS: Word := 0x0200_0a10
  const NEON_VR3_VPMINU: Word := 0x0300_0a10
  const NEON_VR3_VPMINF: Word := 0x0320_0f00

  const NEON_VR3_VMULI: Word := 0x0200_0910
  const NEON_VR3_VMULP: Word := 0x0300_0910
  const NEON_VR3_VMULF: Word := 0x0300_0d10

  const NEON_VR3_VMULLU: Word := 0x0380_0c00
  const NEON_VR3_VMULLS: Word := 0x0280_0c00
  const NEON_VR3_VMULLI: Word := 0x0380_0e00
  const NEON_VR3_VMULLP: Word := 0x0280_0e00

  /** Every opcode constant of the header, in declaration order. */
  const ALL_VR3_OPCODES: seq<Word> := [
    NEON_VR3_ADDI, NEON_VR3_ADDF,
    NEON_VR3_VPMAXS, NEON_VR3_VPMAXU, NEON_VR3_VPMAXF,
    NEON_VR3_VPMINS, NEON_VR3_VPMINU, NEON_VR3_VPMINF,
    NEON_VR3_VMULI, NEON_VR3_VMULP, NEON_VR3_VMULF,
    NEON_VR3_VMULLU, NEON_VR3_VMULLS, NEON_VR3_VMULLI, NEON_VR3_VMULLP
  ]

  /** Bits the shared encoder fills itself: the 0xF prefix (28-31), D (22),
      Vn (16-19), Vd (12-15), N (7), Q (6), M (5) and Vm (0-3). */
  const VR3_OPERAND_MASK: Word := 0xF04F_F0EF
  /** The element-size field, bits 20-21. */
  const VR3_SIZE_MASK: Word := 0x0030_0000
  /** The U bit, bit 24: unsigned versus signed (and integer versus polynomial for VMULL). */
  const VR3_U_BIT: Word := 0x0100_0000

  /** The mnemonics generated by the AG_FOR_EACH_VR3_* tables. */
  datatype Mnemonic = VAdd | VPMax | VPMin | VMul | VMull

  /** The lane-type prefix of a wrapper name: i, u, s, p or f. */
  datatype Flavour = I | U | S | P | F

  /** The lane width suffix of a wrapper name. */
  datatype Width = W8 | W16 | W32 | W64

  /** The binding tables: which opcode constant the wrapper `name_<flavour>`
      passes to the shared encoder, or None when the tables generate no such
      wrapper. IF: vadd (i, f); USF: vpmax and vpmin (u, s, f); IPF: vmul
      (i, p, f); USIP: vmull (u, s, i, p). */
  function Vr3Opcode(m: Mnemonic, f: Flavour): Option<Word>
  {
    match (m, f)
    case (VAdd, I) => Some(NEON_VR3_ADDI)
    case (VAdd, F) => Some(NEON_VR3_ADDF)
    case (VPMax, U) => Some(NEON_VR3_VPMAXU)
    case (VPMax, S) => Some(NEON_VR3_VPMAXS)
    case (VPMax, F) => Some(NEON_VR3_VPMAXF)
    case (VPMin, U) => Some(NEON_VR3_VPMINU)
    case (VPMin, S) => Some(NEON_VR3_VPMINS)
    case (VPMin, F) => Some(NEON_VR3_VPMINF)
    case (VMul, I) => Some(NEON_VR3_VMULI)
    case (VMul, P) => Some(NEON_VR3_VMULP)
    case (VMul, F) => Some(NEON_VR3_VMULF)
    case (VMull, U) => Some(NEON_VR3_VMULLU)
    case (VMull, S) => Some(NEON_VR3_VMULLS)
    case (VMull, I) => Some(NEON_VR3_VMULLI)
    case (VMull, P) => Some(NEON_VR3_VMULLP)
    case _ => None
  }

  /** The size argument of IMPL_NEON_VR3_INT (32, 16, 8 bits give 2, 1, 0) and
      of IMPL_NEON_VR3_FLT (f32 gives 2, f64 gives 1), or None for a width the
      macros do not generate. */
  function Vr3Size(f: Flavour, w: Width): Option<Word>
  {
    match (f, w)
    case (F, W32) => Some(2)
    case (F, W64) => Some(1)
    case (F, _) => None
    case (_, W32) => Some(2)
    case (_, W16) => Some(1)
    case (_, W8) => Some(0)
    case (_, W64) => None
  }

  /** The wrapper set of each mnemonic, as its table lists it. */
  lemma BindingTables(m: Mnemonic, f: Flavour)
    ensures Vr3Opcode(m, f).Some? <==>
      match m
      case VAdd => f in {I, F}
      case VPMax => f in {U, S, F}
      case VPMin => f in {U, S, F}
      case VMul => f in {I, P, F}
      case VMull => f in {U, S, I, P}
  {
  }

  /** Sizes 0-2 only; integer wrappers cover 8/16/32 bits and float wrappers 32/64 bits. */
  lemma SizeBindings(f: Flavour, w: Width)
    ensures Vr3Size(f, w).Some? ==> Vr3Size(f, w).value < 3
    ensures f != F ==> (Vr3Size(f, w).Some? <==> w != W64)
    ensures f == F ==> (Vr3Size(f, w).Some? <==> w in {W32, W64})
  {
  }

  /** No opcode constant touches a bit the shared encoder fills itself, so
      OR-ing one in leaves the prefix, the register fields and Q intact. */
  lemma OpcodesAvoidOperandFields(i: nat)
    requires i < |ALL_VR3_OPCODES|
    ensures ALL_VR3_OPCODES[i] & VR3_OPERAND_MASK == 0
  {
  }

  /** VPMINF is the only constant that sets a size bit (bit 21); all others
      leave bits 20-21 to the size argument. */
  lemma OnlyVpminfSetsSize(i: nat)
    requires i < |ALL_VR3_OPCODES|
    ensures ALL_VR3_OPCODES[i] & VR3_SIZE_MASK != 0 <==> ALL_VR3_OPCODES[i] == NEON_VR3_VPMINF
    ensures NEON_VR3_VPMINF & VR3_SIZE_MASK == 0x0020_0000
  {
  }

  /** Each unsigned/signed pair, and VMULL's integer/polynomial pair, differs only in the U bit. */
  lemma PairsDifferInUBit()
    ensures NEON_VR3_VPMAXU ^ NEON_VR3_VPMAXS == VR3_U_BIT
    ensures NEON_VR3_VPMINU ^ NEON_VR3_VPMINS == VR3_U_BIT
    ensures NEON_VR3_VMULLU ^ NEON_VR3_VMULLS == VR3_U_BIT
    ensures NEON_VR3_VMULLI ^ NEON_VR3_VMULLP == VR3_U_BIT
    ensures NEON_VR3_VPMAXU & VR3_U_BIT != 0 && NEON_VR3_VPMINU & VR3_U_BIT != 0
  {
  }

  /** Every opcode a wrapper binds is one of the header's constants. */
  lemma TableOpcodesAreConstants(m: Mnemonic, f: Flavour)
    ensures Vr3Opcode(m, f).Some? ==> Vr3Opcode(m, f).value in ALL_VR3_OPCODES
  {
  }
}
