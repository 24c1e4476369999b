/** The bit-packing expressions of the instruction emitters in ag/ag_gen.c, as
    pure functions over 32-bit words, with the field decoders that invert them.

    Layouts follow the ARM Architecture Reference Manual ARMv7-A/R (ARM DDI
    0406C): B and BL (sections A8.8.18 and A8.8.25), BX (section A8.8.27),
    data-processing register and immediate forms (section A5.2, shifts from
    section A8.4) and Advanced SIMD three registers of the same length
    (section A7.4.1), except that the float wrappers' size argument lands on
    opcode bits (`FloatSizeBits`, `VpmaxVpminF32Collide`). No field is range-checked by the source; the round-trip
    lemmas therefore carry the ranges under which each field reads back. */
module AgEncode {
  import opened AgDefs
  import opened AgInsns

  const TWO_24: int := 0x100_0000

  // ---------------------------------------------------------------- decoders

  function CondField(w: Word): Word { w >> 28 }
  function LinkField(w: Word): Word { (w >> 24) & 1 }
  function BranchFamilyField(w: Word): Word { (w >> 25) & 7 }
  function OffsetField(w: Word): Word { w & 0x00ff_ffff }
  function TopByte(w: Word): Word { w & 0xff00_0000 }

  function ClassField(w: Word): Word { (w >> 26) & 3 }
  function ImmFlagField(w: Word): Word { (w >> 25) & 1 }
  function OpcodeField(w: Word): Word { (w >> 21) & 0xf }
  function SFlagField(w: Word): Word { (w >> 20) & 1 }
  function RnField(w: Word): Word { (w >> 16) & 0xf }
  function RdField(w: Word): Word { (w >> 12) & 0xf }
  function ShiftField(w: Word): Word { (w >> 4) & 0xff }
  function RmField(w: Word): Word { w & 0xf }
  function Imm8Field(w: Word): Word { w & 0xff }

  // -------------------------------------------------------------------- BX

  const BX_FIXED: Word := 0x012f_ff10

  /** ag_emit_bx: branch and exchange to the address in `reg`. */
  function BxWord(cc: Word, reg: Word): (w: Word)
    ensures reg < 16 ==> w & 0x0fff_fff0 == BX_FIXED && RmField(w) == reg
    ensures reg < 16 && cc < 16 ==> CondField(w) == cc
  {
    (cc << 28) | BX_FIXED | reg
  }

  // ----------------------------------------------------------------- B / BL

  /** `off & 0x00ffffff` for the signed word offset `off`: its residue modulo
      2^24, which is what the two's-complement mask keeps. Offsets outside
      24 signed bits are truncated, not rejected. */
  function BranchOffsetField(off: int): (f: Word)
    ensures f < 0x100_0000
  {
    (off % TWO_24) as Word
  }

  /** The word ag_emit_b0 emits for condition `cc`, link bit `l` and word offset `off`. */
  function BranchWord(cc: Word, l: Word, off: int): (w: Word)
    ensures OffsetField(w) == BranchOffsetField(off)
    ensures l < 2 ==> BranchFamilyField(w) == 5
  {
    (cc << 28) | (0x5 << 25) | (l << 24) | BranchOffsetField(off)
  }

  /** B/BL field layout: condition, family 0b101, link bit and offset. */
  lemma BranchRoundTrip(cc: Word, l: Word, off: int)
    requires cc < 16 && l < 2
    ensures CondField(BranchWord(cc, l, off)) == cc
    ensures BranchFamilyField(BranchWord(cc, l, off)) == 5
    ensures LinkField(BranchWord(cc, l, off)) == l
    ensures OffsetField(BranchWord(cc, l, off)) == BranchOffsetField(off)
  {
  }

  /** The relocation patch of ag_alloc_code for a branch whose site is `d`
      words before its target: keep the top 8 bits, write `d - 2` below. */
  function PatchBranch(w: Word, d: int): (r: Word)
    ensures TopByte(r) == TopByte(w)
    ensures OffsetField(r) == BranchOffsetField(d - 2)
  {
    (w & 0xff00_0000) | BranchOffsetField(d - 2)
  }

  /** Forward and backward resolution agree: a branch emitted with a zero
      offset at `site` and patched once its target is known is the word that
      an inline branch to the already-bound target would have been. */
  lemma ForwardEqualsBackward(cc: Word, l: Word, target: int, site: int)
    ensures PatchBranch(BranchWord(cc, l, 0), target - site) == BranchWord(cc, l, target - site - 2)
  {
  }

  /** A branch with a zero offset is the resolved branch with its offset bits cleared. */
  lemma PendingBranchFill(cc: Word, l: Word, off: int)
    ensures OffsetField(BranchWord(cc, l, 0)) == 0
    ensures BranchWord(cc, l, 0) | BranchOffsetField(off) == BranchWord(cc, l, off)
  {
  }

  // ------------------------------------------------------- data processing

  /** ag_emit_data_process_reg, parameters in the order of its definition:
      (s, rd, shift, rn, rm). */
  function DataProcessRegWord(cc: Word, opc: Word, s: Word, rd: Word, shift: Word, rn: Word, rm: Word): Word
  {
    (cc << 28) | (opc << 21) | (s << 20) | (rn << 16) | (rd << 12) | (shift << 4) | rm
  }

  /** The immediate-form range test: `imm & 0xffffff00` is zero. */
  predicate ImmFits(imm: Word)
  {
    imm & 0xffff_ff00 == 0
  }

  /** ag_emit_data_process_imm's word, for an immediate that passed the range test. */
  function DataProcessImmWord(cc: Word, opc: Word, s: Word, rd: Word, rn: Word, imm: Word): (w: Word)
    requires ImmFits(imm)
    ensures Imm8Field(w) == imm
  {
    (cc << 28) | (1 << 25) | (opc << 21) | (s << 20) | (rn << 16) | (rd << 12) | imm
  }

  /** The range test on an `int32_t` immediate, held as its two's-complement
      pattern, accepts exactly 0..255: every negative value (bit 31 set) and
      every value above 255 is rejected. */
  lemma ImmRangeExact(imm: Word)
    ensures ImmFits(imm) <==> imm <= 255
    ensures imm >= 0x8000_0000 ==> !ImmFits(imm)
  {
  }

  lemma DataProcessImmRoundTrip(cc: Word, opc: Word, s: Word, rd: Word, rn: Word, imm: Word)
    requires cc < 16 && opc < 16 && s < 2 && rd < 16 && rn < 16 && ImmFits(imm)
    ensures CondField(DataProcessImmWord(cc, opc, s, rd, rn, imm)) == cc
    ensures ClassField(DataProcessImmWord(cc, opc, s, rd, rn, imm)) == 0
    ensures ImmFlagField(DataProcessImmWord(cc, opc, s, rd, rn, imm)) == 1
    ensures OpcodeField(DataProcessImmWord(cc, opc, s, rd, rn, imm)) == opc
    ensures SFlagField(DataProcessImmWord(cc, opc, s, rd, rn, imm)) == s
    ensures RnField(DataProcessImmWord(cc, opc, s, rd, rn, imm)) == rn
    ensures RdField(DataProcessImmWord(cc, opc, s, rd, rn, imm)) == rd
    ensures Imm8Field(DataProcessImmWord(cc, opc, s, rd, rn, imm)) == imm
    ensures (DataProcessImmWord(cc, opc, s, rd, rn, imm) >> 8) & 0xf == 0
  {
  }

  lemma DataProcessRegRoundTrip(cc: Word, opc: Word, s: Word, rd: Word, shift: Word, rn: Word, rm: Word)
    requires cc < 16 && opc < 16 && s < 2 && rd < 16 && shift < 256 && rn < 16 && rm < 16
    ensures CondField(DataProcessRegWord(cc, opc, s, rd, shift, rn, rm)) == cc
    ensures ClassField(DataProcessRegWord(cc, opc, s, rd, shift, rn, rm)) == 0
    ensures ImmFlagField(DataProcessRegWord(cc, opc, s, rd, shift, rn, rm)) == 0
    ensures OpcodeField(DataProcessRegWord(cc, opc, s, rd, shift, rn, rm)) == opc
    ensures SFlagField(DataProcessRegWord(cc, opc, s, rd, shift, rn, rm)) == s
    ensures RnField(DataProcessRegWord(cc, opc, s, rd, shift, rn, rm)) == rn
    ensures RdField(DataProcessRegWord(cc, opc, s, rd, shift, rn, rm)) == rd
    ensures ShiftField(DataProcessRegWord(cc, opc, s, rd, shift, rn, rm)) == shift
    ensures RmField(DataProcessRegWord(cc, opc, s, rd, shift, rn, rm)) == rm
  {
  }

  /** The register-form wrapper generated by DATA_PROCESS(name, opc): it takes
      (s, rd, rn, rm, shift) and passes them positionally to a definition
      that expects (s, rd, shift, rn, rm). */
  function DpWrapperRegWord(cc: Word, opc: Word, s: Word, rd: Word, rn: Word, rm: Word, shift: Word): Word
  {
    DataProcessRegWord(cc, opc, s, rd, rn, rm, shift)
  }

  /** What that rewiring does: the wrapper's `rn` lands in the shift slot
      (bits 4-11), its `rm` in the Rn field and its `shift` in the Rm field. */
  lemma DpWrapperRewiring(cc: Word, opc: Word, s: Word, rd: Word, rn: Word, rm: Word, shift: Word)
    requires cc < 16 && opc < 16 && s < 2 && rd < 16 && rn < 256 && rm < 16 && shift < 16
    ensures ShiftField(DpWrapperRegWord(cc, opc, s, rd, rn, rm, shift)) == rn
    ensures RnField(DpWrapperRegWord(cc, opc, s, rd, rn, rm, shift)) == rm
    ensures RmField(DpWrapperRegWord(cc, opc, s, rd, rn, rm, shift)) == shift
    ensures RdField(DpWrapperRegWord(cc, opc, s, rd, rn, rm, shift)) == rd
    ensures OpcodeField(DpWrapperRegWord(cc, opc, s, rd, rn, rm, shift)) == opc
  {
    DataProcessRegRoundTrip(cc, opc, s, rd, rn, rm, shift);
  }

  /** `mov r0, #100` under AL, then `bx lr`: the two words the documented layout gives. */
  lemma MovBxWords()
    ensures DataProcessImmWord(CondCode(AL), DpCode(MOV), 0, 0, 0, 100) == 0xE3A0_0064
    ensures BxWord(CondCode(AL), AG_LR) == 0xE12F_FF1E
  {
  }

  // ------------------------------------------------ SIMD three registers

  /** ag_emit_vr3: for a quadword operation (q non-zero) every register index
      is doubled first; each 5-bit index is then split into a high bit (D at
      22, N at 7, M at 5) and a low nibble (bits 12-15, 16-19, 0-3). */
  function Vr3Word(opc: Word, q: Word, size: Word, vd: Word, vn: Word, vm: Word): Word
  {
    var d := if q != 0 then vd << 1 else vd;
    var n := if q != 0 then vn << 1 else vn;
    var m := if q != 0 then vm << 1 else vm;
    var dh, dl := (d >> 4) & 1, d & 0xf;
    var nh, nl := (n >> 4) & 1, n & 0xf;
    var mh, ml := (m >> 4) & 1, m & 0xf;
    (0xf << 28) | (dh << 22) | (size << 20) | (nl << 16) |
    (dl << 12) | opc | (nh << 7) | (q << 6) | (mh << 5) | ml
  }

  function Vr3QField(w: Word): Word { (w >> 6) & 1 }
  function Vr3SizeField(w: Word): Word { (w >> 20) & 3 }
  /** The 5-bit D:Vd, N:Vn and M:Vm register numbers. */
  function Vr3DReg(w: Word): Word { (((w >> 22) & 1) << 4) | ((w >> 12) & 0xf) }
  function Vr3NReg(w: Word): Word { (((w >> 7) & 1) << 4) | ((w >> 16) & 0xf) }
  function Vr3MReg(w: Word): Word { (((w >> 5) & 1) << 4) | (w & 0xf) }
  /** A register number read back as the index the caller passed: halved for Q operations. */
  function Vr3Index(w: Word, reg: Word): Word { if Vr3QField(w) == 1 then reg >> 1 else reg }

  /** Bits that only the opcode argument supplies. */
  const VR3_OPCODE_ONLY_MASK: Word := 0x0F80_0F10

  /** The prefix, Q, size and opcode bits read back whenever the opcode avoids
      the operand fields and Q and size fit their fields. */
  lemma Vr3FixedFields(opc: Word, q: Word, size: Word, vd: Word, vn: Word, vm: Word)
    requires opc & VR3_OPERAND_MASK == 0 && q < 2 && size < 4
    ensures CondField(Vr3Word(opc, q, size, vd, vn, vm)) == 0xf
    ensures Vr3QField(Vr3Word(opc, q, size, vd, vn, vm)) == q
    ensures opc & VR3_SIZE_MASK == 0 ==> Vr3SizeField(Vr3Word(opc, q, size, vd, vn, vm)) == size
    ensures Vr3Word(opc, q, size, vd, vn, vm) & VR3_OPCODE_ONLY_MASK == opc & VR3_OPCODE_ONLY_MASK
  {
  }

  /** The register numbers a word carries: the indices themselves for a
      doubleword operation, twice the indices for a quadword one. */
  lemma Vr3RegisterNumbers(opc: Word, q: Word, size: Word, vd: Word, vn: Word, vm: Word)
    requires opc & VR3_OPERAND_MASK == 0 && q < 2 && size < 4
    requires vd < (if q == 1 then 16 else 32)
    requires vn < (if q == 1 then 16 else 32)
    requires vm < (if q == 1 then 16 else 32)
    ensures Vr3DReg(Vr3Word(opc, q, size, vd, vn, vm)) == if q == 1 then 2 * vd else vd
    ensures Vr3NReg(Vr3Word(opc, q, size, vd, vn, vm)) == if q == 1 then 2 * vn else vn
    ensures Vr3MReg(Vr3Word(opc, q, size, vd, vn, vm)) == if q == 1 then 2 * vm else vm
  {
  }

  /** Register indices read back as the caller passed them. */
  lemma Vr3RoundTrip(opc: Word, q: Word, size: Word, vd: Word, vn: Word, vm: Word)
    requires opc & VR3_OPERAND_MASK == 0 && q < 2 && size < 4
    requires vd < (if q == 1 then 16 else 32)
    requires vn < (if q == 1 then 16 else 32)
    requires vm < (if q == 1 then 16 else 32)
    ensures Vr3Index(Vr3Word(opc, q, size, vd, vn, vm), Vr3DReg(Vr3Word(opc, q, size, vd, vn, vm))) == vd
    ensures Vr3Index(Vr3Word(opc, q, size, vd, vn, vm), Vr3NReg(Vr3Word(opc, q, size, vd, vn, vm))) == vn
    ensures Vr3Index(Vr3Word(opc, q, size, vd, vn, vm), Vr3MReg(Vr3Word(opc, q, size, vd, vn, vm))) == vm
  {
    Vr3FixedFields(opc, q, size, vd, vn, vm);
    Vr3RegisterNumbers(opc, q, size, vd, vn, vm);
  }

  /** OR-ing in an opcode that avoids the operand fields changes no operand field:
      the word differs from the opcode-free word exactly by the opcode's bits. */
  lemma Vr3OpcodeIsDisjoint(opc: Word, q: Word, size: Word, vd: Word, vn: Word, vm: Word)
    requires opc & VR3_OPERAND_MASK == 0
    ensures Vr3Word(opc, q, size, vd, vn, vm) & VR3_OPERAND_MASK
         == Vr3Word(0, q, size, vd, vn, vm) & VR3_OPERAND_MASK
  {
  }

  /** VPMINF's bit 21 is ORed over the size argument: vpmin_f32 (size 2) keeps
      size 2, while vpmin_f64 (size 1) comes out with size 3. Bit 21 is also
      the only bit in which VPMINF differs from VPMAXF, so see
      `VpmaxVpminF32Collide`. */
  lemma VpminfSizeOverlap(q: Word, size: Word, vd: Word, vn: Word, vm: Word)
    requires q < 2 && size < 4
    ensures Vr3SizeField(Vr3Word(NEON_VR3_VPMINF, q, size, vd, vn, vm)) == size | 2
  {
  }

  /** The float wrappers' size argument is never 0: f32 passes 2, which sets
      bit 21, and f64 passes 1, which sets bit 20. The floating-point forms of
      section A7.4.1 use these bits as an operation bit and the `sz` flag, so
      the size argument lands on opcode bits. */
  lemma FloatSizeBits(m: Mnemonic, q: Word, vd: Word, vn: Word, vm: Word)
    requires Vr3Opcode(m, F).Some?
    ensures Vr3Word(Vr3Opcode(m, F).value, q, Vr3Size(F, W32).value, vd, vn, vm) & 0x0020_0000 != 0
    ensures Vr3Word(Vr3Opcode(m, F).value, q, Vr3Size(F, W64).value, vd, vn, vm) & 0x0010_0000 != 0
  {
  }

  /** vpmax_f32 and vpmin_f32 emit the same word for every operand: the size
      argument 2 sets bit 21, the one bit that tells VPMAXF from VPMINF. */
  lemma VpmaxVpminF32Collide(q: Word, vd: Word, vn: Word, vm: Word)
    ensures Vr3Word(Vr3Opcode(VPMax, F).value, q, Vr3Size(F, W32).value, vd, vn, vm)
         == Vr3Word(Vr3Opcode(VPMin, F).value, q, Vr3Size(F, W32).value, vd, vn, vm)
  {
    assert NEON_VR3_VPMINF == NEON_VR3_VPMAXF | 0x0020_0000;
  }

  /** The f64 wrappers, with size 1, still tell vpmax from vpmin by bit 21,
      as long as Q is a flag and cannot reach that bit. */
  lemma VpmaxVpminF64Differ(q: Word, vd: Word, vn: Word, vm: Word)
    requires q < 2
    ensures Vr3Word(Vr3Opcode(VPMax, F).value, q, Vr3Size(F, W64).value, vd, vn, vm) & 0x0020_0000 == 0
    ensures Vr3Word(Vr3Opcode(VPMin, F).value, q, Vr3Size(F, W64).value, vd, vn, vm) & 0x0020_0000 != 0
  {
  }
}
