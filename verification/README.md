# ARM A32 emitter of ude-bench (`ag`), modelled in Dafny

The `ag` emitter builds ARMv7-A (A32) machine code in memory, one 32-bit
word at a time. It has four parts:

- **Word buffer chain.** Words are appended to a chain of 512-word blocks.
  The newest block is at the head. A new block is linked only when the
  head block is full.
- **Labels and relocation records.** Labels are dense integer ids; each one
  is bound to a word offset or not bound yet. A branch to a bound label
  carries its offset inline. A branch to an unbound label is emitted with a
  zero offset field, and a relocation record (`LabelRef`) remembers where it
  is.
- **Encoders.** B, BL, BX, data-processing (register and immediate
  operand 2) and Advanced SIMD three-register words are built by OR-ing
  shifted fields together. The per-mnemonic wrappers come from the
  `DATA_PROCESS` and `IMPL_NEON_VR3_*` macros and the `AG_FOR_EACH_VR3_*`
  tables.
- **Finalisation (`ag_alloc_code`).** It sums the block cursors, copies the
  blocks into one page-rounded region in emission order, and patches every
  recorded branch with `label.offset - inst_offset - 2`.

The project has six modules:

- `AgDefs` (defs.dfy): the header's enums, register aliases, shift-type
  constants and shift-descriptor macros.
- `AgInsns` (insns.dfy): the NEON opcode constants and the binding tables.
- `AgEncode` (encode.dfy): every encoder as a pure function over `bv32`
  words, with field decoders and round-trip lemmas.
- `AgReloc` (reloc.dfy): labels, relocation records and the relocation
  pass as a pure function `ApplyRefs`, with lemmas about what it does to
  each word.
- `AgEmitter` (emitter.dfy): the emitter as classes.
  - `Block` is a heap object with a `chain` link, a cursor and a 512-word
    array.
  - `Emitter` holds the cursor, the head block, the label and record
    sequences and the finalised region. Its ghost `Contents` is every word
    passed to `ag_emit4`, in order.
  - `Valid()` ties `Contents` to the blocks. Every non-head block is full,
    `cur` is 512 × (blocks − 1) plus the head's cursor, and the records
    stay well formed.
  - Each emit method is proved against the encoder functions. The
    counting, copying and patching loops of `ag_alloc_code` are proved
    against `Contents` and `ApplyRefs`.
- `AgScenario` (scenario.dfy): a four-word session with one forward and
  one backward branch. It is stated through the emitter's own methods and
  worked out to the final words.

Bit layouts follow the ARM Architecture Reference Manual ARMv7-A/R
(ARM DDI 0406C):

- B and BL: sections A8.8.18 and A8.8.25;
- BX: section A8.8.27;
- data processing: section A5.2;
- shifts: section A8.4;
- Advanced SIMD three registers of the same length: section A7.4.1, with
  one exception below.

The exception is the float wrappers' size argument. `IMPL_NEON_VR3_FLT`
passes size 2 for f32 and size 1 for f64, and the encoder ORs it into bits
20-21 as it does for the integer forms. The floating-point forms of section
A7.4.1 have no size field there. They use bit 21 as an operation bit and
bit 20 as the `sz` flag, which is 0 for F32. So the size argument lands on
opcode bits, and the model keeps the words the source builds:

- every f32 word has bit 21 set, and every f64 word has bit 20 set
  (`AgEncode.FloatSizeBits`). For vadd_f32 that is the pattern section
  A7.4.1 assigns to VSUB.F32.
- bit 21 is the only bit in which VPMAXF and VPMINF differ, so vpmax_f32
  and vpmin_f32 emit the same word for every operand
  (`AgEncode.VpmaxVpminF32Collide`). The f64 wrappers still differ
  (`AgEncode.VpmaxVpminF64Differ`).

Every C `int` operand is modelled as its 32-bit pattern (`bv32`). The
source checks no register or field range, so an out-of-range value spills
into the neighbouring bits exactly as it does in C. The round-trip lemmas
carry the ranges under which the fields read back.

Two places need care. In the first, the header and the definitions
disagree, and the model follows the definitions. In the second, the
header's name disagrees with the architecture's:

- **Data-processing register wrappers.** `ag_emit_data_process_reg` is
  defined with parameters `(s, rd, shift, rn, rm)`. The header prototype and
  the `DATA_PROCESS` wrappers pass `(s, rd, rn, rm, shift)`. So a wrapper's
  `rn` lands in the shift slot, its `rm` in Rn and its `shift` in Rm
  (`AgEncode.DpWrapperRewiring`).
- **Shift type 2.** The header names the value 2 `AG_SHIFT_ARITH_LEFT`.
  The architecture calls shift type 2 ASR, an arithmetic shift right. The
  model keeps the value 2; the name changes no word.

## Model

| member | source | states |
|---|---|---|
| AgDefs.CondCode | ag/ag_gen.h:24-40 | every condition code is at most 14, and it is 14 exactly for AL, so `cc << 28` fits the top nibble |
| AgDefs.CondCodeInjective | ag/ag_gen.h:24-40 | distinct conditions have distinct codes |
| AgDefs.DpCode | ag/ag_gen.h:106-124 | every data-processing opcode is below 16, so `opc << 21` lies within bits 21-24 |
| AgDefs.DpCodeInjective | ag/ag_gen.h:106-124 | distinct opcodes have distinct codes |
| AgDefs.ShiftAmount | ag/ag_gen.h:75 | an immediate-amount descriptor always has bit 0 clear |
| AgDefs.ShiftReg | ag/ag_gen.h:82 | a register descriptor always has bit 0 set |
| AgDefs.ShiftAmountRoundTrip | ag/ag_gen.h:75 | for am < 32 and type < 4 the descriptor fits 8 bits, is not the register form, and gives back its type (bits 1-2) and amount (bits 3-7) |
| AgDefs.ShiftRegRoundTrip | ag/ag_gen.h:82 | for reg < 16 and type < 4 the descriptor fits 8 bits, has bit 0 set and bit 3 clear, and gives back its type and register (bits 4-7) |
| AgDefs.ShiftFormsDisjoint | ag/ag_gen.h:75-82 | no immediate-amount descriptor equals any register descriptor |
| AgDefs.LslAm | ag/ag_gen.h:77 | no contract of its own; `NamedShiftTypes` states that it is the immediate form (`DescIsReg` is false), binds shift type 0 and gives back its amount |
| AgDefs.LsrAm | ag/ag_gen.h:78 | no contract of its own; `NamedShiftTypes` states that it is the immediate form (`DescIsReg` is false), binds shift type 1 and gives back its amount |
| AgDefs.LslReg | ag/ag_gen.h:84 | no contract of its own; `NamedShiftTypes` states that it is the register form (`DescIsReg` is true), binds shift type 0 and gives back its register |
| AgDefs.LsrReg | ag/ag_gen.h:85 | no contract of its own; `NamedShiftTypes` states that it is the register form (`DescIsReg` is true), binds shift type 1 and gives back its register |
| AgDefs.NamedShiftTypes | ag/ag_gen.h:69-85 | the LSL helpers bind shift type 0 and the LSR helpers type 1; the `_AM` helpers are in the immediate form and the `_REG` helpers in the register form; both give back their amount or register |
| AgInsns.BindingTables | ag/ag_insns.h:8-38 | a wrapper exists exactly for vadd i/f, vpmax and vpmin u/s/f, vmul i/p/f, and vmull u/s/i/p |
| AgInsns.Vr3Opcode | ag/ag_insns.h:8-38 | no contract of its own; `BindingTables` states which mnemonic and flavour pairs it binds, and `TableOpcodesAreConstants` that each bound opcode is one of the header's constants |
| AgInsns.Vr3Size | ag/ag_gen.c:187-214 | no contract of its own; `SizeBindings` states which widths each flavour binds and that every size is below 3 |
| AgInsns.SizeBindings | ag/ag_gen.c:187-214 | sizes are below 3; integer wrappers exist for 8, 16 and 32 bits, float wrappers for 32 and 64 bits |
| AgInsns.OpcodesAvoidOperandFields | ag/ag_insns.h:4-35 | no opcode constant sets bits 28-31, 22, 12-19, 5-7 or 0-3 |
| AgInsns.OnlyVpminfSetsSize | ag/ag_insns.h:4-35 | an opcode constant sets a size bit if and only if it is VPMINF, which sets bit 21 |
| AgInsns.PairsDifferInUBit | ag/ag_insns.h:12-35 | VPMAXU/S, VPMINU/S, VMULLU/S and VMULLI/P each differ exactly in bit 24 |
| AgInsns.TableOpcodesAreConstants | ag/ag_insns.h:8-38 | every opcode a table binds is one of the header's constants |
| AgEncode.BxWord | ag/ag_gen.c:74-78 | for reg < 16 the word holds the fixed BX bits 0x012fff1 in bits 4-27 and reg in Rm; for cc < 16 the condition reads back |
| AgEncode.BranchOffsetField | ag/ag_gen.c:97 | the masked offset always fits 24 bits |
| AgEncode.BranchWord | ag/ag_gen.c:97 | the low 24 bits are the masked offset, and bits 25-27 are 0b101 whenever l < 2 |
| AgEncode.BranchRoundTrip | ag/ag_gen.c:80-98 | condition, family 0b101, link bit and masked offset read back from a B/BL word |
| AgEncode.PatchBranch | ag/ag_gen.c:372-380 | a patched word keeps its top 8 bits, and its low 24 bits are `(d - 2) mod 2^24` |
| AgEncode.ForwardEqualsBackward | ag/ag_gen.c:86-97 | a zero-offset branch patched at finalisation equals the branch emitted inline to an already bound target |
| AgEncode.PendingBranchFill | ag/ag_gen.c:84-97 | a pending branch has a zero offset field, and OR-ing an offset into it gives the resolved branch |
| AgEncode.DataProcessRegWord | ag/ag_gen.c:115 | no contract of its own; `DataProcessRegRoundTrip` states that every field it is given reads back from the word |
| AgEncode.DataProcessImmWord | ag/ag_gen.c:127 | an immediate that passes the range test is the low 8 bits of the word |
| AgEncode.ImmFits | ag/ag_gen.c:122 | no contract of its own; `ImmRangeExact` states that it holds if and only if the pattern is at most 255 |
| AgEncode.ImmRangeExact | ag/ag_gen.c:122-125 | the range test accepts an `int32_t` pattern if and only if it is at most 255, so every negative value is rejected |
| AgEncode.DataProcessImmRoundTrip | ag/ag_gen.c:118-130 | for in-range fields, cond, class 00, I = 1, opcode, S, Rn, Rd and imm8 read back, and the rotation field is 0 |
| AgEncode.DataProcessRegRoundTrip | ag/ag_gen.c:111-116 | for in-range fields, cond, class 00, I = 0, opcode, S, Rn, Rd, shift and Rm read back |
| AgEncode.DpWrapperRegWord | ag/ag_gen.c:132-137 | no contract of its own; `DpWrapperRewiring` states where each wrapper argument lands in the word |
| AgEncode.DpWrapperRewiring | ag/ag_gen.c:132-142 | the register-form wrapper puts its `rn` into bits 4-11, its `rm` into Rn and its `shift` into Rm |
| AgEncode.MovBxWords | ag/ag_gen.c:74-130 | `mov r0, #100` under AL is 0xE3A00064, and `bx lr` is 0xE12FFF1E |
| AgEncode.Vr3Word | ag/ag_gen.c:163-184 | no contract of its own; `Vr3FixedFields`, `Vr3RegisterNumbers` and `Vr3RoundTrip` state what reads back from the word |
| AgEncode.Vr3FixedFields | ag/ag_gen.c:163-184 | with an opcode clear of the operand fields, the top nibble is 0xF and Q reads back; size reads back unless the opcode has size bits; the opcode-only bits are the opcode's |
| AgEncode.Vr3RegisterNumbers | ag/ag_gen.c:166-183 | the D:Vd, N:Vn and M:Vm numbers in the word are the indices for q = 0 and twice the indices for q = 1 |
| AgEncode.Vr3RoundTrip | ag/ag_gen.c:163-184 | for indices below 32 (q = 0) or 16 (q = 1), each register index reads back |
| AgEncode.Vr3OpcodeIsDisjoint | ag/ag_gen.c:181-183 | OR-ing an opcode clear of the operand fields leaves every operand field as it is without the opcode |
| AgEncode.VpminfSizeOverlap | ag/ag_insns.h:18 | VPMINF's bit 21 is ORed over the size argument: the size field reads `size | 2` |
| AgEncode.FloatSizeBits | ag/ag_gen.c:204-214 | every float wrapper sets bit 21 (f32, size 2) or bit 20 (f64, size 1) of its word, whatever its opcode |
| AgEncode.VpmaxVpminF32Collide | ag/ag_gen.c:204-214 | vpmax_f32 and vpmin_f32 emit the same word for every operand, because size 2 sets the bit 21 that tells VPMAXF from VPMINF |
| AgEncode.VpmaxVpminF64Differ | ag/ag_gen.c:204-214 | with Q a flag, vpmax_f64 has bit 21 clear and vpmin_f64 has it set |
| AgReloc.AppendKeepsRefs | ag/ag_gen.c:56-70 | appending a word keeps the relocation list well formed |
| AgReloc.MoreLabelsKeepRefs | ag/ag_gen.c:255-269 | allocating labels keeps the relocation list well formed |
| AgReloc.PushPendingRef | ag/ag_gen.c:89-97 | recording a just-emitted word with a zero offset field keeps the records in range, in increasing site order and pending |
| AgReloc.ApplyRefs | ag/ag_gen.c:363-384 | the relocation pass leaves the region's length unchanged |
| AgReloc.ApplyOneRef | ag/ag_gen.c:366-384 | the pass over a single record is that record's patch step |
| AgReloc.PatchOne | ag/ag_gen.c:372-380 | no contract of its own; `ApplyOneRef` makes it the pass over one record, and `PatchPending` and `ResolvedBranch` state what it does to a pending branch |
| AgReloc.ApplyRefsElsewhere | ag/ag_gen.c:363-384 | a word that no record names is left as emitted |
| AgReloc.ApplyRefsAtSite | ag/ag_gen.c:363-384 | each recorded word ends up as the emitted word patched with `label.offset - inst_offset` |
| AgReloc.PatchedSite | ag/ag_gen.c:372-380 | each recorded word ends up as the emitted word ORed with `(label.offset - inst_offset - 2) mod 2^24` |
| AgReloc.ResolvedBranch | ag/ag_gen.c:80-98 | patching a pending branch gives the word an inline branch to the same target would have been |
| AgReloc.PatchPending | ag/ag_gen.c:376-380 | a word with clear offset bits is patched by OR-ing the offset in |
| AgReloc.BoundRefsResolveInline | ag/ag_gen.c:366-380 | when every record names a bound label, each recorded pending branch ends up as the branch emitted inline to that label |
| AgEmitter.Block.constructor | ag/ag_gen.c:44-53 | a new block is empty, linked to the given previous block, and owns a fresh 512-word array |
| AgEmitter.AllocSize | ag/ag_gen.c:336-337 | the mapped size is a multiple of the page size, at least the byte count and less than the byte count plus one page |
| AgEmitter.RoundUpToPage | ag/ag_gen.c:337 | the rounding expression is a multiple of the page, at least `b` and less than `b + p` |
| AgEmitter.CopyWords | ag/ag_gen.c:349 | memcpy writes exactly the destination window and leaves the rest as it was |
| AgEmitter.ResolveLabels | ag/ag_gen.c:363-384 | the patch loop leaves the first n words as `ApplyRefs` of the words before it, and the words past n unchanged |
| AgEmitter.Emitter.constructor | ag/ag_gen.c:279-289 | a new emitter is valid, with one empty block, no words, no labels, no records and no region |
| AgEmitter.Emitter.InitialShape | ag/ag_gen.c:279-289 | one empty block, no words and no records form a valid emitter |
| AgEmitter.Emitter.DetachedShape | ag/ag_gen.c:356-358 | an emitter with no chain and well-formed records is valid |
| AgEmitter.Emitter.Emit4 | ag/ag_gen.c:56-70 | appends exactly the given word and bumps `cur`; links a new head block if and only if the head was full; keeps the chain invariant |
| AgEmitter.Emitter.LinkBlock | ag/ag_gen.c:61-63 | links a fresh, empty head block after the old chain and keeps the chain invariant |
| AgEmitter.Emitter.StoreInHead | ag/ag_gen.c:65-69 | writes the word into the head block, bumps both cursors and keeps the chain invariant |
| AgEmitter.Emitter.EmitBx | ag/ag_gen.c:74-78 | appends `BxWord` and leaves labels and records alone |
| AgEmitter.Emitter.EmitB0 | ag/ag_gen.c:80-98 | a bound target appends the branch with offset `label.offset - cur - 2` and adds no record; an unbound target appends the zero-offset branch and exactly one record `(Branch, old cur, dst)` |
| AgEmitter.Emitter.EmitResolved | ag/ag_gen.c:86-97 | for a bound target, appends the branch with offset `label.offset - cur - 2` and leaves labels and records alone |
| AgEmitter.Emitter.EmitPending | ag/ag_gen.c:88-97 | for an unbound target, appends the zero-offset branch and exactly one record `(Branch, old cur, dst)` |
| AgEmitter.Emitter.RecordPending | ag/ag_gen.c:89-94 | pushes the record for the pending branch at `site` and keeps the emitter valid |
| AgEmitter.Emitter.EmitB | ag/ag_gen.c:100-104 | EmitB0 with link bit 0 |
| AgEmitter.Emitter.EmitBl | ag/ag_gen.c:105-109 | EmitB0 with link bit 1 |
| AgEmitter.Emitter.EmitDataProcessReg | ag/ag_gen.c:111-116 | appends the register-form word from `(s, rd, shift, rn, rm)` |
| AgEmitter.Emitter.EmitDataProcessImm | ag/ag_gen.c:118-130 | returns -1 and emits nothing exactly when `imm & 0xffffff00` is non-zero; otherwise appends the immediate-form word and returns 0 |
| AgEmitter.Emitter.EmitDpReg | ag/ag_gen.c:132-137 | a DATA_PROCESS register wrapper appends the word with the source's argument rewiring |
| AgEmitter.Emitter.EmitDpImm | ag/ag_gen.c:138-160 | a DATA_PROCESS immediate wrapper behaves as EmitDataProcessImm with its opcode |
| AgEmitter.Emitter.EmitVr3 | ag/ag_gen.c:163-184 | appends `Vr3Word` and leaves labels and records alone |
| AgEmitter.Emitter.EmitVr3Op | ag/ag_gen.c:187-244 | a generated NEON wrapper appends the word built from its table opcode and its width's size |
| AgEmitter.Emitter.AllocLabel | ag/ag_gen.c:255-269 | returns the old label count and appends one unbound label |
| AgEmitter.Emitter.EmitLabel | ag/ag_gen.c:247-253 | binds only that label, to the current word offset; the words and records are untouched |
| AgEmitter.Emitter.EmitNewLabel | ag/ag_gen.c:271-277 | returns the old label count and appends a label bound to the current offset |
| AgEmitter.Emitter.AllocCode | ag/ag_gen.c:317-388 | with no words: no region, size 0, nothing changed. Otherwise: the emitter is finalised; the fresh region has `AllocSize(4 × cur)` bytes; size is 4 × cur; word k is `ApplyRefs` of the emitted words at k; the tail is zero |
| AgEmitter.Emitter.Flatten | ag/ag_gen.c:336-358 | the fresh region holds `allocSize / 4` words: the emitted words first, then zeros; the emitter then owns it and is finalised |
| AgEmitter.Emitter.Detach | ag/ag_gen.c:356-358 | drops the chain, records the region and its size, and leaves the emitter finalised and valid |
| AgEmitter.Emitter.CountBytes | ag/ag_gen.c:321-328 | the walk visits every block, and the byte count is 4 × cur |
| AgEmitter.Emitter.CopyBlocks | ag/ag_gen.c:343-354 | after the copy loop, word x of the region is the x-th emitted word for x < cur and 0 beyond |
| AgEmitter.Emitter.CopyBlock | ag/ag_gen.c:345-349 | copying block d extends the copied suffix of emitted words down to word 512 × d |
| AgScenario.SessionWordValues | ag/ag_gen.c:80-98 | the pending forward branch has a zero offset field, and the backward branch to word 0 from word 3 is 0xEAFFFFFB |
| AgScenario.ForwardBranchValue | ag/ag_gen.c:372-380 | the forward branch from word 0 to word 3 resolves to 0xEA000001 |
| AgScenario.SessionRecords | ag/ag_gen.c:80-98 | the session's one record names an allocated label and an emitted branch whose offset field is still zero |
| AgScenario.SessionRegion | ag/ag_gen.c:363-384 | the finalised region is `[0xEA000001, mov, mov, 0xEAFFFFFB]`: only the recorded forward branch changes |
| AgScenario.Session | ag/ag_gen.c:80-388 | the session run through the emitter's own operations yields a 4 KiB region whose first words are `[0xEA000001, mov, mov, 0xEAFFFFFB]` |
| AgScenario.SessionTop | ag/ag_gen.c:271-277 | binding `top` in a fresh emitter gives the label table `[bound at 0]` and changes no words |
| AgScenario.SessionLabels0 | ag/ag_gen.c:255-269 | allocating `fwd` then gives `[bound at 0, unbound]` |
| AgScenario.SessionBranchForward | ag/ag_gen.c:80-104 | `b fwd` appends the zero-offset branch and the record `(Branch, 0, fwd)` |
| AgScenario.SessionMoves | ag/ag_gen.c:118-160 | two `mov r0, #100` pass the range test and append 0xE3A00064 twice |
| AgScenario.SessionBindForward | ag/ag_gen.c:247-253 | binding `fwd` at word 3 gives the label table `[bound at 0, bound at 3]` |
| AgScenario.SessionBranchBack | ag/ag_gen.c:80-104 | `b top` at word 3 appends 0xEAFFFFFB inline and adds no record |
| AgScenario.BackBranchStep | ag/ag_gen.c:86-97 | the inline branch from word 3 to word 0 is the session's fourth word |
| AgScenario.SessionFinalise | ag/ag_gen.c:317-388 | `ag_alloc_code` with 4 KiB pages returns 1024 words whose first four are the resolved session |
| AgScenario.PageRounding | ag/ag_gen.c:337 | sixteen bytes round up to one 4 KiB page |

## Left out

- `mmap`, `munmap` and `sysconf`, with their protection flags, are not modelled. The page size is a parameter of `AllocCode`. The region is a fresh word array, zero-filled as an anonymous mapping is. The source does not check the `mmap` result; a failed mapping is not modelled.
- `AgEmitter.Emitter.AllocCode`: the region is an array of `allocSize / 4` words rather than `allocSize` bytes. The page size is assumed to be a positive number of bytes.
- `malloc` and `free` of blocks are not modelled; blocks are garbage-collected objects. `strdup`'d label names and the teardown in `ag_emitter_fini` are not modelled either. They manage memory and do not affect the emitted code.
- `npr/varray.h` is not part of this model. `labels` and `label_refs` are sequences with push and index. How `VA_ELEM_PTR` treats an id past the end is decided there and is not part of this model either, so the label id range is a precondition (`dst < |labels|`, `id < |labels|`).
- `AgEmitter.Emitter.AllocLabel`: the source leaves an unbound label's offset uninitialised; the model stores 0. A record that names a label never bound is therefore patched with offset 0 here, and with an indeterminate value in C.
- `AgEmitter.Emitter.EmitB0`: the source pushes the record before appending the word, and the model pushes it after, with the same offset. The resulting state is the same.
- 32-bit wrap-around of `cur`, `byte_count`, `block_count`, label offsets, `alloc_size` and the copy loop's block offset `d * CODEBUFFER_SIZE * INST_SIZE` is not modelled. They are unbounded naturals here. The block offset is an `int` product. It overflows once `d` reaches 2^20 blocks, so the source already misplaces blocks in programs of about 2^29 words or more, and such programs are outside the model. The branch offset itself is exact: it is the difference reduced modulo 2^24, which is what the unsigned subtraction and the mask give in C.
- `AgEncode.BranchOffsetField`: the model gives no lemma reading a signed offset back from its 24-bit field. Offsets outside ±2^23 words are truncated by the mask, as in the source.
- `AgEmitter.Emitter.EmitDataProcessImm`: the `int32_t` immediate is its 32-bit pattern, so "negative" means bit 31 set (`AgEncode.ImmRangeExact`).
- The `AG_ASR_*` and `AG_ROR_*` macros are not modelled. They name `AG_SHIFT_ARITH_RIGHT` and `AG_ROTATE_RIGHT`, which the header never defines.
- The short register names under `AG_USE_SHORT_REG` are not modelled. They are aliases of 0-15.
- gentest.cpp and main.cpp are not part of this model. They are drivers that write files. The encoders they call beyond those above (loads and stores, multiplies, `vld*`, `vdup32`, `vcvt*`, `ldrex`/`strex`, `movldr_imm`) have no definitions in the source modelled here. The only relocation kind is the branch.
