/** The emitter of ag/ag_gen.c: a chain of fixed-size word blocks with the
    newest block at the head, the label table, the relocation list, the
    per-instruction emit calls and the one-shot finalisation that flattens the
    chain into a fresh region and patches every recorded branch.

    The abstract view of an emitter is `Contents`, the words passed to the
    word-append routine in order; `Valid()` ties it to the blocks. */
module AgEmitter {
  import opened AgDefs
  import opened AgInsns
  import opened AgEncode
  import opened AgReloc

  /** Words per block (CODEBUFFER_SIZE) and bytes per instruction (INST_SIZE). */
  const CODEBUFFER_SIZE: nat := 512
  const INST_SIZE: nat := 4

  /** `struct CodeBufferBlock`: a link to the previous (older) block, a cursor
      and an inline array of 512 words. */
  class Block {
    var chain: Block?
    var cur: nat
    const buffer: array<Word>

    /** alloc_1block: a fresh, empty block linked in front of `prev`. */
    constructor (prev: Block?)
      ensures chain == prev && cur == 0
      ensures buffer.Length == CODEBUFFER_SIZE && fresh(buffer)
    {
      chain := prev;
      cur := 0;
      buffer := new Word[CODEBUFFER_SIZE];
    }
  }

  /** The size ag_alloc_code maps: the byte count rounded up to whole pages. */
  function AllocSize(byteCount: nat, pageSize: nat): (r: nat)
    requires pageSize > 0
    ensures r % pageSize == 0
    ensures byteCount <= r < byteCount + pageSize
  {
    RoundUpToPage(byteCount, pageSize);
    ((byteCount + (pageSize - 1)) / pageSize) * pageSize
  }

  lemma RoundUpToPage(b: nat, p: nat)
    requires p > 0
    ensures ((b + (p - 1)) / p) * p % p == 0
    ensures b <= ((b + (p - 1)) / p) * p < b + p
  {
    var q := (b + (p - 1)) / p;
    var m := (b + (p - 1)) % p;
    assert b + (p - 1) == q * p + m;
    MultipleMod(q, p);
  }

  /** (q * p) % p == 0, by induction on q. */
  lemma {:induction false} MultipleMod(q: nat, p: nat)
    requires p > 0
    ensures (q * p) % p == 0
  {
    if q > 0 {
      MultipleMod(q - 1, p);
      assert q * p == (q - 1) * p + p;
      ModAddDivisor((q - 1) * p, p);
    }
  }

  lemma ModAddDivisor(a: nat, p: nat)
    requires p > 0
    ensures (a + p) % p == a % p
  {
    var k := (a + p) / p - a / p - 1;
    assert k * p == a % p - (a + p) % p;
  }

  /** memcpy of `n` words from `src` to `dst[dstOff..]`. */
  method CopyWords(dst: array<Word>, dstOff: nat, src: array<Word>, n: nat)
    requires dst != src && n <= src.Length && dstOff + n <= dst.Length
    modifies dst
    ensures forall x | 0 <= x < dst.Length ::
      dst[x] == if dstOff <= x < dstOff + n then src[x - dstOff] else old(dst[x])
  {
    forall k | 0 <= k < n {
      dst[dstOff + k] := src[k];
    }
  }

  /** The resolve loop of ag_alloc_code: patch the first `n` words of the
      region record by record, in insertion order. */
  method ResolveLabels(p: array<Word>, n: nat, refs: seq<LabelRef>, labels: seq<Label>)
    requires n <= p.Length && RefsInRange(refs, |labels|, n)
    modifies p
    ensures p[..n] == ApplyRefs(old(p[..n]), refs, labels)
    ensures forall x | n <= x < p.Length :: p[x] == old(p[x])
  {
    ghost var code := p[..n];
    var ri := 0;
    while ri < |refs|
      invariant ri <= |refs|
      invariant p[..n] == ApplyRefs(code, refs[..ri], labels)
      invariant forall x | n <= x < p.Length :: p[x] == old(p[x])
    {
      var lr := refs[ri];
      var l := labels[lr.labelId];
      ghost var before := p[..n];
      match lr.kind {
        case Branch =>
          p[lr.instOffset] := PatchBranch(p[lr.instOffset], l.offset - lr.instOffset);
      }
      assert p[..n] == before[lr.instOffset := PatchBranch(before[lr.instOffset], l.offset - lr.instOffset)];
      assert refs[..ri + 1][..ri] == refs[..ri] && refs[..ri + 1][ri] == lr;
      ri := ri + 1;
    }
    assert refs[..ri] == refs;
  }

  /** `struct ag_Emitter`. */
  class Emitter {
    var cur: nat
    var last: Block?
    var labels: seq<Label>
    var labelRefs: seq<LabelRef>
    var code: array?<Word>
    var codeSize: nat

    /** The blocks of the chain, oldest first (the C list runs newest first). */
    ghost var blocks: seq<Block>
    /** Every word emitted so far, in emission order. */
    ghost var Contents: seq<Word>
    ghost var Repr: set<object>

    /** The chain is linked newest to oldest, every block but the head is
        full, and blocks and their arrays are distinct. */
    ghost predicate ChainShape()
      reads this`Repr, this`blocks, this`last, Repr - {this}
    {
      && (forall i | 0 <= i < |blocks| :: blocks[i] in Repr && blocks[i].buffer in Repr)
      && (last == null <==> blocks == [])
      && (last != null ==> last == blocks[|blocks| - 1])
      && (forall i | 0 <= i < |blocks| ::
            blocks[i].buffer.Length == CODEBUFFER_SIZE && blocks[i].cur <= CODEBUFFER_SIZE)
      && (blocks != [] ==> blocks[0].chain == null)
      && (forall i | 0 < i < |blocks| :: blocks[i].chain == blocks[i - 1])
      && (forall i | 0 <= i < |blocks| - 1 :: blocks[i].cur == CODEBUFFER_SIZE)
      && (forall i, j | 0 <= i < j < |blocks| :: blocks[i] != blocks[j] && blocks[i].buffer != blocks[j].buffer)
    }

    /** `cur` counts the emitted words, which are laid out block by block. */
    ghost predicate ContentsMatch()
      reads this`Repr, this`blocks, this`last, this`Contents, this`cur, Repr - {this}
      requires ChainShape()
    {
      && |Contents| == cur
      && (last != null ==> cur == CODEBUFFER_SIZE * (|blocks| - 1) + last.cur)
      && (forall i, j | 0 <= i < |blocks| && 0 <= j < blocks[i].cur ::
            CODEBUFFER_SIZE * i + j < cur && Contents[CODEBUFFER_SIZE * i + j] == blocks[i].buffer[j])
    }

    /** Relocation records name allocated labels and emitted words, in
        emission order, and each names a branch still waiting for its offset. */
    ghost predicate RefsValid()
      reads this`Contents, this`cur, this`labels, this`labelRefs
    {
      && |Contents| == cur
      && RefsWellFormed(Contents, labelRefs, |labels|)
    }

    ghost predicate Valid()
      reads this, Repr
    {
      this in Repr && ChainShape() && ContentsMatch() && RefsValid()
    }

    /** Whether ag_alloc_code has consumed the chain: no further emission. */
    predicate Finalised()
      reads this
    {
      last == null
    }

    /** ag_emitter_init. */
    constructor ()
      ensures fresh(Repr)
      ensures Valid()
      ensures !Finalised() && |blocks| == 1
      ensures cur == 0 && Contents == [] && labels == [] && labelRefs == []
      ensures code == null && codeSize == 0
    {
      cur := 0;
      code := null;
      codeSize := 0;
      var b := new Block(null);
      last := b;
      labels := [];
      labelRefs := [];
      blocks := [b];
      Contents := [];
      Repr := {this, b, b.buffer};
      new;
      InitialShape(b);
    }

    /** A chain of one empty block, with nothing emitted and nothing
        recorded, is valid. */
    lemma InitialShape(b: Block)
      requires blocks == [b] && last == b && Repr == {this, b, b.buffer}
      requires b.chain == null && b.cur == 0 && b.buffer.Length == CODEBUFFER_SIZE
      requires cur == 0 && Contents == [] && labelRefs == []
      ensures Valid()
    {
    }

    /** Once the chain is handed over, only the history and the records remain. */
    lemma DetachedShape()
      requires blocks == [] && last == null && Repr == {this} && RefsValid()
      ensures Valid()
    {
    }

    /** ag_emit4: append one word; a new head block is linked only when the
        current head is full. */
    method Emit4(val: Word)
      requires Valid() && !Finalised()
      modifies Repr
      ensures Valid() && !Finalised() && fresh(Repr - old(Repr))
      ensures Contents == old(Contents) + [val] && cur == old(cur) + 1
      ensures labels == old(labels) && labelRefs == old(labelRefs)
      ensures code == old(code) && codeSize == old(codeSize)
      ensures old(last.cur) == CODEBUFFER_SIZE ==> |blocks| == old(|blocks|) + 1 && last.cur == 1
      ensures old(last.cur) < CODEBUFFER_SIZE ==> blocks == old(blocks) && last == old(last)
      ensures blocks[..old(|blocks|)] == old(blocks)
    {
      if last.cur == CODEBUFFER_SIZE {
        LinkBlock();
      }
      StoreInHead(val);
    }

    /** alloc_1block(&e->last, e->last): link a fresh empty block as the new head. */
    method LinkBlock()
      requires Valid() && !Finalised() && last.cur == CODEBUFFER_SIZE
      modifies this
      ensures Valid() && !Finalised() && fresh(Repr - old(Repr))
      ensures fresh(last) && last.cur == 0 && blocks == old(blocks) + [last]
      ensures Contents == old(Contents) && cur == old(cur)
      ensures labels == old(labels) && labelRefs == old(labelRefs)
      ensures code == old(code) && codeSize == old(codeSize)
    {
      var nb := new Block(last);
      last := nb;
      blocks := blocks + [nb];
      Repr := Repr + {nb, nb.buffer};
      assert blocks[0] == old(blocks)[0];
      forall i | 0 < i < |blocks|
        ensures blocks[i].chain == blocks[i - 1]
      {
        if i < |blocks| - 1 {
          assert blocks[i] == old(blocks)[i] && blocks[i - 1] == old(blocks)[i - 1];
        }
      }
      forall i, j | 0 <= i < |blocks| && 0 <= j < blocks[i].cur
        ensures CODEBUFFER_SIZE * i + j < cur && Contents[CODEBUFFER_SIZE * i + j] == blocks[i].buffer[j]
      {
        assert blocks[i] == old(blocks)[i];
      }
    }

    /** The store half of ag_emit4: write into the head block, bump both cursors. */
    method StoreInHead(val: Word)
      requires Valid() && !Finalised() && last.cur < CODEBUFFER_SIZE
      modifies this, last, last.buffer
      ensures Valid() && !Finalised() && Repr == old(Repr)
      ensures last == old(last) && last.cur == old(last.cur) + 1 && blocks == old(blocks)
      ensures Contents == old(Contents) + [val] && cur == old(cur) + 1
      ensures labels == old(labels) && labelRefs == old(labelRefs)
      ensures code == old(code) && codeSize == old(codeSize)
    {
      assert ChainShape() && ContentsMatch();
      AppendKeepsRefs(Contents, labelRefs, |labels|, val);
      var b := last;
      b.buffer[b.cur] := val;
      b.cur := b.cur + 1;
      cur := cur + 1;
      Contents := Contents + [val];
      ghost var n := |blocks|;
      forall i | 0 <= i < n
        ensures blocks[i].cur <= CODEBUFFER_SIZE
      {
        if i < n - 1 {
          assert blocks[i] != b;
        }
      }
      forall i, j | 0 <= i < n && 0 <= j < blocks[i].cur
        ensures CODEBUFFER_SIZE * i + j < cur && Contents[CODEBUFFER_SIZE * i + j] == blocks[i].buffer[j]
      {
        if i < n - 1 {
          assert blocks[i].buffer != b.buffer;
        }
      }
    }

    // ------------------------------------------------------------ branches

    /** ag_emit_bx. */
    method EmitBx(cc: Cond, reg: Word)
      requires Valid() && !Finalised()
      modifies Repr
      ensures Valid() && !Finalised() && fresh(Repr - old(Repr))
      ensures Contents == old(Contents) + [BxWord(CondCode(cc), reg)]
      ensures labels == old(labels) && labelRefs == old(labelRefs)
      ensures code == old(code) && codeSize == old(codeSize)
    {
      Emit4(BxWord(CondCode(cc), reg));
    }

    /** ag_emit_b0: a branch to a bound label carries its offset inline; a
        branch to an unbound label is emitted with a zero offset field and a
        relocation record naming the word's offset. The source pushes the
        record just before the append; pushing it just after, with the same
        offset, leaves the same state. */
    method EmitB0(cc: Cond, l: Word, dst: nat)
      requires Valid() && !Finalised() && dst < |labels|
      modifies Repr
      ensures Valid() && !Finalised() && fresh(Repr - old(Repr))
      ensures cur == old(cur) + 1 && labels == old(labels)
      ensures old(labels[dst].state) == Emitted ==>
        && Contents == old(Contents) + [BranchWord(CondCode(cc), l, labels[dst].offset - old(cur) - 2)]
        && labelRefs == old(labelRefs)
      ensures old(labels[dst].state) == NotEmitted ==>
        && Contents == old(Contents) + [BranchWord(CondCode(cc), l, 0)]
        && labelRefs == old(labelRefs) + [LabelRef(Branch, old(cur), dst)]
      ensures code == old(code) && codeSize == old(codeSize)
    {
      if labels[dst].state == Emitted {
        EmitResolved(cc, l, dst);
      } else {
        EmitPending(cc, l, dst);
      }
    }

    /** The bound branch of ag_emit_b0: the offset from the word after next
        to the label, inline. */
    method EmitResolved(cc: Cond, l: Word, dst: nat)
      requires Valid() && !Finalised() && dst < |labels| && labels[dst].state == Emitted
      modifies Repr
      ensures Valid() && !Finalised() && fresh(Repr - old(Repr))
      ensures cur == old(cur) + 1 && labels == old(labels) && labelRefs == old(labelRefs)
      ensures Contents == old(Contents) + [BranchWord(CondCode(cc), l, labels[dst].offset - old(cur) - 2)]
      ensures code == old(code) && codeSize == old(codeSize)
    {
      Emit4(BranchWord(CondCode(cc), l, labels[dst].offset - cur - 2));
    }

    /** The unbound branch of ag_emit_b0: a zero offset field and a record
        naming the word's offset. */
    method EmitPending(cc: Cond, l: Word, dst: nat)
      requires Valid() && !Finalised() && dst < |labels|
      modifies Repr
      ensures Valid() && !Finalised() && fresh(Repr - old(Repr))
      ensures cur == old(cur) + 1 && labels == old(labels)
      ensures Contents == old(Contents) + [BranchWord(CondCode(cc), l, 0)]
      ensures labelRefs == old(labelRefs) + [LabelRef(Branch, old(cur), dst)]
      ensures code == old(code) && codeSize == old(codeSize)
    {
      var site := cur;
      Emit4(BranchWord(CondCode(cc), l, 0));
      PendingBranchFill(CondCode(cc), l, 0);
      assert Contents[..site] == old(Contents);
      RecordPending(site, dst);
    }

    /** VA_PUSH of the relocation record for the pending branch just emitted
        at word `site`. */
    method RecordPending(site: nat, dst: nat)
      requires Valid() && site + 1 == cur && dst < |labels|
      requires RefsWellFormed(Contents[..site], labelRefs, |labels|)
      requires OffsetField(Contents[site]) == 0
      modifies this`labelRefs
      ensures Valid()
      ensures labelRefs == old(labelRefs) + [LabelRef(Branch, site, dst)]
    {
      assert Contents == Contents[..site] + [Contents[site]];
      PushPendingRef(Contents[..site], labelRefs, |labels|, Contents[site], dst);
      labelRefs := labelRefs + [LabelRef(Branch, site, dst)];
    }

    /** ag_emit_b: a branch without link. */
    method EmitB(cc: Cond, dst: nat)
      requires Valid() && !Finalised() && dst < |labels|
      modifies Repr
      ensures Valid() && !Finalised() && fresh(Repr - old(Repr))
      ensures cur == old(cur) + 1 && labels == old(labels)
      ensures old(labels[dst].state) == Emitted ==>
        Contents == old(Contents) + [BranchWord(CondCode(cc), 0, labels[dst].offset - old(cur) - 2)]
      ensures old(labels[dst].state) == Emitted ==> labelRefs == old(labelRefs)
      ensures old(labels[dst].state) == NotEmitted ==>
        Contents == old(Contents) + [BranchWord(CondCode(cc), 0, 0)]
      ensures old(labels[dst].state) == NotEmitted ==>
        labelRefs == old(labelRefs) + [LabelRef(Branch, old(cur), dst)]
      ensures code == old(code) && codeSize == old(codeSize)
    {
      EmitB0(cc, 0, dst);
    }

    /** ag_emit_bl: a branch with link. */
    method EmitBl(cc: Cond, dst: nat)
      requires Valid() && !Finalised() && dst < |labels|
      modifies Repr
      ensures Valid() && !Finalised() && fresh(Repr - old(Repr))
      ensures cur == old(cur) + 1 && labels == old(labels)
      ensures old(labels[dst].state) == Emitted ==>
        Contents == old(Contents) + [BranchWord(CondCode(cc), 1, labels[dst].offset - old(cur) - 2)]
      ensures old(labels[dst].state) == Emitted ==> labelRefs == old(labelRefs)
      ensures old(labels[dst].state) == NotEmitted ==>
        Contents == old(Contents) + [BranchWord(CondCode(cc), 1, 0)]
      ensures old(labels[dst].state) == NotEmitted ==>
        labelRefs == old(labelRefs) + [LabelRef(Branch, old(cur), dst)]
      ensures code == old(code) && codeSize == old(codeSize)
    {
      EmitB0(cc, 1, dst);
    }

    // ----------------------------------------------------- data processing

    /** ag_emit_data_process_reg, parameters in the order of its definition. */
    method EmitDataProcessReg(cc: Cond, opc: DpOpcode, s: Word, rd: Word, shift: Word, rn: Word, rm: Word)
      requires Valid() && !Finalised()
      modifies Repr
      ensures Valid() && !Finalised() && fresh(Repr - old(Repr))
      ensures Contents == old(Contents) + [DataProcessRegWord(CondCode(cc), DpCode(opc), s, rd, shift, rn, rm)]
      ensures labels == old(labels) && labelRefs == old(labelRefs)
      ensures code == old(code) && codeSize == old(codeSize)
    {
      Emit4(DataProcessRegWord(CondCode(cc), DpCode(opc), s, rd, shift, rn, rm));
    }

    /** ag_emit_data_process_imm: -1 and nothing emitted when the immediate
        has a bit above bit 7; otherwise the word is appended and 0 returned. */
    method EmitDataProcessImm(cc: Cond, opc: DpOpcode, s: Word, rd: Word, rn: Word, imm: Word) returns (rc: int)
      requires Valid() && !Finalised()
      modifies Repr
      ensures Valid() && !Finalised() && fresh(Repr - old(Repr))
      ensures rc == 0 || rc == -1
      ensures rc == -1 <==> !ImmFits(imm)
      ensures rc == -1 ==> Contents == old(Contents) && cur == old(cur) && blocks == old(blocks)
      ensures rc == 0 ==> Contents == old(Contents) + [DataProcessImmWord(CondCode(cc), DpCode(opc), s, rd, rn, imm)]
      ensures labels == old(labels) && labelRefs == old(labelRefs)
      ensures code == old(code) && codeSize == old(codeSize)
    {
      if !ImmFits(imm) {
        return -1;
      }
      Emit4(DataProcessImmWord(CondCode(cc), DpCode(opc), s, rd, rn, imm));
      return 0;
    }

    /** ag_emit_<op>_reg from DATA_PROCESS(<op>, opc): its (s, rd, rn, rm,
        shift) go positionally into the definition's (s, rd, shift, rn, rm). */
    method EmitDpReg(op: DpOpcode, cc: Cond, s: Word, rd: Word, rn: Word, rm: Word, shift: Word)
      requires Valid() && !Finalised()
      modifies Repr
      ensures Valid() && !Finalised() && fresh(Repr - old(Repr))
      ensures Contents == old(Contents) + [DpWrapperRegWord(CondCode(cc), DpCode(op), s, rd, rn, rm, shift)]
      ensures labels == old(labels) && labelRefs == old(labelRefs)
      ensures code == old(code) && codeSize == old(codeSize)
    {
      EmitDataProcessReg(cc, op, s, rd, rn, rm, shift);
    }

    /** ag_emit_<op>_imm from DATA_PROCESS(<op>, opc). */
    method EmitDpImm(op: DpOpcode, cc: Cond, s: Word, rd: Word, rn: Word, imm: Word) returns (rc: int)
      requires Valid() && !Finalised()
      modifies Repr
      ensures Valid() && !Finalised() && fresh(Repr - old(Repr))
      ensures rc == 0 || rc == -1
      ensures rc == -1 <==> !ImmFits(imm)
      ensures rc == -1 ==> Contents == old(Contents) && cur == old(cur) && blocks == old(blocks)
      ensures rc == 0 ==> Contents == old(Contents) + [DataProcessImmWord(CondCode(cc), DpCode(op), s, rd, rn, imm)]
      ensures labels == old(labels) && labelRefs == old(labelRefs)
      ensures code == old(code) && codeSize == old(codeSize)
    {
      rc := EmitDataProcessImm(cc, op, s, rd, rn, imm);
    }

    // ------------------------------------------------ SIMD three registers

    /** ag_emit_vr3. */
    method EmitVr3(opc: Word, q: Word, size: Word, vd: Word, vn: Word, vm: Word)
      requires Valid() && !Finalised()
      modifies Repr
      ensures Valid() && !Finalised() && fresh(Repr - old(Repr))
      ensures Contents == old(Contents) + [Vr3Word(opc, q, size, vd, vn, vm)]
      ensures labels == old(labels) && labelRefs == old(labelRefs)
      ensures code == old(code) && codeSize == old(codeSize)
    {
      Emit4(Vr3Word(opc, q, size, vd, vn, vm));
    }

    /** ag_emit_<mnemonic>_<flavour><width>: one of the wrappers the
        IMPL_NEON_VR3_* macros generate from the binding tables. */
    method EmitVr3Op(m: Mnemonic, f: Flavour, w: Width, q: Word, vd: Word, vn: Word, vm: Word)
      requires Valid() && !Finalised()
      requires Vr3Opcode(m, f).Some? && Vr3Size(f, w).Some?
      modifies Repr
      ensures Valid() && !Finalised() && fresh(Repr - old(Repr))
      ensures Contents == old(Contents) + [Vr3Word(Vr3Opcode(m, f).value, q, Vr3Size(f, w).value, vd, vn, vm)]
      ensures labels == old(labels) && labelRefs == old(labelRefs)
      ensures code == old(code) && codeSize == old(codeSize)
    {
      EmitVr3(Vr3Opcode(m, f).value, q, Vr3Size(f, w).value, vd, vn, vm);
    }

    // -------------------------------------------------------------- labels

    /** ag_alloc_label: the new id is the current label count. The source
        leaves the offset of an unbound label uninitialised; it is 0 here. */
    method AllocLabel() returns (id: nat)
      requires Valid()
      modifies this`labels
      ensures Valid()
      ensures id == old(|labels|)
      ensures labels == old(labels) + [Label(NotEmitted, 0)]
    {
      id := |labels|;
      MoreLabelsKeepRefs(Contents, labelRefs, |labels|, |labels| + 1);
      labels := labels + [Label(NotEmitted, 0)];
    }

    /** ag_emit_label: bind a label to the current word offset. */
    method EmitLabel(id: nat)
      requires Valid() && id < |labels|
      modifies this`labels
      ensures Valid()
      ensures labels == old(labels)[id := Label(Emitted, cur)]
    {
      labels := labels[id := Label(Emitted, cur)];
    }

    /** ag_emit_new_label: allocate a label and bind it here. */
    method EmitNewLabel() returns (id: nat)
      requires Valid()
      modifies this`labels
      ensures Valid()
      ensures id == old(|labels|)
      ensures labels == old(labels) + [Label(Emitted, cur)]
    {
      id := AllocLabel();
      EmitLabel(id);
    }

    // -------------------------------------------------------- finalisation

    /** ag_alloc_code: flatten the chain into one fresh region (zero-filled,
        as an anonymous mapping is) of whole pages, then patch every
        recorded branch. With no words emitted it returns no region and
        changes nothing. `pageSize` stands for sysconf(_SC_PAGE_SIZE). */
    method AllocCode(pageSize: nat) returns (region: array?<Word>, size: nat)
      requires Valid() && !Finalised() && pageSize > 0
      modifies this
      ensures Valid()
      ensures Contents == old(Contents) && cur == old(cur)
      ensures labels == old(labels) && labelRefs == old(labelRefs)
      ensures region == null <==> cur == 0
      ensures region == null ==> size == 0 && !Finalised() && blocks == old(blocks)
      ensures region == null ==> code == old(code) && codeSize == old(codeSize)
      ensures region != null ==>
        && Finalised() && fresh(region) && code == region
        && size == INST_SIZE * cur
        && codeSize == AllocSize(INST_SIZE * cur, pageSize)
        && region.Length == codeSize / INST_SIZE
        && region[..cur] == ApplyRefs(Contents, labelRefs, labels)
        && (forall x | cur <= x < region.Length :: region[x] == 0)
    {
      var blockCount, byteCount := CountBytes();
      if byteCount == 0 {
        return null, 0;
      }

      var allocSize := AllocSize(byteCount, pageSize);
      var p := Flatten(blockCount, allocSize);
      assert p[..cur] == Contents;
      region, size := p, byteCount;
      ResolveLabels(p, cur, labelRefs, labels);
    }

    /** The copy loop of ag_alloc_code into a fresh zero-filled region of
        `allocSize` bytes, after which the emitter owns that region. */
    method Flatten(blockCount: nat, allocSize: nat) returns (p: array<Word>)
      requires Valid() && !Finalised() && blockCount == |blocks| && INST_SIZE * cur <= allocSize
      modifies this`last, this`blocks, this`Repr, this`code, this`codeSize
      ensures Valid() && Finalised() && fresh(p)
      ensures code == p && codeSize == allocSize && blocks == []
      ensures p.Length == allocSize / INST_SIZE
      ensures forall x | 0 <= x < p.Length :: p[x] == if x < cur then Contents[x] else 0
    {
      p := new Word[allocSize / INST_SIZE](_ => 0);
      CopyBlocks(p, blockCount);
      Detach(p, allocSize);
    }

    /** Hand the chain over: the emitter now owns the region and can emit no more. */
    method Detach(p: array<Word>, allocSize: nat)
      requires Valid()
      modifies this`last, this`blocks, this`Repr, this`code, this`codeSize
      ensures Valid() && Finalised()
      ensures code == p && codeSize == allocSize && blocks == []
    {
      last := null;
      blocks := [];
      Repr := {this};
      code := p;
      codeSize := allocSize;
      DetachedShape();
    }

    /** The counting loop of ag_alloc_code: walk the chain from the head and
        sum the cursors, in bytes. */
    method CountBytes() returns (blockCount: nat, byteCount: nat)
      requires Valid() && !Finalised()
      ensures blockCount == |blocks|
      ensures byteCount == INST_SIZE * cur
    {
      assert ChainShape() && ContentsMatch();
      var cb := last;
      ghost var n := |blocks|;
      blockCount, byteCount := 0, 0;
      while cb != null
        invariant blockCount <= n
        invariant cb == (if blockCount < n then blocks[n - 1 - blockCount] else null)
        invariant byteCount == if blockCount == 0 then 0 else INST_SIZE * (CODEBUFFER_SIZE * (blockCount - 1) + last.cur)
        decreases n - blockCount
      {
        ghost var k := n - 1 - blockCount;
        assert k < n - 1 ==> cb.cur == CODEBUFFER_SIZE;
        byteCount := byteCount + cb.cur * INST_SIZE;
        blockCount := blockCount + 1;
        cb := cb.chain;
      }
    }

    /** The copy loop of ag_alloc_code: block d (oldest is 0), reached d
        links from the head, lands at word offset d * CODEBUFFER_SIZE. */
    method CopyBlocks(p: array<Word>, blockCount: nat)
      requires Valid() && !Finalised() && blockCount == |blocks| && p !in Repr
      requires p.Length >= cur && forall x | 0 <= x < p.Length :: p[x] == 0
      modifies p
      ensures forall x | 0 <= x < p.Length :: p[x] == if x < cur then Contents[x] else 0
    {
      assert ChainShape();
      var cb := last;
      var i := 0;
      while i < blockCount
        invariant i <= blockCount
        invariant cb == (if i < blockCount then blocks[blockCount - 1 - i] else null)
        invariant forall x | 0 <= x < p.Length ::
          p[x] == if CODEBUFFER_SIZE * (blockCount - i) <= x < cur then Contents[x] else 0
      {
        var d := (blockCount - i) - 1;
        assert CODEBUFFER_SIZE * d + cb.cur == cur || (cb.cur == CODEBUFFER_SIZE && CODEBUFFER_SIZE * (d + 1) <= cur);
        assert forall j | 0 <= j < cb.cur :: Contents[CODEBUFFER_SIZE * d + j] == cb.buffer[j];
        CopyBlock(p, cb, d);
        cb := cb.chain;
        i := i + 1;
      }
    }

    /** One memcpy of the copy loop: block `b`, the `d`-th oldest, into
        its forward-order slot. Every block but the head is full, and the
        head ends at the last emitted word. */
    method CopyBlock(p: array<Word>, b: Block, d: nat)
      requires p != b.buffer && b.cur <= b.buffer.Length && |Contents| == cur <= p.Length
      requires CODEBUFFER_SIZE * d + b.cur == cur || (b.cur == CODEBUFFER_SIZE && CODEBUFFER_SIZE * (d + 1) <= cur)
      requires forall j | 0 <= j < b.cur :: Contents[CODEBUFFER_SIZE * d + j] == b.buffer[j]
      requires forall x | 0 <= x < p.Length ::
        p[x] == if CODEBUFFER_SIZE * (d + 1) <= x < cur then Contents[x] else 0
      modifies p
      ensures forall x | 0 <= x < p.Length ::
        p[x] == if CODEBUFFER_SIZE * d <= x < cur then Contents[x] else 0
    {
      CopyWords(p, CODEBUFFER_SIZE * d, b.buffer, b.cur);
      forall x | 0 <= x < p.Length
        ensures p[x] == if CODEBUFFER_SIZE * d <= x < cur then Contents[x] else 0
      {
        if CODEBUFFER_SIZE * d <= x < CODEBUFFER_SIZE * d + b.cur {
          var j := x - CODEBUFFER_SIZE * d;
          assert p[x] == b.buffer[j] == Contents[CODEBUFFER_SIZE * d + j];
        }
      }
    }
  }
}
