/** Labels, relocation records and the relocation pass of ag_alloc_code
    (ag/ag_gen.c:20-41 and 363-384), stated as pure functions over the
    sequence of emitted words. The emitter's finalisation loop is proved
    against `ApplyRefs`; the lemmas here say what that function does to each
    word. */
module AgReloc {
  import opened AgDefs
  import opened AgEncode

  /** `enum label_state`. */
  datatype LabelState = Emitted | NotEmitted

  /** `struct Label`: its state and, once emitted, its word offset from the
      top of the code. The debug name is not modelled. */
  datatype Label = Label(state: LabelState, offset: nat)

  /** `enum labelref_type`: the source handles branch references only. */
  datatype LabelRefType = Branch

  /** `struct LabelRef`: a pending reference from the word at `instOffset` to label `labelId`. */
  datatype LabelRef = LabelRef(kind: LabelRefType, instOffset: nat, labelId: nat)

  /** Every record names an allocated label and an emitted word. */
  predicate RefsInRange(refs: seq<LabelRef>, labelCount: nat, wordCount: nat)
  {
    forall i | 0 <= i < |refs| :: refs[i].labelId < labelCount && refs[i].instOffset < wordCount
  }

  /** Records are appended in emission order, one per branch word, so their sites strictly increase. */
  predicate SitesIncreasing(refs: seq<LabelRef>)
  {
    forall i, j | 0 <= i < j < |refs| :: refs[i].instOffset < refs[j].instOffset
  }

  /** Every referenced label has been emitted (bound). */
  predicate RefsBound(refs: seq<LabelRef>, labels: seq<Label>)
    requires forall i | 0 <= i < |refs| :: refs[i].labelId < |labels|
  {
    forall i | 0 <= i < |refs| :: labels[refs[i].labelId].state == Emitted
  }

  /** What the emitter keeps true of its relocation list: every record names
      an allocated label and an emitted word, records are in emission order,
      and each names a branch word whose offset field is still zero. */
  ghost predicate RefsWellFormed(code: seq<Word>, refs: seq<LabelRef>, labelCount: nat)
  {
    && RefsInRange(refs, labelCount, |code|)
    && SitesIncreasing(refs)
    && (forall i | 0 <= i < |refs| :: OffsetField(code[refs[i].instOffset]) == 0)
  }

  /** Appending a word leaves every record as it was. */
  lemma AppendKeepsRefs(code: seq<Word>, refs: seq<LabelRef>, labelCount: nat, w: Word)
    requires RefsWellFormed(code, refs, labelCount)
    ensures RefsWellFormed(code + [w], refs, labelCount)
  {
    forall i | 0 <= i < |refs|
      ensures (code + [w])[refs[i].instOffset] == code[refs[i].instOffset]
    {
    }
  }

  /** Allocating more labels leaves every record as it was. */
  lemma MoreLabelsKeepRefs(code: seq<Word>, refs: seq<LabelRef>, labelCount: nat, more: nat)
    requires RefsWellFormed(code, refs, labelCount) && labelCount <= more
    ensures RefsWellFormed(code, refs, more)
  {
  }

  /** Recording the word just appended, when its offset field is zero, keeps
      the list well formed: its site is past every earlier site. */
  lemma PushPendingRef(code: seq<Word>, refs: seq<LabelRef>, labelCount: nat, w: Word, dst: nat)
    requires RefsWellFormed(code, refs, labelCount)
    requires OffsetField(w) == 0 && dst < labelCount
    ensures RefsWellFormed(code + [w], refs + [LabelRef(Branch, |code|, dst)], labelCount)
  {
    AppendKeepsRefs(code, refs, labelCount, w);
    var refs' := refs + [LabelRef(Branch, |code|, dst)];
    assert forall i | 0 <= i < |refs| :: refs'[i] == refs[i];
  }

  /** One iteration of the resolve loop: rewrite the recorded word. */
  function PatchOne(code: seq<Word>, r: LabelRef, labels: seq<Label>): seq<Word>
    requires r.labelId < |labels| && r.instOffset < |code|
  {
    match r.kind
    case Branch =>
      code[r.instOffset := PatchBranch(code[r.instOffset], labels[r.labelId].offset - r.instOffset)]
  }

  /** The resolve loop over the records, in insertion order. */
  function ApplyRefs(code: seq<Word>, refs: seq<LabelRef>, labels: seq<Label>): (r: seq<Word>)
    requires RefsInRange(refs, |labels|, |code|)
    ensures |r| == |code|
    decreases |refs|
  {
    if refs == [] then code
    else PatchOne(ApplyRefs(code, refs[..|refs| - 1], labels), refs[|refs| - 1], labels)
  }

  /** A single record patches its own word and nothing else. */
  lemma ApplyOneRef(code: seq<Word>, r: LabelRef, labels: seq<Label>)
    requires r.labelId < |labels| && r.instOffset < |code|
    ensures ApplyRefs(code, [r], labels) == PatchOne(code, r, labels)
  {
    var refs := [r];
    assert refs[..|refs| - 1] == [];
  }

  /** A word that no record names is left as emitted. */
  lemma {:induction false} ApplyRefsElsewhere(code: seq<Word>, refs: seq<LabelRef>, labels: seq<Label>, k: nat)
    requires RefsInRange(refs, |labels|, |code|)
    requires k < |code|
    requires forall i | 0 <= i < |refs| :: refs[i].instOffset != k
    ensures ApplyRefs(code, refs, labels)[k] == code[k]
    decreases |refs|
  {
    if refs != [] {
      ApplyRefsElsewhere(code, refs[..|refs| - 1], labels, k);
    }
  }

  /** Each recorded word ends up patched once, from the word as emitted: top
      8 bits kept, low 24 bits `label.offset - inst_offset - 2`. */
  lemma {:induction false} ApplyRefsAtSite(code: seq<Word>, refs: seq<LabelRef>, labels: seq<Label>, i: nat)
    requires RefsInRange(refs, |labels|, |code|)
    requires SitesIncreasing(refs)
    requires i < |refs|
    ensures ApplyRefs(code, refs, labels)[refs[i].instOffset]
         == PatchBranch(code[refs[i].instOffset], labels[refs[i].labelId].offset - refs[i].instOffset)
    decreases |refs|
  {
    var n := |refs|;
    var prefix := refs[..n - 1];
    if i == n - 1 {
      ApplyRefsElsewhere(code, prefix, labels, refs[i].instOffset);
    } else {
      ApplyRefsAtSite(code, prefix, labels, i);
    }
  }

  /** After the resolve loop, each recorded word is the word as emitted with
      the resolved offset ORed into its (zero) offset field. */
  lemma PatchedSite(code: seq<Word>, refs: seq<LabelRef>, labels: seq<Label>, i: nat)
    requires RefsWellFormed(code, refs, |labels|) && i < |refs|
    ensures ApplyRefs(code, refs, labels)[refs[i].instOffset]
         == code[refs[i].instOffset] | BranchOffsetField(labels[refs[i].labelId].offset - refs[i].instOffset - 2)
  {
    ApplyRefsAtSite(code, refs, labels, i);
    PatchPending(code[refs[i].instOffset], labels[refs[i].labelId].offset - refs[i].instOffset);
  }

  /** What the patched word means: a pending branch (zero offset bits) gets
      the resolved offset ORed in, which is the inline backward encoding. */
  lemma ResolvedBranch(cc: Word, l: Word, w: Word, target: int, site: int)
    requires w == BranchWord(cc, l, 0)
    ensures PatchBranch(w, target - site) == w | BranchOffsetField(target - site - 2)
    ensures PatchBranch(w, target - site) == BranchWord(cc, l, target - site - 2)
  {
    ForwardEqualsBackward(cc, l, target, site);
    PendingBranchFill(cc, l, target - site - 2);
  }

  /** When every record names a bound label, finalisation resolves each
      pending B/BL word to the word an inline branch to the same label would
      have been, had the label been bound when the branch was emitted. */
  lemma BoundRefsResolveInline(code: seq<Word>, refs: seq<LabelRef>, labels: seq<Label>, i: nat, cc: Word, l: Word)
    requires RefsWellFormed(code, refs, |labels|) && RefsBound(refs, labels) && i < |refs|
    requires code[refs[i].instOffset] == BranchWord(cc, l, 0)
    ensures labels[refs[i].labelId].state == Emitted
    ensures ApplyRefs(code, refs, labels)[refs[i].instOffset]
         == BranchWord(cc, l, labels[refs[i].labelId].offset - refs[i].instOffset - 2)
  {
    ApplyRefsAtSite(code, refs, labels, i);
    ResolvedBranch(cc, l, code[refs[i].instOffset], labels[refs[i].labelId].offset, refs[i].instOffset);
  }

  /** A word whose offset bits are clear is patched by OR-ing the offset in. */
  lemma PatchPending(w: Word, d: int)
    requires OffsetField(w) == 0
    ensures PatchBranch(w, d) == w | BranchOffsetField(d - 2)
  {
  }
}
