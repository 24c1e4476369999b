/** A short emitter session, end to end, at the level of the emitted words:

        top:  b    fwd        ; label unbound: emitted pending, recorded
              mov  r0, #100
              mov  r0, #100
        fwd:  b    top        ; label bound: offset 0 - 3 - 2 inline

    `Session` drives it through the emitter's own operations; the lemmas pin
    down the words it appends and the region the resolve loop leaves. */
module AgScenario {
  import opened AgDefs
  import opened AgEncode
  import opened AgReloc
  import opened AgEmitter

  const MOV_R0_100: Word := 0xE3A0_0064

  /** The words as emitted, before finalisation. */
  function SessionWords(): seq<Word>
  {
    [BranchWord(CondCode(AL), 0, 0), MOV_R0_100, MOV_R0_100, BranchWord(CondCode(AL), 0, 0 - 3 - 2)]
  }

  /** The one record: the branch at word 0 names label 1 (`fwd`). */
  function SessionRefs(): seq<LabelRef>
  {
    [LabelRef(Branch, 0, 1)]
  }

  /** Both labels bound: `top` at word 0, `fwd` at word 3. */
  function SessionLabels(): seq<Label>
  {
    [Label(Emitted, 0), Label(Emitted, 3)]
  }

  /** The record names a pending branch at an emitted word, as the emitter
      keeps every record. */
  lemma SessionRecords()
    ensures RefsWellFormed(SessionWords(), SessionRefs(), |SessionLabels()|)
  {
    SessionWordValues();
  }

  /** The forward branch is patched to offset 1 (3 - 0 - 2); the backward
      one keeps -5 as 0xFFFFFB; the moves are untouched. */
  lemma SessionRegion()
    ensures ApplyRefs(SessionWords(), SessionRefs(), SessionLabels())
         == [0xEA00_0001, MOV_R0_100, MOV_R0_100, 0xEAFF_FFFB]
  {
    var words := SessionWords();
    assert ApplyRefs(words, SessionRefs(), SessionLabels()) == words[0 := 0xEA00_0001] by {
      SessionWordValues();
      ApplyOneRef(words, LabelRef(Branch, 0, 1), SessionLabels());
      ResolvedBranch(CondCode(AL), 0, words[0], 3, 0);
      ForwardBranchValue();
    }
    assert words[3] == 0xEAFF_FFFB by {
      SessionWordValues();
    }
  }

  /** The two branch words as emitted. */
  lemma SessionWordValues()
    ensures SessionWords()[0] == BranchWord(CondCode(AL), 0, 0)
    ensures OffsetField(SessionWords()[0]) == 0
    ensures SessionWords()[3] == 0xEAFF_FFFB
  {
    PendingBranchFill(CondCode(AL), 0, 0);
    assert -5 % TWO_24 == 0xFF_FFFB;
    assert BranchOffsetField(-5) == 0xFF_FFFB;
  }

  /** The forward branch once resolved: offset 3 - 0 - 2 == 1. */
  lemma ForwardBranchValue()
    ensures BranchWord(CondCode(AL), 0, 3 - 0 - 2) == 0xEA00_0001
  {
    assert BranchOffsetField(1) == 1;
  }

  /** The whole session, from ag_emitter_init to ag_alloc_code with 4 KiB pages. */
  method Session() returns (region: array?<Word>)
    ensures region != null && region.Length == 1024
    ensures region[..4] == [0xEA00_0001, MOV_R0_100, MOV_R0_100, 0xEAFF_FFFB]
  {
    var e := new Emitter();
    SessionTop(e);
    SessionLabels0(e);
    SessionBranchForward(e);
    SessionMoves(e);
    SessionBindForward(e);
    SessionBranchBack(e);
    region := SessionFinalise(e);
  }

  /** The label table once `top` is bound at word 0 and `fwd` allocated. */
  function OpenLabels(): seq<Label>
  {
    [Label(Emitted, 0), Label(NotEmitted, 0)]
  }

  /** The emitter is consistent and still accepts instructions. */
  ghost predicate Open(e: Emitter)
    reads e, e.Repr
  {
    e.Valid() && !e.Finalised()
  }

  /** `top:` bound at word 0 of a fresh emitter. */
  method SessionTop(e: Emitter)
    requires Open(e) && e.cur == 0
    requires e.Contents == [] && e.labelRefs == [] && e.labels == []
    modifies e`labels
    ensures Open(e) && e.Contents == [] && e.labelRefs == [] && e.labels == [Label(Emitted, 0)]
  {
    ghost var before := e.labels;
    var top := e.EmitNewLabel();
    SeqSingle(e.labels, before, Label(Emitted, e.cur));
  }

  /** `fwd` allocated, still unbound. */
  method SessionLabels0(e: Emitter)
    requires Open(e) && e.Contents == [] && e.labelRefs == [] && e.labels == [Label(Emitted, 0)]
    modifies e`labels
    ensures Open(e) && e.Contents == [] && e.labelRefs == [] && e.labels == OpenLabels()
  {
    var fwd := e.AllocLabel();
    SeqPair(e.labels, Label(Emitted, 0), Label(NotEmitted, 0));
  }

  /** `b fwd` while `fwd` is unbound: a pending word and its record. */
  method SessionBranchForward(e: Emitter)
    requires Open(e)
    requires e.Contents == [] && e.labelRefs == [] && e.labels == OpenLabels()
    modifies e.Repr
    ensures fresh(e.Repr - old(e.Repr)) && Open(e)
    ensures e.Contents == SessionWords()[..1] && e.labelRefs == SessionRefs()
    ensures e.labels == OpenLabels()
  {
    e.EmitB(AL, 1);
    PrefixStep(e.Contents, SessionWords(), 0, BranchWord(CondCode(AL), 0, 0));
    SeqSingle(e.labelRefs, [], LabelRef(Branch, 0, 1));
  }

  /** Two `mov r0, #100`, both accepted by the immediate range test. */
  method SessionMoves(e: Emitter)
    requires Open(e)
    requires e.Contents == SessionWords()[..1] && e.labelRefs == SessionRefs()
    requires e.labels == OpenLabels()
    modifies e.Repr
    ensures fresh(e.Repr - old(e.Repr)) && Open(e)
    ensures e.Contents == SessionWords()[..3] && e.labelRefs == SessionRefs()
    ensures e.labels == OpenLabels()
  {
    MovBxWords();
    var rc := e.EmitDpImm(MOV, AL, 0, 0, 0, 100);
    PrefixStep(e.Contents, SessionWords(), 1, MOV_R0_100);
    rc := e.EmitDpImm(MOV, AL, 0, 0, 0, 100);
    PrefixStep(e.Contents, SessionWords(), 2, MOV_R0_100);
  }

  /** `fwd:` bound at word 3. */
  method SessionBindForward(e: Emitter)
    requires Open(e)
    requires e.Contents == SessionWords()[..3] && e.labels == OpenLabels()
    modifies e`labels
    ensures Open(e) && e.cur == 3
    ensures e.Contents == SessionWords()[..3] && e.labels == SessionLabels()
  {
    e.EmitLabel(1);
    SeqSetSecond(e.labels, Label(Emitted, 0), Label(NotEmitted, 0), Label(Emitted, 3));
  }

  /** `b top`, resolved inline against the bound label 0. */
  method SessionBranchBack(e: Emitter)
    requires Open(e) && e.cur == 3
    requires e.Contents == SessionWords()[..3] && e.labels == SessionLabels()
    modifies e.Repr
    ensures fresh(e.Repr - old(e.Repr)) && Open(e)
    ensures e.Contents == SessionWords() && e.labels == SessionLabels()
    ensures e.labelRefs == old(e.labelRefs)
  {
    assert e.labels[0].state == Emitted && e.labels[0].offset == 0;
    ghost var prefix := e.Contents;
    e.EmitB(AL, 0);
    assert e.labels[0].offset - 3 - 2 == 0 - 3 - 2;
    assert e.Contents == prefix + [BranchWord(CondCode(AL), 0, e.labels[0].offset - 3 - 2)];
    BackBranchStep(e.Contents, prefix, e.labels[0].offset - 3 - 2);
  }

  /** ag_alloc_code on the finished session. */
  method SessionFinalise(e: Emitter) returns (region: array?<Word>)
    requires Open(e)
    requires e.Contents == SessionWords()
    requires e.labels == SessionLabels() && e.labelRefs == SessionRefs()
    modifies e
    ensures region != null && region.Length == 1024
    ensures region[..4] == [0xEA00_0001, MOV_R0_100, MOV_R0_100, 0xEAFF_FFFB]
  {
    assert e.cur == 4;
    var size;
    region, size := e.AllocCode(4096);
    PageRounding();
    SessionRegion();
  }

  /** Appending the inline `b top`, whose offset is 0 - 3 - 2, completes the session's words. */
  lemma BackBranchStep(s: seq<Word>, prefix: seq<Word>, off: int)
    requires off == 0 - 3 - 2
    requires prefix == SessionWords()[..3]
    requires s == prefix + [BranchWord(CondCode(AL), 0, off)]
    ensures s == SessionWords()
  {
    assert SessionWords()[..4] == SessionWords();
    PrefixStep(s, SessionWords(), 3, BranchWord(CondCode(AL), 0, off));
  }

  /** Sixteen bytes take one 4 KiB page. */
  lemma PageRounding()
    ensures AllocSize(INST_SIZE * 4, 4096) == 4096
  {
  }

  // Sequence steps, stated apart from the emitter so that they are proved
  // without its invariant in scope.

  lemma SeqPair<T>(s: seq<T>, a: T, b: T)
    requires s == [a] + [b]
    ensures s == [a, b]
  {
  }

  lemma SeqSetSecond<T>(s: seq<T>, a: T, b: T, c: T)
    requires s == [a, b][1 := c]
    ensures s == [a, c]
  {
  }

  lemma SeqSingle<T>(s: seq<T>, p: seq<T>, x: T)
    requires p == [] && s == p + [x]
    ensures s == [x]
  {
  }

  lemma PrefixStep<T>(s: seq<T>, p: seq<T>, k: nat, w: T)
    requires k < |p| && p[k] == w && s == p[..k] + [w]
    ensures s == p[..k + 1]
  {
    assert p[..k + 1] == p[..k] + [p[k]];
  }
}
