/** Programs on which the assembler does not do what its two-pass reading suggests, for each condition under which
    the theorems say that it does. */
module Divergences {
  import opened Machine
  import opened Encoding
  import opened Hash
  import opened Patch
  import opened Strtab
  import opened Sections
  import opened ElfState
  import opened Assembler
  import opened Labels
  import opened Lookahead
  import opened Agreement

  // ---------- Single steps ----------

  lemma ExecRet(s: Asm)
    requires !s.exited
    ensures Exec(s, Ret) == s.(elf := AddToText(s.elf, 0x10_0067))
  {
    RetWord();
    hide EmitI;
  }

  lemma RetWord()
    ensures EmitI(0, 0, 1, 0, JALR_OP) == 0x10_0067
  {}

  lemma ExecSection(s: Asm, section: Bytes)
    requires !s.exited
    ensures Exec(s, SectionDirective(section)) == s.(section := section)
  {}

  lemma ExecForwardBranch(s: Asm, a: b5, b: b5, l: Bytes)
    requires !s.exited && l !in s.elf.resolvedLabels
    ensures Exec(s, Branch(0, 0x63, a, b, l))
            == s.(elf := AddToText(AddUnresolved(NoteLabel(s.elf, l), EntryFor(s.elf, s.section, B_TYPE, l)),
                                   EmitB(HashOf(l), a, b, 0, 0x63)))
  {
    hide EmitB, HashOf;
  }

  lemma ExecForwardJump(s: Asm, l: Bytes)
    requires !s.exited && l !in s.elf.resolvedLabels
    ensures Exec(s, Jump(l))
            == s.(elf := AddUnresolved(NoteLabel(s.elf, l), EntryFor(s.elf, s.section, J_TYPE, l)))
  {
    hide HashOf;
  }

  lemma ExecLabel(s: Asm, l: Bytes)
    requires !s.exited
    ensures Exec(s, LabeledBlock(l)) == s.(elf := InitLabel(s.elf, l, false, s.section))
    ensures Exec(s, Global(l)) == s.(elf := InitLabel(s.elf, l, true, DOT_TEXT))
  {
    hide HashOf, CStr, Add, AddOffset;
  }

  lemma FirstSteps(p: FirstPass, a: b5, b: b5, l: Bytes)
    ensures FirstStep(p, Ret) == FirstStep(p, Branch(0, 0x63, a, b, l)) == p.(count := p.count + 1)
    ensures FirstStep(p, SectionDirective(l)) == p.(section := l)
    ensures FirstStep(p, LabeledBlock(l)) == FirstStep(p, Global(l))
            == if l in p.labels then p else p.(labels := p.labels[l := Wrap(LastIndexOf(p.count))])
  {
    hide EmitI;
  }

  // ---------- The programs ----------

  /** A branch to `l`, the end of its block, one more instruction, and the end of the block of `l'`. */
  function CollidingProgram(l: Bytes, l': Bytes, a: b5, b: b5): seq<Step> {
    [SectionDirective(DOT_TEXT)] + [Branch(0, 0x63, a, b, l)] + [LabeledBlock(l)] + [Ret] + [LabeledBlock(l')]
  }

  lemma CollidingAddresses(l: Bytes, l': Bytes, a: b5, b: b5)
    requires l != l'
    ensures var p := CollidingProgram(l, l', a, b);
            Clean(p) && l in Addresses(p).labels && Addresses(p).labels[l] == 0 && l in ForwardTargets(p)
  {
    hide FirstStep, DOT_TEXT;
    var p1 := [SectionDirective(DOT_TEXT)];
    var p2 := p1 + [Branch(0, 0x63, a, b, l)];
    var p3 := p2 + [LabeledBlock(l)];
    var p4 := p3 + [Ret];
    assert [] + p1 == p1 && Addresses([]) == START_PASS && ForwardTargets([]) == {};
    FirstSteps(START_PASS, a, b, DOT_TEXT);
    FirstSteps(FirstPass(0, map[], DOT_TEXT, map[]), a, b, l);
    FirstSteps(FirstPass(1, map[], DOT_TEXT, map[]), a, b, l);
    FirstSteps(FirstPass(1, map[l := 0], DOT_TEXT, map[]), a, b, l);
    FirstSteps(FirstPass(2, map[l := 0], DOT_TEXT, map[]), a, b, l');
    AddressesSnoc([], SectionDirective(DOT_TEXT));
    AddressesSnoc(p1, Branch(0, 0x63, a, b, l));
    AddressesSnoc(p2, LabeledBlock(l));
    AddressesSnoc(p3, Ret);
    AddressesSnoc(p4, LabeledBlock(l'));
    hide Addresses, ForwardTargets;
    RunSnoc([], SectionDirective(DOT_TEXT));
    RunSnoc(p1, Branch(0, 0x63, a, b, l));
    RunSnoc(p2, LabeledBlock(l));
    RunSnoc(p3, Ret);
    RunSnoc(p4, LabeledBlock(l'));
  }

  /** The colliding program up to the end of the first block. */
  lemma CollidingBlock(l: Bytes, a: b5, b: b5)
    ensures var s := Run([SectionDirective(DOT_TEXT)] + [Branch(0, 0x63, a, b, l)] + [LabeledBlock(l)]);
            !s.exited && |s.elf.text| == 1 && s.elf.unresolvedLabels == map[] && s.elf.resolvedLabels == map[l := 0]
  {
    hide Run, Clean, Exec, HashOf, EmitB, Add, AddOffset, CStr, DOT_TEXT, INITIAL_INDICES;
    var p1 := [SectionDirective(DOT_TEXT)];
    var p2 := p1 + [Branch(0, 0x63, a, b, l)];
    assert [] + p1 == p1;
    StartsEmpty();
    RunSnoc([], SectionDirective(DOT_TEXT));
    RunSnoc(p1, Branch(0, 0x63, a, b, l));
    RunSnoc(p2, LabeledBlock(l));
    ExecSection(START, DOT_TEXT);
    ExecForwardBranch(Run(p1), a, b, l);
    ExecLabel(Run(p2), l);
  }

  lemma CollidingRun(l: Bytes, l': Bytes, a: b5, b: b5)
    requires l != l' && HashOf(l) == HashOf(l')
    ensures var s := Run(CollidingProgram(l, l', a, b));
            !s.exited && s.elf.unresolvedLabels == map[] && AddressOf(s.elf.labelToAddr, HashOf(l)) == 1
  {
    hide Run, Clean, Exec, HashOf, EmitB, Add, AddOffset, CStr, DOT_TEXT, INITIAL_INDICES;
    var p3 := [SectionDirective(DOT_TEXT)] + [Branch(0, 0x63, a, b, l)] + [LabeledBlock(l)];
    var p4 := p3 + [Ret];
    CollidingBlock(l, a, b);
    RunSnoc(p3, Ret);
    RunSnoc(p4, LabeledBlock(l'));
    ExecRet(Run(p3));
    ExecLabel(Run(p4), l');
  }

  /** Whatever two labels collide: a branch to the first, which is defined, is sent to the second, defined later. */
  lemma CollisionMisdirects(l: Bytes, l': Bytes, a: b5, b: b5)
    requires l != l' && HashOf(l) == HashOf(l')
    ensures var p := CollidingProgram(l, l', a, b);
            !Run(p).exited && Clean(p) && Run(p).elf.unresolvedLabels == map[] && l in Addresses(p).labels
            && Assembled(p).text != TwoPass(p, Final(p))
  {
    hide Run, Clean, Addresses, ForwardTargets, TwoPass, Assembled, HashOf, CollidingProgram;
    CollidingAddresses(l, l', a, b);
    CollidingRun(l, l', a, b);
    BackPatchingExact(CollidingProgram(l, l', a, b));
  }

  /** There are such labels: `zink` and `altarag`, and both with any common ending. */
  lemma CollisionHappens(ending: Bytes, a: b5, b: b5)
    ensures var p := CollidingProgram(ZINK + ending, ALTARAG + ending, a, b);
            !Run(p).exited && Clean(p) && Run(p).elf.unresolvedLabels == map[]
            && Assembled(p).text != TwoPass(p, Final(p))
  {
    hide Run, Clean, Addresses, TwoPass, Assembled, HashOf, CollidingProgram;
    CollisionExists(ending);
    CollisionMisdirects(ZINK + ending, ALTARAG + ending, a, b);
  }

  lemma OnePatch(text: seq<u32>, e: UnresolvedInst, addresses: LabelAddresses)
    ensures PatchAll(text, [e][..1], addresses) == PatchOne(text, e, addresses)
  {
    assert [e][..1] == [e] && [e][..0] == [];
    hide PatchOne;
  }

  /** A block of a jump to `l` and one more instruction, under the label `m`. */
  function JumpingProgram(l: Bytes, m: Bytes): seq<Step> {
    [Jump(l)] + [Ret] + [LabeledBlock(m)]
  }

  lemma JumpingRun(l: Bytes, m: Bytes)
    ensures var s := Run(JumpingProgram(l, m));
            !s.exited && s.elf.text == [0x10_0067] && AddressOf(s.elf.labelToAddr, HashOf(l)) == 0
            && s.elf.unresolvedInsns == [UnresolvedInst(0, Wrap(-1), J_TYPE, HashOf(l))]
  {
    hide Run, Clean, Exec, HashOf, Add, AddOffset, CStr, Wrap, INITIAL_INDICES, DOT_TEXT;
    var p1 := [Jump(l)];
    var p2 := p1 + [Ret];
    assert [] + p1 == p1;
    StartsEmpty();
    RunSnoc([], Jump(l));
    RunSnoc(p1, Ret);
    RunSnoc(p2, LabeledBlock(m));
    ExecForwardJump(START, l);
    ExecRet(Run(p1));
    ExecLabel(Run(p2), m);
  }

  lemma TwoPassSnoc(steps: seq<Step>, step: Step, target: Target)
    ensures TwoPass(steps + [step], target) == TwoPass(steps, target) + Words(step, Addresses(steps), target)
  {
    hide Words;
    assert (steps + [step])[..|steps|] == steps;
  }

  lemma WordsOfRet(p: FirstPass, target: Target)
    ensures Words(Ret, p, target) == [0x10_0067]
  {
    RetWord();
    hide EmitI;
  }

  lemma JumpingTwoPass(l: Bytes, m: Bytes, target: Target)
    ensures TwoPass(JumpingProgram(l, m), target) != [0x20_0067]
  {
    hide Words, TwoPass;
    var p1 := [Jump(l)];
    TwoPassSnoc(p1, Ret, target);
    TwoPassSnoc(p1 + [Ret], LabeledBlock(m), target);
    WordsOfRet(Addresses(p1), target);
    var words := TwoPass(p1, target) + [0x10_0067] + Words(LabeledBlock(m), Addresses(p1 + [Ret]), target);
    assert words[|TwoPass(p1, target)|] == 0x10_0067;
  }

  /** A jump to a label that is not defined yet is patched into the instruction that follows it, whatever the labels. */
  lemma UnresolvedJumpOverwrites(l: Bytes, m: Bytes)
    ensures var p := JumpingProgram(l, m);
            !Run(p).exited && Run(p).elf.text == [0x10_0067] && Assembled(p).text == [0x20_0067]
            && Assembled(p).text != TwoPass(p, Final(p))
  {
    hide Run, HashOf, PatchOne, PatchAll, TwoPass, JumpingProgram, Final;
    var p, e := JumpingProgram(l, m), UnresolvedInst(0, Wrap(-1), J_TYPE, HashOf(l));
    JumpingRun(l, m);
    OnePatch([0x10_0067], e, Run(p).elf.labelToAddr);
    PatchedRet(e, Run(p).elf.labelToAddr);
    JumpingTwoPass(l, m, Final(p));
  }

  lemma PatchedRet(e: UnresolvedInst, addresses: LabelAddresses)
    requires e.insnNumber == 0 && e.pcInsnNumber == Wrap(-1) && e.insnType == J_TYPE
    requires AddressOf(addresses, e.hash) == 0
    ensures PatchOne([0x10_0067], e, addresses) == [0x20_0067]
  {
    hide PatchWord, Displacement;
    PatchedRetWord();
  }

  lemma PatchedRetWord()
    ensures PatchWord(J_TYPE, 0x10_0067, Displacement(0, Wrap(-1))) == 0x20_0067
  {
    hide Displacement, UnpackJ, EmitJ;
    DisplacementIsTwiceTheDifference(0, Wrap(-1));
    LowTwelveBits(0x10_0067);
    JumpOfTwo(2, 0x67);
  }

  lemma JumpOfTwo(imm: u32, opcode: u32)
    requires imm == 2 && opcode == 0x67
    ensures EmitJ(imm, 0, opcode) == 0x20_0067
  {}

  /** The program that shows what becomes of a forward branch without `.section .text`. */
  function StrayProgram(l: Bytes, a: b5, b: b5): seq<Step> {
    [Ret] + [Branch(0, 0x63, a, b, l)] + [LabeledBlock(l)]
  }

  lemma StrayRun(l: Bytes, a: b5, b: b5)
    ensures var s := Run(StrayProgram(l, a, b));
            !s.exited && s.elf.unresolvedLabels == map[]
            && s.elf.text == [0x10_0067] + [EmitB(HashOf(l), a, b, 0, 0x63)]
            && s.elf.unresolvedInsns == [UnresolvedInst(0, Wrap(-1), B_TYPE, HashOf(l))]
  {
    hide Run, Clean, Exec, HashOf, EmitB, Add, AddOffset, CStr, Wrap, INITIAL_INDICES, DOT_TEXT;
    var p1 := [Ret];
    var p2 := p1 + [Branch(0, 0x63, a, b, l)];
    assert [] + p1 == p1;
    StartsEmpty();
    RunSnoc([], Ret);
    RunSnoc(p1, Branch(0, 0x63, a, b, l));
    RunSnoc(p2, LabeledBlock(l));
    ExecRet(START);
    ExecForwardBranch(Run(p1), a, b, l);
    ExecLabel(Run(p2), l);
  }

  lemma StartsEmpty()
    ensures Run([]) == START && START.section != DOT_TEXT && Wrap(0) == 0
  {
    assert |DOT_TEXT| == 5;
  }

  lemma StrayTwoPass(l: Bytes, a: b5, b: b5, target: Target)
    ensures var words := TwoPass(StrayProgram(l, a, b), target);
            |words| > 0 && words[0] == 0x10_0067
  {
    hide Words;
    var p1 := [Ret];
    var p2 := p1 + [Branch(0, 0x63, a, b, l)];
    assert [] + p1 == p1;
    TwoPassSnoc([], Ret, target);
    TwoPassSnoc(p1, Branch(0, 0x63, a, b, l), target);
    TwoPassSnoc(p2, LabeledBlock(l), target);
    WordsOfRet(Addresses([]), target);
  }

  /** A branch patch exchanges the source registers that the word would have as a branch; they are 0 and 1 here. */
  lemma PatchedRetDiffers(imm: u32)
    ensures PatchWord(B_TYPE, 0x10_0067, imm) != 0x10_0067
  {
    var i := UnpackB(0x10_0067);
    assert i.rs1 == 0 && i.rs2 == 1;
    hide EmitB, UnpackB;
    EmitBDecodes(imm, i.rs1, i.rs2, i.funct3, i.opcode);
  }

  /** Without `.section .text` a forward branch is recorded against slot 0, although its label is defined: the branch
      keeps its placeholder, and the first instruction is overwritten. */
  lemma BranchOutsideTextKeepsPlaceholder(l: Bytes, a: b5, b: b5)
    ensures var p := StrayProgram(l, a, b);
            !Run(p).exited && Run(p).elf.unresolvedLabels == map[]
            && |Assembled(p).text| == 2 && Assembled(p).text[1] == EmitB(HashOf(l), a, b, 0, 0x63)
            && Assembled(p).text != TwoPass(p, Final(p))
  {
    hide Run, HashOf, EmitB, PatchWord, PatchAll, TwoPass, Displacement, StrayProgram, Final;
    var p, e := StrayProgram(l, a, b), UnresolvedInst(0, Wrap(-1), B_TYPE, HashOf(l));
    var elf := Run(p).elf;
    StrayRun(l, a, b);
    OnePatch(elf.text, e, elf.labelToAddr);
    PatchedRetDiffers(Displacement(AddressOf(elf.labelToAddr, e.hash), e.pcInsnNumber));
    StrayTwoPass(l, a, b, Final(p));
  }

  // ---------- Labels that .globl names first ----------

  lemma NamedThere(pre: seq<Step>, step: Step, post: seq<Step>, l: Bytes)
    requires !Run(pre + [step] + post).exited && DefinedName(step) == Some(l)
    requires forall m :: 0 <= m < |pre| ==> DefinedName(pre[m]) != Some(l)
    ensures var labels := Run(pre + [step] + post).elf.resolvedLabels;
            l in labels && labels[l] == Wrap(LastIndexOf(|Run(pre).elf.text|))
  {
    hide Run;
    var steps := pre + [step] + post;
    assert steps[..|pre|] == pre;
    LabelAddress(steps, |pre|, l);
  }

  /** For every program: a `.globl` directive that comes before the block of its label, and before any other step that
      names it, gives the label the address of the last word there is; without it the label would have the address of
      the last word of its block. So the directive moves the label exactly when those two indices differ. */
  lemma GloblFixesAddress(pre: seq<Step>, l: Bytes, mid: seq<Step>, post: seq<Step>)
    requires forall m :: 0 <= m < |pre + mid| ==> DefinedName((pre + mid)[m]) != Some(l)
    requires !Run(pre + [Global(l)] + (mid + [LabeledBlock(l)] + post)).exited
    requires !Run(pre + mid + [LabeledBlock(l)] + post).exited
    ensures var p := Run(pre + [Global(l)] + (mid + [LabeledBlock(l)] + post)).elf.resolvedLabels;
            var q := Run(pre + mid + [LabeledBlock(l)] + post).elf.resolvedLabels;
            var before, after := |Run(pre).elf.text|, |Run(pre + mid).elf.text|;
            l in p && p[l] == Wrap(LastIndexOf(before)) && l in q && q[l] == Wrap(LastIndexOf(after))
            && (after <= TWO32 ==> (p[l] != q[l] <==> LastIndexOf(before) != LastIndexOf(after)))
  {
    hide Run;
    forall m | 0 <= m < |pre|
      ensures DefinedName(pre[m]) != Some(l)
    {
      assert pre[m] == (pre + mid)[m];
    }
    NamedThere(pre, Global(l), mid + [LabeledBlock(l)] + post, l);
    NamedThere(pre + mid, LabeledBlock(l), post, l);
    TextOnlyGrows(pre, mid);
  }

  lemma {:induction false} TextOnlyGrows(pre: seq<Step>, mid: seq<Step>)
    ensures |Run(pre).elf.text| <= |Run(pre + mid).elf.text|
    decreases |mid|
  {
    hide Run, Exec;
    if mid == [] {
      assert pre + mid == pre;
    } else {
      var k := |mid| - 1;
      assert pre + mid == pre + mid[..k] + [mid[k]];
      TextOnlyGrows(pre, mid[..k]);
      RunSnoc(pre + mid[..k], mid[k]);
      ExecGrowsText(Run(pre + mid[..k]), mid[k]);
    }
  }
}
