/** Jumps to labels without an address, in every run: what becomes of the word after one, and of one without a word
    after it. */
module ForwardJumps {
  import opened Machine
  import opened Encoding
  import opened Hash
  import opened Patch
  import opened ElfFormat
  import opened Strtab
  import opened Sections
  import opened ElfState
  import opened Assembler
  import opened Lookahead
  import opened Agreement

  // ---------- Jumps to labels without an address ----------

  /** Step `m` is a forward jump that is recorded against the next slot. */
  predicate JumpsAhead(steps: seq<Step>, m: nat)
    requires m < |steps|
  {
    steps[m].Jump? && RecordedAt(steps, m, Slot(steps, m))
  }

  /** From step `m + 1` up to step `n` no word is pushed and no other jump takes the next slot. */
  ghost predicate Quiet(steps: seq<Step>, m: nat, n: nat)
    requires n <= |steps|
  {
    forall k :: m < k < n ==> !Pushes(steps, k) && !JumpsAhead(steps, k)
  }

  lemma SlotNext(steps: seq<Step>, k: nat)
    requires k < |steps|
    ensures Slot(steps, k + 1) == Slot(steps, k) + WordCount(steps[k], Addresses(steps[..k]))
    ensures WordCount(steps[k], Addresses(steps[..k])) <= 1
  {
    hide PlainWord;
    Prefix(steps, k + 1, k);
  }

  lemma {:induction false} JumpWaits(steps: seq<Step>, m: nat, n: nat)
    requires m < n <= |steps| && JumpsAhead(steps, m) && Quiet(steps, m, n)
    ensures WaitingJump(steps[..n]) == Some(steps[m].target) && Slot(steps, n) == Slot(steps, m)
    decreases n
  {
    hide Addresses, FirstStep;
    SlotNext(steps, n - 1);
    Prefix(steps, n, n - 1);
    if m + 1 < n {
      JumpWaits(steps, m, n - 1);
      assert !Pushes(steps, n - 1) && !JumpsAhead(steps, n - 1);
    }
  }

  lemma JumpWaitsWith(steps: seq<Step>, m: nat, n: nat)
    requires m < n <= |steps| && JumpsAhead(steps, m) && Quiet(steps, m, n)
    ensures WaitingDisplacement(steps[..n], Found(steps)) == Some(FoundDisplacement(steps, m))
  {
    hide Addresses, WaitingJump, Found, Displacement, Quiet, RecordedAt;
    JumpWaits(steps, m, n);
  }

  /** What step `n` pushes, whatever becomes of it. */
  function Written(steps: seq<Step>, n: nat): u32
    requires n < |steps| && Pushes(steps, n)
  {
    var p := Addresses(steps[..n]);
    if IsForward(p, steps[n]) then Placeholder(steps[n]) else Words(steps[n], p, _ => 0)[0]
  }

  /** In every run: a forward jump recorded at step `m` is patched into the next word that is pushed, whatever that
      word is. Unless that is a forward branch recorded in its place, it keeps its low 12 bits and takes the jump's
      displacement above them, and is unchanged exactly when it held that displacement already. */
  lemma ForwardJumpLands(steps: seq<Step>, m: nat, n: nat)
    requires !Run(steps).exited && m < n < |steps| && JumpsAhead(steps, m) && Quiet(steps, m, n)
    requires Pushes(steps, n) && !RecordedAt(steps, n, Slot(steps, n)) && Untouched(steps, n + 1, Slot(steps, n))
    ensures Slot(steps, n) < |Assembled(steps).text|
    ensures Assembled(steps).text[Slot(steps, n)] % 0x1000 == Written(steps, n) % 0x1000
    ensures ImmJ(UnpackJ(Assembled(steps).text[Slot(steps, n)])) == JumpBits(FoundDisplacement(steps, m))
    ensures Assembled(steps).text[Slot(steps, n)] == Written(steps, n)
            <==> ImmJ(UnpackJ(Written(steps, n))) == JumpBits(FoundDisplacement(steps, m))
  {
    hide Run, Assembled, Untouched, PatchWord, UnpackJ, ImmJ, JumpBits, Found, Addresses, Slot, Landed, Written,
         RecordedAt, Pushes, Quiet, WaitingDisplacement, FoundDisplacement;
    FoundIs(steps);
    WordSettles(steps, n);
    JumpWaitsWith(steps, m, n);
    LandedOver(steps, n, FoundDisplacement(steps, m), Found(steps));
    PatchedByJump(Written(steps, n), FoundDisplacement(steps, m));
    PatchedByJumpIs(Written(steps, n), FoundDisplacement(steps, m), Written(steps, n));
  }

  /** A forward branch recorded in its place is patched again: its immediate is its own, but its registers and its
      function code are bits of the jump's displacement, whatever was written. */
  lemma ForwardJumpLandsOnBranch(steps: seq<Step>, m: nat, n: nat)
    requires !Run(steps).exited && m < n < |steps| && JumpsAhead(steps, m) && Quiet(steps, m, n)
    requires steps[n].Branch? && RecordedAt(steps, n, Slot(steps, n)) && Untouched(steps, n + 1, Slot(steps, n))
    ensures Slot(steps, n) < |Assembled(steps).text|
    ensures Assembled(steps).text[Slot(steps, n)]
            == PatchedTwice(steps[n], FoundDisplacement(steps, m), FoundDisplacement(steps, n))
  {
    hide Run, Assembled, Untouched, PatchWord, Found, Addresses, Slot, Landed, RecordedAt, Quiet, WaitingDisplacement,
         FoundDisplacement, PatchedTwice;
    FoundIs(steps);
    WordSettles(steps, n);
    JumpWaitsWith(steps, m, n);
    LandedTwice(steps, n, FoundDisplacement(steps, m));
  }

  /** The branch word with displacement `d` whose registers and function code are those bits of the jump displacement
      `jump`. */
  function PatchedTwice(step: Step, jump: u32, d: u32): u32
    requires step.Branch?
  {
    var i := UnpackB(JumpUpper(jump));
    EmitB(d, i.rs1, i.rs2, i.funct3, step.op)
  }

  lemma LandedTwice(steps: seq<Step>, n: nat, jump: u32)
    requires n < |steps| && Pushes(steps, n) && steps[n].Branch? && RecordedAt(steps, n, Slot(steps, n))
    ensures Landed(steps[n], Addresses(steps[..n]), Some(jump), Found(steps))
            == PatchedTwice(steps[n], jump, FoundDisplacement(steps, n))
  {
    hide EmitB, EmitJ, UnpackB, UnpackJ, JumpUpper, Displacement, HashOf, Addresses, Found;
    var placeholder := Placeholder(steps[n]);
    SlotIsCount(Addresses(steps[..n]));
    NarrowFieldsDecode(HashOf(steps[n].target), steps[n].a, steps[n].b, steps[n].funct3, steps[n].op);
    JumpAsBranch(jump, UnpackJ(placeholder).rd, UnpackJ(placeholder).opcode);
    PlaceholderFields(steps[n], Some(jump));
  }

  lemma LandedOver(steps: seq<Step>, n: nat, d: u32, target: Target)
    requires n < |steps| && Pushes(steps, n) && !RecordedAt(steps, n, Slot(steps, n))
    ensures Landed(steps[n], Addresses(steps[..n]), Some(d), target) == PatchWord(J_TYPE, Written(steps, n), d)
  {
    hide EmitR, EmitI, EmitS, EmitB, EmitJ, JumpOffset, Displacement, PatchWord, HashOf;
  }

  // ---------- A jump after which no word is pushed ----------

  /** Two object files that differ in what waits to be resolved, if at all. */
  predicate ElfSame(elf: ElfState, elf': ElfState) {
    elf'.(unresolvedLabels := elf.unresolvedLabels, unresolvedInsns := elf.unresolvedInsns) == elf
  }

  predicate SameButPending(s: Asm, s': Asm) {
    s'.(elf := s.elf) == s && ElfSame(s.elf, s'.elf)
  }

  lemma InitLabelSame(elf: ElfState, elf': ElfState, name: Bytes, isGlobal: bool, section: Bytes)
    requires ElfSame(elf, elf')
    ensures ElfSame(InitLabel(elf, name, isGlobal, section), InitLabel(elf', name, isGlobal, section))
  {
    hide HashOf, Add, AddOffset, CStr, BindOf, Wrap;
  }

  lemma ReferenceSame(elf: ElfState, elf': ElfState, section: Bytes, step: Step)
    requires ElfSame(elf, elf')
    ensures step.Branch? ==> ElfSame(ExecBranch(elf, section, step), ExecBranch(elf', section, step))
    ensures step.Jump? ==> ElfSame(ExecJump(elf, section, step.target), ExecJump(elf', section, step.target))
  {
    hide HashOf, EmitB, EmitJ, JumpOffset, EntryFor;
  }

  lemma OtherSame(elf: ElfState, elf': ElfState, step: Step, name: Bytes, value: Bytes, section: Bytes)
    requires ElfSame(elf, elf')
    ensures step.SymbolImmediate? ==> ElfSame(ExecSymbol(elf, step), ExecSymbol(elf', step))
    ensures ElfSame(AddProgramData(elf, name, value, section), AddProgramData(elf', name, value, section))
  {
    hide SymbolWord, Add, AddOffset, CStr, BindOf, Wrap;
  }

  lemma PlainSame(elf: ElfState, elf': ElfState, step: Step, insn: u32)
    requires ElfSame(elf, elf')
    ensures ElfSame(AddToText(elf, insn), AddToText(elf', insn))
    ensures Rejected(elf, step) == Rejected(elf', step) && elf.resolvedLabels == elf'.resolvedLabels
  {
    hide JumpOffset;
  }

  lemma ExecSameButPending(s: Asm, s': Asm, step: Step)
    requires SameButPending(s, s')
    ensures SameButPending(Exec(s, step), Exec(s', step))
  {
    hide InitLabel, ExecBranch, ExecJump, ExecSymbol, AddProgramData, AddToText, PlainWord, ElfSame, Rejected;
    PlainKinds(step);
    PlainSame(s.elf, s'.elf, step, if PlainWord(step).Some? then PlainWord(step).value else 0);
    match step
    case Branch(_, _, _, _, _) => ReferenceSame(s.elf, s'.elf, s.section, step);
    case Jump(_) => ReferenceSame(s.elf, s'.elf, s.section, step);
    case SymbolImmediate(_, _, _, _, _) => OtherSame(s.elf, s'.elf, step, [], [], []);
    case LabeledBlock(name) => InitLabelSame(s.elf, s'.elf, name, false, s.section);
    case LabeledDirective(name) => OtherSame(s.elf, s'.elf, step, name, s.tempValue, s.section);
    case Global(name) => InitLabelSame(s.elf, s'.elf, name, true, DOT_TEXT);
    case _ =>
  }

  lemma ForwardJumpSame(s: Asm, l: Bytes)
    requires s.exited || l !in s.elf.resolvedLabels
    ensures SameButPending(s, Exec(s, Jump(l)))
  {
    hide HashOf;
  }

  lemma JumpDefinesNothing(p: FirstPass, l: Bytes)
    requires l !in p.labels
    ensures FirstStep(p, Jump(l)) == p
  {}

  lemma StepWordsSame(o: Oracle, o': Oracle, p: FirstPass, step: Step, target: Target)
    requires o.words == o'.words && WordCount(step, p) == 0
    ensures OracleStep(o, p, step, target).words == OracleStep(o', p, step, target).words
  {
    hide PatchWord, Displacement, EmitR, EmitI, EmitS;
  }

  /** `pre` and `post` with a jump between them, against `pre` and `post` alone. */
  lemma {:induction false} JumpDropped(pre: seq<Step>, l: Bytes, post: seq<Step>)
    requires !Run(pre).exited && l !in Addresses(pre).labels
    ensures SameButPending(Run(pre + post), Run(pre + [Jump(l)] + post))
    ensures Addresses(pre + [Jump(l)] + post) == Addresses(pre + post)
    decreases |post|
  {
    hide Exec, FirstStep, SameButPending;
    if post == [] {
      assert pre + post == pre && pre + [Jump(l)] + post == pre + [Jump(l)];
      JumpAlone(pre, l);
    } else {
      var k := |post| - 1;
      var p, q := pre + post[..k], pre + [Jump(l)] + post[..k];
      assert pre + post == p + [post[k]] && pre + [Jump(l)] + post == q + [post[k]];
      JumpDropped(pre, l, post[..k]);
      hide Run, Addresses;
      RunSnoc(p, post[k]);
      RunSnoc(q, post[k]);
      AddressesSnoc(p, post[k]);
      AddressesSnoc(q, post[k]);
      ExecSameButPending(Run(p), Run(q), post[k]);
    }
  }

  lemma {:induction false} JumpUnheard(pre: seq<Step>, l: Bytes, post: seq<Step>, target: Target)
    requires !Run(pre).exited && l !in Addresses(pre).labels
    requires RecordedSlot(Addresses(pre)) == Addresses(pre).count == Addresses(pre + post).count
    ensures OracleRun(pre + [Jump(l)] + post, target).words == OracleRun(pre + post, target).words
    decreases |post|
  {
    hide Run, Addresses, FirstStep, WordCount, OracleStep, OracleRun, RecordedSlot;
    if post == [] {
      assert pre + post == pre && pre + [Jump(l)] + post == pre + [Jump(l)];
      OracleSnoc(pre, Jump(l), target);
      OracleLength(pre, target);
      JumpOnlyWaits(OracleRun(pre, target), Addresses(pre), l, target);
    } else {
      var k := |post| - 1;
      var p, q := pre + post[..k], pre + [Jump(l)] + post[..k];
      assert pre + post == p + [post[k]] && pre + [Jump(l)] + post == q + [post[k]];
      AddressesSnoc(p, post[k]);
      CountAdds(Addresses(p), post[k]);
      assert p[..|pre|] == pre && p[..|p|] == p;
      SlotsGrow(p, |pre|, |p|);
      JumpUnheard(pre, l, post[..k], target);
      JumpDropped(pre, l, post[..k]);
      OracleSnoc(p, post[k], target);
      OracleSnoc(q, post[k], target);
      StepWordsSame(OracleRun(q, target), OracleRun(p, target), Addresses(p), post[k], target);
    }
  }

  lemma JumpOnlyWaits(o: Oracle, p: FirstPass, l: Bytes, target: Target)
    requires l !in p.labels && RecordedSlot(p) == p.count == |o.words|
    ensures OracleStep(o, p, Jump(l), target).words == o.words
  {
    hide Displacement;
  }

  lemma CountAdds(p: FirstPass, step: Step)
    ensures FirstStep(p, step).count == p.count + WordCount(step, p)
  {}

  lemma JumpAlone(pre: seq<Step>, l: Bytes)
    requires !Run(pre).exited && l !in Addresses(pre).labels
    ensures SameButPending(Run(pre), Run(pre + [Jump(l)]))
    ensures Addresses(pre + [Jump(l)]) == Addresses(pre)
  {
    hide Exec, FirstStep, SameButPending;
    RunSnoc(pre, Jump(l));
    AddressesSnoc(pre, Jump(l));
    AddressesAgree(pre);
    ForwardJumpSame(Run(pre), l);
    JumpDefinesNothing(Addresses(pre), l);
  }

  /** In every run: a jump recorded against the next slot, after which no word is pushed, changes nothing in the
      file. */
  lemma ForwardJumpLost(pre: seq<Step>, l: Bytes, post: seq<Step>)
    requires !Run(pre + post).exited && !Run(pre).exited && l !in Addresses(pre).labels
    requires RecordedSlot(Addresses(pre)) == Addresses(pre).count == Addresses(pre + post).count
    ensures !Run(pre + [Jump(l)] + post).exited
    ensures FileOf(Assembled(pre + [Jump(l)] + post)) == FileOf(Assembled(pre + post))
  {
    hide Run, ByHash, OracleRun, Addresses, FileOf, PatchAll, TouchAll;
    JumpDropped(pre, l, post);
    JumpUnheard(pre, l, post, ByHash(Run(pre + post).elf.labelToAddr));
    BackPatchingIsOracle(pre + post);
    BackPatchingIsOracle(pre + [Jump(l)] + post);
    FileOfSame(Assembled(pre + [Jump(l)] + post), Assembled(pre + post));
  }

  /** The file is determined by the contents of the sections. */
  lemma FileOfSame(s: ElfState, s': ElfState)
    requires s.text == s'.text && s.data == s'.data && s.strtab == s'.strtab && s.symtab == s'.symtab
    ensures FileOf(s) == FileOf(s')
  {
    hide TextBytes, SymtabBytes, ShstrtabBytes, EhdrBytes, Concat, ShdrParts;
    forall k: nat | k <= 5
      ensures Layout(s, k) == Layout(s', k)
    {
      LayoutSame(s, s', k);
    }
  }

  lemma {:induction false} LayoutSame(s: ElfState, s': ElfState, k: nat)
    requires Contents(s) == Contents(s') && k <= 5
    ensures Layout(s, k) == Layout(s', k)
  {
    hide Contents;
    if k > 0 {
      LayoutSame(s, s', k - 1);
    }
  }
}
