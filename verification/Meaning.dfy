/** What single instructions of the emitted program mean, in every run. */
module Meaning {
  import opened Machine
  import opened Encoding
  import opened Hash
  import opened Patch
  import opened Strtab
  import opened ElfState
  import opened Assembler
  import opened Lookahead
  import opened Agreement

  // ---------- Branches ----------

  predicate InText(steps: seq<Step>, n: nat)
    requires n < |steps|
  {
    Addresses(steps[..n]).section == DOT_TEXT
  }

  /** Step `n` is a branch to a label without an address. */
  predicate ForwardBranch(steps: seq<Step>, n: nat)
    requires n < |steps|
  {
    steps[n].Branch? && IsForward(Addresses(steps[..n]), steps[n])
  }

  /** The placeholder of a forward branch, after a jump that waits for it. */
  function Unpatched(steps: seq<Step>, n: nat): u32
    requires n < |steps| && ForwardBranch(steps, n)
  {
    Overwritten(Placeholder(steps[n]), WaitingDisplacement(steps[..n], Found(steps)))
  }

  /** For every run: a forward branch above slot 0 is patched if it stands in `.text`, over what a jump that waits for
      it leaves of its placeholder, and otherwise keeps that. Where no jump waits it reads as patched exactly in
      `.text`, unless its registers are the same and bits 12..1 of its label's hash happen to be those of the
      displacement; where one waits, exactly when `ForwardLands` says so. */
  lemma BranchReceivesPatch(steps: seq<Step>, n: nat)
    requires !Run(steps).exited && |Run(steps).elf.text| <= TWO32
    requires n < |steps| && ForwardBranch(steps, n) && Slot(steps, n) > 0
    ensures Slot(steps, n) < |Assembled(steps).text|
    ensures Assembled(steps).text[Slot(steps, n)]
            == if InText(steps, n) then PatchWord(B_TYPE, Unpatched(steps, n), FoundDisplacement(steps, n))
               else Unpatched(steps, n)
    ensures Assembled(steps).text[Slot(steps, n)] == Resolved(steps[n], FoundDisplacement(steps, n))
            <==> PatchReceived(steps, n)
    ensures WaitingJump(steps[..n]).None? ==>
              (PatchReceived(steps, n)
               <==> InText(steps, n)
                    || (steps[n].a == steps[n].b
                        && BranchBits(HashOf(steps[n].target)) == BranchBits(FoundDisplacement(steps, n))))
  {
    hide Run, Assembled, Untouched, EmitB, Displacement, PatchWord, HashOf, BranchBits, Found, Addresses, UnpackB,
         UnpackJ, ImmJ, JumpBits, Resolved, Placeholder;
    var step, p, waiting := steps[n], Addresses(steps[..n]), WaitingDisplacement(steps[..n], Found(steps));
    AddressesAgree(steps);
    UntouchedAboveZero(steps, n);
    FoundIs(steps);
    WordSettles(steps, n);
    assert steps[..|steps|] == steps;
    SlotsGrow(steps, n, |steps|);
    ForwardLandsExactly(step, p, waiting, Found(steps), Found(steps));
  }

  /** `ForwardLands`, for the address that is found. */
  predicate PatchReceived(steps: seq<Step>, n: nat)
    requires n < |steps| && ForwardBranch(steps, n)
  {
    var address := Found(steps)(steps[n].target);
    ForwardLands(steps[n], Addresses(steps[..n]), WaitingDisplacement(steps[..n], Found(steps)), address, address)
  }

  /** In every run: a forward branch that is recorded in its place, and not reached by other patches, compares the
      registers as written, in the order written, and its decoded offset is twice the distance from the slot before it
      to the last instruction of the label's block, whenever that fits; the offset is the distance in bytes from the
      branch exactly when the label is at the next slot. */
  lemma ForwardBranchMeaning(steps: seq<Step>, n: nat)
    requires !Run(steps).exited && n < |steps| && ForwardBranch(steps, n)
    requires RecordedAt(steps, n, Slot(steps, n)) && Alone(steps, n) && OwnHash(steps, steps[n].target)
    ensures Slot(steps, n) < |Assembled(steps).text|
    ensures var i := UnpackB(Assembled(steps).text[Slot(steps, n)]);
            i.rs1 == steps[n].a && i.rs2 == steps[n].b && i.funct3 == steps[n].funct3 && i.opcode == steps[n].op
    ensures var slot: int, address: int := Slot(steps, n), Final(steps)(steps[n].target);
            var offset, distance := OffsetB(Assembled(steps).text[slot]), 2 * (address - (slot - 1));
            (offset == distance <==> -0x1000 <= distance < 0x1000)
            && (offset == 4 * (address - slot) <==> address == slot + 1)
  {
    hide EmitB, UnpackB, OffsetB, Displacement, PatchWord, Run, Addresses, Assembled, OwnHash, HashOf, Untouched;
    var step, slot: int, address: int := steps[n], Slot(steps, n), Final(steps)(steps[n].target);
    WordSettles(steps, n);
    SlotIsCount(Addresses(steps[..n]));
    HashAddressIsOwn(steps, step.target);
    DisplacementFromSlot(address, slot);
    var distance := 2 * (address - (slot - 1));
    PatchForgetsPlaceholder(HashOf(step.target), step.a, step.b, step.funct3, step.op, Wrap(distance));
    BranchDecodes(distance, 4 * (address - slot), step.b, step.a, step.funct3, step.op);
  }

  /** No jump waits for the word of step `n`, and nothing is recorded against its slot afterwards. */
  ghost predicate Alone(steps: seq<Step>, n: nat)
    requires n < |steps|
  {
    WaitingJump(steps[..n]).None? && Untouched(steps, n + 1, Slot(steps, n))
  }

  lemma BranchDecodes(d: int, e: int, rs2: b5, rs1: b5, funct3: b3, opcode: b7)
    requires d % 2 == 0 && e == 2 * (d - 2)
    ensures var w := EmitB(Wrap(d), rs2, rs1, funct3, opcode);
            UnpackB(w).rs2 == rs2 && UnpackB(w).rs1 == rs1 && UnpackB(w).funct3 == funct3 && UnpackB(w).opcode == opcode
            && (OffsetB(w) == d <==> -0x1000 <= d < 0x1000) && (OffsetB(w) == e <==> d == 4)
  {
    hide EmitB, UnpackB, OffsetB, ImmB, BranchBits;
    NarrowFieldsDecode(Wrap(d), rs2, rs1, funct3, opcode);
    BranchOffsetExact(d, rs2, rs1, funct3, opcode);
    OffsetRange(EmitB(Wrap(d), rs2, rs1, funct3, opcode));
  }

  lemma OffsetRange(insn: u32)
    ensures -0x1000 <= OffsetB(insn) < 0x1000
  {
    hide UnpackB;
  }

  /** In every run: a branch to a label that already has an address, if not reached by patches, encodes that address
      itself, not a distance, and its registers stay exchanged; the decoded offset is the address exactly when that is
      even and fits. */
  lemma BackwardBranchMeaning(steps: seq<Step>, n: nat)
    requires !Run(steps).exited && n < |steps| && Alone(steps, n)
    requires steps[n].Branch? && steps[n].target in Addresses(steps[..n]).labels
    ensures Slot(steps, n) < |Assembled(steps).text|
    ensures var i := UnpackB(Assembled(steps).text[Slot(steps, n)]);
            i.rs1 == steps[n].b && i.rs2 == steps[n].a && i.funct3 == steps[n].funct3 && i.opcode == steps[n].op
    ensures var address := Addresses(steps[..n]).labels[steps[n].target];
            OffsetB(Assembled(steps).text[Slot(steps, n)]) == address <==> address % 2 == 0 && address < 0x1000
  {
    hide EmitB, UnpackB, OffsetB, ImmB, BranchBits, Displacement, Run, Addresses, Assembled, HashOf, Untouched,
         PatchWord;
    var step, address := steps[n], Addresses(steps[..n]).labels[steps[n].target];
    WordSettles(steps, n);
    NarrowFieldsDecode(address, step.a, step.b, step.funct3, step.op);
    BranchOffsetExact(address, step.a, step.b, step.funct3, step.op);
  }

  /** The word of step `n` is alone if the step stands above slot 0 in a run of at most 2^32 words and every jump before
      it is to a label named before. */
  lemma AloneAboveZero(steps: seq<Step>, n: nat)
    requires n < |steps| && Pushes(steps, n) && Slot(steps, n) > 0 && Addresses(steps).count <= TWO32
    requires forall m :: 0 <= m < n && steps[m].Jump? ==> steps[m].target in Addresses(steps[..m]).labels
    ensures Alone(steps, n)
  {
    hide Addresses, Untouched;
    UntouchedAboveZero(steps, n);
    forall m | 0 <= m < n && steps[..n][m].Jump?
      ensures steps[..n][m].target in Addresses(steps[..n][..m]).labels
    {
      Prefix(steps, n, m);
    }
    NoJumpWaits(steps[..n]);
  }

  // ---------- Instructions without a label ----------

  /** In every run: an instruction that names no label is emitted as its format says, if not reached by patches. */
  lemma PlainInstructionMeaning(steps: seq<Step>, n: nat)
    requires !Run(steps).exited && n < |steps| && PlainWord(steps[n]).Some? && Alone(steps, n)
    ensures Slot(steps, n) < |Assembled(steps).text|
    ensures Assembled(steps).text[Slot(steps, n)] == PlainWord(steps[n]).value
  {
    hide PlainWord, Run, Addresses, Assembled, Untouched, Landed;
    PlainKinds(steps[n]);
    PlainLanded(steps[n], Addresses(steps[..n]), Found(steps));
    WordSettles(steps, n);
  }

  lemma PlainLanded(step: Step, p: FirstPass, target: Target)
    requires PlainWord(step).Some?
    ensures WordCount(step, p) == 1 && Landed(step, p, None, target) == PlainWord(step).value
  {
    hide PlainWord;
    PlainKinds(step);
  }

  // ---------- Symbols as immediates ----------

  predicate UsesSymbol(step: Step, symbol: Bytes) {
    step.SymbolImmediate? && step.symbol == symbol
  }

  /** The symbols known at any point are those used as an immediate before, and none has been resolved. */
  lemma {:induction false} SymbolsUsed(steps: seq<Step>, symbol: Bytes)
    ensures symbol in Addresses(steps).symbols <==> exists m :: 0 <= m < |steps| && UsesSymbol(steps[m], symbol)
    ensures symbol in Addresses(steps).symbols ==> Addresses(steps).symbols[symbol] == UNRESOLVED_IDX
    decreases |steps|
  {
    hide WordCount, Wrap;
    if steps != [] {
      var n := |steps| - 1;
      SymbolsUsed(steps[..n], symbol);
      assert forall m :: 0 <= m < n ==> steps[..n][m] == steps[m];
      assert UsesSymbol(steps[n], symbol) ==> symbol in Addresses(steps).symbols;
    }
  }

  /** An instruction whose immediate is a symbol pushes nothing the first time the symbol is used, and a word from then
      on. */
  lemma SymbolPushes(steps: seq<Step>, n: nat)
    requires n < |steps| && steps[n].SymbolImmediate?
    ensures Pushes(steps, n) <==> exists m :: 0 <= m < n && UsesSymbol(steps[m], steps[n].symbol)
  {
    hide Addresses;
    SymbolsUsed(steps[..n], steps[n].symbol);
    assert forall m :: 0 <= m < n ==> steps[..n][m] == steps[m];
  }

  /** In every run: the word has the offset -1088, whatever the symbol, if not reached by patches. */
  lemma SymbolImmediateMeaning(steps: seq<Step>, n: nat)
    requires !Run(steps).exited && n < |steps| && steps[n].SymbolImmediate? && Pushes(steps, n) && Alone(steps, n)
    ensures Slot(steps, n) < |Assembled(steps).text|
    ensures UnpackI(Assembled(steps).text[Slot(steps, n)])
            == IType(steps[n].op, steps[n].rd, steps[n].funct3, steps[n].rs1, 0xBC0)
    ensures OffsetI(Assembled(steps).text[Slot(steps, n)]) == -1088
  {
    hide OffsetI, UnpackI, Run, Addresses, Assembled, Untouched, Landed;
    WordSettles(steps, n);
    SymbolsUsed(steps[..n], steps[n].symbol);
    SymbolLanded(steps[n], Addresses(steps[..n]), Found(steps));
  }

  lemma SymbolLanded(step: Step, p: FirstPass, target: Target)
    requires step.SymbolImmediate? && step.symbol in p.symbols && p.symbols[step.symbol] == UNRESOLVED_IDX
    ensures UnpackI(Landed(step, p, None, target)) == IType(step.op, step.rd, step.funct3, step.rs1, 0xBC0)
    ensures OffsetI(Landed(step, p, None, target)) == -1088
  {
    hide EmitI, UnpackI;
    EmitIDecodes(step.rd, step.rs1, Wrap(UNRESOLVED_IDX * 4), step.funct3, step.op);
  }

  // ---------- Jumps to labels with an address ----------

  /** A jump to a known label is accepted exactly when bit 20 of twice its address is clear, and then decodes to
      that value modulo 2^21: twice the address exactly when the address is below 2^19. */
  lemma AcceptedJumpMeaning(elf: ElfState, target: Bytes)
    requires target in elf.resolvedLabels
    ensures var address: int := elf.resolvedLabels[target];
            (!Rejected(elf, Jump(target)) <==> (2 * address) % 0x20_0000 < 0x10_0000)
            && (!Rejected(elf, Jump(target)) ==>
                  OffsetJ(EmitJ(JumpOffset(address), 0, JAL_OP)) == (2 * address) % 0x20_0000)
            && (address < 0x10_0000 ==> (!Rejected(elf, Jump(target)) <==> address < 0x8_0000))
            && (!Rejected(elf, Jump(target)) && address < 0x10_0000 ==>
                  OffsetJ(EmitJ(JumpOffset(address), 0, JAL_OP)) == 2 * address)
  {
    hide EmitJ, UnpackJ, JumpOffset, ImmJ;
    var address := elf.resolvedLabels[target];
    JumpOffsetLow(address);
    EmitJDecodes(JumpOffset(address), 0, JAL_OP);
  }

  /** In every run: a jump to a label that has an address, if not reached by patches, is a `jal` to register 0 whose
      offset is twice that address modulo 2^21. */
  lemma ResolvedJumpMeaning(steps: seq<Step>, n: nat)
    requires !Run(steps).exited && n < |steps| && Alone(steps, n)
    requires steps[n].Jump? && steps[n].target in Addresses(steps[..n]).labels
    ensures Slot(steps, n) < |Assembled(steps).text|
    ensures var i := UnpackJ(Assembled(steps).text[Slot(steps, n)]);
            i.opcode == 0x6F && i.rd == 0
    ensures OffsetJ(Assembled(steps).text[Slot(steps, n)])
            == 2 * (Addresses(steps[..n]).labels[steps[n].target] as int) % 0x20_0000
  {
    hide EmitJ, UnpackJ, OffsetJ, JumpOffset, Run, Addresses, Assembled, Untouched;
    var step, elf := steps[n], Run(steps[..n]).elf;
    WordSettles(steps, n);
    JumpAccepted(steps, n);
    AddressesAgree(steps[..n]);
    AcceptedJumpMeaning(elf, step.target);
    NarrowJumpDecodes(JumpOffset(elf.resolvedLabels[step.target]), 0, JAL_OP);
  }

  lemma JumpAccepted(steps: seq<Step>, n: nat)
    requires !Run(steps).exited && n < |steps|
    ensures !Run(steps[..n]).exited && !Rejected(Run(steps[..n]).elf, steps[n])
  {
    hide Run, Exec, Rejected;
    if Run(steps[..n]).exited {
      ExitIsFinal(steps, n);
    }
    if Rejected(Run(steps[..n]).elf, steps[n]) {
      RunSnoc(steps[..n], steps[n]);
      assert steps[..n] + [steps[n]] == steps[..n + 1];
      ExitStep(Run(steps[..n]), steps[n]);
      ExitIsFinal(steps, n + 1);
    }
  }

  lemma JumpOffsetLow(address: u32)
    ensures JumpOffset(address) == (2 * address) % 0x20_0000
    ensures JumpOffset(address) % 2 == 0
  {
    var w, q := Wrap(2 * address), (2 * address) / TWO32;
    assert 2 * address == 0x20_0000 * (0x800 * q) + w;
    DivMod(2 * address, 0x20_0000, 0x800 * q + w / 0x20_0000, w % 0x20_0000);
    assert w % 2 == 0;
  }
}
