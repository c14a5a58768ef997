/** One pass with back-patching against two references. The oracle assembler knows every final address in advance and
    makes each patch as soon as it is recorded: every run emits what the oracle emits. The two-pass assembler first
    computes every label address and then gives the words of each step, a forward branch with the final address of its
    label; it has no hashes, no placeholders and no patching. When every reference is recorded in its place, the oracle
    emits what the two passes emit. */
module Lookahead {
  import opened Machine
  import opened Encoding
  import opened Hash
  import opened Patch
  import opened Strtab
  import opened Sections
  import opened ElfState
  import opened Assembler
  import opened Labels

  type Labeling = map<Bytes, u32>

  // ---------- The first pass: how many words, where the labels are, and which section is open ----------

  datatype FirstPass = FirstPass(count: nat, labels: Labeling, section: Bytes, symbols: map<Bytes, u32>)

  const START_PASS: FirstPass := FirstPass(0, map[], [], map[])

  function WordCount(step: Step, p: FirstPass): nat {
    match step
    case Branch(_, _, _, _, _) => 1
    case Jump(target) => if target in p.labels then 1 else 0
    case SymbolImmediate(_, _, _, _, symbol) => if symbol in p.symbols then 1 else 0
    case _ => if PlainWord(step).Some? then 1 else 0
  }

  function DefinedName(step: Step): Option<Bytes> {
    match step
    case LabeledBlock(name) => Some(name)
    case Global(name) => Some(name)
    case _ => None
  }

  function FirstStep(p: FirstPass, step: Step): FirstPass {
    var name := DefinedName(step);
    FirstPass(p.count + WordCount(step, p),
              if name.Some? && name.value !in p.labels
              then p.labels[name.value := Wrap(LastIndexOf(p.count))]
              else p.labels,
              match step
              case SectionDirective(section) => section
              case Ascii(_) => DOT_DATA
              case _ => p.section,
              if step.SymbolImmediate? && step.symbol !in p.symbols then p.symbols[step.symbol := UNRESOLVED_IDX]
              else p.symbols)
  }

  function Addresses(steps: seq<Step>): FirstPass
    decreases |steps|
  {
    if steps == [] then START_PASS
    else
      var n := |steps| - 1;
      FirstStep(Addresses(steps[..n]), steps[n])
  }

  // ---------- The second pass: the words, given where labels will be ----------

  /** The address a forward reference will have. */
  type Target = Bytes -> u32

  function Words(step: Step, p: FirstPass, target: Target): (words: seq<u32>)
    ensures |words| == WordCount(step, p)
  {
    match step
    case Branch(funct3, op, a, b, l) =>
      if l in p.labels then [EmitB(p.labels[l], a, b, funct3, op)]
      else [EmitB(Displacement(target(l), Wrap(p.count - 1)), b, a, funct3, op)]
    case Jump(l) =>
      if l in p.labels then [EmitJ(JumpOffset(p.labels[l]), 0, JAL_OP)] else []
    case SymbolImmediate(_, _, _, _, symbol) =>
      if symbol in p.symbols then [SymbolWord(step, p.symbols[symbol])] else []
    case _ =>
      var w := PlainWord(step);
      if w.Some? then [w.value] else []
  }

  function TwoPass(steps: seq<Step>, target: Target): seq<u32>
    decreases |steps|
  {
    if steps == [] then []
    else
      var n := |steps| - 1;
      TwoPass(steps[..n], target) + Words(steps[n], Addresses(steps[..n]), target)
  }

  /** A label's final address, 0 if it never gets one. */
  function ByName(labels: Labeling): Target {
    (l: Bytes) => if l in labels then labels[l] else 0
  }

  /** The address the patch loop finds under a label's hash. */
  function ByHash(addresses: LabelAddresses): Target {
    (l: Bytes) => AddressOf(addresses, HashOf(l))
  }

  /** The labels used by branches before they are defined. */
  function ForwardTargets(steps: seq<Step>): set<Bytes>
    decreases |steps|
  {
    if steps == [] then {}
    else
      var n := |steps| - 1;
      var step := steps[n];
      ForwardTargets(steps[..n])
      + if step.Branch? && step.target !in Addresses(steps[..n]).labels then {step.target} else {}
  }

  // ---------- The oracle: one pass, with patches made at once ----------

  /** A step that uses a label without an address yet. */
  predicate IsForward(p: FirstPass, step: Step) {
    (step.Branch? || step.Jump?) && step.target !in p.labels
  }

  /** What the next slot is taken to be: outside `.text` it is 0. */
  function NextSlot(p: FirstPass): nat {
    if p.section == DOT_TEXT then p.count else 0
  }

  /** The slot a forward reference is recorded against, and the displacement it will be patched with. */
  function RecordedSlot(p: FirstPass): u32 {
    Wrap(NextSlot(p))
  }

  function RecordedDisplacement(p: FirstPass, address: u32): u32 {
    Displacement(address, Wrap(NextSlot(p) - 1))
  }

  /** The words so far, and the jump displacement that waits for the next one: a forward jump pushes no word. */
  datatype Oracle = Oracle(words: seq<u32>, waiting: Option<u32>)

  function Overwritten(insn: u32, waiting: Option<u32>): u32 {
    if waiting.Some? then PatchWord(J_TYPE, insn, waiting.value) else insn
  }

  function OraclePush(o: Oracle, insn: u32): Oracle {
    Oracle(o.words + [Overwritten(insn, o.waiting)], None)
  }

  function OraclePatch(o: Oracle, slot: nat, t: InstType, imm: u32): Oracle {
    if slot < |o.words| then o.(words := o.words[slot := PatchWord(t, o.words[slot], imm)])
    else if t == J_TYPE then o.(waiting := Some(imm))
    else o
  }

  function OracleStep(o: Oracle, p: FirstPass, step: Step, target: Target): Oracle {
    match step
    case Branch(funct3, op, a, b, l) =>
      if l in p.labels then OraclePush(o, EmitB(p.labels[l], a, b, funct3, op))
      else OraclePatch(OraclePush(o, EmitB(HashOf(l), a, b, funct3, op)), RecordedSlot(p), B_TYPE,
                       RecordedDisplacement(p, target(l)))
    case Jump(l) =>
      if l in p.labels then OraclePush(o, EmitJ(JumpOffset(p.labels[l]), 0, JAL_OP))
      else OraclePatch(o, RecordedSlot(p), J_TYPE, RecordedDisplacement(p, target(l)))
    case SymbolImmediate(_, _, _, _, symbol) =>
      if symbol in p.symbols then OraclePush(o, SymbolWord(step, p.symbols[symbol])) else o
    case _ =>
      var w := PlainWord(step);
      if w.Some? then OraclePush(o, w.value) else o
  }

  function OracleRun(steps: seq<Step>, target: Target): Oracle
    decreases |steps|
  {
    if steps == [] then Oracle([], None)
    else
      var n := |steps| - 1;
      OracleStep(OracleRun(steps[..n], target), Addresses(steps[..n]), steps[n], target)
  }

  // ---------- When the two passes apply ----------

  /** A forward branch must be recorded against the slot it fills; a forward jump fills none. */
  predicate CleanStep(p: FirstPass, step: Step) {
    IsForward(p, step) ==> step.Branch? && RecordedSlot(p) == p.count
  }

  predicate Clean(steps: seq<Step>)
    decreases |steps|
  {
    steps == []
    || (Clean(steps[..|steps| - 1]) && CleanStep(Addresses(steps[..|steps| - 1]), steps[|steps| - 1]))
  }

  // ---------- One step more ----------

  lemma RunSnoc(steps: seq<Step>, step: Step)
    ensures Run(steps + [step]) == Exec(Run(steps), step)
    ensures Clean(steps + [step]) <==> Clean(steps) && CleanStep(Addresses(steps), step)
  {
    assert (steps + [step])[..|steps|] == steps;
  }

  lemma AddressesSnoc(steps: seq<Step>, step: Step)
    ensures Addresses(steps + [step]) == FirstStep(Addresses(steps), step)
    ensures ForwardTargets(steps + [step])
            == ForwardTargets(steps)
               + if step.Branch? && step.target !in Addresses(steps).labels then {step.target} else {}
  {
    assert (steps + [step])[..|steps|] == steps;
  }

  lemma OracleSnoc(steps: seq<Step>, step: Step, target: Target)
    ensures OracleRun(steps + [step], target) == OracleStep(OracleRun(steps, target), Addresses(steps), step, target)
  {
    hide OracleStep;
    assert (steps + [step])[..|steps|] == steps;
  }

  // ---------- The first pass agrees with the run ----------

  lemma ExecFirstStep(s: Asm, step: Step, p: FirstPass)
    requires |s.elf.text| == p.count && s.elf.resolvedLabels == p.labels && s.section == p.section
    requires s.elf.symbols == p.symbols
    requires !Exec(s, step).exited
    ensures |Exec(s, step).elf.text| == FirstStep(p, step).count
    ensures Exec(s, step).elf.resolvedLabels == FirstStep(p, step).labels
    ensures Exec(s, step).section == FirstStep(p, step).section
    ensures Exec(s, step).elf.symbols == FirstStep(p, step).symbols
  {
    hide InitLabel, AddProgramData, ExecBranch, ExecJump, PlainWord, SymbolWord, Wrap;
    PlainKinds(step);
    match step
    case Branch(_, _, _, _, _) => ReferenceEffect(s.elf, s.section, step);
    case Jump(_) => ReferenceEffect(s.elf, s.section, step);
    case LabeledBlock(name) => LabelEffect(s.elf, name, false, s.section);
    case Global(name) => LabelEffect(s.elf, name, true, DOT_TEXT);
    case LabeledDirective(name) => DataEffect(s.elf, name, s.tempValue, s.section);
    case _ =>
  }

  lemma NotExitedBefore(steps: seq<Step>)
    requires steps != [] && !Run(steps).exited
    ensures !Run(steps[..|steps| - 1]).exited && !Rejected(Run(steps[..|steps| - 1]).elf, steps[|steps| - 1])
  {}

  /** The label addresses of a run are those of a pass that only counts words. */
  lemma {:induction false} AddressesAgree(steps: seq<Step>)
    requires !Run(steps).exited
    ensures |Run(steps).elf.text| == Addresses(steps).count
    ensures Run(steps).elf.resolvedLabels == Addresses(steps).labels
    ensures Run(steps).section == Addresses(steps).section && Run(steps).elf.symbols == Addresses(steps).symbols
    decreases |steps|
  {
    if steps != [] {
      var n := |steps| - 1;
      NotExitedBefore(steps);
      AddressesAgree(steps[..n]);
      hide Exec;
      ExecFirstStep(Run(steps[..n]), steps[n], Addresses(steps[..n]));
    }
  }

  lemma {:induction false} TwoPassLength(steps: seq<Step>, target: Target)
    ensures |TwoPass(steps, target)| == Addresses(steps).count
    decreases |steps|
  {
    hide EmitR, EmitI, EmitS, EmitB, EmitJ, Displacement, JumpOffset;
    if steps != [] {
      TwoPassLength(steps[..|steps| - 1], target);
    }
  }

  // ---------- Where labels are ----------

  /** Step `n` is the first that names label `l`, in a `.globl` directive or in front of a block. */
  ghost predicate FirstNaming(steps: seq<Step>, n: nat, l: Bytes) {
    n < |steps| && DefinedName(steps[n]) == Some(l) && forall m :: 0 <= m < n ==> DefinedName(steps[m]) != Some(l)
  }

  lemma {:induction false} UnnamedUnknown(steps: seq<Step>, l: Bytes)
    requires forall m :: 0 <= m < |steps| ==> DefinedName(steps[m]) != Some(l)
    ensures l !in Addresses(steps).labels
    decreases |steps|
  {
    hide WordCount;
    if steps != [] {
      UnnamedUnknown(steps[..|steps| - 1], l);
    }
  }

  lemma {:induction false} AddressAtFirstNaming(steps: seq<Step>, n: nat, l: Bytes)
    requires FirstNaming(steps, n, l)
    ensures l in Addresses(steps).labels
    ensures Addresses(steps).labels[l] == Wrap(LastIndexOf(Addresses(steps[..n]).count))
    decreases |steps|
  {
    hide WordCount, Wrap;
    var m := |steps| - 1;
    if n < m {
      assert steps[..m][..n] == steps[..n];
      AddressAtFirstNaming(steps[..m], n, l);
    } else {
      UnnamedUnknown(steps[..m], l);
    }
  }

  /** For every run: a label stands for the last word there was at the first step that names it. */
  lemma LabelAddress(steps: seq<Step>, n: nat, l: Bytes)
    requires !Run(steps).exited && FirstNaming(steps, n, l)
    ensures l in Run(steps).elf.resolvedLabels
    ensures Run(steps).elf.resolvedLabels[l] == Wrap(LastIndexOf(|Run(steps[..n]).elf.text|))
  {
    hide Run, Addresses;
    if Run(steps[..n]).exited {
      ExitIsFinal(steps, n);
    }
    AddressesAgree(steps);
    AddressesAgree(steps[..n]);
    AddressAtFirstNaming(steps, n, l);
  }

  // ---------- Back-patching is patching at once ----------

  /** The recorded patches, made now, give the oracle's words, and a word pushed next would meet the waiting jump. */
  ghost predicate Patched(elf: ElfState, addresses: LabelAddresses, o: Oracle) {
    && (forall k :: 0 <= k < |elf.unresolvedInsns| ==> elf.unresolvedInsns[k].insnNumber <= |elf.text|)
    && PatchAll(elf.text, elf.unresolvedInsns, addresses) == o.words
    && forall w: u32 :: PatchesAt(w, |elf.text|, elf.unresolvedInsns, addresses) == Overwritten(w, o.waiting)
  }

  lemma PatchedSame(elf: ElfState, elf': ElfState, addresses: LabelAddresses, o: Oracle)
    requires Patched(elf, addresses, o)
    requires elf'.text == elf.text && elf'.unresolvedInsns == elf.unresolvedInsns
    ensures Patched(elf', addresses, o)
  {}

  lemma PatchedPush(elf: ElfState, addresses: LabelAddresses, o: Oracle, insn: u32)
    requires Patched(elf, addresses, o)
    ensures Patched(AddToText(elf, insn), addresses, OraclePush(o, insn))
  {
    hide PatchAll, PatchesAt, Overwritten;
    PatchAllThenPush(elf.text, insn, elf.unresolvedInsns, addresses);
    forall w: u32
      ensures PatchesAt(w, |elf.text| + 1, elf.unresolvedInsns, addresses) == Overwritten(w, None)
    {
      PatchesAtFrame(w, |elf.text| + 1, elf.unresolvedInsns, addresses);
      NothingWaits(w);
    }
  }

  lemma NothingWaits(w: u32)
    ensures Overwritten(w, None) == w
  {}

  /** One entry more is one patch more. */
  lemma RecordedLast(text: seq<u32>, w: u32, i: nat, entries: seq<UnresolvedInst>, e: UnresolvedInst,
                     addresses: LabelAddresses)
    ensures PatchAll(text, entries + [e], addresses) == PatchOne(PatchAll(text, entries, addresses), e, addresses)
    ensures PatchesAt(w, i, entries + [e], addresses)
            == var before := PatchesAt(w, i, entries, addresses);
               if e.insnNumber == i then PatchEntry(before, e, addresses) else before
  {
    hide PatchOne, PatchEntry;
    assert (entries + [e])[..|entries|] == entries;
  }

  /** Recording a reference: one patch more, on a word there is or on the word to come. */
  lemma PatchedRecord(elf: ElfState, addresses: LabelAddresses, o: Oracle, e: UnresolvedInst)
    requires Patched(elf, addresses, o) && e.insnNumber <= |elf.text|
    requires e.insnType == J_TYPE || (e.insnType == B_TYPE && e.insnNumber < |elf.text|)
    ensures var imm := Displacement(AddressOf(addresses, e.hash), e.pcInsnNumber);
            Patched(AddUnresolved(elf, e), addresses, OraclePatch(o, e.insnNumber, e.insnType, imm))
  {
    hide PatchWord, Displacement, PatchAll, PatchesAt;
    var imm := Displacement(AddressOf(addresses, e.hash), e.pcInsnNumber);
    var o' := OraclePatch(o, e.insnNumber, e.insnType, imm);
    RecordedLast(elf.text, 0, 0, elf.unresolvedInsns, e, addresses);
    forall w: u32
      ensures PatchesAt(w, |elf.text|, elf.unresolvedInsns + [e], addresses) == Overwritten(w, o'.waiting)
    {
      RecordedLast(elf.text, w, |elf.text|, elf.unresolvedInsns, e, addresses);
      if o.waiting.Some? {
        PatchedByJumps(w, o.waiting.value, imm);
      }
    }
  }

  lemma ExecPatched(s: Asm, step: Step, p: FirstPass, addresses: LabelAddresses, o: Oracle)
    requires !s.exited && !Rejected(s.elf, step)
    requires |s.elf.text| == p.count && s.elf.resolvedLabels == p.labels && s.section == p.section
    requires s.elf.symbols == p.symbols
    requires Patched(s.elf, addresses, o)
    ensures Patched(Exec(s, step).elf, addresses, OracleStep(o, p, step, ByHash(addresses)))
  {
    hide Patched, OraclePush, OraclePatch, InitLabel, AddProgramData, ExecBranch, ExecJump, PlainWord, JumpOffset,
         Displacement, HashOf, EmitB, EmitJ;
    PlainKinds(step);
    match step
    case Branch(_, _, _, _, _) => BranchPatched(s.elf, step, p, addresses, o);
    case Jump(l) => JumpPatched(s.elf, l, p, addresses, o);
    case SymbolImmediate(_, _, _, _, symbol) =>
      if symbol in p.symbols {
        PatchedPush(s.elf, addresses, o, SymbolWord(step, p.symbols[symbol]));
      } else {
        PatchedSame(s.elf, Exec(s, step).elf, addresses, o);
      }
    case LabeledBlock(name) =>
      LabelEffect(s.elf, name, false, s.section);
      PatchedSame(s.elf, Exec(s, step).elf, addresses, o);
    case LabeledDirective(name) =>
      DataEffect(s.elf, name, s.tempValue, s.section);
      PatchedSame(s.elf, Exec(s, step).elf, addresses, o);
    case Global(name) =>
      LabelEffect(s.elf, name, true, DOT_TEXT);
      PatchedSame(s.elf, Exec(s, step).elf, addresses, o);
    case SectionDirective(_) =>
    case TextDirective =>
    case Ascii(_) =>
    case _ => PatchedPush(s.elf, addresses, o, PlainWord(step).value);
  }

  lemma BranchPatched(elf: ElfState, step: Step, p: FirstPass, addresses: LabelAddresses, o: Oracle)
    requires step.Branch? && |elf.text| == p.count && elf.resolvedLabels == p.labels && Patched(elf, addresses, o)
    ensures Patched(ExecBranch(elf, p.section, step), addresses, OracleStep(o, p, step, ByHash(addresses)))
  {
    hide EmitB, Displacement, PatchWord, HashOf, PatchAll, OraclePush, OraclePatch, Patched;
    var noted := NoteLabel(elf, step.target);
    var insn := EmitB(LabelOffset(elf, step.target), step.a, step.b, step.funct3, step.op);
    PatchedSame(elf, noted, addresses, o);
    PatchedPush(noted, addresses, o, insn);
    if step.target !in elf.resolvedLabels {
      var e := EntryFor(noted, p.section, B_TYPE, step.target);
      PatchedRecord(AddToText(noted, insn), addresses, OraclePush(o, insn), e);
      assert AddUnresolved(AddToText(noted, insn), e) == AddToText(AddUnresolved(noted, e), insn);
    }
  }

  lemma JumpPatched(elf: ElfState, target: Bytes, p: FirstPass, addresses: LabelAddresses, o: Oracle)
    requires |elf.text| == p.count && elf.resolvedLabels == p.labels && Patched(elf, addresses, o)
    ensures Patched(ExecJump(elf, p.section, target), addresses, OracleStep(o, p, Jump(target), ByHash(addresses)))
  {
    hide EmitJ, JumpOffset, Displacement, HashOf, OraclePush, OraclePatch, Patched;
    var noted := NoteLabel(elf, target);
    PatchedSame(elf, noted, addresses, o);
    if target in elf.resolvedLabels {
      PatchedPush(noted, addresses, o, EmitJ(JumpOffset(p.labels[target]), 0, JAL_OP));
    } else {
      PatchedRecord(noted, addresses, o, EntryFor(noted, p.section, J_TYPE, target));
    }
  }

  lemma PatchNothing(addresses: LabelAddresses)
    ensures Patched(INITIAL, addresses, Oracle([], None))
  {}

  /** For every run whatever, and every address map: the patches made at the end are the patches made at once. */
  lemma {:induction false} RunPatched(steps: seq<Step>, addresses: LabelAddresses)
    requires !Run(steps).exited
    ensures Patched(Run(steps).elf, addresses, OracleRun(steps, ByHash(addresses)))
    decreases |steps|
  {
    hide PatchAll, Patched;
    if steps == [] {
      PatchNothing(addresses);
    } else {
      var n := |steps| - 1;
      NotExitedBefore(steps);
      AddressesAgree(steps[..n]);
      RunPatched(steps[..n], addresses);
      hide Exec, OracleStep;
      ExecPatched(Run(steps[..n]), steps[n], Addresses(steps[..n]), addresses,
                  OracleRun(steps[..n], ByHash(addresses)));
    }
  }

  /** Every run emits what the oracle emits that looks addresses up in the final map. */
  lemma BackPatchingIsOracle(steps: seq<Step>)
    requires !Run(steps).exited
    ensures Assembled(steps).text == OracleRun(steps, ByHash(Run(steps).elf.labelToAddr)).words
  {
    hide Run, OracleRun, PatchAll, TouchAll, ByHash;
    var elf := Run(steps).elf;
    RunPatched(steps, elf.labelToAddr);
    assert elf.unresolvedInsns[..|elf.unresolvedInsns|] == elf.unresolvedInsns;
  }

  // ---------- Back-patching equals lookahead ----------

  lemma CleanOracleStep(words: seq<u32>, p: FirstPass, step: Step, target: Target)
    requires CleanStep(p, step) && |words| == p.count
    ensures OracleStep(Oracle(words, None), p, step, target) == Oracle(words + Words(step, p, target), None)
  {
    hide EmitR, EmitI, EmitS, EmitB, EmitJ, JumpOffset, Displacement, PatchWord, HashOf;
    assert words + [] == words;
    if IsForward(p, step) {
      var placeholder := EmitB(HashOf(step.target), step.a, step.b, step.funct3, step.op);
      var d := RecordedDisplacement(p, target(step.target));
      PatchForgetsPlaceholder(HashOf(step.target), step.a, step.b, step.funct3, step.op, d);
      assert (words + [placeholder])[|words| := PatchWord(B_TYPE, placeholder, d)]
             == words + [PatchWord(B_TYPE, placeholder, d)];
      SlotIsCount(p);
    }
  }

  lemma SlotIsCount(p: FirstPass)
    requires RecordedSlot(p) == p.count
    ensures NextSlot(p) == p.count
  {}

  /** In a clean run the oracle is the second pass. */
  lemma {:induction false} CleanOracle(steps: seq<Step>, target: Target)
    requires Clean(steps)
    ensures OracleRun(steps, target) == Oracle(TwoPass(steps, target), None)
    decreases |steps|
  {
    if steps != [] {
      var n := |steps| - 1;
      hide OracleStep, Words, CleanStep;
      CleanOracle(steps[..n], target);
      TwoPassLength(steps[..n], target);
      CleanOracleStep(TwoPass(steps[..n], target), Addresses(steps[..n]), steps[n], target);
    }
  }

  /** For every clean run, collisions included: patching gives what the second pass gives when each forward
      reference is encoded with the address that the final map holds under its label's hash. */
  lemma BackPatchingByHash(steps: seq<Step>)
    requires !Run(steps).exited && Clean(steps)
    ensures Assembled(steps).text == TwoPass(steps, ByHash(Run(steps).elf.labelToAddr))
  {
    hide Run, OracleRun, TwoPass, Clean, Assembled, ByHash;
    BackPatchingIsOracle(steps);
    CleanOracle(steps, ByHash(Run(steps).elf.labelToAddr));
  }

  lemma WordsAgree(step: Step, p: FirstPass, f: Target, g: Target)
    ensures Words(step, p, f) == Words(step, p, g)
            <==> (step.Branch? && step.target !in p.labels ==> f(step.target) % 0x1000 == g(step.target) % 0x1000)
  {
    hide EmitR, EmitI, EmitS, EmitB, EmitJ, Displacement, JumpOffset;
    if step.Branch? && step.target !in p.labels {
      var pc := Wrap(p.count - 1);
      DisplacementsAgree(f(step.target), g(step.target), pc);
      EmitBEqual(Displacement(f(step.target), pc), step.b, step.a, step.funct3,
                 Displacement(g(step.target), pc), step.b, step.a, step.funct3, step.op);
    }
  }

  /** Two labelings give the same words exactly when they agree, modulo 4096, on every forward target. */
  lemma {:induction false} TwoPassesAgree(steps: seq<Step>, f: Target, g: Target)
    ensures TwoPass(steps, f) == TwoPass(steps, g)
            <==> forall l :: l in ForwardTargets(steps) ==> f(l) % 0x1000 == g(l) % 0x1000
    decreases |steps|
  {
    if steps != [] {
      var n := |steps| - 1;
      var p := Addresses(steps[..n]);
      TwoPassesAgree(steps[..n], f, g);
      TwoPassLength(steps[..n], f);
      TwoPassLength(steps[..n], g);
      WordsAgree(steps[n], p, f, g);
      hide Words;
      AppendsEqual(TwoPass(steps[..n], f), Words(steps[n], p, f), TwoPass(steps[..n], g), Words(steps[n], p, g));
    }
  }

  lemma AppendsEqual(a: seq<u32>, x: seq<u32>, b: seq<u32>, y: seq<u32>)
    requires |a| == |b|
    ensures a + x == b + y <==> a == b && x == y
  {
    if a + x == b + y {
      assert a == (a + x)[..|a|] == (b + y)[..|b|] == b;
      assert x == (a + x)[|a|..] == (b + y)[|b|..] == y;
    }
  }

  /** A clean run emits the two-pass program exactly when, for every forward target, the address found under
      its hash agrees with its own address modulo 4096. */
  lemma BackPatchingExact(steps: seq<Step>)
    requires !Run(steps).exited && Clean(steps)
    ensures Assembled(steps).text == TwoPass(steps, ByName(Addresses(steps).labels))
            <==> forall l :: l in ForwardTargets(steps) ==>
                   AddressOf(Run(steps).elf.labelToAddr, HashOf(l)) % 0x1000
                   == ByName(Addresses(steps).labels)(l) % 0x1000
  {
    hide Run, TwoPass, Clean, Assembled, HashOf, Addresses;
    BackPatchingByHash(steps);
    TwoPassesAgree(steps, ByHash(Run(steps).elf.labelToAddr), ByName(Addresses(steps).labels));
  }

  /** No other label that is defined has the hash of `l`. */
  ghost predicate OwnHash(steps: seq<Step>, l: Bytes) {
    forall l' :: l' in Addresses(steps).labels && HashOf(l') == HashOf(l) ==> l' == l
  }

  /** No forward target shares its hash with a different label that is defined. */
  ghost predicate NoCollision(steps: seq<Step>) {
    forall l :: l in ForwardTargets(steps) ==> OwnHash(steps, l)
  }

  lemma {:induction false} HashMapIsNameMap(log: seq<SymDef>, l: Bytes)
    requires forall l' :: l' in ResolvedOf(log) && HashOf(l') == HashOf(l) ==> l' == l
    ensures AddressOf(AddressesOf(log), HashOf(l)) == ByName(ResolvedOf(log))(l)
    ensures HashOf(l) in AddressesOf(log) <==> l in ResolvedOf(log)
    decreases |log|
  {
    hide HashOf;
    if log != [] {
      var n := |log| - 1;
      assert forall l' :: l' in ResolvedOf(log[..n]) ==> l' in ResolvedOf(log);
      HashMapIsNameMap(log[..n], l);
    }
  }

  lemma HashAddressIsOwn(steps: seq<Step>, l: Bytes)
    requires !Run(steps).exited && OwnHash(steps, l)
    ensures AddressOf(Run(steps).elf.labelToAddr, HashOf(l)) == ByName(Addresses(steps).labels)(l)
  {
    hide HashOf, Run, Addresses;
    AddressesAgree(steps);
    RunInvariant(steps);
    HashMapIsNameMap(DefLog(steps), l);
  }

  /** Back-patching equals lookahead: without collisions, a clean run emits the two-pass program. */
  lemma BackPatchingIsLookahead(steps: seq<Step>)
    requires !Run(steps).exited && Clean(steps) && NoCollision(steps)
    ensures Assembled(steps).text == TwoPass(steps, ByName(Addresses(steps).labels))
  {
    hide HashOf, Run, TwoPass, Assembled, OwnHash;
    BackPatchingExact(steps);
    forall l | l in ForwardTargets(steps)
      ensures AddressOf(Run(steps).elf.labelToAddr, HashOf(l)) % 0x1000
              == ByName(Addresses(steps).labels)(l) % 0x1000
    {
      HashAddressIsOwn(steps, l);
    }
  }

  // ---------- The words of one step ----------

  lemma {:induction false} TwoPassAt(steps: seq<Step>, n: nat, target: Target)
    requires n < |steps|
    ensures TwoPass(steps[..n], target) + Words(steps[n], Addresses(steps[..n]), target) <= TwoPass(steps, target)
    decreases |steps|
  {
    hide Words, Addresses, FirstStep, Run;
    var m := |steps| - 1;
    if n < m {
      assert steps[..m][..n] == steps[..n];
      TwoPassAt(steps[..m], n, target);
    }
  }
}
