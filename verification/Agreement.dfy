/** Word by word, for every run: what is emitted at each slot, and exactly when it is the word of the two passes. */
module Agreement {
  import opened Machine
  import opened Encoding
  import opened Hash
  import opened Patch
  import opened Strtab
  import opened Assembler
  import opened Lookahead

  // ---------- Slots ----------

  /** Step `n` pushes a word, at slot `Slot(steps, n)`. */
  predicate Pushes(steps: seq<Step>, n: nat)
    requires n < |steps|
  {
    WordCount(steps[n], Addresses(steps[..n])) == 1
  }

  function Slot(steps: seq<Step>, n: nat): nat
    requires n <= |steps|
  {
    Addresses(steps[..n]).count
  }

  /** Step `m` is a forward reference that is recorded against slot `i`. */
  predicate RecordedAt(steps: seq<Step>, m: nat, i: nat)
    requires m < |steps|
  {
    IsForward(Addresses(steps[..m]), steps[m]) && RecordedSlot(Addresses(steps[..m])) == i
  }

  /** From step `n` on nothing is recorded against slot `i`. */
  ghost predicate Untouched(steps: seq<Step>, n: nat, i: nat) {
    forall m :: n <= m < |steps| ==> !RecordedAt(steps, m, i)
  }

  lemma Prefix(steps: seq<Step>, m: nat, n: nat)
    requires n <= m <= |steps|
    ensures steps[..m][..n] == steps[..n]
  {}

  lemma {:induction false} SlotsGrow(steps: seq<Step>, n: nat, m: nat)
    requires n <= m <= |steps|
    ensures Slot(steps, n) <= Slot(steps, m)
    ensures n < m && Pushes(steps, n) ==> Slot(steps, n) < Slot(steps, m)
    decreases m - n
  {
    hide PlainWord;
    if n < m {
      assert steps[..n + 1][..n] == steps[..n];
      SlotsGrow(steps, n + 1, m);
    }
  }

  /** In a program of at most 2^32 words a reference is recorded against the slot it stands at or against slot 0, so
      no later one reaches a slot above 0. */
  lemma UntouchedAboveZero(steps: seq<Step>, n: nat)
    requires n < |steps| && Pushes(steps, n) && Slot(steps, n) > 0 && Addresses(steps).count <= TWO32
    ensures Untouched(steps, n + 1, Slot(steps, n))
  {
    hide Addresses, Pushes, IsForward;
    assert steps[..|steps|] == steps;
    forall m | n + 1 <= m < |steps|
      ensures !RecordedAt(steps, m, Slot(steps, n))
    {
      SlotsGrow(steps, n, m);
      SlotsGrow(steps, m, |steps|);
    }
  }

  lemma OracleStepLength(o: Oracle, p: FirstPass, step: Step, target: Target)
    requires |o.words| == p.count
    ensures |OracleStep(o, p, step, target).words| == FirstStep(p, step).count
  {
    hide EmitR, EmitI, EmitS, EmitB, EmitJ, JumpOffset, Displacement, PatchWord, HashOf, Overwritten;
  }

  lemma {:induction false} OracleLength(steps: seq<Step>, target: Target)
    ensures |OracleRun(steps, target).words| == Addresses(steps).count
    decreases |steps|
  {
    if steps != [] {
      var n := |steps| - 1;
      OracleLength(steps[..n], target);
      hide OracleStep, FirstStep;
      OracleStepLength(OracleRun(steps[..n], target), Addresses(steps[..n]), steps[n], target);
    }
  }

  lemma OracleStepKeeps(o: Oracle, p: FirstPass, step: Step, target: Target, i: nat)
    requires |o.words| == p.count && i < p.count
    requires !(IsForward(p, step) && RecordedSlot(p) == i)
    ensures var o' := OracleStep(o, p, step, target);
            i < |o'.words| && o'.words[i] == o.words[i]
  {
    hide EmitR, EmitI, EmitS, EmitB, EmitJ, JumpOffset, Displacement, PatchWord, HashOf, Overwritten;
  }

  /** A word stays as it is from the step on after which nothing is recorded against its slot. */
  lemma {:induction false} OracleKeeps(steps: seq<Step>, n: nat, i: nat, target: Target)
    requires n <= |steps| && i < Slot(steps, n) && Untouched(steps, n, i)
    ensures i < |OracleRun(steps, target).words| && i < |OracleRun(steps[..n], target).words|
    ensures OracleRun(steps, target).words[i] == OracleRun(steps[..n], target).words[i]
    decreases |steps|
  {
    hide FirstStep, OracleStep, IsForward, RecordedSlot;
    OracleLength(steps[..n], target);
    if n == |steps| {
      assert steps[..n] == steps;
    } else {
      var m := |steps| - 1;
      forall k | n <= k < m
        ensures !RecordedAt(steps[..m], k, i)
      {
        Prefix(steps, m, k);
        assert !RecordedAt(steps, k, i);
      }
      Prefix(steps, m, n);
      OracleKeeps(steps[..m], n, i, target);
      OracleLength(steps[..m], target);
      assert !RecordedAt(steps, m, i);
      OracleStepKeeps(OracleRun(steps[..m], target), Addresses(steps[..m]), steps[m], target, i);
    }
  }

  // ---------- Jumps that wait ----------

  /** The label of the last jump that is recorded against the next slot, if no word has been pushed since. */
  function WaitingJump(steps: seq<Step>): Option<Bytes>
    decreases |steps|
  {
    if steps == [] then None
    else
      var n := |steps| - 1;
      var p, step := Addresses(steps[..n]), steps[n];
      if WordCount(step, p) == 1 then None
      else if IsForward(p, step) && RecordedSlot(p) == p.count then Some(step.target)
      else WaitingJump(steps[..n])
  }

  /** Where all jumps are to labels that have addresses, none waits. */
  lemma {:induction false} NoJumpWaits(steps: seq<Step>)
    requires forall m :: 0 <= m < |steps| && steps[m].Jump? ==> steps[m].target in Addresses(steps[..m]).labels
    ensures WaitingJump(steps).None?
    decreases |steps|
  {
    hide Addresses, PlainWord;
    if steps != [] {
      var n := |steps| - 1;
      forall m | 0 <= m < n && steps[m].Jump?
        ensures steps[..n][m].target in Addresses(steps[..n][..m]).labels
      {
        assert steps[..n][..m] == steps[..m];
      }
      NoJumpWaits(steps[..n]);
    }
  }

  /** What that jump will put into the next word. */
  function WaitingDisplacement(steps: seq<Step>, target: Target): Option<u32> {
    var l := WaitingJump(steps);
    if l.Some? then Some(Displacement(target(l.value), Wrap(Addresses(steps).count - 1))) else None
  }

  lemma {:induction false} OracleWaits(steps: seq<Step>, target: Target)
    ensures OracleRun(steps, target).waiting == WaitingDisplacement(steps, target)
    decreases |steps|
  {
    hide OracleStep, FirstStep, WordCount, IsForward, RecordedSlot, Displacement, Wrap;
    if steps != [] {
      var n := |steps| - 1;
      OracleWaits(steps[..n], target);
      OracleLength(steps[..n], target);
      OracleStepWaits(OracleRun(steps[..n], target), Addresses(steps[..n]), steps[n], target);
      ForwardHasTarget(Addresses(steps[..n]), steps[n]);
    }
  }

  lemma ForwardHasTarget(p: FirstPass, step: Step)
    ensures IsForward(p, step) ==> step.Branch? || step.Jump?
  {}

  lemma OracleStepWaits(o: Oracle, p: FirstPass, step: Step, target: Target)
    requires |o.words| == p.count
    ensures OracleStep(o, p, step, target).waiting
            == if WordCount(step, p) == 1 then None
               else if IsForward(p, step) && RecordedSlot(p) == p.count then
                 Some(Displacement(target(step.target), Wrap(p.count - 1)))
               else o.waiting
    ensures WordCount(step, p) == 0 || WordCount(step, p) == 1
    ensures FirstStep(p, step).count == p.count + WordCount(step, p)
  {
    hide EmitR, EmitI, EmitS, EmitB, EmitJ, JumpOffset, Displacement, PatchWord, HashOf, Overwritten;
  }

  // ---------- The word at each slot ----------

  /** A forward branch as it is pushed, and as it should read with displacement `d`. */
  function Placeholder(step: Step): u32
    requires step.Branch?
  {
    EmitB(HashOf(step.target), step.a, step.b, step.funct3, step.op)
  }

  function Resolved(step: Step, d: u32): u32
    requires step.Branch?
  {
    EmitB(d, step.b, step.a, step.funct3, step.op)
  }

  /** The word a step leaves at its slot, given the displacement of a jump that waits for it. */
  function Landed(step: Step, p: FirstPass, waiting: Option<u32>, target: Target): u32
    requires WordCount(step, p) == 1
  {
    if !IsForward(p, step) then Overwritten(Words(step, p, target)[0], waiting)
    else
      var w := Overwritten(Placeholder(step), waiting);
      if RecordedSlot(p) == p.count then PatchWord(B_TYPE, w, RecordedDisplacement(p, target(step.target))) else w
  }

  lemma OracleStepLands(o: Oracle, p: FirstPass, step: Step, target: Target)
    requires |o.words| == p.count && WordCount(step, p) == 1
    ensures var o' := OracleStep(o, p, step, target);
            p.count < |o'.words| && o'.words[p.count] == Landed(step, p, o.waiting, target)
  {
    hide EmitR, EmitI, EmitS, EmitB, EmitJ, JumpOffset, Displacement, PatchWord, HashOf, Overwritten;
  }

  /** For every run and every slot that no later reference is recorded against: the word there is the one that the
      step for it left, with the addresses of the final map. */
  lemma WordSettles(steps: seq<Step>, n: nat)
    requires !Run(steps).exited && n < |steps| && Pushes(steps, n) && Untouched(steps, n + 1, Slot(steps, n))
    ensures var target := ByHash(Run(steps).elf.labelToAddr);
            Slot(steps, n) < |Assembled(steps).text|
            && Assembled(steps).text[Slot(steps, n)]
               == Landed(steps[n], Addresses(steps[..n]), WaitingDisplacement(steps[..n], target), target)
  {
    hide Run, Assembled, ByHash, Landed, OracleStep, WaitingDisplacement, PlainWord, FirstStep;
    var target := ByHash(Run(steps).elf.labelToAddr);
    BackPatchingIsOracle(steps);
    SlotsGrow(steps, n, n + 1);
    OracleKeeps(steps, n + 1, Slot(steps, n), target);
    assert steps[..n + 1][..n] == steps[..n];
    OracleLength(steps[..n], target);
    OracleWaits(steps[..n], target);
    OracleStepLands(OracleRun(steps[..n], target), Addresses(steps[..n]), steps[n], target);
  }

  // ---------- When it is the word of the two passes ----------

  /** The forward branch `step`, resolved to `f`, is the one the two passes resolve to `g`: recorded in its place, the
      addresses must agree modulo 4096, and a waiting jump must have left registers and function code as they were;
      recorded elsewhere, it must happen that the placeholder, after a waiting jump, is the right word. */
  predicate ForwardLands(step: Step, p: FirstPass, waiting: Option<u32>, f: u32, g: u32)
    requires step.Branch?
  {
    var d := Displacement(g, Wrap(p.count - 1));
    if RecordedSlot(p) == p.count then
      f % 0x1000 == g % 0x1000
      && (waiting.Some? ==> var i := UnpackB(PatchWord(J_TYPE, Placeholder(step), waiting.value));
                            i.rs1 == step.b && i.rs2 == step.a && i.funct3 == step.funct3)
    else if waiting.None? then step.a == step.b && BranchBits(HashOf(step.target)) == BranchBits(d)
    else
      Resolved(step, d) % 0x1000 == Placeholder(step) % 0x1000
      && ImmJ(UnpackJ(Resolved(step, d))) == JumpBits(waiting.value)
  }

  /** Any other word is kept when no jump waits for it, or when its upper 20 bits happen to be that jump's. */
  predicate StepLands(step: Step, p: FirstPass, waiting: Option<u32>, f: Target, g: Target)
    requires WordCount(step, p) == 1
  {
    if IsForward(p, step) then ForwardLands(step, p, waiting, f(step.target), g(step.target))
    else waiting.Some? ==> ImmJ(UnpackJ(Words(step, p, g)[0])) == JumpBits(waiting.value)
  }

  lemma ForwardLandsExactly(step: Step, p: FirstPass, waiting: Option<u32>, f: Target, g: Target)
    requires step.Branch? && step.target !in p.labels
    ensures Landed(step, p, waiting, f) == Resolved(step, Displacement(g(step.target), Wrap(p.count - 1)))
            <==> ForwardLands(step, p, waiting, f(step.target), g(step.target))
  {
    hide EmitB, UnpackB, UnpackJ, ImmJ, PatchWord, Displacement, BranchBits, JumpBits, HashOf;
    var hash, x, y := HashOf(step.target), f(step.target), g(step.target);
    var pc := Wrap(p.count - 1);
    if RecordedSlot(p) == p.count {
      SlotIsCount(p);
      PlaceholderFields(step, waiting);
      InPlaceExactly(Overwritten(Placeholder(step), waiting), step, x, y, pc);
    } else if waiting.None? {
      EmitBEqual(hash, step.a, step.b, step.funct3, Displacement(y, pc), step.b, step.a, step.funct3, step.op);
    } else {
      PatchedByJumpIs(Placeholder(step), waiting.value, Resolved(step, Displacement(y, pc)));
    }
  }

  /** A branch patch of `insn` gives the right word exactly when the fields of `insn` and the addresses agree. */
  lemma InPlaceExactly(insn: u32, step: Step, x: u32, y: u32, pc: u32)
    requires step.Branch? && UnpackB(insn).opcode == step.op
    ensures PatchWord(B_TYPE, insn, Displacement(x, pc))
            == Resolved(step, Displacement(y, pc))
            <==> x % 0x1000 == y % 0x1000 && UnpackB(insn).rs1 == step.b && UnpackB(insn).rs2 == step.a
                 && UnpackB(insn).funct3 == step.funct3
  {
    hide EmitB, UnpackB, Displacement;
    var i := UnpackB(insn);
    DisplacementsAgree(x, y, pc);
    EmitBEqual(Displacement(x, pc), i.rs1, i.rs2, i.funct3, Displacement(y, pc), step.b, step.a, step.funct3, step.op);
  }

  lemma PlaceholderFields(step: Step, waiting: Option<u32>)
    requires step.Branch?
    ensures UnpackB(Overwritten(Placeholder(step), waiting)).opcode == step.op
    ensures var i := UnpackB(Placeholder(step));
            i.rs1 == step.b && i.rs2 == step.a && i.funct3 == step.funct3
  {
    hide EmitB, UnpackB, PatchWord, HashOf, BranchBits, ImmB;
    NarrowFieldsDecode(HashOf(step.target), step.a, step.b, step.funct3, step.op);
    OpcodeBits(Placeholder(step));
    OpcodeBits(Overwritten(Placeholder(step), waiting));
    if waiting.Some? {
      PatchKeepsOpcode(J_TYPE, Placeholder(step), waiting.value);
    }
  }

  lemma LandsExactly(step: Step, p: FirstPass, waiting: Option<u32>, f: Target, g: Target)
    requires WordCount(step, p) == 1
    ensures Landed(step, p, waiting, f) == Words(step, p, g)[0] <==> StepLands(step, p, waiting, f, g)
  {
    hide EmitR, EmitI, EmitS, EmitB, EmitJ, JumpOffset, Displacement, PatchWord, HashOf, UnpackJ, ImmJ, JumpBits,
         ForwardLands;
    if IsForward(p, step) {
      ForwardLandsExactly(step, p, waiting, f, g);
      hide Landed;
    } else if waiting.Some? {
      PatchedByJumpIs(Words(step, p, g)[0], waiting.value, Words(step, p, g)[0]);
    }
  }

  /** What the two passes leave at each slot. */
  lemma TwoPassWord(steps: seq<Step>, n: nat, g: Target)
    requires n < |steps| && Pushes(steps, n)
    ensures Slot(steps, n) < |TwoPass(steps, g)|
    ensures TwoPass(steps, g)[Slot(steps, n)] == Words(steps[n], Addresses(steps[..n]), g)[0]
  {
    hide PlainWord, TwoPass;
    TwoPassAt(steps, n, g);
    TwoPassLength(steps[..n], g);
  }

  /** The label map that resolves forward references, and the one that should. */
  function Found(steps: seq<Step>): Target {
    ByHash(Run(steps).elf.labelToAddr)
  }

  function Final(steps: seq<Step>): Target {
    ByName(Addresses(steps).labels)
  }

  lemma FoundIs(steps: seq<Step>)
    ensures Found(steps) == ByHash(Run(steps).elf.labelToAddr)
  {}

  /** The displacement, from the slot before it, to the address that is found for the label that step `n` uses. */
  function FoundDisplacement(steps: seq<Step>, n: nat): u32
    requires n < |steps| && (steps[n].Branch? || steps[n].Jump?)
  {
    Displacement(Found(steps)(steps[n].target), Wrap(Slot(steps, n) - 1))
  }

  predicate Lands(steps: seq<Step>, n: nat)
    requires n < |steps| && Pushes(steps, n)
  {
    var waiting := WaitingDisplacement(steps[..n], Found(steps));
    StepLands(steps[n], Addresses(steps[..n]), waiting, Found(steps), Final(steps))
  }

  /** For every run and every slot that no later reference is recorded against: the word there is the word of the
      two passes exactly when its step lands. */
  lemma WordExact(steps: seq<Step>, n: nat)
    requires !Run(steps).exited && n < |steps| && Pushes(steps, n) && Untouched(steps, n + 1, Slot(steps, n))
    ensures Slot(steps, n) < |Assembled(steps).text| && Slot(steps, n) < |TwoPass(steps, Final(steps))|
    ensures Assembled(steps).text[Slot(steps, n)] == TwoPass(steps, Final(steps))[Slot(steps, n)] <==> Lands(steps, n)
  {
    hide Run, Assembled, TwoPass, ByHash, Landed, StepLands, WaitingDisplacement, PlainWord, Untouched, Addresses;
    WordSettles(steps, n);
    TwoPassWord(steps, n, Final(steps));
    LandsExactly(steps[n], Addresses(steps[..n]), WaitingDisplacement(steps[..n], Found(steps)), Found(steps),
                 Final(steps));
  }

  /** Every slot is filled by a step. */
  lemma {:induction false} SlotFilled(steps: seq<Step>, i: nat) returns (n: nat)
    requires i < Addresses(steps).count
    ensures n < |steps| && Pushes(steps, n) && Slot(steps, n) == i
    decreases |steps|
  {
    hide PlainWord;
    var m := |steps| - 1;
    if i < Addresses(steps[..m]).count {
      n := SlotFilled(steps[..m], i);
      Prefix(steps, m, n);
    } else {
      n := m;
    }
  }

  /** For every run, from any slot on that is not reached again: the program agrees with the two passes exactly when
      every step lands. With `lo == 0` that is the whole program of a run in which nothing is recorded against a
      filled slot; with `lo == 1` it is all but the first word of any run of at most 2^32 words. */
  lemma AgreementExact(steps: seq<Step>, lo: nat)
    requires !Run(steps).exited
    requires forall n :: 0 <= n < |steps| && Pushes(steps, n) && Slot(steps, n) >= lo ==>
                           Untouched(steps, n + 1, Slot(steps, n))
    ensures |Assembled(steps).text| == |TwoPass(steps, Final(steps))|
    ensures (forall i :: lo <= i < |Assembled(steps).text| ==>
                           Assembled(steps).text[i] == TwoPass(steps, Final(steps))[i])
            <==> forall n :: 0 <= n < |steps| && Pushes(steps, n) && Slot(steps, n) >= lo ==> Lands(steps, n)
  {
    hide Run, Assembled, TwoPass, Pushes, Slot, Lands, Untouched, Final;
    var text, two := Assembled(steps).text, TwoPass(steps, Final(steps));
    AssembledLength(steps);
    TwoPassLength(steps, Final(steps));
    forall n | 0 <= n < |steps| && Pushes(steps, n) && Slot(steps, n) >= lo
      ensures Slot(steps, n) < |text| && (text[Slot(steps, n)] == two[Slot(steps, n)] <==> Lands(steps, n))
    {
      WordExact(steps, n);
    }
    if forall n :: 0 <= n < |steps| && Pushes(steps, n) && Slot(steps, n) >= lo ==> Lands(steps, n) {
      forall i | lo <= i < |text|
        ensures text[i] == two[i]
      {
        var n := SlotFilled(steps, i);
      }
    }
  }

  lemma AssembledLength(steps: seq<Step>)
    requires !Run(steps).exited
    ensures |Assembled(steps).text| == Addresses(steps).count
  {
    hide Run, PatchAll, TouchAll;
    AddressesAgree(steps);
  }

  /** The same, read for programs of at most 2^32 words. */
  lemma AgreementAboveZero(steps: seq<Step>)
    requires !Run(steps).exited && |Run(steps).elf.text| <= TWO32
    ensures |Assembled(steps).text| == |TwoPass(steps, Final(steps))|
    ensures (forall i :: 1 <= i < |Assembled(steps).text| ==>
                           Assembled(steps).text[i] == TwoPass(steps, Final(steps))[i])
            <==> forall n :: 0 <= n < |steps| && Pushes(steps, n) && Slot(steps, n) >= 1 ==> Lands(steps, n)
  {
    hide Run, Assembled, TwoPass, Pushes, Lands, Untouched, Final;
    AddressesAgree(steps);
    forall n | 0 <= n < |steps| && Pushes(steps, n) && Slot(steps, n) >= 1
      ensures Untouched(steps, n + 1, Slot(steps, n))
    {
      UntouchedAboveZero(steps, n);
    }
    AgreementExact(steps, 1);
  }
}
