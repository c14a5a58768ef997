/** The first word, in every run: references recorded against slot 0 after it is filled come back to it; and with it
    the whole program against the two passes. */
module FirstWord {
  import opened Machine
  import opened Encoding
  import opened Hash
  import opened Patch
  import opened Strtab
  import opened Assembler
  import opened Lookahead
  import opened Agreement

  // ---------- The patches that come back ----------

  datatype Stray = Stray(insnType: InstType, imm: u32)

  /** A reference outside `.text`, once there is a word: it is recorded against slot 0. */
  predicate ComesBack(p: FirstPass, step: Step) {
    IsForward(p, step) && RecordedSlot(p) == 0 && p.count > 0
  }

  function StrayOf(p: FirstPass, step: Step, target: Target): Stray
    requires ComesBack(p, step)
  {
    Stray(if step.Branch? then B_TYPE else J_TYPE, RecordedDisplacement(p, target(step.target)))
  }

  function StraysOf(steps: seq<Step>, target: Target): seq<Stray>
    decreases |steps|
  {
    if steps == [] then []
    else
      var n := |steps| - 1;
      var p := Addresses(steps[..n]);
      StraysOf(steps[..n], target) + if ComesBack(p, steps[n]) then [StrayOf(p, steps[n], target)] else []
  }

  function AfterStrays(w: u32, strays: seq<Stray>): u32
    decreases |strays|
  {
    if strays == [] then w
    else
      var n := |strays| - 1;
      PatchWord(strays[n].insnType, AfterStrays(w, strays[..n]), strays[n].imm)
  }

  lemma OracleStepFirst(o: Oracle, p: FirstPass, step: Step, target: Target)
    requires |o.words| == p.count > 0
    ensures |OracleStep(o, p, step, target).words| > 0
    ensures OracleStep(o, p, step, target).words[0]
            == if ComesBack(p, step) then
                 var stray := StrayOf(p, step, target);
                 PatchWord(stray.insnType, o.words[0], stray.imm)
               else o.words[0]
  {
    hide EmitR, EmitI, EmitS, EmitB, EmitJ, JumpOffset, Displacement, PatchWord, HashOf, Overwritten;
  }

  lemma {:induction false} NoStraysYet(steps: seq<Step>, target: Target)
    requires Addresses(steps).count == 0
    ensures StraysOf(steps, target) == []
    decreases |steps|
  {
    hide WordCount;
    if steps != [] {
      NoStraysYet(steps[..|steps| - 1], target);
    }
  }

  lemma StraysSnoc(steps: seq<Step>, target: Target)
    requires steps != []
    ensures var n := |steps| - 1;
            var p := Addresses(steps[..n]);
            StraysOf(steps, target)
            == if ComesBack(p, steps[n]) then StraysOf(steps[..n], target) + [StrayOf(p, steps[n], target)]
               else StraysOf(steps[..n], target)
  {
    hide ComesBack, StrayOf, Addresses;
    assert StraysOf(steps[..|steps| - 1], target) + [] == StraysOf(steps[..|steps| - 1], target);
  }

  lemma AfterOneMore(w: u32, strays: seq<Stray>, stray: Stray)
    ensures AfterStrays(w, strays + [stray]) == PatchWord(stray.insnType, AfterStrays(w, strays), stray.imm)
  {
    hide PatchWord;
    assert (strays + [stray])[..|strays|] == strays;
  }

  /** The oracle's first word: what its step left, and then the strays, in order. */
  lemma {:induction false} OracleFirstWord(steps: seq<Step>, n: nat, target: Target)
    requires n < |steps| && Pushes(steps, n) && Slot(steps, n) == 0
    ensures |OracleRun(steps, target).words| > 0
    ensures OracleRun(steps, target).words[0]
            == AfterStrays(Landed(steps[n], Addresses(steps[..n]), WaitingDisplacement(steps[..n], target), target),
                           StraysOf(steps, target))
    decreases |steps|
  {
    hide OracleStep, FirstStep, Landed, WaitingDisplacement, PatchWord, StrayOf, Addresses, StraysOf, WordCount;
    var m := |steps| - 1;
    OracleLength(steps[..m], target);
    StraysSnoc(steps, target);
    if n == m {
      NoStraysYet(steps[..n], target);
      OracleWaits(steps[..n], target);
      OracleStepLands(OracleRun(steps[..n], target), Addresses(steps[..n]), steps[n], target);
    } else {
      Prefix(steps, m, n);
      SlotsGrow(steps, n, m);
      OracleFirstWord(steps[..m], n, target);
      OracleStepFirst(OracleRun(steps[..m], target), Addresses(steps[..m]), steps[m], target);
      if ComesBack(Addresses(steps[..m]), steps[m]) {
        AfterOneMore(Landed(steps[n], Addresses(steps[..n]), WaitingDisplacement(steps[..n], target), target),
                     StraysOf(steps[..m], target), StrayOf(Addresses(steps[..m]), steps[m], target));
      }
    }
  }

  /** What step `n` left at its slot. */
  function LandedAt(steps: seq<Step>, n: nat): u32
    requires n < |steps| && Pushes(steps, n)
  {
    Landed(steps[n], Addresses(steps[..n]), WaitingDisplacement(steps[..n], Found(steps)), Found(steps))
  }

  /** For every run: the first word is what its step left there, patched by every stray in order. */
  lemma FirstWordSettles(steps: seq<Step>, n: nat)
    requires !Run(steps).exited && n < |steps| && Pushes(steps, n) && Slot(steps, n) == 0
    ensures |Assembled(steps).text| > 0
    ensures Assembled(steps).text[0] == AfterStrays(LandedAt(steps, n), StraysOf(steps, Found(steps)))
  {
    hide Run, Assembled, ByHash, Landed, StraysOf, WaitingDisplacement, AfterStrays, Addresses;
    BackPatchingIsOracle(steps);
    FoundIs(steps);
    OracleFirstWord(steps, n, Found(steps));
  }

  // ---------- In closed form ----------

  /** What matters of the strays: the last jump, the last branch, and how many branches follow the last jump. */
  datatype Digest = Digest(jump: Option<u32>, branch: Option<u32>, flips: nat)

  function DigestOf(strays: seq<Stray>): (g: Digest)
    ensures g.flips > 0 ==> g.branch.Some?
    ensures g.flips == 0 && g.jump.None? <==> strays == []
    decreases |strays|
  {
    if strays == [] then Digest(None, None, 0)
    else
      var n := |strays| - 1;
      var g := DigestOf(strays[..n]);
      if strays[n].insnType == J_TYPE then g.(jump := Some(strays[n].imm), flips := 0)
      else g.(branch := Some(strays[n].imm), flips := g.flips + 1)
  }

  /** The word whose register and function fields the branches among the strays find: bits of the last jump, or those
      of the word itself. */
  function Base(w: u32, g: Digest): u32 {
    if g.jump.Some? then JumpUpper(g.jump.value) else w
  }

  predicate Odd(n: nat) {
    n % 2 == 1
  }

  lemma OddNext(n: nat)
    ensures Odd(n + 1) == !Odd(n) && !Odd(0)
  {}

  /** The last stray decides the immediate. After branches, registers and function code are those of the base, the
      registers exchanged when the branches since the last jump are odd in number; after a jump, the register field
      holds bits of the last branch, or what was there. The opcode stays. */
  function Digested(w: u32, g: Digest): u32
    requires g.flips > 0 ==> g.branch.Some?
  {
    if g.flips > 0 then
      var i := UnpackB(Base(w, g));
      if Odd(g.flips) then EmitB(g.branch.value, i.rs1, i.rs2, i.funct3, UnpackB(w).opcode)
      else EmitB(g.branch.value, i.rs2, i.rs1, i.funct3, UnpackB(w).opcode)
    else if g.jump.Some? then
      EmitJ(g.jump.value, if g.branch.Some? then BranchRd(g.branch.value) else UnpackJ(w).rd, UnpackJ(w).opcode)
    else w
  }

  predicate BranchOrJump(strays: seq<Stray>) {
    forall k :: 0 <= k < |strays| ==> strays[k].insnType == B_TYPE || strays[k].insnType == J_TYPE
  }

  lemma SameOpcode(w: u32)
    ensures UnpackB(w).opcode == UnpackJ(w).opcode
  {}

  lemma NarrowBranchAsJump(imm: u32, rs2: b5, rs1: b5, funct3: b3, opcode: b7)
    ensures var i := UnpackJ(EmitB(imm, rs2, rs1, funct3, opcode)); i.rd == BranchRd(imm) && i.opcode == opcode
  {
    hide EmitB, UnpackJ, BranchRd;
    BranchAsJump(imm, rs2, rs1, funct3, opcode);
  }

  lemma BranchOnDigested(w: u32, g: Digest, imm: u32)
    requires g.flips > 0 ==> g.branch.Some?
    ensures PatchWord(B_TYPE, Digested(w, g), imm) == Digested(w, g.(branch := Some(imm), flips := g.flips + 1))
  {
    hide EmitB, EmitJ, EmitU, UnpackB, UnpackJ, UnpackU, JumpUpper, BranchBits, JumpBits, ImmB, ImmJ, BranchRd, Odd;
    OddNext(g.flips);
    SameOpcode(w);
    var i, op := UnpackB(Base(w, g)), UnpackB(w).opcode;
    if g.flips > 0 {
      NarrowFieldsDecode(g.branch.value, i.rs1, i.rs2, i.funct3, op);
      NarrowFieldsDecode(g.branch.value, i.rs2, i.rs1, i.funct3, op);
    } else if g.jump.Some? {
      var rd := if g.branch.Some? then BranchRd(g.branch.value) else UnpackJ(w).rd;
      JumpAsBranch(g.jump.value, rd, UnpackJ(w).opcode);
      NarrowJumpDecodes(g.jump.value, rd, UnpackJ(w).opcode);
      SameOpcode(EmitJ(g.jump.value, rd, UnpackJ(w).opcode));
    }
  }

  lemma JumpOnDigested(w: u32, g: Digest, imm: u32)
    requires (g.flips > 0 ==> g.branch.Some?) && (g.flips == 0 && g.branch.Some? ==> g.jump.Some?)
    ensures PatchWord(J_TYPE, Digested(w, g), imm) == Digested(w, g.(jump := Some(imm), flips := 0))
  {
    hide EmitB, EmitJ, EmitU, UnpackB, UnpackJ, UnpackU, JumpUpper, JumpBits, ImmJ, BranchRd, Odd;
    SameOpcode(w);
    var i, op := UnpackB(Base(w, g)), UnpackB(w).opcode;
    if g.flips > 0 {
      NarrowBranchAsJump(g.branch.value, i.rs1, i.rs2, i.funct3, op);
      NarrowBranchAsJump(g.branch.value, i.rs2, i.rs1, i.funct3, op);
    } else if g.jump.Some? {
      NarrowJumpDecodes(g.jump.value, if g.branch.Some? then BranchRd(g.branch.value) else UnpackJ(w).rd, op);
    }
  }

  lemma {:induction false} StraysDigested(w: u32, strays: seq<Stray>)
    requires BranchOrJump(strays)
    ensures AfterStrays(w, strays) == Digested(w, DigestOf(strays))
    decreases |strays|
  {
    hide PatchWord, Digested;
    if strays == [] {
      NothingDigested(w);
    } else {
      var n := |strays| - 1;
      StraysDigested(w, strays[..n]);
      if strays[n].insnType == J_TYPE {
        JumpOnDigested(w, DigestOf(strays[..n]), strays[n].imm);
      } else {
        BranchOnDigested(w, DigestOf(strays[..n]), strays[n].imm);
      }
    }
  }

  lemma NothingDigested(w: u32)
    ensures Digested(w, Digest(None, None, 0)) == w
  {}

  lemma {:induction false} StraysAreBranchesOrJumps(steps: seq<Step>, target: Target)
    ensures BranchOrJump(StraysOf(steps, target))
    decreases |steps|
  {
    hide Addresses, ComesBack, RecordedDisplacement;
    if steps != [] {
      StraysAreBranchesOrJumps(steps[..|steps| - 1], target);
    }
  }

  // ---------- When the first word is that of the two passes ----------

  /** The fields of `v` are those that the strays leave of `w`. */
  predicate Leaves(w: u32, g: Digest, v: u32)
    requires g.flips > 0 ==> g.branch.Some?
  {
    if g.flips > 0 then
      var i, j := UnpackB(Base(w, g)), UnpackB(v);
      && (if Odd(g.flips) then j.rs1 == i.rs2 && j.rs2 == i.rs1 else j.rs1 == i.rs1 && j.rs2 == i.rs2)
      && j.funct3 == i.funct3 && j.opcode == UnpackB(w).opcode && ImmB(j) == BranchBits(g.branch.value)
    else if g.jump.Some? then
      var j := UnpackJ(v);
      && j.rd == (if g.branch.Some? then BranchRd(g.branch.value) else UnpackJ(w).rd)
      && j.opcode == UnpackJ(w).opcode && ImmJ(j) == JumpBits(g.jump.value)
    else v == w
  }

  lemma DigestedIs(w: u32, g: Digest, v: u32)
    requires g.flips > 0 ==> g.branch.Some?
    ensures Digested(w, g) == v <==> Leaves(w, g, v)
  {
    hide EmitB, EmitJ, UnpackB, UnpackJ, ImmB, ImmJ, BranchBits, JumpBits, BranchRd, JumpUpper, Odd;
    var i, op := UnpackB(Base(w, g)), UnpackB(w).opcode;
    if g.flips > 0 {
      IsEmittedBranch(v, g.branch.value, i.rs1, i.rs2, i.funct3, op);
      IsEmittedBranch(v, g.branch.value, i.rs2, i.rs1, i.funct3, op);
    } else if g.jump.Some? {
      IsEmittedJump(v, g.jump.value, if g.branch.Some? then BranchRd(g.branch.value) else UnpackJ(w).rd,
                    UnpackJ(w).opcode);
    }
  }

  /** The digest of all strays of a run. */
  function StrayDigest(steps: seq<Step>): (g: Digest)
    ensures g.flips > 0 ==> g.branch.Some?
  {
    DigestOf(StraysOf(steps, Found(steps)))
  }

  /** For every run: the strays decide the first word, in closed form; it is `v` exactly when the fields of `v` are
      those they leave. */
  lemma StrayDecidesFirstWord(steps: seq<Step>, n: nat, v: u32)
    requires !Run(steps).exited && n < |steps| && Pushes(steps, n) && Slot(steps, n) == 0
    ensures |Assembled(steps).text| > 0
    ensures Assembled(steps).text[0] == v
            <==> Leaves(LandedAt(steps, n), StrayDigest(steps), v)
  {
    hide Run, Assembled, LandedAt, StraysOf, DigestOf, Digested, Leaves, AfterStrays, Found, Addresses;
    var strays := StraysOf(steps, Found(steps));
    FirstWordSettles(steps, n);
    StraysAreBranchesOrJumps(steps, Found(steps));
    StraysDigested(LandedAt(steps, n), strays);
    DigestedIs(LandedAt(steps, n), DigestOf(strays), v);
  }

  // ---------- The whole program ----------

  /** What the two passes have for step `n`. */
  function Expected(steps: seq<Step>, n: nat): u32
    requires n < |steps| && Pushes(steps, n)
  {
    Words(steps[n], Addresses(steps[..n]), Final(steps))[0]
  }

  /** Step `n` lands: above slot 0 as without strays, and at slot 0 when what they leave is the right word. */
  predicate LandsFinally(steps: seq<Step>, n: nat)
    requires n < |steps| && Pushes(steps, n)
  {
    if Slot(steps, n) > 0 || StrayDigest(steps) == Digest(None, None, 0) then Lands(steps, n)
    else Leaves(LandedAt(steps, n), StrayDigest(steps), Expected(steps, n))
  }

  lemma FirstWordExact(steps: seq<Step>, n: nat)
    requires !Run(steps).exited && n < |steps| && Pushes(steps, n) && Slot(steps, n) == 0
    ensures |Assembled(steps).text| > 0 && |TwoPass(steps, Final(steps))| > 0
    ensures Assembled(steps).text[0] == TwoPass(steps, Final(steps))[0] <==> LandsFinally(steps, n)
  {
    hide Run, Assembled, TwoPass, StraysOf, DigestOf, Landed, StepLands, WaitingDisplacement, Addresses, Found, Final;
    TwoPassWord(steps, n, Final(steps));
    StrayDecidesFirstWord(steps, n, Expected(steps, n));
    LandsExactly(steps[n], Addresses(steps[..n]), WaitingDisplacement(steps[..n], Found(steps)), Found(steps),
                 Final(steps));
  }

  /** For every run of at most 2^32 words, whatever its references: the program is that of the two passes exactly when
      every step lands. */
  lemma WholeProgramExact(steps: seq<Step>)
    requires !Run(steps).exited && |Run(steps).elf.text| <= TWO32
    ensures Assembled(steps).text == TwoPass(steps, Final(steps))
            <==> forall n :: 0 <= n < |steps| && Pushes(steps, n) ==> LandsFinally(steps, n)
  {
    hide Run, Assembled, TwoPass, Pushes, Slot, LandsFinally, Lands, Final;
    var text, two := Assembled(steps).text, TwoPass(steps, Final(steps));
    AgreementAboveZero(steps);
    forall n | 0 <= n < |steps| && Pushes(steps, n)
      ensures Slot(steps, n) >= 1 ==> (Lands(steps, n) <==> LandsFinally(steps, n))
      ensures Slot(steps, n) == 0 ==> |text| > 0 && (text[0] == two[0] <==> LandsFinally(steps, n))
    {
      if Slot(steps, n) == 0 {
        FirstWordExact(steps, n);
      } else {
        LandsAbove(steps, n);
      }
    }
    if |text| > 0 {
      AssembledLength(steps);
      var n := SlotFilled(steps, 0);
    }
  }

  lemma LandsAbove(steps: seq<Step>, n: nat)
    requires n < |steps| && Pushes(steps, n) && Slot(steps, n) > 0
    ensures Lands(steps, n) <==> LandsFinally(steps, n)
  {
    hide Pushes, Slot, Lands, Leaves, StrayDigest, LandedAt, Expected;
  }
}
