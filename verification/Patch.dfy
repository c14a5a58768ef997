/** Back-patching: what the final loop of the assembler does to the text words. */
module Patch {
  import opened Machine
  import opened Encoding

  datatype InstType = B_TYPE | R_TYPE | I_TYPE | S_TYPE | U_TYPE | J_TYPE

  /** An instruction whose label had no address when it was emitted. */
  datatype UnresolvedInst = UnresolvedInst(insnNumber: u32, pcInsnNumber: u32, insnType: InstType, hash: u32)

  type LabelAddresses = map<u32, u32>

  /** `std::map::operator[]`: a missing hash reads as address 0. */
  function AddressOf(labels: LabelAddresses, hash: u32): u32 {
    if hash in labels then labels[hash] else 0
  }

  /** The patched displacement: a `uint32_t` difference, scaled in 64 bits, truncated to 32. */
  function Displacement(target: u32, pc: u32): u32 {
    Wrap(Wrap(target - pc) * 4 / 2)
  }

  predicate Patchable(t: InstType) {
    t == B_TYPE || t == U_TYPE || t == J_TYPE
  }

  /** The word an entry of type `t` writes over `insn`. */
  function PatchWord(t: InstType, insn: u32, imm: u32): u32 {
    match t
    case B_TYPE => var b := UnpackB(insn); EmitB(imm, b.rs1, b.rs2, b.funct3, b.opcode)
    case U_TYPE => var u := UnpackU(insn); EmitU(imm, u.rd, u.opcode)
    case J_TYPE => var j := UnpackJ(insn); EmitJ(imm, j.rd, j.opcode)
    case _ => insn
  }

  function PatchEntry(insn: u32, e: UnresolvedInst, labels: LabelAddresses): u32 {
    PatchWord(e.insnType, insn, Displacement(AddressOf(labels, e.hash), e.pcInsnNumber))
  }

  /** One round of the loop. An entry whose slot is out of range reads nothing and writes nothing. */
  function PatchOne(text: seq<u32>, e: UnresolvedInst, labels: LabelAddresses): (r: seq<u32>)
    ensures |r| == |text|
  {
    if Patchable(e.insnType) && e.insnNumber < |text|
    then text[e.insnNumber := PatchEntry(text[e.insnNumber], e, labels)]
    else text
  }

  function PatchAll(text: seq<u32>, entries: seq<UnresolvedInst>, labels: LabelAddresses): (r: seq<u32>)
    ensures |r| == |text|
    decreases |entries|
  {
    if entries == [] then text
    else
      var n := |entries| - 1;
      PatchOne(PatchAll(text, entries[..n], labels), entries[n], labels)
  }

  /** The address map after a round: looking up a missing hash inserts it. */
  function TouchOne(labels: LabelAddresses, e: UnresolvedInst): LabelAddresses {
    if Patchable(e.insnType) then labels[e.hash := AddressOf(labels, e.hash)] else labels
  }

  function TouchAll(labels: LabelAddresses, entries: seq<UnresolvedInst>): (r: LabelAddresses)
    ensures forall h: u32 :: AddressOf(r, h) == AddressOf(labels, h)
    decreases |entries|
  {
    if entries == [] then labels
    else
      var n := |entries| - 1;
      TouchOne(TouchAll(labels, entries[..n]), entries[n])
  }

  lemma PatchOneSame(text: seq<u32>, e: UnresolvedInst, labels: LabelAddresses, labels': LabelAddresses)
    requires AddressOf(labels, e.hash) == AddressOf(labels', e.hash)
    ensures PatchOne(text, e, labels) == PatchOne(text, e, labels')
  {}

  // ---------- The displacement ----------

  lemma DisplacementIsTwiceTheDifference(target: u32, pc: u32)
    ensures Displacement(target, pc) == Wrap(2 * (target - pc))
    ensures Signed(Displacement(target, pc), 0x8000_0000) == 2 * (target - pc)
            <==> -0x4000_0000 <= target - pc < 0x4000_0000
  {
    var d := target - pc;
    if d < 0 {
      assert Wrap(d) == d + TWO32;
    }
  }

  /** The pc of a recorded instruction is the slot before its own, also for slot 0. */
  lemma DisplacementFromSlot(target: u32, slot: nat)
    ensures Displacement(target, Wrap(slot - 1)) == Wrap(2 * (target - (slot - 1)))
  {
    var pc := Wrap(slot - 1);
    var q := (slot - 1) / TWO32;
    assert slot - 1 == TWO32 * q + pc;
    DisplacementIsTwiceTheDifference(target, pc);
    hide Displacement;
    var d := 2 * (target - (slot - 1));
    assert 2 * (target - pc) == d + TWO32 * (2 * q);
    DivMod(2 * (target - pc), TWO32, d / TWO32 + 2 * q, Wrap(d));
  }

  /** Displacements to two targets put the same bits into a branch exactly when the targets agree modulo 4096. */
  lemma DisplacementsAgree(a: u32, b: u32, pc: u32)
    ensures Displacement(a, pc) % 2 == 0 == Displacement(b, pc) % 2
    ensures Displacement(a, pc) % 0x2000 == Displacement(b, pc) % 0x2000 <==> a % 0x1000 == b % 0x1000
  {
    DisplacementLowBits(a, pc);
    DisplacementLowBits(b, pc);
    hide Displacement;
    var x, y := (a - pc) % 0x1000, (b - pc) % 0x1000;
    if a % 0x1000 == b % 0x1000 {
      var k := a / 0x1000 - b / 0x1000;
      assert a - pc == (b - pc) + 0x1000 * k;
      DivMod(a - pc, 0x1000, (b - pc) / 0x1000 + k, y);
    }
    if x == y {
      var k := (a - pc) / 0x1000 - (b - pc) / 0x1000;
      assert a == b + 0x1000 * k;
      DivMod(a, 0x1000, b / 0x1000 + k, b % 0x1000);
    }
  }

  lemma DisplacementLowBits(target: u32, pc: u32)
    ensures Displacement(target, pc) % 2 == 0
    ensures Displacement(target, pc) % 0x2000 == 2 * ((target - pc) % 0x1000)
  {
    var d := target - pc;
    DisplacementIsTwiceTheDifference(target, pc);
    hide Displacement;
    var q := (2 * d) / TWO32;
    assert Wrap(2 * d) == 2 * d - q * TWO32;
    assert Wrap(2 * d) == 0x2000 * (d / 0x1000 - q * 0x8_0000) + 2 * (d % 0x1000);
    DivMod(Wrap(2 * d), 0x2000, d / 0x1000 - q * 0x8_0000, 2 * (d % 0x1000));
    assert Wrap(2 * d) == 2 * (d - q * 0x8000_0000);
  }

  // ---------- What a patched word means ----------

  /** A patched branch: codes kept, source registers exchanged, and no trace of the old immediate. */
  lemma PatchedBranch(insn: u32, target: u32, pc: u32)
    ensures var b, p := UnpackB(insn), UnpackB(PatchWord(B_TYPE, insn, Displacement(target, pc)));
            p.rs1 == b.rs2 && p.rs2 == b.rs1 && p.funct3 == b.funct3 && p.opcode == b.opcode
    ensures OffsetB(PatchWord(B_TYPE, insn, Displacement(target, pc))) == 2 * (target - pc)
            <==> -0x1000 <= 2 * (target - pc) < 0x1000
  {
    hide EmitB, UnpackB, ImmB, OffsetB, Displacement;
    var b := UnpackB(insn);
    DisplacementIsTwiceTheDifference(target, pc);
    EmitBDecodes(Displacement(target, pc), b.rs1, b.rs2, b.funct3, b.opcode);
    BranchOffsetExact(2 * (target - pc), b.rs1, b.rs2, b.funct3, b.opcode);
  }

  lemma PatchedJump(insn: u32, target: u32, pc: u32)
    ensures var j, p := UnpackJ(insn), UnpackJ(PatchWord(J_TYPE, insn, Displacement(target, pc)));
            p.rd == j.rd && p.opcode == j.opcode
    ensures OffsetJ(PatchWord(J_TYPE, insn, Displacement(target, pc))) == 2 * (target - pc)
            <==> -0x10_0000 <= 2 * (target - pc) < 0x10_0000
  {
    hide EmitJ, UnpackJ, ImmJ, OffsetJ, Displacement;
    var j := UnpackJ(insn);
    DisplacementIsTwiceTheDifference(target, pc);
    EmitJDecodes(Displacement(target, pc), j.rd, j.opcode);
    JumpOffsetExact(2 * (target - pc), j.rd, j.opcode);
  }

  /** A patched upper immediate keeps the register and takes the low 20 bits of the displacement, unshifted. */
  lemma PatchedUpper(insn: u32, imm: u32)
    ensures UnpackU(PatchWord(U_TYPE, insn, imm)) == UnpackU(insn).(imm := imm % 0x10_0000)
  {
    hide PackU, UnpackU;
    var u := UnpackU(insn);
    BijectionU(UType(u.opcode, u.rd, imm % 0x10_0000), 0);
  }

  /** Patching an emitted branch does not depend on the placeholder: the word is the one emitted with the
      displacement in the first place, with the registers in the other order. */
  lemma PatchForgetsPlaceholder(placeholder: u32, rs2: u32, rs1: u32, funct3: u32, opcode: u32, imm: u32)
    requires rs2 < 0x20 && rs1 < 0x20 && funct3 < 0x8 && opcode < 0x80
    ensures PatchWord(B_TYPE, EmitB(placeholder, rs2, rs1, funct3, opcode), imm) == EmitB(imm, rs1, rs2, funct3, opcode)
  {
    hide EmitB, UnpackB;
    EmitBDecodes(placeholder, rs2, rs1, funct3, opcode);
  }

  /** One patch exchanges the source registers of a branch; a second patch restores the emitted order. */
  lemma PatchTwice(insn: u32, first: u32, second: u32)
    ensures var b := UnpackB(insn);
            PatchWord(B_TYPE, PatchWord(B_TYPE, insn, first), second)
            == EmitB(second, b.rs2, b.rs1, b.funct3, b.opcode)
  {
    hide EmitB, UnpackB;
    var b := UnpackB(insn);
    PatchForgetsPlaceholder(first, b.rs1, b.rs2, b.funct3, b.opcode, second);
  }

  type Registers = b5 -> u32

  /** When the standard takes a `beq` (section 2.5.2): its two source registers are equal. */
  predicate BeqTaken(insn: u32, regs: Registers) {
    regs(UnpackB(insn).rs1) == regs(UnpackB(insn).rs2)
  }

  /** `beq $2, $4`: the word emitted for it, and that word patched, are taken under the same, written, condition. */
  lemma BranchMeaning(offset: u32, a: b5, b: b5, opcode: b7, imm: u32, regs: Registers)
    ensures var emitted := EmitB(offset, a, b, 0, opcode);
            var patched := PatchWord(B_TYPE, emitted, imm);
            (BeqTaken(emitted, regs) <==> regs(a) == regs(b)) && (BeqTaken(patched, regs) <==> regs(a) == regs(b))
            && UnpackB(emitted).rs1 == b && UnpackB(emitted).rs2 == a
            && UnpackB(patched).rs1 == a && UnpackB(patched).rs2 == b
  {
    hide EmitB, UnpackB, PatchWord;
    EmitBDecodes(offset, a, b, 0, opcode);
    EmitBDecodes(imm, b, a, 0, opcode);
    PatchForgetsPlaceholder(offset, a, b, 0, opcode, imm);
  }

  /** The patched displacement counts two bytes per instruction from the slot before the branch, so it is the
      byte distance from the branch to its target exactly when the target is the very next instruction. */
  lemma DisplacementVersusByteDistance(slot: nat, target: nat)
    requires slot < 0x2000_0000 && target < 0x2000_0000
    ensures Signed(Displacement(target, Wrap(slot - 1)), 0x8000_0000) == 4 * (target - slot) <==> target == slot + 1
  {
    DisplacementFromSlot(target, slot);
  }

  // ---------- Patches of jumps, over words that may be anything ----------

  /** A jump patch keeps the low 12 bits of whatever word it meets and puts the displacement into the others. */
  lemma PatchedByJump(insn: u32, imm: u32)
    ensures var p := PatchWord(J_TYPE, insn, imm);
            p % 0x1000 == insn % 0x1000 && ImmJ(UnpackJ(p)) == JumpBits(imm)
  {
    hide EmitJ, UnpackJ, ImmJ;
    var j := UnpackJ(insn);
    EmitJDecodes(imm, j.rd, j.opcode);
    LowTwelveBits(insn);
    LowTwelveBits(EmitJ(imm, j.rd, j.opcode));
  }

  /** A word is determined by those two parts; so a word survives a jump patch exactly when its upper bits already
      held the displacement. */
  lemma PatchedByJumpIs(insn: u32, imm: u32, w: u32)
    ensures PatchWord(J_TYPE, insn, imm) == w <==> w % 0x1000 == insn % 0x1000 && ImmJ(UnpackJ(w)) == JumpBits(imm)
  {
    hide EmitJ, UnpackJ, ImmJ, JumpBits, PatchWord;
    PatchedByJump(insn, imm);
    SameJump(PatchWord(J_TYPE, insn, imm), w);
  }

  lemma SameJump(v: u32, w: u32)
    ensures v == w <==> v % 0x1000 == w % 0x1000 && ImmJ(UnpackJ(v)) == ImmJ(UnpackJ(w))
  {
    hide EmitJ, UnpackJ, ImmJ;
    if v % 0x1000 == w % 0x1000 {
      LowTwelveBits(v);
      LowTwelveBits(w);
      ReemitBranchAndJump(v);
      ReemitBranchAndJump(w);
    }
  }

  lemma LowTwelveBits(w: u32)
    ensures w % 0x1000 == UnpackJ(w).rd * 0x80 + UnpackJ(w).opcode
    ensures UnpackJ(w).rd == w % 0x1000 / 0x80 && UnpackJ(w).opcode == w % 0x1000 % 0x80
  {
    Peel(w, 0x80, 0x20, 0x1000);
    DivMod(w % 0x1000, 0x80, UnpackJ(w).rd, UnpackJ(w).opcode);
  }

  /** The last of several jump patches decides. */
  lemma PatchedByJumps(insn: u32, imm: u32, imm': u32)
    ensures PatchWord(J_TYPE, PatchWord(J_TYPE, insn, imm), imm') == PatchWord(J_TYPE, insn, imm')
  {
    hide EmitJ, UnpackJ;
    EmitJDecodes(imm, UnpackJ(insn).rd, UnpackJ(insn).opcode);
  }

  // ---------- The loop as a whole ----------

  lemma OpcodeBits(w: u32)
    ensures UnpackB(w).opcode == UnpackU(w).opcode == UnpackJ(w).opcode == w % 0x80
  {}

  /** Every patch keeps the seven opcode bits. */
  lemma PatchKeepsOpcode(t: InstType, insn: u32, imm: u32)
    ensures PatchWord(t, insn, imm) % 0x80 == insn % 0x80
  {
    hide EmitB, EmitU, EmitJ, UnpackB, UnpackU, UnpackJ;
    OpcodeBits(insn);
    OpcodeBits(PatchWord(t, insn, imm));
    match t
    case B_TYPE =>
      var b := UnpackB(insn);
      EmitBDecodes(imm, b.rs1, b.rs2, b.funct3, b.opcode);
    case J_TYPE =>
      var j := UnpackJ(insn);
      EmitJDecodes(imm, j.rd, j.opcode);
    case U_TYPE =>
      PatchedUpper(insn, imm);
    case _ =>
  }

  /** The patches that reach slot `i`, applied in order to the word there. */
  function PatchesAt(insn: u32, i: nat, entries: seq<UnresolvedInst>, labels: LabelAddresses): u32
    decreases |entries|
  {
    if entries == [] then insn
    else
      var n := |entries| - 1;
      var before := PatchesAt(insn, i, entries[..n], labels);
      if entries[n].insnNumber == i then PatchEntry(before, entries[n], labels) else before
  }

  /** For any entry list whatever: each slot undergoes the patches that name it, in order, and no others. */
  lemma {:induction false} PatchAllAt(text: seq<u32>, entries: seq<UnresolvedInst>, labels: LabelAddresses, i: nat)
    requires i < |text|
    ensures PatchAll(text, entries, labels)[i] == PatchesAt(text[i], i, entries, labels)
    decreases |entries|
  {
    hide PatchWord, Displacement;
    if entries != [] {
      var n := |entries| - 1;
      PatchAllAt(text, entries[..n], labels, i);
      UnpatchableKept(entries[n], PatchesAt(text[i], i, entries[..n], labels), labels);
    }
  }

  lemma UnpatchableKept(e: UnresolvedInst, insn: u32, labels: LabelAddresses)
    ensures !Patchable(e.insnType) ==> PatchEntry(insn, e, labels) == insn
  {}

  ghost predicate Named(entries: seq<UnresolvedInst>, i: nat) {
    exists k :: 0 <= k < |entries| && entries[k].insnNumber == i && Patchable(entries[k].insnType)
  }

  /** The frame of the loop: the length, every unnamed slot, and every opcode are kept. */
  lemma PatchAllFrame(text: seq<u32>, entries: seq<UnresolvedInst>, labels: LabelAddresses)
    ensures |PatchAll(text, entries, labels)| == |text|
    ensures forall i :: 0 <= i < |text| && !Named(entries, i) ==> PatchAll(text, entries, labels)[i] == text[i]
    ensures forall i :: 0 <= i < |text| ==> PatchAll(text, entries, labels)[i] % 0x80 == text[i] % 0x80
  {
    hide PatchEntry;
    forall i | 0 <= i < |text|
      ensures !Named(entries, i) ==> PatchAll(text, entries, labels)[i] == text[i]
      ensures PatchAll(text, entries, labels)[i] % 0x80 == text[i] % 0x80
    {
      PatchAllAt(text, entries, labels, i);
      PatchesAtFrame(text[i], i, entries, labels);
    }
  }

  lemma {:induction false} PatchesAtFrame(insn: u32, i: nat, entries: seq<UnresolvedInst>, labels: LabelAddresses)
    ensures !Named(entries, i) ==> PatchesAt(insn, i, entries, labels) == insn
    ensures PatchesAt(insn, i, entries, labels) % 0x80 == insn % 0x80
    decreases |entries|
  {
    hide PatchWord, Displacement;
    if entries != [] {
      var n := |entries| - 1;
      var before := PatchesAt(insn, i, entries[..n], labels);
      PatchesAtFrame(insn, i, entries[..n], labels);
      UnpatchableKept(entries[n], before, labels);
      PatchKeepsOpcode(entries[n].insnType, before,
                       Displacement(AddressOf(labels, entries[n].hash), entries[n].pcInsnNumber));
      if Named(entries[..n], i) {
        NamedPrefix(entries, i, n);
      }
    }
  }

  lemma NamedPrefix(entries: seq<UnresolvedInst>, i: nat, n: nat)
    requires n <= |entries| && Named(entries[..n], i)
    ensures Named(entries, i)
  {
    var k :| 0 <= k < n && entries[..n][k].insnNumber == i && Patchable(entries[..n][k].insnType);
    assert entries[k] == entries[..n][k];
  }

  /** Patching a longer text: the words there were are patched as before, and the new word undergoes the patches
      that name its slot. */
  lemma PatchAllThenPush(text: seq<u32>, insn: u32, entries: seq<UnresolvedInst>, labels: LabelAddresses)
    ensures PatchAll(text + [insn], entries, labels)
            == PatchAll(text, entries, labels) + [PatchesAt(insn, |text|, entries, labels)]
  {
    hide PatchAll, PatchesAt;
    var long := PatchAll(text + [insn], entries, labels);
    forall i | 0 <= i < |long|
      ensures long[i] == (PatchAll(text, entries, labels) + [PatchesAt(insn, |text|, entries, labels)])[i]
    {
      PatchAllAt(text + [insn], entries, labels, i);
      if i < |text| {
        PatchAllAt(text, entries, labels, i);
      }
    }
  }

  /** Besides the hashes it had, the map ends up with those that were looked up. */
  lemma {:induction false} TouchAllAdds(labels: LabelAddresses, entries: seq<UnresolvedInst>, hash: u32)
    ensures hash in TouchAll(labels, entries)
            <==> hash in labels
                 || exists k :: 0 <= k < |entries| && entries[k].hash == hash
                                && (entries[k].insnType == B_TYPE || entries[k].insnType == U_TYPE
                                    || entries[k].insnType == J_TYPE)
    decreases |entries|
  {
    if entries != [] {
      var n := |entries| - 1;
      TouchAllAdds(labels, entries[..n], hash);
      assert forall k :: 0 <= k < n ==> entries[..n][k] == entries[k];
    }
  }

  /** If every patchable entry's hash has an address, the loop's lookups all succeed and insert nothing. */
  lemma {:induction false} TouchAllKnown(labels: LabelAddresses, entries: seq<UnresolvedInst>)
    requires forall k :: 0 <= k < |entries| && Patchable(entries[k].insnType) ==> entries[k].hash in labels
    ensures TouchAll(labels, entries) == labels
    decreases |entries|
  {
    if entries != [] {
      var n := |entries| - 1;
      TouchAllKnown(labels, entries[..n]);
    }
  }
}
