/** The semantic actions of the grammar, as steps that run over one object file. */
module Assembler {
  import opened Machine
  import opened Encoding
  import opened Hash
  import opened Patch
  import opened Stream
  import opened Strtab
  import opened ElfState
  import opened Elf32

  /** One reduction with an action. Registers, `funct3` and `op` are what the lexer and the opcode rules supply. */
  datatype Step =
    | RFormat(funct3: b3, op: b7, rd: b5, rs1: b5, rs2: b5)
    | Immediate(funct3: b3, op: b7, rd: b5, rs1: b5, literal: i32)
    | SymbolImmediate(funct3: b3, op: b7, rd: b5, rs1: b5, symbol: Bytes)
    | LoadStore(funct3: b3, op: b7, reg: b5, disp: i32, base: b5)
    | Branch(funct3: b3, op: b7, a: b5, b: b5, target: Bytes)
    | System(imm12: b12, funct3: b3, op: b7)
    | Jump(target: Bytes)
    | Move(rd: b5, rs: b5)
    | Ret
    | LabeledBlock(name: Bytes)
    | LabeledDirective(name: Bytes)
    | SectionDirective(section: Bytes)
    | TextDirective
    | Global(name: Bytes)
    | Ascii(value: Bytes)

  const LOAD_OP: b7 := 0x03
  const JAL_OP: b7 := 0x6F
  const JALR_OP: b7 := 0x67
  const ADDI_OP: b7 := 0x13

  /** The global variables of the parser that outlive an action, and whether `exit` was called. */
  datatype Asm = Asm(elf: ElfState, section: Bytes, tempValue: Bytes, exited: bool)

  const START: Asm := Asm(INITIAL, [], [], false)

  /** The word of an instruction that names no label; `None` for anything else. */
  function PlainWord(step: Step): Option<u32> {
    match step
    case RFormat(funct3, op, rd, rs1, rs2) => Some(EmitR(0, rs1, rs2, funct3, rd, op))
    case Immediate(funct3, op, rd, rs1, literal) => Some(EmitI(rd, rs1, literal % 0x1000, funct3, op))
    case LoadStore(funct3, op, reg, disp, base) =>
      if op == LOAD_OP then Some(EmitI(reg, base, Wrap(disp), funct3, op))
      else Some(EmitS(reg, base, Wrap(disp), funct3, op))
    case System(imm12, funct3, op) => Some(EmitI(0, 0, imm12, funct3, op))
    case Move(rd, rs) => Some(EmitI(rd, rs, 0, 0, ADDI_OP))
    case Ret => Some(EmitI(0, 0, 1, 0, JALR_OP))
    case _ => None
  }

  /** The reductions of the `instruction` rules. */
  predicate IsInstruction(step: Step) {
    step.Branch? || step.Jump? || step.SymbolImmediate? || PlainWord(step).Some?
  }

  lemma PlainKinds(step: Step)
    ensures PlainWord(step).Some? <==>
            step.RFormat? || step.Immediate? || step.LoadStore? || step.System? || step.Move? || step.Ret?
  {
    hide EmitR, EmitI, EmitS;
  }

  /** Every plain instruction carries its operands where its format puts them, in the order written, and an
      immediate that passes the range check is decoded, sign-extended, as written. */
  lemma PlainWordMeaning(step: Step)
    requires PlainWord(step).Some? && !step.LoadStore?
    ensures var w := PlainWord(step).value;
            match step
            case RFormat(funct3, op, rd, rs1, rs2) => UnpackR(w) == RType(op, rd, funct3, rs1, rs2, 0)
            case Immediate(funct3, op, rd, rs1, literal) =>
              UnpackI(w) == IType(op, rd, funct3, rs1, literal % 0x1000)
              && (OffsetI(w) == literal <==> IsWithinRange12b(literal))
            case System(imm12, funct3, op) => UnpackI(w) == IType(op, 0, funct3, 0, imm12)
            case Move(rd, rs) => UnpackI(w) == IType(0x13, rd, 0, rs, 0)
            case Ret => UnpackI(w) == IType(0x67, 0, 0, 0, 1)
            case _ => true
  {
    hide EmitR, EmitI, EmitS, UnpackR, UnpackI, OffsetI, IsWithinRange12b;
    match step
    case RFormat(funct3, op, rd, rs1, rs2) => NarrowRDecodes(rs1, rs2, funct3, rd, op);
    case Immediate(funct3, op, rd, rs1, literal) =>
      NarrowIDecodes(rd, rs1, literal % 0x1000, funct3, op);
      LiteralCheckIsExact(literal, rd, rs1, funct3, op);
    case System(imm12, funct3, op) => NarrowIDecodes(0, 0, imm12, funct3, op);
    case Move(rd, rs) => NarrowIDecodes(rd, rs, 0, 0, ADDI_OP);
    case Ret => NarrowIDecodes(0, 0, 1, 0, JALR_OP);
  }

  /** A step with the opcode of the loads, 0x03, is an I-type word that loads `reg`; any other, 0x23 for the stores, is
      an S-type word that stores it. Both name the base register and a displacement that is decoded as written exactly
      when it fits 12 bits; it is not checked. */
  lemma LoadStoreMeaning(step: Step)
    requires step.LoadStore?
    ensures var w, imm := PlainWord(step).value, Wrap(step.disp);
            if step.op == 0x03 then
              UnpackI(w) == IType(0x03, step.reg, step.funct3, step.base, imm % 0x1000)
              && (OffsetI(w) == step.disp <==> -0x800 <= step.disp <= 0x7FF)
            else
              UnpackS(w) == SType(step.op, imm % 0x20, step.funct3, step.base, step.reg, (imm / 0x20) % 0x80)
              && (OffsetS(w) == step.disp <==> -0x800 <= step.disp <= 0x7FF)
  {
    hide EmitI, EmitS, UnpackI, UnpackS, OffsetI, OffsetS, ImmS;
    LoadStoreAgree(step.disp, step.base, step.reg, step.funct3, step.op, step.op);
    EmitIDecodes(step.reg, step.base, Wrap(step.disp), step.funct3, step.op);
    EmitSDecodes(step.reg, step.base, Wrap(step.disp), step.funct3, step.op);
  }

  /** The immediate of a jump to a known label: `offset << 1`, masked to 21 bits. */
  function JumpOffset(addr: u32): u32 {
    Wrap(addr * 2) % 0x20_0000
  }

  /** Steps that make the assembler report a value out of range and exit. */
  predicate Rejected(elf: ElfState, step: Step) {
    match step
    case Immediate(_, _, _, _, literal) => !IsWithinRange12b(literal)
    case Jump(target) =>
      target in elf.resolvedLabels && !IsWithinRange21b(JumpOffset(elf.resolvedLabels[target]))
    case _ => false
  }

  /** The entry for a use of a label without an address: the next slot, and the slot before it as its pc. */
  function EntryFor(elf: ElfState, section: Bytes, t: InstType, target: Bytes): UnresolvedInst {
    var n := NextInsnNumber(elf, section);
    UnresolvedInst(Wrap(n), Wrap(n - 1), t, HashOf(target))
  }

  function ExecBranch(elf: ElfState, section: Bytes, step: Step): ElfState
    requires step.Branch?
  {
    var known := step.target in elf.resolvedLabels;
    var noted := NoteLabel(elf, step.target);
    var recorded := if known then noted else AddUnresolved(noted, EntryFor(noted, section, B_TYPE, step.target));
    AddToText(recorded, EmitB(LabelOffset(elf, step.target), step.a, step.b, step.funct3, step.op))
  }

  /** A jump to an unknown label is recorded, but pushes no word. */
  function ExecJump(elf: ElfState, section: Bytes, target: Bytes): ElfState {
    var noted := NoteLabel(elf, target);
    if target in elf.resolvedLabels
    then AddToText(noted, EmitJ(JumpOffset(elf.resolvedLabels[target]), 0, JAL_OP))
    else AddUnresolved(noted, EntryFor(noted, section, J_TYPE, target))
  }

  /** The word of an instruction whose immediate is a symbol with this offset index. */
  function SymbolWord(step: Step, offsetIdx: u32): u32
    requires step.SymbolImmediate?
  {
    EmitI(step.rd, step.rs1, Wrap(offsetIdx * 4), step.funct3, step.op)
  }

  /** A symbol that is used for the first time is only entered; later uses push a word. */
  function ExecSymbol(elf: ElfState, step: Step): ElfState
    requires step.SymbolImmediate?
  {
    if step.symbol in elf.symbols then AddToText(elf, SymbolWord(step, elf.symbols[step.symbol]))
    else AddSymbol(elf, step.symbol, UNRESOLVED_IDX)
  }

  function Exec(s: Asm, step: Step): Asm {
    if s.exited then s
    else if Rejected(s.elf, step) then s.(exited := true)
    else
      match step
      case Branch(_, _, _, _, _) => s.(elf := ExecBranch(s.elf, s.section, step))
      case Jump(target) => s.(elf := ExecJump(s.elf, s.section, target))
      case SymbolImmediate(_, _, _, _, _) => s.(elf := ExecSymbol(s.elf, step))
      case LabeledBlock(name) => s.(elf := InitLabel(s.elf, name, false, s.section))
      case LabeledDirective(name) =>
        if s.tempValue == [] then s
        else s.(elf := AddProgramData(s.elf, name, s.tempValue, s.section), tempValue := [])
      case SectionDirective(section) => s.(section := section)
      case TextDirective => s
      case Global(name) => s.(elf := UpdateVisibility(s.elf, name, true))
      case Ascii(value) => s.(section := DOT_DATA, tempValue := value)
      case _ => s.(elf := AddToText(s.elf, PlainWord(step).value))
  }

  /** The state after a whole run, from the start of the program. */
  function Run(steps: seq<Step>): Asm
    decreases |steps|
  {
    if steps == [] then START else Exec(Run(steps[..|steps| - 1]), steps[|steps| - 1])
  }

  /** The contents of the file for a run that did not exit. */
  function Assembled(steps: seq<Step>): ElfState {
    ResolveAll(Run(steps).elf)
  }

  class Parser {
    const elf: ELF32
    var currentSection: Bytes
    var tempValue: Bytes
    var exited: bool

    ghost predicate Valid()
      reads this, elf, elf.Sections(), elf.Headers()
    {
      elf.Valid()
    }

    ghost function View(): Asm
      reads this, elf, elf.strtab, elf.symtab, elf.secText, elf.secData
    {
      Asm(elf.View(), currentSection, tempValue, exited)
    }

    constructor ()
      ensures Valid() && fresh(elf) && fresh(elf.Sections()) && fresh(elf.Headers()) && View() == START
    {
      elf := new ELF32();
      currentSection, tempValue, exited := [], [], false;
    }

    method EmitBranch(step: Step)
      requires Valid() && step.Branch?
      modifies elf, elf.Sections(), elf.Headers()
      ensures Valid() && elf.View() == ExecBranch(old(elf.View()), currentSection, step)
    {
      hide ELF32.Valid, ELF32.View, EmitB, HashOf;
      var resolved, offset := elf.ResolveLabel(step.target);
      if !resolved {
        var next: int := elf.GetNextInsnNumber(currentSection);
        elf.AddToUnresolvedInsns(Wrap(next), B_TYPE, offset, Wrap(next - 1));
      }
      var insn := EmitB(offset, step.a, step.b, step.funct3, step.op);
      elf.AddToText(insn);
    }

    method EmitJump(target: Bytes) returns (ok: bool)
      requires Valid()
      modifies elf, elf.Sections(), elf.Headers()
      ensures ok == !Rejected(old(elf.View()), Jump(target))
      ensures ok ==> Valid() && elf.View() == ExecJump(old(elf.View()), currentSection, target)
      ensures !ok ==> Valid() && elf.View() == old(elf.View())
    {
      hide ELF32.Valid, ELF32.View, EmitJ, HashOf;
      var resolved, offset := elf.ResolveLabel(target);
      if !resolved {
        var next: int := elf.GetNextInsnNumber(currentSection);
        elf.AddToUnresolvedInsns(Wrap(next), J_TYPE, offset, Wrap(next - 1));
      } else {
        var shifted: int := 2 * (offset as int);
        offset := Wrap(shifted) % 0x20_0000;
        if !IsWithinRange21b(offset) {
          return false;
        }
        var insn := EmitJ(offset, 0, JAL_OP);
        elf.AddToText(insn);
      }
      return true;
    }

    method EmitSymbolImmediate(step: Step)
      requires Valid() && step.SymbolImmediate?
      modifies elf, elf.Sections(), elf.Headers()
      ensures Valid() && elf.View() == ExecSymbol(old(elf.View()), step)
    {
      hide ELF32.Valid, EmitI;
      if !elf.SymbolExists(step.symbol) {
        elf.AddSymbol(step.symbol, UNRESOLVED_IDX);
      } else {
        var _, offsetIdx := elf.ResolveSymbol(step.symbol);
        elf.AddToText(SymbolWord(step, offsetIdx));
      }
    }

    /** An action of the `instruction` rules. */
    method DoInstruction(step: Step)
      requires Valid() && !exited && IsInstruction(step)
      modifies this`exited, elf, elf.Sections(), elf.Headers()
      ensures Valid() && View() == Exec(old(View()), step)
    {
      hide ELF32.Valid, ELF32.View, ExecBranch, ExecJump, ExecSymbol, JumpOffset, EmitR, EmitI, EmitS;
      if step.Branch? {
        EmitBranch(step);
      } else if step.Jump? {
        var ok := EmitJump(step.target);
        exited := !ok;
      } else if step.SymbolImmediate? {
        EmitSymbolImmediate(step);
      } else {
        var ok := EmitPlain(step);
        exited := !ok;
      }
    }

    /** An action of the `statement` and `directive` rules. */
    method DoDirective(step: Step)
      requires Valid() && !exited && !IsInstruction(step)
      modifies this, elf, elf.Sections(), elf.Headers()
      ensures Valid() && View() == Exec(old(View()), step)
    {
      hide ELF32.Valid, ELF32.View, Spec.InitLabel, Spec.UpdateVisibility, Spec.AddProgramData, EmitR, EmitI, EmitS,
           EmitB, EmitJ, HashOf, DOT_DATA;
      match step {
        case LabeledBlock(name) =>
          elf.InitLabel(name, false, currentSection);
        case LabeledDirective(name) =>
          if |tempValue| > 0 {
            elf.AddProgramData(name, tempValue, currentSection);
            tempValue := [];
          }
        case SectionDirective(section) =>
          currentSection := section;
        case TextDirective =>
        case Global(name) =>
          elf.UpdateLabelVisibility(name, true);
        case Ascii(value) =>
          currentSection := DOT_DATA;
          tempValue := value;
      }
    }

    /** An instruction without a label; an immediate is checked first. */
    method EmitPlain(step: Step) returns (ok: bool)
      requires Valid() && PlainWord(step).Some?
      modifies elf, elf.Sections(), elf.Headers()
      ensures ok == !Rejected(old(elf.View()), step)
      ensures Valid() && elf.View() == if ok then Spec.AddToText(old(elf.View()), PlainWord(step).value)
                                       else old(elf.View())
    {
      hide EmitR, EmitI, EmitS;
      if step.Immediate? && !IsWithinRange12b(step.literal) {
        return false;
      }
      elf.AddToText(PlainWord(step).value);
      return true;
    }
  }

  /** The whole program: parse, patch, write. `None` when the assembler exits instead. */
  method AssembleFile(steps: seq<Step>) returns (file: Option<Bytes>)
    ensures file == if Run(steps).exited then None else Some(FileOf(Assembled(steps)))
  {
    hide ELF32.Valid, Exec, IsInstruction, FileOf, Spec.ResolveAll;
    var parser := new Parser();
    assert steps[..0] == [];
    for i := 0 to |steps|
      invariant parser.Valid() && parser.View() == Run(steps[..i]) && !parser.exited
    {
      if IsInstruction(steps[i]) {
        parser.DoInstruction(steps[i]);
      } else {
        parser.DoDirective(steps[i]);
      }
      assert steps[..i + 1][..i] == steps[..i];
      if parser.exited {
        ExitIsFinal(steps, i + 1);
        return None;
      }
    }
    assert steps[..|steps|] == steps;
    parser.elf.ResolveUnresolvedInstructions();
    var os := new OStream();
    parser.elf.Serialize(os);
    return Some(os.buf);
  }

  lemma {:induction false} ExitIsFinal(steps: seq<Step>, n: nat)
    requires n <= |steps| && Run(steps[..n]).exited
    ensures Run(steps).exited
    decreases |steps| - n
  {
    if n < |steps| {
      assert steps[..n + 1][..n] == steps[..n];
      ExitIsFinal(steps, n + 1);
    } else {
      assert steps[..n] == steps;
    }
  }

  ghost predicate RejectedAt(steps: seq<Step>, n: nat)
    requires n < |steps|
  {
    Rejected(Run(steps[..n]).elf, steps[n])
  }

  lemma ExitStep(s: Asm, step: Step)
    ensures Exec(s, step).exited <==> s.exited || Rejected(s.elf, step)
  {
    hide PlainWord, ExecBranch, ExecJump, ExecSymbol, InitLabel, UpdateVisibility, AddProgramData, Rejected;
  }

  lemma RejectedAtPrefix(steps: seq<Step>, m: nat, n: nat)
    requires n < m <= |steps|
    ensures RejectedAt(steps[..m], n) <==> RejectedAt(steps, n)
  {
    hide Rejected, Run;
    assert steps[..m][..n] == steps[..n];
  }

  /** No file is written exactly when some step, in the state before it, is out of range. */
  lemma {:induction false} ExitsExactly(steps: seq<Step>)
    ensures Run(steps).exited <==> exists n :: 0 <= n < |steps| && RejectedAt(steps, n)
    decreases |steps|
  {
    hide Exec, Rejected;
    if steps != [] {
      var m := |steps| - 1;
      ExitsExactly(steps[..m]);
      ExitStep(Run(steps[..m]), steps[m]);
      assert RejectedAt(steps, m) <==> Rejected(Run(steps[..m]).elf, steps[m]);
      forall n | 0 <= n < m
        ensures RejectedAt(steps[..m], n) <==> RejectedAt(steps, n)
      {
        RejectedAtPrefix(steps, m, n);
      }
    }
  }
}
