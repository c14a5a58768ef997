/** What every run keeps: the definition log of a run determines its labels, symbols and strings. */
module Labels {
  import opened Machine
  import opened Encoding
  import opened Hash
  import opened Patch
  import opened ElfFormat
  import opened Strtab
  import opened Sections
  import opened ElfState
  import opened Assembler

  datatype SymDef =
    | LabelDef(name: Bytes, section: Bytes, addr: u32)
    | DataDef(name: Bytes, section: Bytes, addr: u32, value: Bytes, at: nat)

  /** What a step defines, at most one symbol. */
  function Defines(s: Asm, step: Step): seq<SymDef> {
    if s.exited || Rejected(s.elf, step) then []
    else
      match step
      case LabeledBlock(name) => DefinesLabel(s.elf, name, s.section)
      case Global(name) => DefinesLabel(s.elf, name, DOT_TEXT)
      case LabeledDirective(name) =>
        if s.tempValue == [] then [] else [DataDef(name, s.section, Wrap(|s.elf.data|), s.tempValue, |s.elf.data|)]
      case _ => []
  }

  function DefinesLabel(elf: ElfState, name: Bytes, section: Bytes): seq<SymDef> {
    if name in elf.resolvedLabels then [] else [LabelDef(name, section, Wrap(LastIndexOf(|elf.text|)))]
  }

  /** The symbols of a run in the order of their definition. */
  function DefLog(steps: seq<Step>): seq<SymDef>
    decreases |steps|
  {
    if steps == [] then []
    else
      var n := |steps| - 1;
      DefLog(steps[..n]) + Defines(Run(steps[..n]), steps[n])
  }

  function NamesOf(log: seq<SymDef>): seq<Bytes> {
    seq(|log|, k requires 0 <= k < |log| => CStr(log[k].name))
  }

  function ResolvedOf(log: seq<SymDef>): map<Bytes, u32>
    decreases |log|
  {
    if log == [] then map[]
    else
      var n := |log| - 1;
      var before := ResolvedOf(log[..n]);
      if log[n].LabelDef? then before[log[n].name := log[n].addr] else before
  }

  function AddressesOf(log: seq<SymDef>): LabelAddresses
    decreases |log|
  {
    if log == [] then map[]
    else
      var n := |log| - 1;
      var before := AddressesOf(log[..n]);
      if log[n].LabelDef? then before[HashOf(log[n].name) := log[n].addr] else before
  }

  /** The values of the data definitions, in order. */
  function DataOf(log: seq<SymDef>): Bytes
    decreases |log|
  {
    if log == [] then []
    else
      var n := |log| - 1;
      DataOf(log[..n]) + if log[n].DataDef? then log[n].value else []
  }

  /** The header index a symbol gets for its section; 0 for a section the file does not have. */
  function IndexOf(section: Bytes): u16 {
    if section in INITIAL_INDICES then INITIAL_INDICES[section] % 0x1_0000 else 0
  }

  /** The table entry of a definition whose name is stored at `at`: a label has value 0, whatever its address, and
      every symbol is local, untyped and of unknown size. */
  function SymOf(def: SymDef, at: nat): Sym {
    Sym(Wrap(at), if def.DataDef? then def.addr else 0, 0, 0, 0, IndexOf(def.section))
  }

  // ---------- The invariant ----------

  ghost predicate SymbolsMatch(elf: ElfState, log: seq<SymDef>) {
    && elf.strtab == TableOf(NamesOf(log))
    && |elf.symtab| == |log| + 1 && elf.symtab[0] == NULL_SYM
    && forall k :: 0 <= k < |log| ==> elf.symtab[k + 1] == SymOf(log[k], OffsetOf(NamesOf(log), k))
  }

  /** Sections met so far have their own index; unknown ones, if entered at all, have index 0. */
  ghost predicate SectionsMatch(elf: ElfState) {
    forall s :: (if s in elf.sectionToIdx then elf.sectionToIdx[s] % 0x1_0000 else 0) == IndexOf(s)
  }

  /** The value of definition `k` is where it says, after the values before it. */
  ghost predicate Stored(data: Bytes, log: seq<SymDef>, k: nat)
    requires k < |log| && log[k].DataDef?
  {
    && log[k].addr == Wrap(log[k].at) && log[k].at == |DataOf(log[..k])|
    && log[k].at + |log[k].value| <= |data| && data[log[k].at..log[k].at + |log[k].value|] == log[k].value
  }

  ghost predicate DataMatches(elf: ElfState, log: seq<SymDef>) {
    elf.data == DataOf(log) && forall k :: 0 <= k < |log| && log[k].DataDef? ==> Stored(elf.data, log, k)
  }

  ghost predicate LabelsMatch(elf: ElfState, log: seq<SymDef>) {
    && elf.resolvedLabels == ResolvedOf(log)
    && elf.labelToAddr == AddressesOf(log)
    && elf.resolvedLabels.Keys !! elf.unresolvedLabels.Keys
  }

  /** Every recorded instruction waits for a label that has been seen. */
  ghost predicate EntriesMatch(elf: ElfState) {
    forall k :: 0 <= k < |elf.unresolvedInsns| ==> Seen(elf, elf.unresolvedInsns[k].hash)
  }

  ghost predicate Seen(elf: ElfState, hash: u32) {
    exists l :: HashOf(l) == hash && (l in elf.resolvedLabels || l in elf.unresolvedLabels)
  }

  ghost predicate Invariant(elf: ElfState, log: seq<SymDef>) {
    SymbolsMatch(elf, log) && SectionsMatch(elf) && DataMatches(elf, log) && LabelsMatch(elf, log) && EntriesMatch(elf)
  }

  /** In every reachable state, symbols, strings, data and label addresses are those of the definition log. */
  lemma {:induction false} RunInvariant(steps: seq<Step>)
    ensures Invariant(Run(steps).elf, DefLog(steps))
    decreases |steps|
  {
    if steps == [] {
      InvariantAtStart();
    } else {
      var n := |steps| - 1;
      RunInvariant(steps[..n]);
      hide Invariant, Exec, Defines;
      StepInvariant(Run(steps[..n]), steps[n], DefLog(steps[..n]));
    }
  }

  lemma InvariantAtStart()
    ensures Invariant(INITIAL, [])
  {
    assert NamesOf([]) == [];
  }

  lemma StepInvariant(s: Asm, step: Step, log: seq<SymDef>)
    requires Invariant(s.elf, log)
    ensures var elf, log' := Exec(s, step).elf, log + Defines(s, step);
            Invariant(elf, log')
  {
    hide EmitR, EmitI, EmitS, EmitB, EmitJ, HashOf, JumpOffset, Invariant,
         InitLabel, AddProgramData, ExecBranch, ExecJump, ExecSymbol;
    assert log + [] == log;
    if !s.exited && !Rejected(s.elf, step) {
      match step
      case Branch(_, _, _, _, _) => BranchInvariant(s.elf, s.section, step, log);
      case Jump(target) => JumpInvariant(s.elf, s.section, target, log);
      case SymbolImmediate(_, _, _, _, _) => SymbolInvariant(s.elf, step, log);
      case LabeledBlock(name) => LabelInvariant(s.elf, name, false, s.section, log);
      case Global(name) => LabelInvariant(s.elf, name, true, DOT_TEXT, log);
      case LabeledDirective(name) =>
        if s.tempValue != [] {
          DataInvariant(s.elf, name, s.tempValue, s.section, log);
        }
      case SectionDirective(_) =>
      case TextDirective =>
      case Ascii(_) =>
      case _ => PushInvariant(s.elf, PlainWord(step).value, log);
    }
  }

  lemma PushInvariant(elf: ElfState, insn: u32, log: seq<SymDef>)
    requires Invariant(elf, log)
    ensures var elf' := AddToText(elf, insn);
            Invariant(elf', log)
  {
    hide SymbolsMatch, DataMatches, EntriesMatch, HashOf, IndexOf;
    SymbolsSame(elf, AddToText(elf, insn), log);
    EntriesKept(elf, AddToText(elf, insn));
  }

  lemma SeenSame(elf: ElfState, elf': ElfState, hash: u32)
    requires Seen(elf, hash)
    requires elf.resolvedLabels.Keys + elf.unresolvedLabels.Keys
             <= elf'.resolvedLabels.Keys + elf'.unresolvedLabels.Keys
    ensures Seen(elf', hash)
  {
    var l :| HashOf(l) == hash && (l in elf.resolvedLabels || l in elf.unresolvedLabels);
    assert l in elf'.resolvedLabels.Keys + elf'.unresolvedLabels.Keys;
  }

  /** Looking up a label, and recording an instruction that waits for it. */
  lemma UseInvariant(elf: ElfState, e: UnresolvedInst, target: Bytes, log: seq<SymDef>)
    requires Invariant(elf, log)
    requires e.hash == HashOf(target)
    ensures var elf' := NoteLabel(elf, target);
            Invariant(elf', log)
    ensures var elf' := AddUnresolved(NoteLabel(elf, target), e);
            Invariant(elf', log)
  {
    hide SymbolsMatch, SectionsMatch, DataMatches, EntriesMatch, HashOf, ResolvedOf, AddressesOf;
    var noted := NoteLabel(elf, target);
    SymbolsSame(elf, noted, log);
    SymbolsSame(elf, AddUnresolved(noted, e), log);
    SectionsSame(elf, noted);
    SectionsSame(elf, AddUnresolved(noted, e));
    EntriesKept(elf, noted);
    EntriesAdded(noted, AddUnresolved(noted, e), e, target);
  }

  lemma SymbolsSame(elf: ElfState, elf': ElfState, log: seq<SymDef>)
    requires SymbolsMatch(elf, log) && DataMatches(elf, log)
    requires elf'.strtab == elf.strtab && elf'.symtab == elf.symtab && elf'.data == elf.data
    ensures SymbolsMatch(elf', log) && DataMatches(elf', log)
  {
    hide TableOf, OffsetOf, NamesOf;
  }

  lemma SectionsSame(elf: ElfState, elf': ElfState)
    requires SectionsMatch(elf) && elf'.sectionToIdx == elf.sectionToIdx
    ensures SectionsMatch(elf')
  {
    hide IndexOf;
  }

  lemma EntriesAdded(elf: ElfState, elf': ElfState, e: UnresolvedInst, target: Bytes)
    requires EntriesMatch(elf) && elf' == AddUnresolved(elf, e) && e.hash == HashOf(target)
    requires target in elf.resolvedLabels || target in elf.unresolvedLabels
    ensures EntriesMatch(elf')
  {
    hide HashOf;
    forall k | 0 <= k < |elf'.unresolvedInsns|
      ensures Seen(elf', elf'.unresolvedInsns[k].hash)
    {
      if k < |elf.unresolvedInsns| {
        SeenSame(elf, elf', elf.unresolvedInsns[k].hash);
      }
    }
  }

  lemma BranchInvariant(elf: ElfState, section: Bytes, step: Step, log: seq<SymDef>)
    requires step.Branch?
    requires Invariant(elf, log)
    ensures var elf' := ExecBranch(elf, section, step);
            Invariant(elf', log)
  {
    hide Invariant, EmitB, HashOf;
    var noted := NoteLabel(elf, step.target);
    var e := EntryFor(noted, section, B_TYPE, step.target);
    var insn := EmitB(LabelOffset(elf, step.target), step.a, step.b, step.funct3, step.op);
    UseInvariant(elf, e, step.target, log);
    PushInvariant(noted, insn, log);
    PushInvariant(AddUnresolved(noted, e), insn, log);
  }

  lemma JumpInvariant(elf: ElfState, section: Bytes, target: Bytes, log: seq<SymDef>)
    requires Invariant(elf, log)
    ensures var elf' := ExecJump(elf, section, target);
            Invariant(elf', log)
  {
    hide Invariant, EmitJ, HashOf, JumpOffset;
    var noted := NoteLabel(elf, target);
    UseInvariant(elf, EntryFor(noted, section, J_TYPE, target), target, log);
    if target in elf.resolvedLabels {
      PushInvariant(noted, EmitJ(JumpOffset(elf.resolvedLabels[target]), 0, JAL_OP), log);
    }
  }

  lemma SymbolInvariant(elf: ElfState, step: Step, log: seq<SymDef>)
    requires step.SymbolImmediate? && Invariant(elf, log)
    ensures Invariant(ExecSymbol(elf, step), log)
  {
    hide SymbolsMatch, DataMatches, EntriesMatch, HashOf, IndexOf, EmitI;
    if step.symbol in elf.symbols {
      PushInvariant(elf, SymbolWord(step, elf.symbols[step.symbol]), log);
    } else {
      SymbolsSame(elf, ExecSymbol(elf, step), log);
      EntriesKept(elf, ExecSymbol(elf, step));
    }
  }

  /** A new string and a new symbol that refers to it. */
  lemma SymbolAdded(elf: ElfState, elf': ElfState, log: seq<SymDef>, def: SymDef)
    requires SymbolsMatch(elf, log)
    requires elf'.strtab == Add(elf.strtab, CStr(def.name)) && |elf'.symtab| == |elf.symtab| + 1
    requires elf'.symtab[..|elf.symtab|] == elf.symtab
    requires elf'.symtab[|elf.symtab|] == SymOf(def, AddOffset(elf.strtab))
    ensures SymbolsMatch(elf', log + [def])
  {
    hide TableOf, Add, AddOffset, CStr, OffsetOf, SymOf;
    var names, n := NamesOf(log), |log|;
    var names' := NamesOf(log + [def]);
    AddAppends(names, CStr(def.name));
    assert names' == names + [CStr(def.name)];
    OffsetStable(names, [CStr(def.name)], n);
    assert elf'.symtab[n + 1] == SymOf(def, OffsetOf(names', n));
    forall k | 0 <= k < n
      ensures elf'.symtab[k + 1] == elf.symtab[k + 1] && OffsetOf(names', k) == OffsetOf(names, k)
    {
      OffsetStable(names, [CStr(def.name)], k);
      assert elf'.symtab[k + 1] == elf'.symtab[..n + 1][k + 1];
    }
    assert elf'.symtab[0] == elf'.symtab[..n + 1][0];
  }

  lemma EntriesKept(elf: ElfState, elf': ElfState)
    requires EntriesMatch(elf) && elf'.unresolvedInsns == elf.unresolvedInsns
    requires elf.resolvedLabels.Keys + elf.unresolvedLabels.Keys
             <= elf'.resolvedLabels.Keys + elf'.unresolvedLabels.Keys
    ensures EntriesMatch(elf')
  {
    hide HashOf;
    forall k | 0 <= k < |elf.unresolvedInsns|
      ensures Seen(elf', elf.unresolvedInsns[k].hash)
    {
      SeenSame(elf, elf', elf.unresolvedInsns[k].hash);
    }
  }

  lemma LabelsExtended(elf: ElfState, elf': ElfState, log: seq<SymDef>, name: Bytes, section: Bytes,
                       addr: u32)
    requires LabelsMatch(elf, log)
    requires elf'.resolvedLabels == elf.resolvedLabels[name := addr]
    requires elf'.unresolvedLabels == elf.unresolvedLabels - {name}
    requires elf'.labelToAddr == elf.labelToAddr[HashOf(name) := addr]
    ensures LabelsMatch(elf', log + [LabelDef(name, section, addr)])
  {
    hide HashOf;
    assert (log + [LabelDef(name, section, addr)])[..|log|] == log;
  }

  lemma LabelInvariant(elf: ElfState, name: Bytes, isGlobal: bool, section: Bytes, log: seq<SymDef>)
    requires Invariant(elf, log)
    ensures Invariant(InitLabel(elf, name, isGlobal, section), log + DefinesLabel(elf, name, section))
  {
    hide SymbolsMatch, LabelsMatch, EntriesMatch, DataMatches, Add, AddOffset, CStr, HashOf, IndexOf;
    var elf', log' := InitLabel(elf, name, isGlobal, section), log + DefinesLabel(elf, name, section);
    if name in elf.resolvedLabels {
      assert log' == log;
    } else {
      var def := LabelDef(name, section, Wrap(LastIndexOf(|elf.text|)));
      assert log' == log + [def];
      SymbolAdded(elf, elf', log, def);
      assert elf.data + [] == elf.data;
      DataKept(elf, elf', log, def);
      LabelsExtended(elf, elf', log, name, section, def.addr);
      EntriesKept(elf, elf');
    }
  }

  lemma LabelsSame(elf: ElfState, elf': ElfState, log: seq<SymDef>, def: SymDef)
    requires LabelsMatch(elf, log) && def.DataDef?
    requires elf'.resolvedLabels == elf.resolvedLabels && elf'.unresolvedLabels == elf.unresolvedLabels
    requires elf'.labelToAddr == elf.labelToAddr
    ensures LabelsMatch(elf', log + [def])
  {
    hide HashOf;
    assert (log + [def])[..|log|] == log;
  }

  lemma DataOfSnoc(log: seq<SymDef>, def: SymDef)
    ensures DataOf(log + [def]) == DataOf(log) + if def.DataDef? then def.value else []
    ensures (log + [def])[..|log|] == log
  {
    assert (log + [def])[..|log|] == log;
  }

  lemma StoredBefore(data: Bytes, more: Bytes, log: seq<SymDef>, def: SymDef, k: nat)
    requires k < |log| && log[k].DataDef? && Stored(data, log, k)
    ensures Stored(data + more, log + [def], k)
  {
    hide DataOf, Wrap;
    var d := log[k];
    assert (log + [def])[..k] == log[..k];
    assert (data + more)[d.at..d.at + |d.value|] == data[d.at..d.at + |d.value|];
  }

  lemma DataKept(elf: ElfState, elf': ElfState, log: seq<SymDef>, def: SymDef)
    requires DataMatches(elf, log) && elf'.data == elf.data + if def.DataDef? then def.value else []
    requires def.DataDef? ==> def.at == |elf.data| && def.addr == Wrap(def.at)
    ensures DataMatches(elf', log + [def])
  {
    DataOfSnoc(log, def);
    var log' := log + [def];
    assert def.DataDef? ==> Stored(elf'.data, log', |log|);
    hide DataOf, Stored;
    forall k | 0 <= k < |log'| && log'[k].DataDef?
      ensures Stored(elf'.data, log', k)
    {
      if k < |log| {
        StoredBefore(elf.data, if def.DataDef? then def.value else [], log, def, k);
      }
    }
  }

  lemma DataInvariant(elf: ElfState, name: Bytes, value: Bytes, section: Bytes, log: seq<SymDef>)
    requires Invariant(elf, log)
    ensures Invariant(AddProgramData(elf, name, value, section),
                      log + [DataDef(name, section, Wrap(|elf.data|), value, |elf.data|)])
  {
    hide SymbolsMatch, DataMatches, LabelsMatch, EntriesMatch, Add, AddOffset, CStr, HashOf, INITIAL_INDICES;
    var elf' := AddProgramData(elf, name, value, section);
    var def := DataDef(name, section, Wrap(|elf.data|), value, |elf.data|);
    SymbolAdded(elf, elf', log, def);
    DataKept(elf, elf', log, def);
    LabelsSame(elf, elf', log, def);
    EntriesKept(elf, elf');
  }

  // ---------- What steps leave alone ----------

  lemma LabelEffect(elf: ElfState, name: Bytes, isGlobal: bool, section: Bytes)
    ensures var elf' := InitLabel(elf, name, isGlobal, section);
            elf'.text == elf.text && elf'.symbols == elf.symbols && elf'.unresolvedInsns == elf.unresolvedInsns
            && elf'.resolvedLabels == if name in elf.resolvedLabels then elf.resolvedLabels
                                      else elf.resolvedLabels[name := Wrap(LastIndexOf(|elf.text|))]
  {
    hide HashOf, Add, AddOffset, CStr, BindOf, Wrap;
  }

  lemma DataEffect(elf: ElfState, name: Bytes, value: Bytes, section: Bytes)
    ensures var elf' := AddProgramData(elf, name, value, section);
            elf'.text == elf.text && elf'.symbols == elf.symbols && elf'.unresolvedInsns == elf.unresolvedInsns
            && elf'.resolvedLabels == elf.resolvedLabels
  {
    hide Add, AddOffset, CStr, BindOf, Wrap;
  }

  lemma ReferenceEffect(elf: ElfState, section: Bytes, step: Step)
    requires step.Branch? || step.Jump?
    ensures var elf' := if step.Branch? then ExecBranch(elf, section, step) else ExecJump(elf, section, step.target);
            elf'.symbols == elf.symbols && elf'.resolvedLabels == elf.resolvedLabels
            && |elf'.text| == |elf.text| + if step.Branch? || step.target in elf.resolvedLabels then 1 else 0
  {
    hide EmitB, EmitJ, HashOf, JumpOffset, EntryFor;
  }

  lemma StepEffect(s: Asm, step: Step)
    ensures var elf := Exec(s, step).elf;
            |s.elf.text| <= |elf.text| <= |s.elf.text| + 1
            && forall name :: name in s.elf.resolvedLabels ==>
                 name in elf.resolvedLabels && elf.resolvedLabels[name] == s.elf.resolvedLabels[name]
  {
    hide InitLabel, AddProgramData, ExecBranch, ExecJump, PlainWord, SymbolWord, Wrap, Rejected;
    PlainKinds(step);
    match step
    case Branch(_, _, _, _, _) => ReferenceEffect(s.elf, s.section, step);
    case Jump(_) => ReferenceEffect(s.elf, s.section, step);
    case LabeledBlock(name) => LabelEffect(s.elf, name, false, s.section);
    case Global(name) => LabelEffect(s.elf, name, true, DOT_TEXT);
    case LabeledDirective(name) => DataEffect(s.elf, name, s.tempValue, s.section);
    case _ =>
  }

  // ---------- The label machine ----------

  /** A hash has the address of the label last defined under it, and no other. */
  lemma {:induction false} LastDefinition(log: seq<SymDef>, hash: u32)
    ensures hash in AddressesOf(log) <==> exists k :: 0 <= k < |log| && log[k].LabelDef? && HashOf(log[k].name) == hash
    ensures forall k :: 0 <= k < |log| && log[k].LabelDef? && HashOf(log[k].name) == hash
                        && (forall j :: k < j < |log| && log[j].LabelDef? ==> HashOf(log[j].name) != hash)
              ==> hash in AddressesOf(log) && AddressesOf(log)[hash] == log[k].addr
    decreases |log|
  {
    hide HashOf;
    if log != [] {
      var n := |log| - 1;
      LastDefinition(log[..n], hash);
      assert forall k :: 0 <= k < n ==> log[..n][k] == log[k];
      assert log[n].LabelDef? && HashOf(log[n].name) == hash ==> AddressesOf(log)[hash] == log[n].addr;
    }
  }

  lemma {:induction false} ResolvedIffDefined(log: seq<SymDef>, name: Bytes)
    ensures name in ResolvedOf(log) <==> exists k :: 0 <= k < |log| && log[k].LabelDef? && log[k].name == name
    decreases |log|
  {
    if log != [] {
      var n := |log| - 1;
      ResolvedIffDefined(log[..n], name);
      assert forall k :: 0 <= k < n ==> log[..n][k] == log[k];
    }
  }

  lemma ExecKeepsLabels(s: Asm, step: Step, name: Bytes)
    requires name in s.elf.resolvedLabels
    ensures var elf := Exec(s, step).elf;
            name in elf.resolvedLabels && elf.resolvedLabels[name] == s.elf.resolvedLabels[name]
  {
    StepEffect(s, step);
  }

  /** Once a label has an address it keeps it, whatever follows; in particular a later block of that name
      does not move a label that a `.globl` directive defined first. */
  lemma {:induction false} LabelsNeverMove(steps: seq<Step>, n: nat, name: Bytes)
    requires n <= |steps| && name in Run(steps[..n]).elf.resolvedLabels
    ensures name in Run(steps).elf.resolvedLabels
    ensures Run(steps).elf.resolvedLabels[name] == Run(steps[..n]).elf.resolvedLabels[name]
    decreases |steps|
  {
    hide Exec;
    if n < |steps| {
      var m := |steps| - 1;
      assert steps[..m][..n] == steps[..n];
      LabelsNeverMove(steps[..m], n, name);
      ExecKeepsLabels(Run(steps[..m]), steps[m], name);
    } else {
      assert steps[..n] == steps;
    }
  }

  lemma ExecGrowsText(s: Asm, step: Step)
    ensures |s.elf.text| <= |Exec(s, step).elf.text| <= |s.elf.text| + 1
  {
    StepEffect(s, step);
  }

  lemma DefinesAtEnd(s: Asm, step: Step)
    requires |s.elf.text| <= TWO32
    ensures forall k :: 0 <= k < |Defines(s, step)| && Defines(s, step)[k].LabelDef? ==>
              Defines(s, step)[k].addr == LastIndexOf(|s.elf.text|)
    ensures |Defines(s, step)| <= 1
  {}

  /** Addresses do not decrease in definition order, and each names an existing slot (or 0 in an empty section). */
  lemma {:induction false} AddressesOrdered(steps: seq<Step>)
    requires |Run(steps).elf.text| <= TWO32
    ensures forall j, k :: 0 <= j <= k < |DefLog(steps)| && DefLog(steps)[j].LabelDef? && DefLog(steps)[k].LabelDef?
              ==> DefLog(steps)[j].addr <= DefLog(steps)[k].addr <= LastIndexOf(|Run(steps).elf.text|)
    decreases |steps|
  {
    if steps != [] {
      var n := |steps| - 1;
      var s, log, added := Run(steps[..n]), DefLog(steps[..n]), Defines(Run(steps[..n]), steps[n]);
      ExecGrowsText(s, steps[n]);
      AddressesOrdered(steps[..n]);
      DefinesAtEnd(s, steps[n]);
      hide Exec, Defines;
      assert DefLog(steps) == log + added;
    }
  }

  // ---------- Completeness of the patch loop ----------

  /** The label that a recorded instruction waits for has an address, if no label is left unresolved. */
  lemma SeenHasAddress(elf: ElfState, log: seq<SymDef>, hash: u32)
    requires LabelsMatch(elf, log) && Seen(elf, hash) && elf.unresolvedLabels == map[]
    ensures hash in elf.labelToAddr
  {
    hide HashOf, ResolvedOf, AddressesOf;
    var l :| HashOf(l) == hash && (l in elf.resolvedLabels || l in elf.unresolvedLabels);
    ResolvedIffDefined(log, l);
    LastDefinition(log, hash);
  }

  lemma RecordedHaveAddresses(elf: ElfState, log: seq<SymDef>)
    requires LabelsMatch(elf, log) && EntriesMatch(elf) && elf.unresolvedLabels == map[]
    ensures forall k :: 0 <= k < |elf.unresolvedInsns| ==> elf.unresolvedInsns[k].hash in elf.labelToAddr
  {
    hide LabelsMatch, Seen;
    forall k | 0 <= k < |elf.unresolvedInsns|
      ensures elf.unresolvedInsns[k].hash in elf.labelToAddr
    {
      SeenHasAddress(elf, log, elf.unresolvedInsns[k].hash);
    }
  }

  /** If no label is left unresolved, every recorded hash has an address: the loop never falls back to 0,
      and leaves the address map as it was. */
  lemma PatchComplete(steps: seq<Step>)
    requires Run(steps).elf.unresolvedLabels == map[]
    ensures var elf := Run(steps).elf;
            (forall k :: 0 <= k < |elf.unresolvedInsns| ==> elf.unresolvedInsns[k].hash in elf.labelToAddr)
            && Assembled(steps).labelToAddr == elf.labelToAddr
  {
    hide HashOf, Run, DefLog, PatchAll, TouchAll, SymbolsMatch, SectionsMatch, DataMatches, LabelsMatch, EntriesMatch;
    var elf := Run(steps).elf;
    RunInvariant(steps);
    RecordedHaveAddresses(elf, DefLog(steps));
    assert elf.unresolvedInsns[..|elf.unresolvedInsns|] == elf.unresolvedInsns;
    TouchAllKnown(elf.labelToAddr, elf.unresolvedInsns);
  }
}
