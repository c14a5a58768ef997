/** What a run does, in terms of its steps alone: when it exits, which section is open, which labels are known, what
    each statement defines, and where that is in the file. */
module Statements {
  import opened Machine
  import opened Encoding
  import opened Hash
  import opened Patch
  import opened ElfFormat
  import opened Strtab
  import opened Sections
  import opened ElfState
  import opened Assembler
  import opened Labels
  import opened Lookahead
  import opened Agreement
  import opened Meaning
  import opened Reader
  import opened RoundTrip

  // ---------- When a run exits ----------

  /** The operands of step `n` are out of range. */
  predicate OutOfRange(steps: seq<Step>, n: nat)
    requires n < |steps|
  {
    var labels := Addresses(steps[..n]).labels;
    || (steps[n].Immediate? && !(-2048 <= steps[n].literal <= 2047))
    || (steps[n].Jump? && steps[n].target in labels && 2 * (labels[steps[n].target] as int) % 0x20_0000 >= 0x10_0000)
  }

  lemma LastOutOfRange(steps: seq<Step>)
    requires steps != [] && !Run(steps[..|steps| - 1]).exited
    ensures Run(steps).exited <==> OutOfRange(steps, |steps| - 1)
  {
    hide Run, Exec, JumpOffset, Addresses;
    var m := |steps| - 1;
    var s, step := Run(steps[..m]), steps[m];
    assert Run(steps) == Exec(s, step) by {
      RunSnoc(steps[..m], step);
      assert steps[..m] + [step] == steps;
    }
    AddressesAgree(steps[..m]);
    ExitStep(s, step);
    if step.Jump? && step.target in s.elf.resolvedLabels {
      AcceptedJumpMeaning(s.elf, step.target);
    }
  }

  lemma {:induction false} ExitsWhenOutOfRange(steps: seq<Step>)
    ensures Run(steps).exited <==> exists n :: 0 <= n < |steps| && OutOfRange(steps, n)
    decreases |steps|
  {
    if steps != [] {
      var m := |steps| - 1;
      ExitsWhenOutOfRange(steps[..m]);
      forall n | 0 <= n < m
        ensures OutOfRange(steps[..m], n) <==> OutOfRange(steps, n)
      {
        Prefix(steps, m, n);
      }
      hide Run, OutOfRange;
      if Run(steps[..m]).exited {
        ExitIsFinal(steps, m);
      } else {
        LastOutOfRange(steps);
      }
    }
  }

  /** A run ends without a file exactly when some immediate is not in [-2048, 2047], or some jump is to a label with an
      address whose double, modulo 2^21, is 2^20 or more. */
  lemma ExitsOnOperands(steps: seq<Step>)
    ensures Run(steps).exited
            <==> exists n :: 0 <= n < |steps|
                   && (|| (steps[n].Immediate? && !(-2048 <= steps[n].literal <= 2047))
                       || (steps[n].Jump? && steps[n].target in Addresses(steps[..n]).labels
                           && 2 * (Addresses(steps[..n]).labels[steps[n].target] as int) % 0x20_0000 >= 0x10_0000))
  {
    hide Run, Addresses;
    ExitsWhenOutOfRange(steps);
    assert forall n :: 0 <= n < |steps| ==>
        (OutOfRange(steps, n) <==>
           || (steps[n].Immediate? && !(-2048 <= steps[n].literal <= 2047))
           || (steps[n].Jump? && steps[n].target in Addresses(steps[..n]).labels
               && 2 * (Addresses(steps[..n]).labels[steps[n].target] as int) % 0x20_0000 >= 0x10_0000));
  }

  // ---------- Sections and strings ----------

  lemma ExecSelects(s: Asm, step: Step)
    requires !Exec(s, step).exited
    ensures Exec(s, step).section
            == if step.SectionDirective? then step.section
               else if step.Ascii? then [0x2E, 0x64, 0x61, 0x74, 0x61] else s.section
    ensures Exec(s, step).tempValue
            == if step.Ascii? then step.value else if step.LabeledDirective? then [] else s.tempValue
  {
    hide InitLabel, AddProgramData, ExecBranch, ExecJump, ExecSymbol, PlainWord, Rejected;
    PlainKinds(step);
  }

  lemma LastStep(steps: seq<Step>)
    requires steps != [] && !Run(steps).exited
    ensures var m := |steps| - 1;
            !Run(steps[..m]).exited && Run(steps) == Exec(Run(steps[..m]), steps[m])
  {
    hide Exec;
    NotExitedBefore(steps);
  }

  /** The current section is the one that the last section directive or string directive selected, .data for a string.
      The directive `.text` selects nothing, and neither does any other step. */
  lemma {:induction false} SectionSelected(steps: seq<Step>, k: nat)
    requires !Run(steps).exited && k < |steps| && (steps[k].SectionDirective? || steps[k].Ascii?)
    requires forall j :: k < j < |steps| ==> !steps[j].SectionDirective? && !steps[j].Ascii?
    ensures Run(steps).section
            == if steps[k].SectionDirective? then steps[k].section else [0x2E, 0x64, 0x61, 0x74, 0x61]
    decreases |steps|
  {
    hide Run, Exec;
    var m := |steps| - 1;
    LastStep(steps);
    ExecSelects(Run(steps[..m]), steps[m]);
    if k < m {
      SectionSelected(steps[..m], k);
    }
  }

  /** Before the first such directive the current section has no name. */
  lemma {:induction false} NoSectionSelected(steps: seq<Step>)
    requires !Run(steps).exited && forall j :: 0 <= j < |steps| ==> !steps[j].SectionDirective? && !steps[j].Ascii?
    ensures Run(steps).section == []
    decreases |steps|
  {
    if steps != [] {
      hide Run, Exec;
      var m := |steps| - 1;
      LastStep(steps);
      ExecSelects(Run(steps[..m]), steps[m]);
      NoSectionSelected(steps[..m]);
    }
  }

  /** A string is held until a labelled directive takes it or another string replaces it. */
  lemma {:induction false} ValueHeld(steps: seq<Step>, k: nat)
    requires !Run(steps).exited && k < |steps| && (steps[k].Ascii? || steps[k].LabeledDirective?)
    requires forall j :: k < j < |steps| ==> !steps[j].Ascii? && !steps[j].LabeledDirective?
    ensures Run(steps).tempValue == if steps[k].Ascii? then steps[k].value else []
    decreases |steps|
  {
    hide Run, Exec;
    var m := |steps| - 1;
    LastStep(steps);
    ExecSelects(Run(steps[..m]), steps[m]);
    if k < m {
      ValueHeld(steps[..m], k);
    }
  }

  lemma {:induction false} NoValueHeld(steps: seq<Step>)
    requires !Run(steps).exited && forall j :: 0 <= j < |steps| ==> !steps[j].Ascii?
    ensures Run(steps).tempValue == []
    decreases |steps|
  {
    if steps != [] {
      hide Run, Exec;
      var m := |steps| - 1;
      LastStep(steps);
      ExecSelects(Run(steps[..m]), steps[m]);
      NoValueHeld(steps[..m]);
    }
  }

  /** What a labelled directive defines: data, if the last string or labelled directive before it is a string that is
      not empty, and then that string, at the end of the data so far. */
  lemma DataDefined(steps: seq<Step>, n: nat, k: nat)
    requires n < |steps| && !Run(steps[..n]).exited && steps[n].LabeledDirective?
    requires k < n && (steps[k].Ascii? || steps[k].LabeledDirective?)
    requires forall j :: k < j < n ==> !steps[j].Ascii? && !steps[j].LabeledDirective?
    ensures var s := Run(steps[..n]);
            Defines(s, steps[n])
            == if steps[k].Ascii? && steps[k].value != []
               then [DataDef(steps[n].name, s.section, Wrap(|s.elf.data|), steps[k].value, |s.elf.data|)]
               else []
  {
    hide Run, Exec, Wrap;
    assert steps[..n][k] == steps[k];
    ValueHeld(steps[..n], k);
  }

  /** A labelled directive with no string before it defines nothing. */
  lemma NoDataDefined(steps: seq<Step>, n: nat)
    requires n < |steps| && !Run(steps[..n]).exited && steps[n].LabeledDirective?
    requires forall j :: 0 <= j < n ==> !steps[j].Ascii?
    ensures Defines(Run(steps[..n]), steps[n]) == []
  {
    hide Run, Exec;
    NoValueHeld(steps[..n]);
  }

  // ---------- Labels and words ----------

  /** A label has an address from the first block or `.globl` directive that names it on. */
  lemma {:induction false} KnownIffNamed(steps: seq<Step>, l: Bytes)
    ensures l in Addresses(steps).labels
            <==> exists m :: 0 <= m < |steps| && (steps[m] == LabeledBlock(l) || steps[m] == Global(l))
    decreases |steps|
  {
    hide WordCount, Wrap;
    if steps != [] {
      var n := |steps| - 1;
      KnownIffNamed(steps[..n], l);
      assert Addresses(steps) == FirstStep(Addresses(steps[..n]), steps[n]);
      hide Addresses;
      assert forall m :: 0 <= m < n ==> steps[..n][m] == steps[m];
    }
  }

  lemma NamedBefore(steps: seq<Step>, n: nat, l: Bytes)
    requires n <= |steps|
    ensures l in Addresses(steps[..n]).labels
            <==> exists m :: 0 <= m < n && (steps[m] == LabeledBlock(l) || steps[m] == Global(l))
  {
    hide Addresses;
    KnownIffNamed(steps[..n], l);
    assert forall m :: 0 <= m < n ==> steps[..n][m] == steps[m];
  }

  lemma TextGrowth(steps: seq<Step>, n: nat)
    requires n < |steps| && !Run(steps[..n + 1]).exited
    ensures |Run(steps[..n + 1]).elf.text|
            == |Run(steps[..n]).elf.text| + WordCount(steps[n], Addresses(steps[..n]))
  {
    hide Exec, WordCount;
    var before, after := steps[..n], steps[..n + 1];
    assert after[..n] == before && after[n] == steps[n];
    NotExitedBefore(after);
    AddressesAgree(before);
    AddressesAgree(after);
  }

  /** Step `n` pushes one word if it is a branch or names no label, a jump if its label was named before, and an
      instruction with a symbol if the symbol was used before; no other step pushes any. */
  lemma WordsPushed(steps: seq<Step>, n: nat)
    requires n < |steps| && !Run(steps[..n + 1]).exited
    ensures |Run(steps[..n + 1]).elf.text| - |Run(steps[..n]).elf.text|
            == match steps[n]
               case RFormat(_, _, _, _, _) => 1
               case Immediate(_, _, _, _, _) => 1
               case LoadStore(_, _, _, _, _) => 1
               case Branch(_, _, _, _, _) => 1
               case System(_, _, _) => 1
               case Move(_, _) => 1
               case Ret => 1
               case Jump(l) =>
                 if exists m :: 0 <= m < n && (steps[m] == LabeledBlock(l) || steps[m] == Global(l)) then 1 else 0
               case SymbolImmediate(_, _, _, _, symbol) =>
                 if exists m :: 0 <= m < n && steps[m].SymbolImmediate? && steps[m].symbol == symbol then 1 else 0
               case _ => 0
  {
    hide Run, Addresses, PlainWord;
    TextGrowth(steps, n);
    PlainKinds(steps[n]);
    if steps[n].Jump? {
      NamedBefore(steps, n, steps[n].target);
    } else if steps[n].SymbolImmediate? {
      SymbolPushes(steps, n);
    }
  }

  /** The labels left unresolved are those that a branch or jump uses and no step names; each stands for its hash. */
  lemma {:induction false} UnresolvedIffUsed(steps: seq<Step>, l: Bytes)
    requires !Run(steps).exited
    ensures l in Run(steps).elf.unresolvedLabels
            <==> l !in Addresses(steps).labels
                 && exists m :: 0 <= m < |steps| && (steps[m].Branch? || steps[m].Jump?) && steps[m].target == l
    ensures l in Run(steps).elf.unresolvedLabels ==> Run(steps).elf.unresolvedLabels[l] == HashOf(l)
    decreases |steps|
  {
    hide Run, Exec, HashOf, WordCount, Wrap;
    if steps == [] {
      RunOfNothing();
    } else {
      var n := |steps| - 1;
      LastStep(steps);
      UnresolvedIffUsed(steps[..n], l);
      AddressesAgree(steps[..n]);
      ExecUnresolved(Run(steps[..n]), steps[n], l);
      assert forall m :: 0 <= m < n ==> steps[..n][m] == steps[m];
    }
  }

  lemma RunOfNothing()
    ensures Run([]) == START
  {}

  lemma LabelMaps(elf: ElfState, name: Bytes, isGlobal: bool, section: Bytes)
    ensures var elf' := InitLabel(elf, name, isGlobal, section);
            if name in elf.resolvedLabels then elf' == elf
            else elf'.unresolvedLabels == elf.unresolvedLabels - {name}
                 && elf'.labelToAddr == elf.labelToAddr[HashOf(name) := Wrap(LastIndexOf(|elf.text|))]
  {
    hide HashOf, Add, AddOffset, CStr, BindOf, Wrap;
  }

  lemma DataMaps(elf: ElfState, name: Bytes, value: Bytes, section: Bytes)
    ensures var elf' := AddProgramData(elf, name, value, section);
            elf'.unresolvedLabels == elf.unresolvedLabels && elf'.labelToAddr == elf.labelToAddr
  {
    hide Add, AddOffset, CStr, BindOf, Wrap;
  }

  lemma ReferenceMaps(elf: ElfState, section: Bytes, step: Step)
    requires step.Branch? || step.Jump?
    ensures var elf' := if step.Branch? then ExecBranch(elf, section, step) else ExecJump(elf, section, step.target);
            elf'.unresolvedLabels == NoteLabel(elf, step.target).unresolvedLabels
            && elf'.labelToAddr == elf.labelToAddr
  {
    hide EmitB, EmitJ, HashOf, JumpOffset, EntryFor;
  }

  lemma SymbolMaps(elf: ElfState, step: Step)
    requires step.SymbolImmediate?
    ensures ExecSymbol(elf, step).unresolvedLabels == elf.unresolvedLabels
    ensures ExecSymbol(elf, step).labelToAddr == elf.labelToAddr
  {
    hide SymbolWord;
  }

  lemma ExecUnresolved(s: Asm, step: Step, l: Bytes)
    requires !Exec(s, step).exited
    ensures var before, after := s.elf.unresolvedLabels, Exec(s, step).elf.unresolvedLabels;
            if (step.Branch? || step.Jump?) && step.target == l && l !in s.elf.resolvedLabels then
              l in after && after[l] == HashOf(l)
            else if (step == LabeledBlock(l) || step == Global(l)) && l !in s.elf.resolvedLabels then
              l !in after
            else
              (l in after <==> l in before) && (l in after ==> after[l] == before[l])
  {
    hide PlainWord, Rejected, HashOf, Wrap, InitLabel, AddProgramData, ExecBranch, ExecJump, ExecSymbol;
    PlainKinds(step);
    match step
    case Branch(_, _, _, _, _) => ReferenceMaps(s.elf, s.section, step);
    case Jump(_) => ReferenceMaps(s.elf, s.section, step);
    case SymbolImmediate(_, _, _, _, _) => SymbolMaps(s.elf, step);
    case LabeledBlock(name) => LabelMaps(s.elf, name, false, s.section);
    case Global(name) => LabelMaps(s.elf, name, true, DOT_TEXT);
    case LabeledDirective(name) => DataMaps(s.elf, name, s.tempValue, s.section);
    case _ =>
  }

  // ---------- What other statements define ----------

  /** The first block or `.globl` directive that names a label defines it, at the last word there is: in the current
      section or in .text. A later one defines nothing. */
  lemma LabelDefined(steps: seq<Step>, n: nat)
    requires n < |steps| && !Run(steps[..n]).exited && (steps[n].LabeledBlock? || steps[n].Global?)
    ensures var s, l := Run(steps[..n]), steps[n].name;
            Defines(s, steps[n])
            == if exists m :: 0 <= m < n && (steps[m] == LabeledBlock(l) || steps[m] == Global(l)) then []
               else [LabelDef(l, if steps[n].LabeledBlock? then s.section else [0x2E, 0x74, 0x65, 0x78, 0x74],
                              if s.elf.text == [] then 0 else Wrap(|s.elf.text| - 1))]
  {
    hide Run, Addresses, Wrap;
    AddressesAgree(steps[..n]);
    NamedBefore(steps, n, steps[n].name);
  }

  lemma OthersDefineNothing(steps: seq<Step>, n: nat)
    requires n < |steps| && !steps[n].LabeledBlock? && !steps[n].Global? && !steps[n].LabeledDirective?
    ensures Defines(Run(steps[..n]), steps[n]) == []
  {
    hide Run, Rejected;
  }

  /** What step `n` defines stands in the log after what the steps before it define. */
  lemma {:induction false} DefinedInOrder(steps: seq<Step>, n: nat)
    requires n < |steps|
    ensures DefLog(steps[..n]) + Defines(Run(steps[..n]), steps[n]) <= DefLog(steps)
    decreases |steps|
  {
    hide Run, Defines;
    var m := |steps| - 1;
    if n < m {
      Prefix(steps, m, n);
      DefinedInOrder(steps[..m], n);
    }
  }

  /** The log holds nothing else. */
  lemma {:induction false} DefinedByStep(steps: seq<Step>, k: nat) returns (n: nat)
    requires k < |DefLog(steps)|
    ensures n < |steps| && |DefLog(steps[..n])| == k && Defines(Run(steps[..n]), steps[n]) == [DefLog(steps)[k]]
    decreases |steps|
  {
    hide Run;
    var m := |steps| - 1;
    assert |Defines(Run(steps[..m]), steps[m])| <= 1;
    hide Defines;
    if k < |DefLog(steps[..m])| {
      n := DefinedByStep(steps[..m], k);
      Prefix(steps, m, n);
    } else {
      n := m;
    }
  }

  // ---------- Where the file holds it ----------

  /** Entry `e` of the symbol table of a file has this name, value and section index. */
  ghost predicate SymbolStands(file: Bytes, e: nat, name: Bytes, value: nat, shndx: nat) {
    && Readable(file) && ParseEhdr(file).shnum == 6 && HeaderAt(file, 3).link == 1
    && HeaderAt(file, 3).offset + 16 * e + 16 <= |file|
    && SymbolName(file, e) == Some(name) && SymbolAt(file, e).value == value && SymbolAt(file, e).shndx == shndx
  }

  /** Section .data of a file holds these bytes at this position. */
  ghost predicate DataStands(file: Bytes, at: nat, bytes: Bytes) {
    && Readable(file) && ParseEhdr(file).shnum == 6
    && var h := HeaderAt(file, 5); at + |bytes| <= h.size && ReadInto(file, h.offset, h.size)[at..at + |bytes|] == bytes
  }

  lemma SymbolStandsThere(steps: seq<Step>, e: nat)
    requires |FileOf(Assembled(steps))| < TWO32 && e < |DefLog(steps)|
    ensures var f, def := FileOf(Assembled(steps)), DefLog(steps)[e];
            var value := if def.DataDef? then |DataOf(DefLog(steps)[..e])| else 0;
            SymbolStands(f, e + 1, CStr(def.name), value, IndexOf(def.section))
            && (def.DataDef? ==> DataStands(f, value, def.value))
  {
    hide FileOf, ParseEhdr, HeaderAt, HasHeader, HasTable, HasNameTable, SymbolAt, SymbolName, ReadInto, Run, Assembled,
         DefLog, CStr, DataOf, IndexOf;
    SymbolsReadBack(steps, e);
  }

  /** A string and the directive that takes it, in the file: the symbol after those defined before has the name of the
      directive, and at its value .data has the string, after the strings taken before. */
  lemma DataInFile(steps: seq<Step>, n: nat, k: nat)
    requires !Run(steps).exited && |FileOf(Assembled(steps))| < TWO32
    requires k < n < |steps| && steps[n].LabeledDirective? && steps[k].Ascii? && steps[k].value != []
    requires forall j :: k < j < n ==> !steps[j].Ascii? && !steps[j].LabeledDirective?
    ensures var f, log := FileOf(Assembled(steps)), DefLog(steps[..n]);
            SymbolStands(f, |log| + 1, CStr(steps[n].name), |DataOf(log)|, IndexOf(Run(steps[..n]).section))
            && DataStands(f, |DataOf(log)|, steps[k].value)
  {
    hide FileOf, Run, Assembled, DefLog, Defines, CStr, DataOf, IndexOf, Wrap, SymbolStands, DataStands;
    if Run(steps[..n]).exited {
      ExitIsFinal(steps, n);
    }
    var log := DefLog(steps[..n]);
    DataDefined(steps, n, k);
    DefinedInOrder(steps, n);
    assert DefLog(steps)[..|log|] == log;
    SymbolStandsThere(steps, |log|);
  }

  /** A label in the file: the symbol after those defined before has its name, value 0, and the index of its section. */
  lemma LabelInFile(steps: seq<Step>, n: nat)
    requires !Run(steps).exited && |FileOf(Assembled(steps))| < TWO32
    requires n < |steps| && (steps[n].LabeledBlock? || steps[n].Global?)
    requires forall m :: 0 <= m < n ==> steps[m] != LabeledBlock(steps[n].name) && steps[m] != Global(steps[n].name)
    ensures SymbolStands(FileOf(Assembled(steps)), |DefLog(steps[..n])| + 1, CStr(steps[n].name), 0,
                         if steps[n].LabeledBlock? then IndexOf(Run(steps[..n]).section) else 4)
  {
    hide FileOf, Run, Assembled, DefLog, Defines, CStr, DataOf, IndexOf, Wrap, SymbolStands, DataStands;
    if Run(steps[..n]).exited {
      ExitIsFinal(steps, n);
    }
    LabelDefined(steps, n);
    DefinedInOrder(steps, n);
    SymbolStandsThere(steps, |DefLog(steps[..n])|);
    KnownIndices([0x2E, 0x74, 0x65, 0x78, 0x74]);
  }

  // ---------- The address found under a hash ----------

  /** Step `m` is the first that names its label, and that label has this hash. */
  predicate FirstUnder(steps: seq<Step>, m: nat, hash: u32)
    requires m < |steps|
  {
    var name := DefinedName(steps[m]);
    name.Some? && HashOf(name.value) == hash && name.value !in Addresses(steps[..m]).labels
  }

  lemma FirstUnderPrefix(steps: seq<Step>, n: nat, m: nat, hash: u32)
    requires m < n <= |steps|
    ensures FirstUnder(steps[..n], m, hash) <==> FirstUnder(steps, m, hash)
  {
    hide Addresses, HashOf;
    Prefix(steps, n, m);
  }

  lemma ExecAddresses(s: Asm, step: Step)
    ensures var name, after := DefinedName(step), Exec(s, step).elf.labelToAddr;
            after == if !s.exited && name.Some? && name.value !in s.elf.resolvedLabels
                     then s.elf.labelToAddr[HashOf(name.value) := Wrap(LastIndexOf(|s.elf.text|))]
                     else s.elf.labelToAddr
  {
    hide PlainWord, HashOf, Wrap, InitLabel, AddProgramData, ExecBranch, ExecJump, ExecSymbol;
    PlainKinds(step);
    match step
    case Branch(_, _, _, _, _) => ReferenceMaps(s.elf, s.section, step);
    case Jump(_) => ReferenceMaps(s.elf, s.section, step);
    case SymbolImmediate(_, _, _, _, _) => SymbolMaps(s.elf, step);
    case LabeledBlock(name) => LabelMaps(s.elf, name, false, s.section);
    case Global(name) => LabelMaps(s.elf, name, true, DOT_TEXT);
    case LabeledDirective(name) => DataMaps(s.elf, name, s.tempValue, s.section);
    case _ =>
  }

  lemma LastAddress(steps: seq<Step>, hash: u32)
    requires steps != [] && !Run(steps).exited
    ensures var n := |steps| - 1;
            AddressOf(Run(steps).elf.labelToAddr, hash)
            == if FirstUnder(steps, n, hash) then Wrap(LastIndexOf(|Run(steps[..n]).elf.text|))
               else AddressOf(Run(steps[..n]).elf.labelToAddr, hash)
  {
    hide Run, Exec, HashOf, Wrap, Addresses;
    var n := |steps| - 1;
    LastStep(steps);
    AddressesAgree(steps[..n]);
    ExecAddresses(Run(steps[..n]), steps[n]);
  }

  /** A reference is patched with the address of the last label that was defined under the hash of its label. */
  lemma {:induction false} FoundAddress(steps: seq<Step>, hash: u32, m: nat)
    requires !Run(steps).exited && m < |steps| && FirstUnder(steps, m, hash)
    requires forall j :: m < j < |steps| ==> !FirstUnder(steps, j, hash)
    ensures AddressOf(Run(steps).elf.labelToAddr, hash) == Wrap(LastIndexOf(|Run(steps[..m]).elf.text|))
    decreases |steps|
  {
    hide Run, Exec, Wrap, FirstUnder;
    var n := |steps| - 1;
    LastAddress(steps, hash);
    if m < n {
      LastStep(steps);
      Prefix(steps, n, m);
      forall j | m <= j < n
        ensures FirstUnder(steps[..n], j, hash) <==> FirstUnder(steps, j, hash)
      {
        FirstUnderPrefix(steps, n, j, hash);
      }
      FoundAddress(steps[..n], hash, m);
    }
  }

  /** One for which no label is defined is patched with address 0. */
  lemma {:induction false} NothingFound(steps: seq<Step>, hash: u32)
    requires !Run(steps).exited && forall j :: 0 <= j < |steps| ==> !FirstUnder(steps, j, hash)
    ensures AddressOf(Run(steps).elf.labelToAddr, hash) == 0
    decreases |steps|
  {
    hide Run, Exec, Wrap, FirstUnder;
    if steps == [] {
      RunOfNothing();
    } else {
      var n := |steps| - 1;
      LastAddress(steps, hash);
      LastStep(steps);
      forall j | 0 <= j < n
        ensures FirstUnder(steps[..n], j, hash) <==> FirstUnder(steps, j, hash)
      {
        FirstUnderPrefix(steps, n, j, hash);
      }
      NothingFound(steps[..n], hash);
    }
  }

  /** The displacement a reference is patched with: twice the distance from the slot before the next word to the address
      found under the hash of its label, modulo 2^32. */
  lemma DisplacementFound(steps: seq<Step>, n: nat)
    requires n < |steps| && !Run(steps[..n]).exited && (steps[n].Branch? || steps[n].Jump?)
    ensures FoundDisplacement(steps, n)
            == Wrap(2 * (AddressOf(Run(steps).elf.labelToAddr, HashOf(steps[n].target))
                         - (|Run(steps[..n]).elf.text| - 1)))
  {
    hide Run, Addresses, Displacement, Wrap, HashOf;
    AddressesAgree(steps[..n]);
    FoundIs(steps);
    DisplacementFromSlot(Found(steps)(steps[n].target), Slot(steps, n));
  }

  /** A reference is recorded exactly when no step before it names its label: in .text against the next word, elsewhere
      against word 0. */
  lemma RecordedWhere(steps: seq<Step>, n: nat, i: nat)
    requires n < |steps| && !Run(steps[..n]).exited
    ensures RecordedAt(steps, n, i)
            <==> (steps[n].Branch? || steps[n].Jump?)
                 && !(exists m :: 0 <= m < n
                        && (steps[m] == LabeledBlock(steps[n].target) || steps[m] == Global(steps[n].target)))
                 && i == if Run(steps[..n]).section == [0x2E, 0x74, 0x65, 0x78, 0x74]
                         then Wrap(|Run(steps[..n]).elf.text|) else 0
  {
    hide Run, Addresses;
    AddressesAgree(steps[..n]);
    if steps[n].Branch? || steps[n].Jump? {
      NamedBefore(steps, n, steps[n].target);
    }
  }
}
