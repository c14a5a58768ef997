/** The object file as the program holds it: section objects that share their headers with one header table. */
module Elf32 {
  import opened Machine
  import opened Encoding
  import opened Hash
  import opened Patch
  import opened Stream
  import opened ElfFormat
  import opened Strtab
  import opened Sections
  import opened ElfState
  import Spec = ElfState

  class ELF32 {
    var elfHeader: Ehdr
    const sectionHeaders: seq<SectionHeader>
    const nullHeader: SectionHeader
    const headerShstrtab: SectionHeader
    const strtab: StringTable
    const shstrtab: StringTable
    const symtab: Symtab
    const secText: Text
    const secData: Data
    var resolvedLabels: map<Bytes, u32>
    var unresolvedLabels: map<Bytes, u32>
    var sectionToIdx: map<Bytes, u32>
    var labelToAddr: LabelAddresses
    var unresolvedInstructions: seq<UnresolvedInst>
    var symbols: map<Bytes, u32>

    /** The header table lists the null header and the headers of the sections, six different objects. */
    ghost predicate Wired() {
      && sectionHeaders == [nullHeader, strtab.header, shstrtab.header, symtab.header, secText.header, secData.header]
      && headerShstrtab == shstrtab.header
      && strtab != shstrtab
      && nullHeader !in {strtab.header, shstrtab.header, symtab.header, secText.header, secData.header}
      && strtab.header !in {shstrtab.header, symtab.header, secText.header, secData.header}
      && shstrtab.header !in {symtab.header, secText.header, secData.header}
      && symtab.header !in {secText.header, secData.header}
      && secText.header != secData.header
    }

    ghost function Sections(): set<object> {
      {strtab, shstrtab, symtab, secText, secData}
    }

    ghost function Headers(): set<object> {
      {nullHeader, strtab.header, shstrtab.header, symtab.header, secText.header, secData.header}
    }

    ghost function View(): ElfState
      reads this`resolvedLabels, this`unresolvedLabels, this`sectionToIdx, this`labelToAddr
      reads this`unresolvedInstructions, this`symbols, strtab, symtab, secText, secData
    {
      ElfState(secText.data, secData.data, strtab.data, symtab.data, resolvedLabels, unresolvedLabels,
               sectionToIdx, labelToAddr, unresolvedInstructions, symbols)
    }

    // Every header agrees with the section it describes, up to its offset.

    ghost predicate StrtabOk()
      reads strtab, strtab.header
    {
      strtab.Valid() && strtab.header.h.(offset := 0) == StrtabHeader(|strtab.data|)
    }

    ghost predicate ShstrtabOk()
      reads shstrtab, shstrtab.header
    {
      shstrtab.data == ShstrtabBytes() && shstrtab.header.h.(offset := 0) == ShstrtabHeader(|shstrtab.data|)
    }

    ghost predicate SymtabOk()
      reads symtab, symtab.header
    {
      symtab.data != [] && symtab.header.h.(offset := 0) == SymtabHeader(|symtab.data|)
    }

    ghost predicate TextOk()
      reads secText, secText.header
    {
      secText.header.h.(offset := 0) == TextHeader(|secText.data|)
    }

    ghost predicate DataOk()
      reads secData, secData.header
    {
      secData.header.h.(offset := 0) == DataHeader(|secData.data|)
    }

    ghost predicate HeaderOk()
      reads this`elfHeader, nullHeader
    {
      elfHeader.(shoff := 0, shnum := 0, shstrndx := 0) == INITIAL_EHDR && nullHeader.h == NULL_SHDR
    }

    ghost predicate Valid()
      reads this, Sections(), Headers()
    {
      Wired() && HeaderOk() && StrtabOk() && ShstrtabOk() && SymtabOk() && TextOk() && DataOk()
    }

    constructor ()
      ensures Valid() && fresh(Sections()) && fresh(Headers()) && View() == INITIAL
    {
      hide Valid, View, TableOf, ShstrtabBytes, INITIAL_INDICES, MAGIC,
           StrtabHeader, ShstrtabHeader, SymtabHeader, TextHeader, DataHeader;
      elfHeader := INITIAL_EHDR;
      resolvedLabels, unresolvedLabels, labelToAddr := map[], map[], map[];
      sectionToIdx := INITIAL_INDICES;
      unresolvedInstructions, symbols := [], map[];
      var first := new SectionHeader(NULL_SHDR);
      var names, n1, n2, n3, n4 := InitShstrtab();
      var st := InitStrtab(n1);
      var sy := InitSymtab(n2);
      var tx := InitTextSection(n3);
      var da := InitDataSection(n4);
      nullHeader, headerShstrtab := first, names.header;
      sectionHeaders := [first, st.header, names.header, sy.header, tx.header, da.header];
      strtab, shstrtab, symtab, secText, secData := st, names, sy, tx, da;
      new;
      InitialIsValid();
    }

    lemma InitialIsValid()
      requires Wired() && elfHeader == INITIAL_EHDR && nullHeader.h == NULL_SHDR
      requires strtab.data == [0] && strtab.header.h == StrtabHeader(1)
      requires shstrtab.data == ShstrtabBytes() && shstrtab.header.h == ShstrtabHeader(|shstrtab.data|)
      requires symtab.data == [NULL_SYM] && symtab.header.h == SymtabHeader(1)
      requires secText.data == [] && secText.header.h == TextHeader(0)
      requires secData.data == [] && secData.header.h == DataHeader(0)
      requires resolvedLabels == map[] && unresolvedLabels == map[] && labelToAddr == map[] && symbols == map[]
      requires sectionToIdx == INITIAL_INDICES && unresolvedInstructions == []
      ensures Valid() && View() == INITIAL
    {
      hide Wired, ShstrtabBytes, INITIAL_INDICES, MAGIC, NameOffset;
    }

    predicate LabelExists(name: Bytes)
      reads this
    {
      name in resolvedLabels
    }

    method StoreRegularString(str: Bytes) returns (offset: nat)
      requires Valid()
      modifies strtab, strtab.header
      ensures Valid() && View() == Spec.StoreString(old(View()), str)
      ensures offset == AddOffset(old(strtab.data))
    {
      hide Add, AddOffset;
      offset := strtab.AddString(str);
      strtab.header.h := strtab.header.h.(size := Wrap(|strtab.data|));
    }

    method InitLabel(name: Bytes, isGlobal: bool, section: Bytes)
      requires Valid()
      modifies this, strtab, strtab.header, symtab, symtab.header
      ensures Valid() && View() == Spec.InitLabel(old(View()), name, isGlobal, section)
    {
      hide Add, AddOffset, CStr, HashOf, StrtabOk, ShstrtabOk, TextOk, DataOk, HeaderOk, StrtabHeader;
      if LabelExists(name) {
        return;
      }
      var idx := StoreRegularString(name);
      var sym := NULL_SYM.(name := Wrap(idx));
      sym := sym.(info := BindOf(if isGlobal then 1 else 0));
      if section in sectionToIdx {
        sym := sym.(shndx := sectionToIdx[section] % 0x1_0000);
      }
      RecordAddress(name, Wrap(secText.LastIndex()));
      symtab.header.h := symtab.header.h.(size := Wrap(symtab.header.h.size + 16));
      symtab.Push(sym);
    }

    method RecordAddress(name: Bytes, addr: u32)
      modifies this`unresolvedLabels, this`resolvedLabels, this`labelToAddr
      ensures unresolvedLabels == old(unresolvedLabels) - {name} && resolvedLabels == old(resolvedLabels)[name := addr]
      ensures labelToAddr == old(labelToAddr)[HashOf(name) := addr]
    {
      hide HashOf;
      if name in unresolvedLabels {
        unresolvedLabels := unresolvedLabels - {name};
      }
      resolvedLabels := resolvedLabels[name := addr];
      var hash := Hasher(name);
      labelToAddr := labelToAddr[hash := addr];
    }

    method UpdateLabelVisibility(name: Bytes, isGlobal: bool)
      requires Valid()
      modifies this, strtab, strtab.header, symtab, symtab.header
      ensures Valid() && View() == Spec.UpdateVisibility(old(View()), name, isGlobal)
    {
      hide Spec.InitLabel;
      if !LabelExists(name) {
        InitLabel(name, isGlobal, DOT_TEXT);
      }
    }

    /** Returns whether `name` has an address; `offset` is the address, or the hash that stands in for it. */
    method ResolveLabel(name: Bytes) returns (resolved: bool, offset: u32)
      requires Valid()
      modifies this
      ensures Valid() && View() == Spec.NoteLabel(old(View()), name)
      ensures resolved == (name in old(View()).resolvedLabels) && offset == Spec.LabelOffset(old(View()), name)
    {
      hide HashOf;
      if name in resolvedLabels {
        return true, resolvedLabels[name];
      }
      var hash := Hasher(name);
      unresolvedLabels := unresolvedLabels[name := hash];
      return false, unresolvedLabels[name];
    }

    function GetNextInsnNumber(section: Bytes): (n: nat)
      requires Valid()
      reads this, Sections(), Headers()
      ensures n == Spec.NextInsnNumber(View(), section)
    {
      if section == DOT_TEXT then |secText.data| else 0
    }

    method AddToUnresolvedInsns(insnNumber: u32, insnType: InstType, hash: u32, pcInsnNumber: u32)
      requires Valid()
      modifies this
      ensures Valid()
      ensures View() == Spec.AddUnresolved(old(View()), UnresolvedInst(insnNumber, pcInsnNumber, insnType, hash))
    {
      unresolvedInstructions := unresolvedInstructions + [UnresolvedInst(insnNumber, pcInsnNumber, insnType, hash)];
    }

    method AddToText(insn: u32)
      requires Valid()
      modifies secText, secText.header
      ensures Valid() && View() == Spec.AddToText(old(View()), insn)
    {
      secText.Push(insn);
    }

    predicate SymbolExists(name: Bytes)
      reads this
    {
      name in symbols
    }

    method AddSymbol(name: Bytes, offsetIdx: u32)
      requires Valid()
      modifies this`symbols
      ensures Valid() && View() == Spec.AddSymbol(old(View()), name, offsetIdx)
    {
      symbols := symbols[name := offsetIdx];
    }

    /** The offset index of a symbol, 0 for one that does not exist. */
    method ResolveSymbol(name: Bytes) returns (known: bool, offsetIdx: u32)
      ensures known == (name in symbols) && offsetIdx == if name in symbols then symbols[name] else 0
    {
      if !SymbolExists(name) {
        return false, 0;
      }
      return true, symbols[name];
    }

    method AddProgramData(name: Bytes, value: Bytes, section: Bytes)
      requires Valid()
      modifies this, Sections(), Headers()
      ensures Valid() && View() == Spec.AddProgramData(old(View()), name, value, section)
    {
      hide Add, AddOffset, CStr, StrtabOk, ShstrtabOk, TextOk, HeaderOk;
      var idx := StoreRegularString(name);
      var sym := NULL_SYM.(name := Wrap(idx));
      sym := sym.(info := BindOf(0));
      if section !in sectionToIdx {
        sectionToIdx := sectionToIdx[section := 0];
      }
      sym := sym.(shndx := sectionToIdx[section] % 0x1_0000);
      var offset := secData.PushString(value);
      sym := sym.(value := Wrap(offset));
      symtab.Push(sym);
    }

    /** `label_to_addr[hash]`, which inserts address 0 for a missing hash. */
    method LookUpAddress(hash: u32) returns (addr: u32)
      modifies this`labelToAddr
      ensures addr == AddressOf(old(labelToAddr), hash) && labelToAddr == old(labelToAddr)[hash := addr]
    {
      if hash !in labelToAddr {
        labelToAddr := labelToAddr[hash := 0];
      }
      addr := labelToAddr[hash];
    }

    /** One round of the patch loop. The local word is uninitialized when the slot is out of range. */
    method ResolveInstruction(entry: UnresolvedInst)
      modifies this`labelToAddr, secText
      ensures labelToAddr == TouchOne(old(labelToAddr), entry)
      ensures secText.data == PatchOne(old(secText.data), entry, old(labelToAddr))
    {
      hide EmitB, EmitU, EmitJ, UnpackB, UnpackU, UnpackJ, Displacement;
      var uninitialized: u32 := *;
      var _, insn := secText.GetEntry(entry.insnNumber, uninitialized);
      match entry.insnType {
        case B_TYPE =>
          var b := UnpackB(insn);
          var target := LookUpAddress(entry.hash);
          var offset := Displacement(target, entry.pcInsnNumber);
          insn := EmitB(offset, b.rs1, b.rs2, b.funct3, b.opcode);
          var _ := secText.UpdateEntry(entry.insnNumber, insn);
        case U_TYPE =>
          var u := UnpackU(insn);
          var target := LookUpAddress(entry.hash);
          var offset := Displacement(target, entry.pcInsnNumber);
          insn := EmitU(offset, u.rd, u.opcode);
          var _ := secText.UpdateEntry(entry.insnNumber, insn);
        case J_TYPE =>
          var j := UnpackJ(insn);
          var target := LookUpAddress(entry.hash);
          var offset := Displacement(target, entry.pcInsnNumber);
          insn := EmitJ(offset, j.rd, j.opcode);
          var _ := secText.UpdateEntry(entry.insnNumber, insn);
        case _ =>
      }
    }

    method ResolveUnresolvedInstructions()
      requires Valid()
      modifies this`labelToAddr, secText
      ensures Valid() && View() == Spec.ResolveAll(old(View()))
    {
      hide PatchEntry, Displacement, StrtabOk, ShstrtabOk, SymtabOk, DataOk, HeaderOk, Wired;
      ghost var insns, labels, text := unresolvedInstructions, labelToAddr, secText.data;
      assert insns[..0] == [];
      for i := 0 to |unresolvedInstructions|
        invariant labelToAddr == TouchAll(labels, insns[..i])
        invariant secText.data == PatchAll(text, insns[..i], labels)
      {
        assert insns[..i + 1][..i] == insns[..i];
        PatchOneSame(secText.data, insns[i], labels, labelToAddr);
        ResolveInstruction(unresolvedInstructions[i]);
      }
      assert insns[..|insns|] == insns;
    }

    /** The loop of `serialize` over `sections`, which are .text and .data. */
    method SerializeSections(os: OStream)
      requires Valid() && os.Valid() && os.pos == |os.buf|
      modifies secText.header, secData.header, os
      ensures Valid() && View() == old(View())
      ensures os.Valid() && os.pos == |os.buf| && os.buf == old(os.buf) + TextBytes(secText.data, LE) + secData.data
      ensures secText.header.h.offset == Wrap(|old(os.buf)|)
      ensures secData.header.h.offset == Wrap(|old(os.buf)| + |TextBytes(secText.data, LE)|)
    {
      hide Overwrite, TextBytes, NameOffset;
      var pos := os.pos;
      secText.Serialize(os, LE);
      secText.header.h := secText.header.h.(offset := Wrap(pos));
      pos := os.pos;
      secData.Serialize(os);
      secData.header.h := secData.header.h.(offset := Wrap(pos));
    }

    method SerializeTables(os: OStream)
      requires Valid() && os.Valid() && os.pos == |os.buf|
      modifies strtab.header, shstrtab.header, symtab.header, os
      ensures Valid() && View() == old(View())
      ensures os.Valid() && os.pos == |os.buf|
      ensures os.buf == old(os.buf) + strtab.data + shstrtab.data + SymtabBytes(symtab.data, LE)
      ensures strtab.header.h.offset == Wrap(|old(os.buf)|)
      ensures shstrtab.header.h.offset == Wrap(|old(os.buf)| + |strtab.data|)
      ensures symtab.header.h.offset == Wrap(|old(os.buf)| + |strtab.data| + |shstrtab.data|)
    {
      hide Overwrite, SymtabBytes, ShstrtabBytes, NameOffset;
      strtab.Serialize(os);
      shstrtab.Serialize(os);
      symtab.Serialize(os, LE);
    }

    ghost function HeaderTable(): (t: seq<Shdr>)
      reads Headers()
    {
      [nullHeader.h, strtab.header.h, shstrtab.header.h, symtab.header.h, secText.header.h, secData.header.h]
    }

    /** The loop of `serialize` over `section_headers`, which also finds the section name table. */
    method SerializeHeaders(os: OStream)
      requires Valid() && os.Valid() && os.pos == |os.buf|
      modifies this`elfHeader, os
      ensures Valid() && View() == old(View())
      ensures os.Valid() && os.pos == |os.buf|
      ensures os.buf == old(os.buf) + Concat(ShdrParts(HeaderTable(), LE))
      ensures elfHeader == old(elfHeader).(shstrndx := SHSTRTAB_INDEX)
    {
      ghost var before, start, table := elfHeader, os.buf, HeaderTable();
      hide View, ShdrBytes, ShdrParts, Concat, Wired, HeaderTable, Overwrite, StrtabOk, ShstrtabOk, SymtabOk, TextOk,
           DataOk;
      HeaderTableFacts();
      for i := 0 to |sectionHeaders|
        modifies this`elfHeader, os
        invariant os.Valid() && os.pos == |os.buf| && os.buf == start + Concat(ShdrParts(table[..i], LE))
        invariant elfHeader == if i <= SHSTRTAB_INDEX then before else before.(shstrndx := SHSTRTAB_INDEX)
      {
        var header := sectionHeaders[i];
        if header.h.shType == 3 && header == headerShstrtab {
          elfHeader := elfHeader.(shstrndx := i);
        }
        SerializeShdr(header.h, os, LE);
        OneMoreHeader(start, table, i);
      }
    }

    lemma OneMoreHeader(start: Bytes, table: seq<Shdr>, i: nat)
      requires i < |table|
      ensures start + Concat(ShdrParts(table[..i], LE)) + ShdrBytes(table[i], LE)
              == start + Concat(ShdrParts(table[..i + 1], LE))
    {
      hide ShdrBytes, ShdrParts, Concat;
      ShdrPartsSnoc(table, i);
      AppendAssociates(start, Concat(ShdrParts(table[..i], LE)), ShdrBytes(table[i], LE));
    }

    lemma HeaderTableFacts()
      requires Wired() && ShstrtabOk()
      ensures |sectionHeaders| == 6 && forall i :: 0 <= i < 6 ==> sectionHeaders[i].h == HeaderTable()[i]
      ensures forall i :: 0 <= i < 6 ==> (sectionHeaders[i] == headerShstrtab <==> i == SHSTRTAB_INDEX)
      ensures headerShstrtab.h.shType == 3
      ensures Concat(ShdrParts(HeaderTable()[..0], LE)) == [] && HeaderTable()[..6] == HeaderTable()
    {
    }

    lemma HeadersPlaced()
      requires Valid()
      requires strtab.header.h.offset == Wrap(Layout(View(), 2)) && shstrtab.header.h.offset == Wrap(Layout(View(), 3))
      requires symtab.header.h.offset == Wrap(Layout(View(), 4)) && secText.header.h.offset == Wrap(Layout(View(), 0))
      requires secData.header.h.offset == Wrap(Layout(View(), 1))
      ensures HeaderTable() == PlacedHeaders(View())
    {
      hide Layout, NameOffset, ShstrtabBytes;
    }

    /** Everything that `serialize` writes before the header table. */
    method SerializeBody(os: OStream)
      requires Valid() && os.Valid() && os.buf == [] && os.pos == 0
      modifies Headers(), os
      ensures Valid() && View() == old(View()) && HeaderTable() == PlacedHeaders(View())
      ensures os.Valid() && os.pos == |os.buf| && os.buf == EhdrBytes(elfHeader) + SectionBytes(View())
    {
      hide Overwrite, TextBytes, SymtabBytes, ShstrtabBytes, Layout, NameOffset, EhdrBytes, Contents, PlacedHeaders,
           HeaderTable, StrtabOk, SymtabOk, TextOk, DataOk;
      ghost var s, e := View(), EhdrBytes(elfHeader);
      LayoutValues(s);
      ParseEhdrBytes(elfHeader, []);
      SerializeEhdr(elfHeader, os);
      assert [] + e == e;
      SerializeSections(os);
      SerializeTables(os);
      HeadersPlaced();
      Regroup(e, TextBytes(s.text, LE), s.data, s.strtab, ShstrtabBytes(), SymtabBytes(s.symtab, LE));
    }

    /** The first pass of `serialize` over a new stream: an empty header, the sections, the header table. */
    method SerializeParts(os: OStream)
      requires Valid() && os.Valid() && os.buf == [] && os.pos == 0
      modifies this`elfHeader, Headers(), os
      ensures Valid() && View() == old(View()) && elfHeader == FinalEhdr(View()) && os.Valid()
      ensures os.buf == EhdrBytes(old(elfHeader)) + SectionBytes(View()) + Concat(ShdrParts(PlacedHeaders(View()), LE))
    {
      hide Overwrite, TextBytes, SymtabBytes, ShstrtabBytes, Layout, NameOffset, EhdrBytes, PlacedHeaders, HeaderTable,
           SectionBytes, Concat, ShdrParts, SHSTRTAB_INDEX, View, FinalEhdr, Wired, StrtabOk, ShstrtabOk, SymtabOk,
           TextOk, DataOk;
      ParseEhdrBytes(elfHeader, []);
      LayoutValues(View());
      SixHeaders();
      SerializeBody(os);
      elfHeader := elfHeader.(shoff := Wrap(os.pos));
      elfHeader := elfHeader.(shnum := |sectionHeaders|);
      SerializeHeaders(os);
      FilledIn(elfHeader, View());
    }

    lemma SixHeaders()
      requires Wired()
      ensures |sectionHeaders| == 6
    {}

    lemma FilledIn(e: Ehdr, s: ElfState)
      requires e.(shoff := 0, shnum := 0, shstrndx := 0) == INITIAL_EHDR
      requires e.shoff == Wrap(Layout(s, 5)) && e.shnum == 6 && e.shstrndx == SHSTRTAB_INDEX
      ensures e == FinalEhdr(s)
    {
      hide Layout, MAGIC;
    }

    lemma HeaderRewritten(first: Ehdr, s: ElfState)
      ensures var parts := EhdrBytes(first) + SectionBytes(s) + Concat(ShdrParts(PlacedHeaders(s), LE));
              Overwrite(parts, 0, EhdrBytes(FinalEhdr(s))) == FileOf(s)
    {
      hide Overwrite, EhdrBytes, PlacedHeaders, SectionBytes, Concat, ShdrParts, FinalEhdr;
      var e, sections, table := EhdrBytes(FinalEhdr(s)), SectionBytes(s), Concat(ShdrParts(PlacedHeaders(s), LE));
      ParseEhdrBytes(first, []);
      ParseEhdrBytes(FinalEhdr(s), []);
      AppendAssociates(EhdrBytes(first), sections, table);
      AppendAssociates(e, sections, table);
      OverwriteAtStart(EhdrBytes(first), sections + table, e);
    }

    /** Writes the file to a new stream, and then the header again, over itself, with the position of the table filled
        in. */
    method Serialize(os: OStream)
      requires Valid() && os.Valid() && os.buf == [] && os.pos == 0
      modifies this`elfHeader, Headers(), os
      ensures Valid() && View() == old(View())
      ensures os.buf == FileOf(View())
    {
      hide Overwrite, EhdrBytes, PlacedHeaders, SectionBytes, Concat, ShdrParts, FinalEhdr, FileOf, View, Wired,
           StrtabOk, ShstrtabOk, SymtabOk, TextOk, DataOk, HeaderOk;
      ghost var first := elfHeader;
      SerializeParts(os);
      os.SeekBegin();
      HeaderRewritten(first, View());
      SerializeEhdr(elfHeader, os);
    }
  }

  /** `init_strtables`: the section name table, which comes to hold all five names. */
  method InitShstrtab() returns (table: StringTable, n1: u32, n2: u32, n3: u32, n4: u32)
    ensures fresh(table) && fresh(table.header)
    ensures table.data == ShstrtabBytes() && table.header.h == ShstrtabHeader(|table.data|)
    ensures n1 == NameOffset(1) && n2 == NameOffset(2) && n3 == NameOffset(3) && n4 == NameOffset(4)
  {
    hide TableOf, ShstrtabBytes;
    table := new StringTable(NULL_SHDR.(shType := 3, size := 1));
    var n0;
    n0, n1, n2, n3, n4 := StoreSectionNames(table);
    table.header.h := table.header.h.(name := n0);
  }

  /** `init_strtables`: the string table. */
  method InitStrtab(name: u32) returns (table: StringTable)
    requires name == NameOffset(1)
    ensures fresh(table) && fresh(table.header) && table.data == [0] && table.header.h == StrtabHeader(1)
  {
    table := new StringTable(NULL_SHDR.(name := name, shType := 3, size := 1));
  }

  method InitSymtab(name: u32) returns (symtab: Symtab)
    requires name == NameOffset(2)
    ensures fresh(symtab) && fresh(symtab.header) && symtab.data == [NULL_SYM] && symtab.header.h == SymtabHeader(1)
  {
    symtab := new Symtab(NULL_SHDR.(name := name, shType := 2, entsize := 16, link := 1, info := 1));
    symtab.Push(NULL_SYM);
  }

  method InitTextSection(name: u32) returns (text: Text)
    requires name == NameOffset(3)
    ensures fresh(text) && fresh(text.header) && text.data == [] && text.header.h == TextHeader(0)
  {
    text := new Text(NULL_SHDR.(name := name, shType := 1, flags := 6));
  }

  method InitDataSection(name: u32) returns (data: Data)
    requires name == NameOffset(4)
    ensures fresh(data) && fresh(data.header) && data.data == [] && data.header.h == DataHeader(0)
  {
    data := new Data(NULL_SHDR.(name := name, shType := 1, flags := 3));
  }

  /** `store_section_name` for the five sections, in the order in which they are initialized. */
  method StoreSectionNames(table: StringTable) returns (n0: u32, n1: u32, n2: u32, n3: u32, n4: u32)
    requires table.data == [0]
    modifies table, table.header
    ensures table.data == ShstrtabBytes()
    ensures n0 == NameOffset(0) && n1 == NameOffset(1) && n2 == NameOffset(2) && n3 == NameOffset(3)
    ensures n4 == NameOffset(4)
    ensures table.header.h == old(table.header.h).(size := Wrap(|table.data|))
  {
    hide TableOf, NameOffset;
    SectionNameList();
    hide SECTION_NAMES, DOT_SHSTRTAB, DOT_STRTAB, DOT_SYMTAB, DOT_TEXT, DOT_DATA;
    n0 := StoreSectionName(table, DOT_SHSTRTAB, 0);
    n1 := StoreSectionName(table, DOT_STRTAB, 1);
    n2 := StoreSectionName(table, DOT_SYMTAB, 2);
    n3 := StoreSectionName(table, DOT_TEXT, 3);
    n4 := StoreSectionName(table, DOT_DATA, 4);
  }

  lemma SectionNameList()
    ensures var n := SECTION_NAMES;
            |n| == 5 && n[0] == DOT_SHSTRTAB && n[1] == DOT_STRTAB && n[2] == DOT_SYMTAB && n[3] == DOT_TEXT
            && n[4] == DOT_DATA && n[..5] == n
    ensures TableOf(SECTION_NAMES[..0]) == [0]
  {}

  /** `store_section_name`, for name `k` of the list: the names before it are in the table already. */
  method StoreSectionName(table: StringTable, name: Bytes, ghost k: nat) returns (offset: u32)
    requires k < 5 && name == SECTION_NAMES[k] && table.data == TableOf(SECTION_NAMES[..k])
    modifies table, table.header
    ensures offset == NameOffset(k) && table.data == TableOf(SECTION_NAMES[..k + 1])
    ensures table.header.h == old(table.header.h).(size := Wrap(|table.data|))
  {
    hide TableOf, Add, AddOffset, CStr;
    SectionNamesNulFree(k);
    SectionNameOffsets();
    StoreNext(SECTION_NAMES, k);
    var n := table.AddString(name);
    offset := Wrap(n);
  }
}
