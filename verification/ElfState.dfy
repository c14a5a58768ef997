/** The contents of an object file under construction, what each operation does to them, and the finished file. */
module ElfState {
  import opened Machine
  import opened Hash
  import opened Patch
  import opened Stream
  import opened ElfFormat
  import opened Strtab
  import opened Sections

  // ---------- Section names and header indices ----------

  const DOT_SHSTRTAB: Bytes := [0x2E, 0x73, 0x68, 0x73, 0x74, 0x72, 0x74, 0x61, 0x62]
  const DOT_STRTAB: Bytes := [0x2E, 0x73, 0x74, 0x72, 0x74, 0x61, 0x62]
  const DOT_SYMTAB: Bytes := [0x2E, 0x73, 0x79, 0x6D, 0x74, 0x61, 0x62]
  const DOT_TEXT: Bytes := [0x2E, 0x74, 0x65, 0x78, 0x74]
  const DOT_DATA: Bytes := [0x2E, 0x64, 0x61, 0x74, 0x61]

  /** In the order the constructor stores them. */
  const SECTION_NAMES: seq<Bytes> := [DOT_SHSTRTAB, DOT_STRTAB, DOT_SYMTAB, DOT_TEXT, DOT_DATA]

  const STRTAB_INDEX: nat := 1
  const SHSTRTAB_INDEX: nat := 2
  const SYMTAB_INDEX: nat := 3
  const TEXT_INDEX: nat := 4
  const DATA_INDEX: nat := 5

  function ShstrtabBytes(): (b: Bytes)
    ensures b != []
  {
    TableOf(SECTION_NAMES)
  }

  /** Where section name `k` starts in the section name table. */
  function NameOffset(k: nat): u32 {
    match k
    case 0 => 1
    case 1 => 11
    case 2 => 19
    case 3 => 27
    case _ => 33
  }

  lemma SectionNameOffsets()
    ensures forall k :: 0 <= k < 5 ==> OffsetOf(SECTION_NAMES, k) == NameOffset(k)
    ensures |ShstrtabBytes()| == 40
  {
    var n := SECTION_NAMES;
    assert |n[0]| == 9 && |n[1]| == 7 && |n[2]| == 7 && |n[3]| == 5 && |n[4]| == 5;
    hide TableOf, Body;
    assert OffsetOf(n, 1) == 11;
    assert OffsetOf(n, 2) == 19;
    assert OffsetOf(n, 3) == 27;
    assert OffsetOf(n, 4) == 33;
    assert OffsetOf(n, 5) == 39;
    BodyLength(n, 5);
    assert n[..5] == n;
    WrappedLength(n);
  }

  lemma WrappedLength(names: seq<Bytes>)
    requires names != []
    ensures |TableOf(names)| == |Body(names)| + 2
  {}

  /** The table of section names, byte by byte. */
  lemma SectionNameBytes()
    ensures ShstrtabBytes()
            == [0] + [0x2E, 0x73, 0x68, 0x73, 0x74, 0x72, 0x74, 0x61, 0x62, 0]
               + [0x2E, 0x73, 0x74, 0x72, 0x74, 0x61, 0x62, 0]
               + [0x2E, 0x73, 0x79, 0x6D, 0x74, 0x61, 0x62, 0] + [0x2E, 0x74, 0x65, 0x78, 0x74, 0]
               + [0x2E, 0x64, 0x61, 0x74, 0x61, 0] + [0]
  {
    hide Body;
    BodyOfFive(DOT_SHSTRTAB, DOT_STRTAB, DOT_SYMTAB, DOT_TEXT, DOT_DATA);
  }

  lemma BodyOfFive(a: Bytes, b: Bytes, c: Bytes, d: Bytes, e: Bytes)
    ensures Body([a, b, c, d, e]) == (a + [0]) + (b + [0]) + (c + [0]) + (d + [0]) + (e + [0])
  {
    assert Body([]) == [];
    hide Body;
    var x1, x2, x3, x4 := [a], [a, b], [a, b, c], [a, b, c, d];
    assert x1 == [] + [a] && x2 == x1 + [b] && x3 == x2 + [c] && x4 == x3 + [d] && [a, b, c, d, e] == x4 + [e];
    BodySnoc([], a);
    BodySnoc(x1, b);
    BodySnoc(x2, c);
    BodySnoc(x3, d);
    BodySnoc(x4, e);
  }

  lemma SectionNamesNulFree(k: nat)
    requires k < 5
    ensures NulFree(SECTION_NAMES[k])
  {}

  // ---------- The state ----------

  datatype ElfState = ElfState(
    text: seq<u32>,
    data: Bytes,
    strtab: Bytes,
    symtab: seq<Sym>,
    resolvedLabels: map<Bytes, u32>,
    unresolvedLabels: map<Bytes, u32>,
    sectionToIdx: map<Bytes, u32>,
    labelToAddr: LabelAddresses,
    unresolvedInsns: seq<UnresolvedInst>,
    symbols: map<Bytes, u32>)

  /** The offset index of every symbol used as an immediate: none is ever resolved. */
  const UNRESOLVED_IDX: u32 := 0xFAF0

  const NULL_SYM: Sym := Sym(0, 0, 0, 0, 0, 0)

  /** The entries for the two string tables are exchanged: their headers are 2 and 1. */
  const INITIAL_INDICES: map<Bytes, u32> :=
    map[DOT_SHSTRTAB := 1, DOT_STRTAB := 2, DOT_SYMTAB := 3, DOT_TEXT := 4, DOT_DATA := 5]

  const INITIAL: ElfState := ElfState([], [], [0], [NULL_SYM], map[], map[], INITIAL_INDICES, map[], [], map[])

  /** `ELF32_ST_BIND`, which extracts a binding where one is meant to be stored: 0 for every binding below 16. */
  function BindOf(info: u8): u8 {
    info / 16
  }

  function StoreString(s: ElfState, str: Bytes): ElfState {
    s.(strtab := Add(s.strtab, CStr(str)))
  }

  function InitLabel(s: ElfState, name: Bytes, isGlobal: bool, section: Bytes): ElfState {
    if name in s.resolvedLabels then s
    else
      var addr := Wrap(LastIndexOf(|s.text|));
      var shndx := if section in s.sectionToIdx then s.sectionToIdx[section] % 0x1_0000 else 0;
      var sym := Sym(Wrap(AddOffset(s.strtab)), 0, 0, BindOf(if isGlobal then 1 else 0), 0, shndx);
      StoreString(s, name).(
        symtab := s.symtab + [sym],
        unresolvedLabels := s.unresolvedLabels - {name},
        resolvedLabels := s.resolvedLabels[name := addr],
        labelToAddr := s.labelToAddr[HashOf(name) := addr])
  }

  function UpdateVisibility(s: ElfState, name: Bytes, isGlobal: bool): ElfState {
    if name in s.resolvedLabels then s else InitLabel(s, name, isGlobal, DOT_TEXT)
  }

  /** Looking up an unknown label records it as unresolved. */
  function NoteLabel(s: ElfState, name: Bytes): ElfState {
    if name in s.resolvedLabels then s
    else s.(unresolvedLabels := s.unresolvedLabels[name := HashOf(name)])
  }

  /** The immediate a use of label `name` gets: its address, or a hash as a placeholder. */
  function LabelOffset(s: ElfState, name: Bytes): u32 {
    if name in s.resolvedLabels then s.resolvedLabels[name] else HashOf(name)
  }

  function AddUnresolved(s: ElfState, e: UnresolvedInst): ElfState {
    s.(unresolvedInsns := s.unresolvedInsns + [e])
  }

  function AddToText(s: ElfState, insn: u32): ElfState {
    s.(text := s.text + [insn])
  }

  function AddSymbol(s: ElfState, name: Bytes, offsetIdx: u32): ElfState {
    s.(symbols := s.symbols[name := offsetIdx])
  }

  /** `section_to_idx[section]` inserts 0 for an unknown section. */
  function AddProgramData(s: ElfState, name: Bytes, value: Bytes, section: Bytes): ElfState {
    var indices := if section in s.sectionToIdx then s.sectionToIdx else s.sectionToIdx[section := 0];
    var sym := Sym(Wrap(AddOffset(s.strtab)), Wrap(|s.data|), 0, BindOf(0), 0, indices[section] % 0x1_0000);
    StoreString(s, name).(
      sectionToIdx := indices,
      data := s.data + value,
      symtab := s.symtab + [sym])
  }

  /** The back-patching pass over the first `n` recorded instructions. */
  function ResolveFirst(s: ElfState, n: nat): ElfState
    requires n <= |s.unresolvedInsns|
  {
    s.(text := PatchAll(s.text, s.unresolvedInsns[..n], s.labelToAddr),
       labelToAddr := TouchAll(s.labelToAddr, s.unresolvedInsns[..n]))
  }

  function ResolveAll(s: ElfState): ElfState {
    ResolveFirst(s, |s.unresolvedInsns|)
  }

  function NextInsnNumber(s: ElfState, section: Bytes): nat {
    if section == DOT_TEXT then |s.text| else 0
  }

  // ---------- The finished file ----------

  const NULL_SHDR: Shdr := Shdr(0, 0, 0, 0, 0, 0, 0, 0, 0, 0)

  /** The section headers of given section sizes, before any offset is known. */
  function StrtabHeader(size: nat): Shdr { Shdr(NameOffset(1), 3, 0, 0, 0, Wrap(size), 0, 0, 0, 0) }
  function ShstrtabHeader(size: nat): Shdr { Shdr(NameOffset(0), 3, 0, 0, 0, Wrap(size), 0, 0, 0, 0) }
  function SymtabHeader(count: nat): Shdr { Shdr(NameOffset(2), 2, 0, 0, 0, Wrap(16 * count), 1, 1, 0, 16) }
  function TextHeader(count: nat): Shdr { Shdr(NameOffset(3), 1, 6, 0, 0, Wrap(4 * count), 0, 0, 0, 0) }
  function DataHeader(size: nat): Shdr { Shdr(NameOffset(4), 1, 3, 0, 0, Wrap(size), 0, 0, 0, 0) }

  const MAGIC: Ident := [0x7F, 0x45, 0x4C, 0x46, 1, 1, 1, 0, 0, 0, 0, 0, 0, 0, 0, 0]

  const INITIAL_EHDR: Ehdr := Ehdr(MAGIC, 1, 0xF3, 1, 0, 0, 0, 0, 52, 0, 0, 40, 0, 0)

  /** Section contents in file order; `Layout(s, k)` is where number `k` starts, and number 6 is the header table. */
  function Contents(s: ElfState): (c: seq<Bytes>)
    ensures |c| == 5
  {
    [TextBytes(s.text, LE), s.data, s.strtab, ShstrtabBytes(), SymtabBytes(s.symtab, LE)]
  }

  function Layout(s: ElfState, k: nat): nat
    requires k <= 5
  {
    if k == 0 then EHDR_SIZE else Layout(s, k - 1) + |Contents(s)[k - 1]|
  }

  /** The header table, with the offsets of the sections. */
  function PlacedHeaders(s: ElfState): (h: seq<Shdr>)
    ensures |h| == 6
  {
    [NULL_SHDR,
     StrtabHeader(|s.strtab|).(offset := Wrap(Layout(s, 2))),
     ShstrtabHeader(|ShstrtabBytes()|).(offset := Wrap(Layout(s, 3))),
     SymtabHeader(|s.symtab|).(offset := Wrap(Layout(s, 4))),
     TextHeader(|s.text|).(offset := Wrap(Layout(s, 0))),
     DataHeader(|s.data|).(offset := Wrap(Layout(s, 1)))]
  }

  function FinalEhdr(s: ElfState): Ehdr {
    INITIAL_EHDR.(shoff := Wrap(Layout(s, 5)), shnum := 6, shstrndx := SHSTRTAB_INDEX)
  }

  function SectionBytes(s: ElfState): Bytes {
    TextBytes(s.text, LE) + s.data + s.strtab + ShstrtabBytes() + SymtabBytes(s.symtab, LE)
  }

  function FileOf(s: ElfState): Bytes {
    EhdrBytes(FinalEhdr(s)) + SectionBytes(s) + Concat(ShdrParts(PlacedHeaders(s), LE))
  }

  lemma LayoutValues(s: ElfState)
    ensures Layout(s, 0) == 52
    ensures Layout(s, 1) == 52 + |TextBytes(s.text, LE)|
    ensures Layout(s, 2) == Layout(s, 1) + |s.data|
    ensures Layout(s, 3) == Layout(s, 2) + |s.strtab|
    ensures Layout(s, 4) == Layout(s, 3) + |ShstrtabBytes()|
    ensures Layout(s, 5) == Layout(s, 4) + |SymtabBytes(s.symtab, LE)| == 52 + |SectionBytes(s)|
  {
    var c := Contents(s);
    assert c[0] == TextBytes(s.text, LE) && c[1] == s.data && c[2] == s.strtab;
    assert c[3] == ShstrtabBytes() && c[4] == SymtabBytes(s.symtab, LE);
    hide Contents, TextBytes, SymtabBytes, ShstrtabBytes;
  }
}
