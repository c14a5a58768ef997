/** Writing a file and reading it back. */
module RoundTrip {
  import opened Machine
  import opened Patch
  import opened Stream
  import opened ElfFormat
  import opened Strtab
  import opened Sections
  import opened ElfState
  import opened Assembler
  import opened Labels
  import opened Lookahead
  import opened FileLayout
  import opened Reader

  // ---------- The header and the header table ----------

  lemma HeaderReads(s: ElfState)
    ensures var f := FileOf(s);
            HasHeader(f) && IsElf(f) && ParseEhdr(f) == FinalEhdr(s)
  {
    hide ParseEhdr, EhdrBytes, SectionBytes, Concat, PlacedHeaders, MAGIC, Layout;
    var e, rest := FinalEhdr(s), SectionBytes(s) + Concat(ShdrParts(PlacedHeaders(s), LE));
    MagicBytes();
    AppendAssociates(EhdrBytes(e), SectionBytes(s), Concat(ShdrParts(PlacedHeaders(s), LE)));
    ParseEhdrBytes(e, rest);
    HeaderOfPrefix(FileOf(s));
  }

  lemma MagicBytes()
    ensures MAGIC[..4] == [0x7F, 0x45, 0x4C, 0x46] && MAGIC[4] == 1
  {}

  lemma TableReads(s: ElfState, i: nat)
    requires |FileOf(s)| < TWO32 && i < 6
    ensures var f := FileOf(s);
            HasHeader(f) && HasTable(f) && ParseEhdr(f).shnum == 6 && HeaderAt(f, i) == PlacedHeaders(s)[i]
  {
    hide FileOf, EhdrBytes, ParseEhdr, ParseShdr, ShdrBytes, Concat, Layout, PlacedHeaders, Table, ReadInto;
    var f, parts := FileOf(s), ShdrParts(PlacedHeaders(s), LE);
    HeaderReads(s);
    HeaderTable(s);
    Tiling(s);
    HeadersLocate(s, 1);
    TableIsSlice(f);
    ShdrPartSizes(PlacedHeaders(s));
    ConcatAt(parts, 40, i);
    assert Table(f) == f[Layout(s, 5)..];
    ParseShdrBytes(PlacedHeaders(s)[i], []);
    assert parts[i] + [] == parts[i];
  }

  lemma HeaderTable(s: ElfState)
    ensures FinalEhdr(s).shentsize == 40 && FinalEhdr(s).shnum == 6 && FinalEhdr(s).shstrndx == 2
  {
    hide Layout;
  }

  /** With entries of the usual size the table is the part of the file that the header names. */
  lemma TableIsSlice(file: Bytes)
    requires HasHeader(file) && HasTable(file) && ParseEhdr(file).shentsize == SHDR_SIZE
    requires ParseEhdr(file).shoff + SHDR_SIZE * ParseEhdr(file).shnum <= |file|
    ensures Table(file) == file[ParseEhdr(file).shoff..ParseEhdr(file).shoff + SHDR_SIZE * ParseEhdr(file).shnum]
  {
    hide ParseEhdr;
  }

  /** The range a header gives is the contents of its section. */
  lemma SectionReads(s: ElfState, i: nat)
    requires |FileOf(s)| < TWO32 && 1 <= i <= 5
    ensures var f, h := FileOf(s), PlacedHeaders(s)[i];
            h.offset + h.size <= |f| && f[h.offset..h.offset + h.size] == Contents(s)[ContentIndex(i)]
            && ReadInto(f, h.offset, h.size) == Contents(s)[ContentIndex(i)]
  {
    hide FileOf, Layout, PlacedHeaders, Contents, FinalEhdr;
    Tiling(s);
    HeadersLocate(s, i);
    assert Holds(s, ContentIndex(i));
  }

  lemma NamesReadable(s: ElfState)
    requires |FileOf(s)| < TWO32
    ensures Readable(FileOf(s)) && NameTable(FileOf(s)) == ShstrtabBytes()
  {
    hide FileOf, PlacedHeaders, HeaderAt, ParseEhdr, ShstrtabBytes, FinalEhdr, HasTable, Contents;
    HeaderReads(s);
    HeaderTable(s);
    TableReads(s, 2);
    SectionReads(s, 2);
    ContentList(s);
  }

  // ---------- Section names ----------

  /** Which stored name header `i` carries: the two string tables come in the other order. */
  function NameIndex(i: nat): nat
    requires 1 <= i <= 5
  {
    match i
    case 1 => 1
    case 2 => 0
    case _ => i - 1
  }

  lemma HeaderNames(s: ElfState, i: nat)
    requires 1 <= i <= 5
    ensures PlacedHeaders(s)[i].name == NameOffset(NameIndex(i)) && PlacedHeaders(s)[0].name == 0
  {
    hide Layout;
  }

  /** Section `i` of a file is read back under this name. */
  predicate IsNamed(file: Bytes, i: nat, name: Bytes) {
    Readable(file) && i < ParseEhdr(file).shnum && SectionName(file, i) == Some(name)
  }

  lemma NameReads(s: ElfState, i: nat)
    requires |FileOf(s)| < TWO32 && 1 <= i <= 5
    ensures IsNamed(FileOf(s), i, SECTION_NAMES[NameIndex(i)])
  {
    hide FileOf, PlacedHeaders, HeaderIn, Table, ParseEhdr, HasTable, HasNameTable, HasHeader, TableOf, CStringAt,
         OffsetOf, NameOffset, NameTable;
    NamesReadable(s);
    TableReads(s, i);
    HeaderNames(s, i);
    SectionNameOffsets();
    SectionNamesNulFree(NameIndex(i));
    NameAt(SECTION_NAMES, NameIndex(i));
  }

  lemma NullNameReads(s: ElfState)
    requires |FileOf(s)| < TWO32
    ensures IsNamed(FileOf(s), 0, [])
  {
    hide FileOf, PlacedHeaders, HeaderIn, Table, ParseEhdr, HasTable, HasNameTable, HasHeader, ShstrtabBytes,
         CStringAt, NameTable;
    NameTableStarts();
    NamesReadable(s);
    TableReads(s, 0);
    HeaderNames(s, 1);
  }

  lemma NameTableStarts()
    ensures CStringAt(ShstrtabBytes(), 0) == []
  {
    assert ShstrtabBytes()[0] == 0;
  }

  /** The tool stays within its own memory on an emitted file. */
  lemma FileDefined(s: ElfState)
    requires |FileOf(s)| < TWO32
    ensures HasHeader(FileOf(s)) && Defined(FileOf(s))
  {
    hide FileOf, PlacedHeaders, HeaderIn, Table, ParseEhdr, HasTable, HasNameTable, ShstrtabBytes, NameTable, FinalEhdr;
    var f := FileOf(s);
    HeaderReads(s);
    HeaderTable(s);
    NamesReadable(s);
    NameTableEnds();
    assert NameTable(f)[|NameTable(f)| - 1] == 0;
  }

  lemma NameTableEnds()
    ensures ShstrtabBytes()[|ShstrtabBytes()| - 1] == 0
  {
    hide Body;
  }

  lemma OnlyTextIsText(k: nat)
    requires k < 5 && k != 3
    ensures SECTION_NAMES[k] != DOT_TEXT && SECTION_NAMES[3] == DOT_TEXT && DOT_TEXT != []
  {
    assert DOT_TEXT[1] == 0x74 && DOT_TEXT[2] == 0x65;
    assert |DOT_SHSTRTAB| == 9 && |DOT_STRTAB| == 7 && |DOT_SYMTAB| == 7 && DOT_DATA[1] == 0x64;
  }

  /** The reader finds `.text` at index 4, where the constructor put it, and nowhere before. */
  lemma TextFound(s: ElfState)
    requires |FileOf(s)| < TWO32
    ensures Readable(FileOf(s)) && IsFirstText(FileOf(s), TEXT_INDEX)
  {
    hide FileOf, SectionName, ParseEhdr, HasHeader, HasTable, HasNameTable, DOT_TEXT, SECTION_NAMES,
         HeaderAt, NameTable, Readable;
    NullNameReads(s);
    NameReads(s, 1);
    NameReads(s, 2);
    NameReads(s, 3);
    NameReads(s, 4);
    OnlyTextIsText(0);
    OnlyTextIsText(1);
    OnlyTextIsText(2);
  }

  // ---------- Header, headers and names in numbers ----------

  /** The file header and the six section headers of every file below 4 GiB, field by field. */
  lemma HeadersInNumbers(s: ElfState)
    requires |FileOf(s)| < TWO32
    ensures |FileOf(s)| == 52 + 4 * |s.text| + |s.data| + |s.strtab| + 40 + 16 * |s.symtab| + 240
    ensures var f := FileOf(s);
            HasHeader(f) && HasTable(f)
            && ParseEhdr(f) == Ehdr([0x7F, 0x45, 0x4C, 0x46, 1, 1, 1, 0, 0, 0, 0, 0, 0, 0, 0, 0], 1, 0xF3, 1, 0, 0,
                                    |f| - 240, 0, 52, 0, 0, 40, 6, 2)
    ensures var f := FileOf(s);
            var data := 52 + 4 * |s.text|;
            var strings := data + |s.data|;
            var names := strings + |s.strtab|;
            HeaderAt(f, 0) == Shdr(0, 0, 0, 0, 0, 0, 0, 0, 0, 0)
            && HeaderAt(f, 1) == Shdr(11, 3, 0, 0, strings, |s.strtab|, 0, 0, 0, 0)
            && HeaderAt(f, 2) == Shdr(1, 3, 0, 0, names, 40, 0, 0, 0, 0)
            && HeaderAt(f, 3) == Shdr(19, 2, 0, 0, names + 40, 16 * |s.symtab|, 1, 1, 0, 16)
            && HeaderAt(f, 4) == Shdr(27, 1, 6, 0, 52, 4 * |s.text|, 0, 0, 0, 0)
            && HeaderAt(f, 5) == Shdr(33, 1, 3, 0, data, |s.data|, 0, 0, 0, 0)
  {
    hide FileOf, ParseEhdr, HeaderAt, HasTable, Contents, ShstrtabBytes, Layout;
    FileInNumbers(s);
    HeaderReads(s);
    LayoutValues(s);
    ContentSizes(s);
    SectionNameOffsets();
    TableReads(s, 0);
    TableReads(s, 1);
    TableReads(s, 2);
    TableReads(s, 3);
    TableReads(s, 4);
    TableReads(s, 5);
  }

  /** The names under which the sections are read back: .strtab, .shstrtab, .symtab, .text and .data. */
  lemma NamesInBytes(s: ElfState)
    requires |FileOf(s)| < TWO32
    ensures var f := FileOf(s);
            && IsNamed(f, 0, [])
            && IsNamed(f, 1, [0x2E, 0x73, 0x74, 0x72, 0x74, 0x61, 0x62])
            && IsNamed(f, 2, [0x2E, 0x73, 0x68, 0x73, 0x74, 0x72, 0x74, 0x61, 0x62])
            && IsNamed(f, 3, [0x2E, 0x73, 0x79, 0x6D, 0x74, 0x61, 0x62])
            && IsNamed(f, 4, [0x2E, 0x74, 0x65, 0x78, 0x74])
            && IsNamed(f, 5, [0x2E, 0x64, 0x61, 0x74, 0x61])
  {
    hide FileOf, IsNamed;
    NullNameReads(s);
    NameReads(s, 1);
    NameReads(s, 2);
    NameReads(s, 3);
    NameReads(s, 4);
    NameReads(s, 5);
  }

  // ---------- The text section ----------

  lemma RowIsWord(text: seq<u32>, r: nat)
    requires r < |text|
    ensures |TextBytes(text, LE)| == 4 * |text| && 4 * r + 4 <= |TextBytes(text, LE)|
    ensures Value(TextBytes(text, LE)[4 * r..4 * r + 4]) == text[r]
  {
    hide Concat, Little, Value;
    Pow256Values();
    ConcatAt(TextParts(text, LE), 4, r);
    ValueOfLittle(text[r], 4);
  }

  /** Every reachable file below 4 GiB reads back: the reader's text section is the emitted words, in order. */
  lemma TextReadsBack(s: ElfState, rows: seq<Bytes>)
    requires |FileOf(s)| < TWO32
    ensures Readable(FileOf(s)) && IsFirstText(FileOf(s), TEXT_INDEX) && TEXT_INDEX < ParseEhdr(FileOf(s)).shnum
    ensures var h := HeaderAt(FileOf(s), TEXT_INDEX);
            ReadInto(FileOf(s), h.offset, h.size) == TextBytes(s.text, LE)
            && (AreRows(rows, ReadInto(FileOf(s), h.offset, h.size)) ==>
                  |rows| == |s.text| && forall r :: 0 <= r < |s.text| ==> Value(rows[r]) == s.text[r])
  {
    hide FileOf, ParseEhdr, HasHeader, HasTable, HasNameTable, IsFirstText, PlacedHeaders, HeaderAt, TextBytes, Value,
         ReadInto, Contents, AreRows;
    TextFound(s);
    TextIndexed(FileOf(s), TEXT_INDEX);
    TableReads(s, TEXT_INDEX);
    SectionReads(s, TEXT_INDEX);
    ContentList(s);
    if AreRows(rows, TextBytes(s.text, LE)) {
      RowsAreWords(s.text, rows);
    }
  }

  lemma TextIndexed(file: Bytes, i: nat)
    requires Readable(file) && IsFirstText(file, i)
    ensures i < ParseEhdr(file).shnum
  {}

  lemma RowsAreWords(text: seq<u32>, rows: seq<Bytes>)
    requires AreRows(rows, TextBytes(text, LE))
    ensures |rows| == |text| && forall r :: 0 <= r < |text| ==> Value(rows[r]) == text[r]
  {
    hide TextBytes, Value;
    TextLength(text);
    forall r | 0 <= r < |text|
      ensures Value(rows[r]) == text[r]
    {
      RowIsWord(text, r);
    }
  }

  lemma TextLength(text: seq<u32>)
    ensures |TextBytes(text, LE)| == 4 * |text|
  {
    hide Concat, Little;
    ConcatLength(TextParts(text, LE), 4);
  }

  /** Assemble, then disassemble: the tool shows exactly the words of the run, four bytes a row. */
  method AssembleThenDisassemble(steps: seq<Step>) returns (file: Option<Bytes>, outcome: Outcome)
    ensures file.None? <==> Run(steps).exited
    ensures file.Some? && |file.value| < TWO32 ==>
              && outcome.TextRows? && outcome.index == TEXT_INDEX && outcome.addr == 0
              && |outcome.rows| == |Assembled(steps).text|
              && forall r :: 0 <= r < |outcome.rows| ==> Value(outcome.rows[r]) == Assembled(steps).text[r]
  {
    hide FileOf, Run, Assembled, HeaderAt, ReadInto, AreRows, SectionName, ParseEhdr, Value, DOT_TEXT,
         HasTable, HasNameTable, Defined;
    file := AssembleFile(steps);
    outcome := ShortHeader;
    if file.Some? {
      outcome := Disassemble(file.value);
      if |file.value| < TWO32 {
        ghost var s := Assembled(steps);
        HeaderReads(s);
        FileDefined(s);
        TextFound(s);
        TextAddress(s);
        if outcome.TextRows? {
          FirstTextUnique(file.value, outcome.index, TEXT_INDEX);
          TextReadsBack(s, outcome.rows);
        }
      }
    }
  }

  lemma TextAddress(s: ElfState)
    requires |FileOf(s)| < TWO32
    ensures Readable(FileOf(s)) && TEXT_INDEX < ParseEhdr(FileOf(s)).shnum
    ensures HeaderAt(FileOf(s), TEXT_INDEX).addr == 0
  {
    hide FileOf, ParseEhdr, HeaderAt, HasHeader, HasTable, HasNameTable, Layout;
    NamesReadable(s);
    TableReads(s, TEXT_INDEX);
  }

  // ---------- Symbols ----------

  /** Entry `k` of the symbol table, as a reader of the file finds it. */
  function SymbolAt(file: Bytes, k: nat): Sym
    requires Readable(file) && SYMTAB_INDEX < ParseEhdr(file).shnum
    requires HeaderAt(file, SYMTAB_INDEX).offset + 16 * k + 16 <= |file|
  {
    var at := HeaderAt(file, SYMTAB_INDEX).offset + 16 * k;
    ParseSym(file[at..at + 16])
  }

  /** One of a number of parts of equal size that stand together in a file. */
  lemma PartAt(f: Bytes, at: nat, parts: seq<Bytes>, size: nat, k: nat)
    requires k < |parts| && (forall i :: 0 <= i < |parts| ==> |parts[i]| == size)
    requires at + size * |parts| <= |f| && f[at..at + size * |parts|] == Concat(parts)
    ensures at + size * k + size <= |f| && f[at + size * k..at + size * k + size] == parts[k]
  {
    hide Concat;
    ConcatAt(parts, size, k);
    MulFacts(size, 0, k, 1);
    MulFacts(size, 0, k + 1, |parts|);
    SubSlice(f, at, size * |parts|, size * k, size * (k + 1));
  }

  lemma SymbolReads(s: ElfState, k: nat)
    requires |FileOf(s)| < TWO32 && k < |s.symtab|
    ensures var f := FileOf(s);
            Readable(f) && ParseEhdr(f).shnum == 6
            && HeaderAt(f, SYMTAB_INDEX).size == 16 * |s.symtab|
            && HeaderAt(f, SYMTAB_INDEX).offset + 16 * k + 16 <= |f| && SymbolAt(f, k) == s.symtab[k]
  {
    hide FileOf, ParseEhdr, ParseSym, SymBytes, HeaderAt, HasHeader, HasTable, HasNameTable, PlacedHeaders, Contents,
         Concat, Layout;
    var f := FileOf(s);
    NamesReadable(s);
    TableReads(s, SYMTAB_INDEX);
    SectionReads(s, SYMTAB_INDEX);
    HeadersLocate(s, SYMTAB_INDEX);
    ContentList(s);
    ContentSizes(s);
    SymPartSizes(s.symtab);
    PartAt(f, HeaderAt(f, SYMTAB_INDEX).offset, SymParts(s.symtab, LE), 16, k);
    ParseSymBytes(s.symtab[k], []);
    assert SymBytes(s.symtab[k], LE) + [] == SymBytes(s.symtab[k], LE);
  }

  /** The table that the symbol table's link names is the string table, and it is where its header says. */
  lemma LinkReads(s: ElfState)
    requires |FileOf(s)| < TWO32
    ensures var f := FileOf(s);
            Readable(f) && ParseEhdr(f).shnum == 6 && HeaderAt(f, SYMTAB_INDEX).link == STRTAB_INDEX
            && (var h := HeaderAt(f, STRTAB_INDEX); ReadInto(f, h.offset, h.size) == s.strtab)
            && (var h := HeaderAt(f, DATA_INDEX); ReadInto(f, h.offset, h.size) == s.data)
  {
    hide FileOf, ParseEhdr, HeaderAt, HasHeader, HasTable, HasNameTable, PlacedHeaders, Contents, Layout, ReadInto;
    NamesReadable(s);
    TableReads(s, SYMTAB_INDEX);
    TableReads(s, STRTAB_INDEX);
    TableReads(s, DATA_INDEX);
    SectionReads(s, STRTAB_INDEX);
    SectionReads(s, DATA_INDEX);
    ContentList(s);
    SymtabLink(s);
  }

  lemma SymtabLink(s: ElfState)
    ensures PlacedHeaders(s)[SYMTAB_INDEX].link == STRTAB_INDEX
  {
    hide Layout;
  }

  /** The name of symbol `k`, through the string table that the symbol table links to. */
  function SymbolName(file: Bytes, k: nat): Option<Bytes>
    requires Readable(file) && SYMTAB_INDEX < ParseEhdr(file).shnum
    requires HeaderAt(file, SYMTAB_INDEX).link < ParseEhdr(file).shnum
    requires HeaderAt(file, SYMTAB_INDEX).offset + 16 * k + 16 <= |file|
  {
    var link := HeaderAt(file, HeaderAt(file, SYMTAB_INDEX).link);
    var table, at := ReadInto(file, link.offset, link.size), SymbolAt(file, k).name;
    if at < |table| then Some(CStringAt(table, at)) else None
  }

  /** In every emitted file below 4 GiB, symbol `k + 1` is the entry of the `k`-th definition of the run and carries its
      name, up to the first NUL. Every symbol is local, untyped and of size 0. The value of a label's symbol is 0,
      whatever its address; that of a data symbol is the position in .data of the bytes stored for it, after those
      stored before. */
  lemma SymbolsReadBack(steps: seq<Step>, k: nat)
    requires |FileOf(Assembled(steps))| < TWO32 && k < |DefLog(steps)|
    ensures var f, def := FileOf(Assembled(steps)), DefLog(steps)[k];
            Readable(f) && ParseEhdr(f).shnum == 6 && HeaderAt(f, SYMTAB_INDEX).link == STRTAB_INDEX
            && HeaderAt(f, SYMTAB_INDEX).size == 16 * (|DefLog(steps)| + 1)
            && HeaderAt(f, SYMTAB_INDEX).offset + 16 * (k + 1) + 16 <= |f|
            && SymbolName(f, k + 1) == Some(CStr(def.name))
            && (var sym, h := SymbolAt(f, k + 1), HeaderAt(f, DATA_INDEX);
                sym.info == 0 && sym.other == 0 && sym.size == 0 && sym.shndx == IndexOf(def.section)
                && (def.LabelDef? ==> sym.value == 0)
                && ReadInto(f, h.offset, h.size) == DataOf(DefLog(steps))
                && (def.DataDef? ==>
                      sym.value == |DataOf(DefLog(steps)[..k])| && sym.value + |def.value| <= h.size
                      && ReadInto(f, h.offset, h.size)[sym.value..sym.value + |def.value|] == def.value))
  {
    hide FileOf, ParseEhdr, HeaderAt, HasHeader, HasTable, HasNameTable, SymbolAt, ReadInto, Run, DefLog, PatchAll,
         TouchAll, TableOf, OffsetOf, CStr, CStringAt, SectionsMatch, LabelsMatch, EntriesMatch, IndexOf, DataOf;
    var s, log := Assembled(steps), DefLog(steps);
    RunInvariant(steps);
    SymbolReads(s, k + 1);
    LinkReads(s);
    NameAt(NamesOf(log), k);
    StrtabFits(s);
    assert log[k].DataDef? ==> Stored(s.data, log, k);
  }

  /** Symbol 0 is the null symbol. */
  lemma NullSymbolReads(steps: seq<Step>)
    requires |FileOf(Assembled(steps))| < TWO32
    ensures var f := FileOf(Assembled(steps));
            Readable(f) && ParseEhdr(f).shnum == 6 && HeaderAt(f, SYMTAB_INDEX).offset + 16 <= |f|
            && SymbolAt(f, 0) == Sym(0, 0, 0, 0, 0, 0)
  {
    hide FileOf, ParseEhdr, HeaderAt, HasHeader, HasTable, HasNameTable, SymbolAt, Run, DefLog, PatchAll, TouchAll,
         TableOf, OffsetOf, SectionsMatch, LabelsMatch, EntriesMatch, DataMatches, SymOf;
    RunInvariant(steps);
    SymbolReads(Assembled(steps), 0);
  }

  lemma StrtabFits(s: ElfState)
    ensures |s.strtab| <= |FileOf(s)| && |s.data| <= |FileOf(s)|
  {}

  /** The section index of a symbol leads to the header of the section it was defined in, by name, when that section is
      `.text` or `.data`, which have the indices 4 and 5. The string tables have each other's index. A symbol defined
      before any section directive has index 0, which stands for no section, as has one in a section that is not in the
      file. */
  lemma SymbolSectionReads(steps: seq<Step>, k: nat)
    requires |FileOf(Assembled(steps))| < TWO32 && k < |DefLog(steps)|
    ensures var f, def := FileOf(Assembled(steps)), DefLog(steps)[k];
            Readable(f) && ParseEhdr(f).shnum == 6
            && HeaderAt(f, SYMTAB_INDEX).offset + 16 * (k + 1) + 16 <= |f|
            && SymbolAt(f, k + 1).shndx == IndexOf(def.section)
            && (def.section == DOT_TEXT || def.section == DOT_DATA ==>
                  SymbolAt(f, k + 1).shndx < 6 && SectionName(f, SymbolAt(f, k + 1).shndx) == Some(def.section))
  {
    hide FileOf, ParseEhdr, HeaderAt, HasHeader, HasTable, HasNameTable, SymbolAt, SectionName, SymbolName, ReadInto,
         Run, Assembled, DefLog, OffsetOf, CStr, DOT_TEXT, DOT_DATA, INITIAL_INDICES, IndexOf, DataOf;
    SymbolsReadBack(steps, k);
    KnownIndices(DefLog(steps)[k].section);
    NameReads(Assembled(steps), TEXT_INDEX);
    NameReads(Assembled(steps), DATA_INDEX);
  }

  lemma KnownIndices(section: Bytes)
    ensures IndexOf(section) == if section == [0x2E, 0x74, 0x65, 0x78, 0x74] then 4
                                else if section == [0x2E, 0x64, 0x61, 0x74, 0x61] then 5
                                else if section == [0x2E, 0x73, 0x79, 0x6D, 0x74, 0x61, 0x62] then 3
                                else if section == [0x2E, 0x73, 0x74, 0x72, 0x74, 0x61, 0x62] then 2
                                else if section == [0x2E, 0x73, 0x68, 0x73, 0x74, 0x72, 0x74, 0x61, 0x62] then 1
                                else 0
    ensures DOT_TEXT == [0x2E, 0x74, 0x65, 0x78, 0x74] && DOT_DATA == [0x2E, 0x64, 0x61, 0x74, 0x61]
    ensures SECTION_NAMES[3] == DOT_TEXT && SECTION_NAMES[4] == DOT_DATA
  {
    assert DOT_TEXT[1] == 0x74 && DOT_DATA[1] == 0x64;
    assert |DOT_SHSTRTAB| == 9 && |DOT_STRTAB| == 7 && |DOT_SYMTAB| == 7;
    assert DOT_STRTAB[2] == 0x74 && DOT_SYMTAB[2] == 0x79;
  }

  // ---------- From statements to file and back ----------

  /** For a clean run without collisions whose file is below 4 GiB: what the reader finds in the file, row by row,
      is the program of the two-pass reference assembler. */
  lemma FileHoldsTwoPassProgram(steps: seq<Step>, rows: seq<Bytes>)
    requires !Run(steps).exited && Clean(steps) && NoCollision(steps)
    requires |FileOf(Assembled(steps))| < TWO32
    ensures var f := FileOf(Assembled(steps));
            Readable(f) && IsFirstText(f, TEXT_INDEX) && TEXT_INDEX < ParseEhdr(f).shnum
            && (var h, words := HeaderAt(f, TEXT_INDEX), TwoPass(steps, ByName(Addresses(steps).labels));
                AreRows(rows, ReadInto(f, h.offset, h.size)) ==>
                  |rows| == |words| && forall r :: 0 <= r < |words| ==> Value(rows[r]) == words[r])
  {
    hide FileOf, ParseEhdr, HeaderAt, HasHeader, HasTable, HasNameTable, ReadInto, AreRows, Run, Clean, NoCollision,
         Addresses, TwoPass, PatchAll, TouchAll, SectionName, Value, DOT_TEXT;
    var s := Assembled(steps);
    BackPatchingIsLookahead(steps);
    TextReadsBack(s, rows);
  }
}
