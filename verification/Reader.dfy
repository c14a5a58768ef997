/** The disassembler's view of a file: header, section table, names, and the first section called .text. */
module Reader {
  import opened Machine
  import opened Stream
  import opened ElfFormat
  import opened Strtab
  import opened ElfState

  /** What the tool ends up showing. `Undefined` stands for files on which it writes or reads memory it does not own. */
  datatype Outcome =
    | ShortHeader
    | NotElf
    | NotElf32
    | Undefined
    | NoText
    | TextRows(index: nat, addr: u32, rows: seq<Bytes>)

  predicate HasHeader(file: Bytes) {
    |file| >= EHDR_SIZE
  }

  /** The file starts as that of a 32-bit object does. */
  predicate IsElf(file: Bytes) {
    HasHeader(file) && file[..4] == [0x7F, 0x45, 0x4C, 0x46] && file[4] == 1
  }

  function Zeros(n: nat): (b: Bytes)
    ensures |b| == n && forall j :: 0 <= j < n ==> b[j] == 0
  {
    seq(n, _ => 0)
  }

  /** A stream delivers `size` bytes from `off`; asked for none it always does. */
  predicate Delivers(file: Bytes, off: nat, size: nat) {
    size == 0 || off + size <= |file|
  }

  /** `size` bytes from `off` into a zeroed buffer; what lies past the end of the file stays zero. */
  function ReadInto(file: Bytes, off: nat, size: nat): (b: Bytes)
    ensures |b| == size
    ensures off + size <= |file| ==> b == file[off..off + size]
    ensures forall j :: 0 <= j < size ==> b[j] == if off + j < |file| then file[off + j] else 0
  {
    if off + size <= |file| then file[off..off + size]
    else
      var available := if off <= |file| then file[off..] else [];
      available + Zeros(size - |available|)
  }

  /** The size the file states for its header table. */
  function TableSize(file: Bytes): nat
    requires HasHeader(file)
  {
    var h := ParseEhdr(file);
    MulFacts(h.shentsize, 0, 0, h.shnum);
    h.shentsize * h.shnum
  }

  /** What the tool has room for: one header per entry, whatever size the file states for an entry. */
  function TableRoom(file: Bytes): nat
    requires HasHeader(file)
  {
    SHDR_SIZE * ParseEhdr(file).shnum
  }

  /** The stream delivers the table, and it fits. */
  predicate HasTable(file: Bytes)
    requires HasHeader(file)
  {
    TableSize(file) <= TableRoom(file) && Delivers(file, ParseEhdr(file).shoff, TableSize(file))
  }

  /** The header table as the tool holds it: entries shorter than a header leave zeros at the end. */
  function Table(file: Bytes): (t: Bytes)
    requires HasHeader(file) && HasTable(file)
    ensures |t| == TableRoom(file)
  {
    ReadInto(file, ParseEhdr(file).shoff, TableSize(file)) + Zeros(TableRoom(file) - TableSize(file))
  }

  /** Header `i` of a table. */
  function HeaderIn(table: Bytes, i: nat): Shdr
    requires SHDR_SIZE * i + SHDR_SIZE <= |table|
  {
    ParseShdr(table[SHDR_SIZE * i..SHDR_SIZE * i + SHDR_SIZE])
  }

  /** The name of section `i`; one whose offset is outside the table of names is reported as bad. */
  function NameIn(table: Bytes, names: Bytes, i: nat): Option<Bytes>
    requires SHDR_SIZE * i + SHDR_SIZE <= |table|
  {
    var at := HeaderIn(table, i).name;
    if at < |names| then Some(CStringAt(names, at)) else None
  }

  function HeaderAt(file: Bytes, i: nat): Shdr
    requires HasHeader(file) && HasTable(file) && i < ParseEhdr(file).shnum
  {
    HeaderIn(Table(file), i)
  }

  predicate HasNameTable(file: Bytes)
    requires HasHeader(file) && HasTable(file)
  {
    var h := ParseEhdr(file);
    h.shstrndx < h.shnum
    && Delivers(file, HeaderAt(file, h.shstrndx).offset, HeaderAt(file, h.shstrndx).size)
  }

  predicate Readable(file: Bytes) {
    HasHeader(file) && HasTable(file) && HasNameTable(file)
  }

  function NameTable(file: Bytes): Bytes
    requires Readable(file)
  {
    var h := HeaderAt(file, ParseEhdr(file).shstrndx);
    ReadInto(file, h.offset, h.size)
  }

  /** Every name of `count` sections that starts inside the table of names also ends there. */
  ghost predicate NamesEndIn(table: Bytes, names: Bytes, count: nat)
    requires SHDR_SIZE * count <= |table|
  {
    forall i :: 0 <= i < count && HeaderIn(table, i).name < |names| ==>
                  exists k :: HeaderIn(table, i).name <= k < |names| && names[k] == 0
  }

  ghost predicate NamesEnd(file: Bytes)
    requires Readable(file)
  {
    NamesEndIn(Table(file), NameTable(file), ParseEhdr(file).shnum)
  }

  /** How many bytes of the header table the stream stores before it ends. */
  function TableStored(file: Bytes): nat
    requires HasHeader(file)
  {
    var off := ParseEhdr(file).shoff;
    if Delivers(file, off, TableSize(file)) then TableSize(file)
    else if off <= |file| then |file| - off
    else 0
  }

  /** The size is computed as an `int`, and there is room for what is stored. */
  predicate TableFits(file: Bytes)
    requires HasHeader(file)
  {
    TableSize(file) < 0x8000_0000 && TableStored(file) <= TableRoom(file)
  }

  /** The tool stays within its own memory: the header table fits, the name table is one of the sections, and no name
      runs past the table. If the stream fails on either table, the tool goes on with empty ones. */
  ghost predicate Defined(file: Bytes)
    requires HasHeader(file)
  {
    && TableFits(file)
    && ParseEhdr(file).shstrndx < ParseEhdr(file).shnum
    && (Readable(file) ==> NamesEnd(file))
  }

  function SectionName(file: Bytes, i: nat): Option<Bytes>
    requires Readable(file) && i < ParseEhdr(file).shnum
  {
    NameIn(Table(file), NameTable(file), i)
  }

  predicate IsFirstText(file: Bytes, i: nat)
    requires Readable(file)
  {
    && i < ParseEhdr(file).shnum
    && SectionName(file, i) == Some(DOT_TEXT)
    && forall j :: 0 <= j < i ==> SectionName(file, j) != Some(DOT_TEXT)
  }

  /** Lines of four bytes; the last one may be shorter. */
  predicate AreRows(rows: seq<Bytes>, b: Bytes) {
    && |rows| == (|b| + 3) / 4
    && forall r :: 0 <= r < |rows| ==> rows[r] == b[4 * r..if 4 * r + 4 <= |b| then 4 * r + 4 else |b|]
  }

  // ---------- The conditions, in the bytes of the file ----------

  /** Offset, entry size, number of entries and name-table index stand at bytes 32, 46, 48 and 50. The table is
      delivered when it is inside the file, it fits when its entries, or what there is of them, are no more than 40
      bytes each, and byte `j` of it is that byte of the file, or 0 past the stated size. */
  lemma TableInBytes(file: Bytes)
    requires |file| >= 52
    ensures var off, entry, count := IntAt(file, 32, 4), IntAt(file, 46, 2), IntAt(file, 48, 2);
            (HasTable(file) <==> entry * count <= 40 * count && (entry * count == 0 || off + entry * count <= |file|))
            && (TableFits(file) <==>
                  entry * count < 0x8000_0000 && (entry * count <= 40 * count || |file| <= off + 40 * count))
            && (HasTable(file) ==>
                  |Table(file)| == 40 * count
                  && forall j :: 0 <= j < 40 * count ==>
                       Table(file)[j] == if j < entry * count then file[off + j] else 0)
    ensures ParseEhdr(file).shnum == IntAt(file, 48, 2) && ParseEhdr(file).shstrndx == IntAt(file, 50, 2)
  {
    hide IntAt, Pow256;
  }

  /** Header `i` is at byte 40 * i of the table; name, address, offset and size are at its bytes 0, 12, 16 and 20. */
  lemma HeaderInBytes(file: Bytes, i: nat)
    requires HasHeader(file) && HasTable(file) && i < ParseEhdr(file).shnum
    ensures |Table(file)| == 40 * ParseEhdr(file).shnum && 40 * i + 40 <= |Table(file)|
    ensures HeaderAt(file, i).name == IntAt(Table(file), 40 * i, 4)
    ensures HeaderAt(file, i).addr == IntAt(Table(file), 40 * i + 12, 4)
    ensures HeaderAt(file, i).offset == IntAt(Table(file), 40 * i + 16, 4)
    ensures HeaderAt(file, i).size == IntAt(Table(file), 40 * i + 20, 4)
  {
    hide ParseEhdr, HasTable, Table, IntAt, Pow256;
    var t := Table(file);
    SliceInteger(t, 40 * i, 40, 0, 4);
    SliceInteger(t, 40 * i, 40, 12, 4);
    SliceInteger(t, 40 * i, 40, 16, 4);
    SliceInteger(t, 40 * i, 40, 20, 4);
  }

  lemma SliceInteger(b: Bytes, at: nat, n: nat, off: nat, width: nat)
    requires at + n <= |b| && off + width <= n
    ensures IntAt(b[at..at + n], off, width) == IntAt(b, at + off, width)
  {
    hide Value;
    SubSlice(b, at, n, off, off + width);
  }

  /** The names are delivered when their table is a section, inside the file; and the tool stays within its memory when
      the header table fits, the name table is a section, and every name that starts in it has a NUL in it. */
  lemma DefinedInBytes(file: Bytes)
    requires |file| >= 52
    ensures Readable(file) <==>
              HasTable(file) && IntAt(file, 50, 2) < IntAt(file, 48, 2)
              && (var h := HeaderAt(file, IntAt(file, 50, 2)); h.size == 0 || h.offset + h.size <= |file|)
    ensures Defined(file) <==>
              TableFits(file) && IntAt(file, 50, 2) < IntAt(file, 48, 2)
              && (Readable(file) ==>
                    forall i :: 0 <= i < IntAt(file, 48, 2) && HeaderAt(file, i).name < |NameTable(file)| ==>
                      exists k :: HeaderAt(file, i).name <= k < |NameTable(file)| && NameTable(file)[k] == 0)
  {
    hide HasTable, TableFits, HeaderIn, Table, ReadInto, IntAt, Pow256;
    TableInBytes(file);
    hide ParseEhdr;
    if Readable(file) {
      assert forall i: nat {:trigger HeaderIn(Table(file), i)} {:trigger HeaderAt(file, i)} ::
          i < ParseEhdr(file).shnum ==> HeaderAt(file, i) == HeaderIn(Table(file), i);
    }
  }

  lemma ZeroFrom(b: Bytes, at: nat)
    requires at <= |b|
    ensures 0 in b[at..] <==> exists k :: at <= k < |b| && b[k] == 0
  {
    if k :| at <= k < |b| && b[k] == 0 {
      assert b[at..][k - at] == 0;
    }
  }

  /** The name of a section is the bytes of the name table from its offset on, up to the first NUL or the end. */
  lemma NameInBytes(file: Bytes, i: nat, name: Bytes)
    requires Readable(file) && i < ParseEhdr(file).shnum
    ensures var names, at: int := NameTable(file), HeaderAt(file, i).name;
            SectionName(file, i) == Some(name) <==>
              at < |names| && at + |name| <= |names| && names[at..at + |name|] == name && NulFree(name)
              && (at + |name| == |names| || names[at + |name|] == 0)
  {
    hide HasTable, HasNameTable, HasHeader, ParseEhdr, Table, NameTable, HeaderIn, CStr;
    var names, at: int := NameTable(file), HeaderAt(file, i).name;
    if at < |names| {
      CStrIs(names[at..], name);
    }
  }

  /** The rows make up the bytes, and all have four but the last, which has one to four. */
  lemma RowsMakeUp(rows: seq<Bytes>, b: Bytes)
    requires AreRows(rows, b)
    ensures Concat(rows) == b
    ensures forall r :: 0 <= r < |rows| ==> 1 <= |rows[r]| <= 4 && (r < |rows| - 1 ==> |rows[r]| == 4)
  {
    FirstRows(rows, b, |rows|);
    assert rows[..|rows|] == rows;
    hide Concat;
  }

  lemma {:induction false} FirstRows(rows: seq<Bytes>, b: Bytes, k: nat)
    requires AreRows(rows, b) && k <= |rows|
    ensures Concat(rows[..k]) == b[..if 4 * k <= |b| then 4 * k else |b|]
  {
    if k > 0 {
      FirstRows(rows, b, k - 1);
      assert rows[..k][..k - 1] == rows[..k - 1];
    }
  }

  // ---------- The tool ----------

  lemma PrefixInteger(file: Bytes, off: nat, width: nat)
    requires HasHeader(file) && off + width <= EHDR_SIZE
    ensures IntAt(file[..EHDR_SIZE], off, width) == IntAt(file, off, width)
  {
    assert file[..EHDR_SIZE][off..off + width] == file[off..off + width];
    hide Value;
  }

  /** The header is in the first 52 bytes. */
  lemma HeaderOfPrefix(file: Bytes)
    requires HasHeader(file)
    ensures ParseEhdr(file[..EHDR_SIZE]) == ParseEhdr(file)
    ensures ParseEhdr(file).ident[..4] == file[..4] && ParseEhdr(file).ident[4] == file[4]
  {
    hide IntAt, Pow256;
    PrefixInteger(file, 16, 2);
    PrefixInteger(file, 18, 2);
    PrefixInteger(file, 20, 4);
    PrefixInteger(file, 24, 4);
    PrefixInteger(file, 28, 4);
    PrefixInteger(file, 32, 4);
    PrefixInteger(file, 36, 4);
    PrefixInteger(file, 40, 2);
    PrefixInteger(file, 42, 2);
    PrefixInteger(file, 44, 2);
    PrefixInteger(file, 46, 2);
    PrefixInteger(file, 48, 2);
    PrefixInteger(file, 50, 2);
    assert file[..EHDR_SIZE][..16] == file[..16];
  }

  /** The scan for the first section whose name is `.text`. */
  method FindText(table: Bytes, names: Bytes, count: nat) returns (found: Option<nat>)
    requires SHDR_SIZE * count <= |table|
    ensures found.Some? ==> found.value < count && NameIn(table, names, found.value) == Some(DOT_TEXT)
    ensures forall j :: 0 <= j < (if found.Some? then found.value else count) ==>
              NameIn(table, names, j) != Some(DOT_TEXT)
  {
    hide NameIn, DOT_TEXT;
    for i := 0 to count
      invariant forall j :: 0 <= j < i ==> NameIn(table, names, j) != Some(DOT_TEXT)
    {
      if NameIn(table, names, i) == Some(DOT_TEXT) {
        return Some(i);
      }
    }
    return None;
  }

  method PrintRows(b: Bytes) returns (rows: seq<Bytes>)
    ensures AreRows(rows, b)
  {
    rows := [];
    var at := 0;
    while at < |b|
      invariant at == 4 * |rows| && |rows| <= (|b| + 3) / 4
      invariant forall r :: 0 <= r < |rows| ==> rows[r] == b[4 * r..if 4 * r + 4 <= |b| then 4 * r + 4 else |b|]
    {
      rows := rows + [b[at..if at + 4 <= |b| then at + 4 else |b|]];
      at := at + 4;
    }
  }

  /** Whether every name ends inside the table, which the tool takes for granted when it prints them. */
  method CheckNames(table: Bytes, names: Bytes, count: nat) returns (ok: bool)
    requires SHDR_SIZE * count <= |table|
    ensures ok == NamesEndIn(table, names, count)
  {
    hide HeaderIn;
    for i := 0 to count
      invariant NamesEndIn(table, names, i)
    {
      if HeaderIn(table, i).name < |names| {
        ZeroFrom(names, HeaderIn(table, i).name);
      }
      if HeaderIn(table, i).name < |names| && 0 !in names[HeaderIn(table, i).name..] {
        return false;
      }
    }
    return true;
  }

  /** Reads `size` bytes from `off` into a zeroed buffer of `room` bytes. */
  method Load(stream: IStream, off: nat, size: nat, room: nat) returns (buffer: Bytes)
    requires stream.failed || size <= room || (!Delivers(stream.bytes, off, size) && |stream.bytes| <= off + room)
    modifies stream
    ensures |buffer| == room
    ensures stream.failed <==> old(stream.failed) || !Delivers(stream.bytes, off, size)
    ensures !old(stream.failed) && size <= room ==> buffer == ReadInto(stream.bytes, off, size) + Zeros(room - size)
    ensures !old(stream.failed) && size == room ==> buffer == ReadInto(stream.bytes, off, size)
    ensures old(stream.failed) ==> buffer == Zeros(room)
  {
    stream.Seek(off);
    var b := stream.Read(size);
    buffer := b + Zeros(room - |b|);
  }

  method LoadTable(stream: IStream, h: Ehdr) returns (table: Bytes)
    requires HasHeader(stream.bytes) && h == ParseEhdr(stream.bytes) && TableFits(stream.bytes)
    modifies stream
    ensures |table| == SHDR_SIZE * h.shnum
    ensures stream.failed <==> old(stream.failed) || !HasTable(stream.bytes)
    ensures !stream.failed ==> table == Table(stream.bytes)
    ensures old(stream.failed) ==> table == Zeros(SHDR_SIZE * h.shnum)
  {
    hide ParseEhdr, ReadInto;
    MulFacts(h.shentsize, 0, 0, h.shnum);
    table := Load(stream, h.shoff, h.shentsize * h.shnum, SHDR_SIZE * h.shnum);
  }

  lemma {:induction false} ZeroValue(b: Bytes)
    requires forall j :: 0 <= j < |b| ==> b[j] == 0
    ensures Value(b) == 0
    decreases |b|
  {
    if b != [] {
      ZeroValue(b[1..]);
    }
  }

  /** A header of zeros, which a failed stream leaves, names no bytes. */
  lemma ZeroHeader(table: Bytes, i: nat)
    requires SHDR_SIZE * i + SHDR_SIZE <= |table| && table == Zeros(|table|)
    ensures HeaderIn(table, i).size == 0
  {
    hide Pow256, Value;
    var b := table[SHDR_SIZE * i..SHDR_SIZE * i + SHDR_SIZE];
    assert forall j :: 0 <= j < SHDR_SIZE ==> b[j] == table[SHDR_SIZE * i + j] == 0;
    ZeroValue(b[20..24]);
  }

  /** Reads the table of section names, which is section `i`; a stream that has failed before leaves it empty. */
  method LoadNames(stream: IStream, table: Bytes, i: nat) returns (names: Bytes)
    requires SHDR_SIZE * i + SHDR_SIZE <= |table|
    requires stream.failed ==> table == Zeros(|table|)
    modifies stream
    ensures stream.failed <==>
              old(stream.failed) || !Delivers(stream.bytes, HeaderIn(table, i).offset, HeaderIn(table, i).size)
    ensures !old(stream.failed) ==> names == ReadInto(stream.bytes, HeaderIn(table, i).offset, HeaderIn(table, i).size)
    ensures old(stream.failed) ==> names == []
  {
    hide HeaderIn, ReadInto;
    var sh := HeaderIn(table, i);
    if stream.failed {
      ZeroHeader(table, i);
    }
    names := Load(stream, sh.offset, sh.size, sh.size);
  }

  /** What `print_section_headers` leaves behind: a failed stream if a table is not delivered. False where it reads
      memory it does not own. */
  method PrintSectionHeaders(stream: IStream, h: Ehdr) returns (ok: bool)
    requires HasHeader(stream.bytes) && h == ParseEhdr(stream.bytes) && TableFits(stream.bytes) && !stream.failed
    modifies stream
    ensures ok <==> (HasTable(stream.bytes) ==> h.shstrndx < h.shnum)
                    && (Readable(stream.bytes) ==> NamesEnd(stream.bytes))
    ensures ok ==> (stream.failed <==> !Readable(stream.bytes))
  {
    hide ParseEhdr, TableFits, HasTable, Table, ReadInto, HeaderIn;
    var table := LoadTable(stream, h);
    if stream.failed {
      return true;
    } else if h.shstrndx >= h.shnum {
      return false;
    }
    var names := LoadNames(stream, table, h.shstrndx);
    if stream.failed {
      ghost var sh := HeaderIn(table, h.shstrndx);
      CutNamesEnd(stream.bytes, sh.offset, sh.size, table, h.shnum);
    }
    ok := CheckNames(table, names, h.shnum);
  }

  /** A name table that is cut off by the end of the file still ends in a zero. */
  lemma CutNamesEnd(file: Bytes, off: nat, size: nat, table: Bytes, count: nat)
    requires SHDR_SIZE * count <= |table| && !Delivers(file, off, size)
    ensures NamesEndIn(table, ReadInto(file, off, size), count)
  {
    hide HeaderIn;
    var names := ReadInto(file, off, size);
    assert names[size - 1] == 0;
    hide ReadInto;
    forall i | 0 <= i < count && HeaderIn(table, i).name < |names|
      ensures exists k :: HeaderIn(table, i).name <= k < |names| && names[k] == 0
    {
      assert names[size - 1] == 0;
    }
  }

  lemma NothingNamed(table: Bytes)
    ensures forall i: nat :: SHDR_SIZE * i + SHDR_SIZE <= |table| ==> NameIn(table, [], i) == None
  {
    hide HeaderIn;
  }

  /** `print_text_section`, on the same stream. */
  method PrintTextSection(stream: IStream, h: Ehdr) returns (outcome: Outcome)
    requires HasHeader(stream.bytes) && h == ParseEhdr(stream.bytes) && TableFits(stream.bytes)
    requires HasTable(stream.bytes) ==> h.shstrndx < h.shnum
    requires stream.failed <==> !Readable(stream.bytes)
    modifies stream
    ensures outcome == Undefined || outcome == NoText || outcome.TextRows?
    ensures outcome == Undefined <==> h.shstrndx >= h.shnum
    ensures outcome == NoText <==>
              h.shstrndx < h.shnum
              && (Readable(stream.bytes) ==>
                    forall j :: 0 <= j < h.shnum ==> SectionName(stream.bytes, j) != Some(DOT_TEXT))
    ensures outcome.TextRows? ==>
              && Readable(stream.bytes) && IsFirstText(stream.bytes, outcome.index)
              && var sh := HeaderAt(stream.bytes, outcome.index);
                 outcome.addr == sh.addr && AreRows(outcome.rows, ReadInto(stream.bytes, sh.offset, sh.size))
  {
    hide ParseEhdr, TableFits, HasTable, Table, ReadInto, HeaderIn, AreRows, DOT_TEXT;
    var table := LoadTable(stream, h);
    if h.shstrndx >= h.shnum {
      return Undefined;
    }
    var names := LoadNames(stream, table, h.shstrndx);
    assert stream.failed <==> !Readable(stream.bytes);
    if stream.failed {
      NothingNamed(table);
    }
    var found := FindText(table, names, h.shnum);
    if found.None? {
      return NoText;
    }
    assert SectionName(stream.bytes, found.value) == Some(DOT_TEXT);
    var sh := HeaderIn(table, found.value);
    var text := Load(stream, sh.offset, sh.size, sh.size);
    var rows := PrintRows(text);
    return TextRows(found.value, sh.addr, rows);
  }

  /** The tool. Each refusal is stated in the first bytes of the file. */
  method Disassemble(file: Bytes) returns (outcome: Outcome)
    ensures outcome == ShortHeader <==> |file| < 52
    ensures outcome == NotElf <==> |file| >= 52 && file[..4] != [0x7F, 0x45, 0x4C, 0x46]
    ensures outcome == NotElf32 <==> |file| >= 52 && file[..4] == [0x7F, 0x45, 0x4C, 0x46] && file[4] != 1
    ensures outcome == Undefined <==> IsElf(file) && !Defined(file)
    ensures outcome == NoText <==>
              IsElf(file) && Defined(file)
              && (Readable(file) ==>
                    forall j :: 0 <= j < ParseEhdr(file).shnum ==> SectionName(file, j) != Some(DOT_TEXT))
    ensures outcome.TextRows? ==>
              && Readable(file) && IsFirstText(file, outcome.index)
              && var h := HeaderAt(file, outcome.index);
                 outcome.addr == h.addr && AreRows(outcome.rows, ReadInto(file, h.offset, h.size))
  {
    hide SectionName, HeaderAt, HasTable, HasNameTable, DOT_TEXT, ReadInto, AreRows, NamesEnd, TableFits;
    var stream := new IStream(file);
    var head := stream.Read(EHDR_SIZE);
    if stream.failed {
      return ShortHeader;
    }
    var h := ParseEhdr(head);
    HeaderOfPrefix(file);
    hide ParseEhdr;
    if h.ident[..4] != [0x7F, 0x45, 0x4C, 0x46] {
      return NotElf;
    } else if h.ident[4] != 1 {
      return NotElf32;
    } else if !TableFits(file) {
      return Undefined;
    }
    var ok := PrintSectionHeaders(stream, h);
    if !ok {
      return Undefined;
    }
    outcome := PrintTextSection(stream, h);
  }

  /** At most one section is the first one called .text. */
  lemma FirstTextUnique(file: Bytes, i: nat, i': nat)
    requires Readable(file) && IsFirstText(file, i) && IsFirstText(file, i')
    ensures i == i'
  {
    hide HasTable, HasNameTable, SectionName, DOT_TEXT, ParseEhdr;
  }
}
