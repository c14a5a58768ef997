/** The ELF records (System V gABI, chapter 4): their fields, their bytes, and how they are read back. */
module ElfFormat {
  import opened Machine
  import opened Stream

  type Ident = b: Bytes | |b| == 16 witness seq(16, _ => 0)

  datatype Ehdr = Ehdr(ident: Ident, eType: u16, machine: u16, version: u32, entry: u32, phoff: u32, shoff: u32,
                       flags: u32, ehsize: u16, phentsize: u16, phnum: u16, shentsize: u16, shnum: u16, shstrndx: u16)

  datatype Shdr = Shdr(name: u32, shType: u32, flags: u32, addr: u32, offset: u32, size: u32, link: u32, info: u32,
                       addralign: u32, entsize: u32)

  datatype Sym = Sym(name: u32, value: u32, size: u32, info: u8, other: u8, shndx: u16)

  const EHDR_SIZE: nat := 52
  const SHDR_SIZE: nat := 40
  const SYM_SIZE: nat := 16

  function EhdrFields(h: Ehdr): seq<Field> {
    [Field(h.eType, 2), Field(h.machine, 2), Field(h.version, 4), Field(h.entry, 4), Field(h.phoff, 4),
     Field(h.shoff, 4), Field(h.flags, 4), Field(h.ehsize, 2), Field(h.phentsize, 2), Field(h.phnum, 2),
     Field(h.shentsize, 2), Field(h.shnum, 2), Field(h.shstrndx, 2)]
  }

  function ShdrFields(h: Shdr): seq<Field> {
    [Field(h.name, 4), Field(h.shType, 4), Field(h.flags, 4), Field(h.addr, 4), Field(h.offset, 4), Field(h.size, 4),
     Field(h.link, 4), Field(h.info, 4), Field(h.addralign, 4), Field(h.entsize, 4)]
  }

  function SymFields(s: Sym): seq<Field> {
    [Field(s.name, 4), Field(s.value, 4), Field(s.size, 4), Field(s.info, 1), Field(s.other, 1), Field(s.shndx, 2)]
  }

  function EhdrBytes(h: Ehdr): Bytes { h.ident + Encode(EhdrFields(h), LE) }
  function ShdrBytes(h: Shdr, bo: ByteOrder): Bytes { Encode(ShdrFields(h), bo) }
  function SymBytes(s: Sym, bo: ByteOrder): Bytes { Encode(SymFields(s), bo) }

  // ---------- Reading ----------

  lemma Pow256Values()
    ensures Pow256(1) == 0x100 && Pow256(2) == 0x1_0000 && Pow256(4) == 0x1_0000_0000
  {
    assert Pow256(3) == 0x100_0000;
  }

  function ByteAt(b: Bytes, off: nat): u8
    requires off + 1 <= |b|
  {
    Pow256Values();
    IntAt(b, off, 1)
  }

  function HalfAt(b: Bytes, off: nat): u16
    requires off + 2 <= |b|
  {
    Pow256Values();
    IntAt(b, off, 2)
  }

  function WordAt(b: Bytes, off: nat): u32
    requires off + 4 <= |b|
  {
    Pow256Values();
    IntAt(b, off, 4)
  }

  /** The structures as a little-endian machine finds them in memory. */
  function ParseEhdr(b: Bytes): Ehdr
    requires |b| >= EHDR_SIZE
  {
    Ehdr(b[..16], HalfAt(b, 16), HalfAt(b, 18), WordAt(b, 20), WordAt(b, 24), WordAt(b, 28), WordAt(b, 32),
         WordAt(b, 36), HalfAt(b, 40), HalfAt(b, 42), HalfAt(b, 44), HalfAt(b, 46), HalfAt(b, 48), HalfAt(b, 50))
  }

  function ParseShdr(b: Bytes): Shdr
    requires |b| >= SHDR_SIZE
  {
    Shdr(WordAt(b, 0), WordAt(b, 4), WordAt(b, 8), WordAt(b, 12), WordAt(b, 16), WordAt(b, 20), WordAt(b, 24),
         WordAt(b, 28), WordAt(b, 32), WordAt(b, 36))
  }

  function ParseSym(b: Bytes): Sym
    requires |b| >= SYM_SIZE
  {
    Sym(WordAt(b, 0), WordAt(b, 4), WordAt(b, 8), ByteAt(b, 12), ByteAt(b, 13), HalfAt(b, 14))
  }

  lemma EhdrFieldAt(x: Ehdr)
    ensures |EhdrFields(x)| == 13
    ensures var f := EhdrFields(x);
            f[0] == Field(x.eType, 2) && f[1] == Field(x.machine, 2)
            && f[2] == Field(x.version, 4) && f[3] == Field(x.entry, 4)
    ensures var f := EhdrFields(x);
            f[4] == Field(x.phoff, 4) && f[5] == Field(x.shoff, 4)
            && f[6] == Field(x.flags, 4) && f[7] == Field(x.ehsize, 2)
    ensures var f := EhdrFields(x);
            f[8] == Field(x.phentsize, 2) && f[9] == Field(x.phnum, 2)
            && f[10] == Field(x.shentsize, 2) && f[11] == Field(x.shnum, 2)
    ensures var f := EhdrFields(x); f[12] == Field(x.shstrndx, 2)
  {}

  lemma ShdrFieldAt(x: Shdr)
    ensures |ShdrFields(x)| == 10
    ensures var f := ShdrFields(x);
            f[0] == Field(x.name, 4) && f[1] == Field(x.shType, 4)
            && f[2] == Field(x.flags, 4) && f[3] == Field(x.addr, 4)
    ensures var f := ShdrFields(x);
            f[4] == Field(x.offset, 4) && f[5] == Field(x.size, 4)
            && f[6] == Field(x.link, 4) && f[7] == Field(x.info, 4)
    ensures var f := ShdrFields(x); f[8] == Field(x.addralign, 4) && f[9] == Field(x.entsize, 4)
  {}

  lemma SymFieldAt(x: Sym)
    ensures |SymFields(x)| == 6
    ensures var f := SymFields(x);
            f[0] == Field(x.name, 4) && f[1] == Field(x.value, 4)
            && f[2] == Field(x.size, 4) && f[3] == Field(x.info, 1)
    ensures var f := SymFields(x); f[4] == Field(x.other, 1) && f[5] == Field(x.shndx, 2)
  {}

  lemma EhdrIntegers(h: Ehdr, rest: Bytes, b: Bytes)
    requires b == EhdrBytes(h) + rest
    ensures |b| == 52 + |rest| && |EhdrBytes(h)| == 52
    ensures IntAt(b, 16, 2) == h.eType && IntAt(b, 18, 2) == h.machine && IntAt(b, 20, 4) == h.version
    ensures IntAt(b, 24, 4) == h.entry && IntAt(b, 28, 4) == h.phoff && IntAt(b, 32, 4) == h.shoff
    ensures IntAt(b, 36, 4) == h.flags && IntAt(b, 40, 2) == h.ehsize && IntAt(b, 42, 2) == h.phentsize
    ensures IntAt(b, 44, 2) == h.phnum && IntAt(b, 46, 2) == h.shentsize && IntAt(b, 48, 2) == h.shnum
    ensures IntAt(b, 50, 2) == h.shstrndx
  {
    hide Encode, EncodedLength, IntAt, Pow256, EhdrFields;
    var f := EhdrFields(h);
    EhdrFieldAt(h);
    Pow256Values();
    EncodedLengthEnds(f);
    assert b == h.ident + Encode(f, LE) + rest;
    assert |EhdrBytes(h)| == 16 + |Encode(f, LE)|;
    DecodeField(b, h.ident, f, rest, 0, 0);
    DecodeField(b, h.ident, f, rest, 1, 2);
    DecodeField(b, h.ident, f, rest, 2, 4);
    DecodeField(b, h.ident, f, rest, 3, 8);
    DecodeField(b, h.ident, f, rest, 4, 12);
    DecodeField(b, h.ident, f, rest, 5, 16);
    DecodeField(b, h.ident, f, rest, 6, 20);
    DecodeField(b, h.ident, f, rest, 7, 24);
    DecodeField(b, h.ident, f, rest, 8, 26);
    DecodeField(b, h.ident, f, rest, 9, 28);
    DecodeField(b, h.ident, f, rest, 10, 30);
    DecodeField(b, h.ident, f, rest, 11, 32);
    DecodeField(b, h.ident, f, rest, 12, 34);
  }

  /** A file header takes 52 bytes, and is determined by them. */
  lemma ParseEhdrBytes(h: Ehdr, rest: Bytes)
    ensures |EhdrBytes(h)| == EHDR_SIZE
    ensures ParseEhdr(EhdrBytes(h) + rest) == h
  {
    var b := EhdrBytes(h) + rest;
    EhdrIntegers(h, rest, b);
    assert b[..16] == h.ident;
    hide IntAt, EhdrBytes;
  }

  lemma ShdrIntegers(h: Shdr, rest: Bytes, b: Bytes)
    requires b == ShdrBytes(h, LE) + rest
    ensures |b| == 40 + |rest| && |ShdrBytes(h, LE)| == 40
    ensures IntAt(b, 0, 4) == h.name && IntAt(b, 4, 4) == h.shType && IntAt(b, 8, 4) == h.flags
    ensures IntAt(b, 12, 4) == h.addr && IntAt(b, 16, 4) == h.offset && IntAt(b, 20, 4) == h.size
    ensures IntAt(b, 24, 4) == h.link && IntAt(b, 28, 4) == h.info && IntAt(b, 32, 4) == h.addralign
    ensures IntAt(b, 36, 4) == h.entsize
  {
    hide Encode, EncodedLength, IntAt, Pow256, ShdrFields;
    var f := ShdrFields(h);
    ShdrFieldAt(h);
    Pow256Values();
    EncodedLengthEnds(f);
    assert b == [] + Encode(f, LE) + rest;
    assert ShdrBytes(h, LE) == Encode(f, LE);
    DecodeField(b, [], f, rest, 0, 0);
    DecodeField(b, [], f, rest, 1, 4);
    DecodeField(b, [], f, rest, 2, 8);
    DecodeField(b, [], f, rest, 3, 12);
    DecodeField(b, [], f, rest, 4, 16);
    DecodeField(b, [], f, rest, 5, 20);
    DecodeField(b, [], f, rest, 6, 24);
    DecodeField(b, [], f, rest, 7, 28);
    DecodeField(b, [], f, rest, 8, 32);
    DecodeField(b, [], f, rest, 9, 36);
  }

  /** A section header takes 40 bytes, and is determined by them. */
  lemma ParseShdrBytes(h: Shdr, rest: Bytes)
    ensures |ShdrBytes(h, LE)| == SHDR_SIZE
    ensures ParseShdr(ShdrBytes(h, LE) + rest) == h
  {
    var b := ShdrBytes(h, LE) + rest;
    ShdrIntegers(h, rest, b);
    hide IntAt, ShdrBytes;
  }

  lemma SymIntegers(s: Sym, rest: Bytes, b: Bytes)
    requires b == SymBytes(s, LE) + rest
    ensures |b| == 16 + |rest| && |SymBytes(s, LE)| == 16
    ensures IntAt(b, 0, 4) == s.name && IntAt(b, 4, 4) == s.value && IntAt(b, 8, 4) == s.size
    ensures IntAt(b, 12, 1) == s.info && IntAt(b, 13, 1) == s.other && IntAt(b, 14, 2) == s.shndx
  {
    hide Encode, EncodedLength, IntAt, Pow256, SymFields;
    var f := SymFields(s);
    SymFieldAt(s);
    Pow256Values();
    EncodedLengthEnds(f);
    assert b == [] + Encode(f, LE) + rest;
    assert SymBytes(s, LE) == Encode(f, LE);
    DecodeField(b, [], f, rest, 0, 0);
    DecodeField(b, [], f, rest, 1, 4);
    DecodeField(b, [], f, rest, 2, 8);
    DecodeField(b, [], f, rest, 3, 12);
    DecodeField(b, [], f, rest, 4, 13);
    DecodeField(b, [], f, rest, 5, 14);
  }

  /** A symbol table entry takes 16 bytes, and is determined by them. */
  lemma ParseSymBytes(s: Sym, rest: Bytes)
    ensures |SymBytes(s, LE)| == SYM_SIZE
    ensures ParseSym(SymBytes(s, LE) + rest) == s
  {
    var b := SymBytes(s, LE) + rest;
    SymIntegers(s, rest, b);
    hide IntAt, SymBytes;
  }

  // ---------- Tables of equally long records ----------

  function Concat(parts: seq<Bytes>): Bytes
    decreases |parts|
  {
    if parts == [] then [] else Concat(parts[..|parts| - 1]) + parts[|parts| - 1]
  }

  lemma {:induction false} ConcatAt(parts: seq<Bytes>, n: nat, k: nat)
    requires forall i :: 0 <= i < |parts| ==> |parts[i]| == n
    requires k < |parts|
    ensures |Concat(parts)| == n * |parts|
    ensures 0 <= n * k <= n * (k + 1) <= |Concat(parts)|
    ensures Concat(parts)[n * k..n * (k + 1)] == parts[k]
    decreases |parts|
  {
    var m := |parts| - 1;
    ConcatLength(parts[..m], n);
    ConcatLength(parts, n);
    assert n * |parts| == n * m + n && n * (k + 1) == n * k + n;
    if k < m {
      ConcatAt(parts[..m], n, k);
    } else {
      assert n * k == |Concat(parts[..m])|;
    }
  }

  lemma {:induction false} ConcatLength(parts: seq<Bytes>, n: nat)
    requires forall i :: 0 <= i < |parts| ==> |parts[i]| == n
    ensures |Concat(parts)| == n * |parts|
    decreases |parts|
  {
    if parts != [] {
      var m := |parts| - 1;
      ConcatLength(parts[..m], n);
      assert n * |parts| == n * m + n;
    }
  }

  function TextParts(text: seq<u32>, bo: ByteOrder): seq<Bytes> {
    seq(|text|, i requires 0 <= i < |text| => IntBytes(text[i], 4, bo))
  }

  function SymParts(syms: seq<Sym>, bo: ByteOrder): seq<Bytes> {
    seq(|syms|, i requires 0 <= i < |syms| => SymBytes(syms[i], bo))
  }

  function ShdrParts(headers: seq<Shdr>, bo: ByteOrder): seq<Bytes> {
    seq(|headers|, i requires 0 <= i < |headers| => ShdrBytes(headers[i], bo))
  }

  // ---------- Writing: the `serialize` members of the three records ----------

  method SerializeEhdr(h: Ehdr, out: OStream)
    requires out.Valid()
    modifies out
    ensures out.Valid() && out.buf == Overwrite(old(out.buf), old(out.pos), EhdrBytes(h))
    ensures out.pos == old(out.pos) + |EhdrBytes(h)|
  {
    hide Encode, Written, Pow256, Overwrite, EhdrFields;
    ghost var buf, at := out.buf, out.pos;
    out.Write(h.ident);
    ghost var before, start, f := out.buf, out.pos, EhdrFields(h);
    EhdrFieldAt(h);
    Pow256Values();
    WrittenNone(before, start, f, LE);
    WriteField(out, h.eType, 2, LE, before, start, f, 0);
    WriteField(out, h.machine, 2, LE, before, start, f, 1);
    WriteField(out, h.version, 4, LE, before, start, f, 2);
    WriteField(out, h.entry, 4, LE, before, start, f, 3);
    WriteField(out, h.phoff, 4, LE, before, start, f, 4);
    WriteField(out, h.shoff, 4, LE, before, start, f, 5);
    WriteField(out, h.flags, 4, LE, before, start, f, 6);
    WriteField(out, h.ehsize, 2, LE, before, start, f, 7);
    WriteField(out, h.phentsize, 2, LE, before, start, f, 8);
    WriteField(out, h.phnum, 2, LE, before, start, f, 9);
    WriteField(out, h.shentsize, 2, LE, before, start, f, 10);
    WriteField(out, h.shnum, 2, LE, before, start, f, 11);
    WriteField(out, h.shstrndx, 2, LE, before, start, f, 12);
    WrittenAll(out.buf, out.pos, before, start, f, LE);
    OverwriteTwice(buf, at, h.ident, Encode(f, LE));
  }

  method SerializeShdr(h: Shdr, out: OStream, bo: ByteOrder)
    requires out.Valid()
    modifies out
    ensures out.Valid() && out.buf == Overwrite(old(out.buf), old(out.pos), ShdrBytes(h, bo))
    ensures out.pos == old(out.pos) + |ShdrBytes(h, bo)|
  {
    hide Encode, Written, Pow256, Overwrite, ShdrFields;
    ghost var before, start, f := out.buf, out.pos, ShdrFields(h);
    ShdrFieldAt(h);
    Pow256Values();
    WrittenNone(before, start, f, bo);
    WriteField(out, h.name, 4, bo, before, start, f, 0);
    WriteField(out, h.shType, 4, bo, before, start, f, 1);
    WriteField(out, h.flags, 4, bo, before, start, f, 2);
    WriteField(out, h.addr, 4, bo, before, start, f, 3);
    WriteField(out, h.offset, 4, bo, before, start, f, 4);
    WriteField(out, h.size, 4, bo, before, start, f, 5);
    WriteField(out, h.link, 4, bo, before, start, f, 6);
    WriteField(out, h.info, 4, bo, before, start, f, 7);
    WriteField(out, h.addralign, 4, bo, before, start, f, 8);
    WriteField(out, h.entsize, 4, bo, before, start, f, 9);
    WrittenAll(out.buf, out.pos, before, start, f, bo);
  }

  method SerializeSym(s: Sym, out: OStream, bo: ByteOrder)
    requires out.Valid()
    modifies out
    ensures out.Valid() && out.buf == Overwrite(old(out.buf), old(out.pos), SymBytes(s, bo))
    ensures out.pos == old(out.pos) + |SymBytes(s, bo)|
  {
    hide Encode, Written, Pow256, Overwrite, SymFields;
    ghost var before, start, f := out.buf, out.pos, SymFields(s);
    SymFieldAt(s);
    Pow256Values();
    WrittenNone(before, start, f, bo);
    WriteField(out, s.name, 4, bo, before, start, f, 0);
    WriteField(out, s.value, 4, bo, before, start, f, 1);
    WriteField(out, s.size, 4, bo, before, start, f, 2);
    WriteField(out, s.info, 1, bo, before, start, f, 3);
    WriteField(out, s.other, 1, bo, before, start, f, 4);
    WriteField(out, s.shndx, 2, bo, before, start, f, 5);
    WrittenAll(out.buf, out.pos, before, start, f, bo);
  }
}
