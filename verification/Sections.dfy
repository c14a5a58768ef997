/** The sections of the file other than string tables: instructions, program data and symbols. */
module Sections {
  import opened Machine
  import opened Stream
  import opened ElfFormat
  import opened Strtab

  /** `last_index` of a section with `n` entries; 0 when there are none. */
  function LastIndexOf(n: nat): nat {
    if n > 0 then n - 1 else 0
  }

  function TextBytes(text: seq<u32>, bo: ByteOrder): Bytes {
    Concat(TextParts(text, bo))
  }

  function SymtabBytes(syms: seq<Sym>, bo: ByteOrder): Bytes {
    Concat(SymParts(syms, bo))
  }

  lemma TextBytesSnoc(text: seq<u32>, k: nat, bo: ByteOrder)
    requires k < |text|
    ensures TextBytes(text[..k + 1], bo) == TextBytes(text[..k], bo) + IntBytes(text[k], 4, bo)
  {
    assert TextParts(text[..k + 1], bo)[..k] == TextParts(text[..k], bo);
  }

  lemma SymtabBytesSnoc(syms: seq<Sym>, k: nat, bo: ByteOrder)
    requires k < |syms|
    ensures SymtabBytes(syms[..k + 1], bo) == SymtabBytes(syms[..k], bo) + SymBytes(syms[k], bo)
  {
    assert SymParts(syms[..k + 1], bo)[..k] == SymParts(syms[..k], bo);
  }

  lemma NoSymbols(syms: seq<Sym>, bo: ByteOrder)
    ensures SymtabBytes(syms[..0], bo) == []
  {}

  lemma ShdrPartsSnoc(headers: seq<Shdr>, k: nat)
    requires k < |headers|
    ensures Concat(ShdrParts(headers[..k + 1], LE)) == Concat(ShdrParts(headers[..k], LE)) + ShdrBytes(headers[k], LE)
  {
    assert ShdrParts(headers[..k + 1], LE)[..k] == ShdrParts(headers[..k], LE);
  }

  class Text {
    const header: SectionHeader
    var data: seq<u32>

    constructor (h: Shdr)
      ensures data == [] && fresh(header) && header.h == h
    {
      header := new SectionHeader(h);
      data := [];
    }

    function LastIndex(): (i: nat)
      reads this
      ensures if data == [] then i == 0 else i == |data| - 1
    {
      LastIndexOf(|data|)
    }

    method Push(instr: u32)
      modifies this, header
      ensures data == old(data) + [instr]
      ensures header.h == old(header.h).(size := Wrap(4 * |data|))
    {
      data := data + [instr];
      header.h := header.h.(size := Wrap(|data| * 4));
    }

    /** Reads entry `idx`; out of range, the caller's variable keeps the value it had. */
    method GetEntry(idx: nat, current: u32) returns (found: bool, val: u32)
      ensures found <==> idx < |data|
      ensures val == if idx < |data| then data[idx] else current
    {
      if idx >= |data| {
        return false, current;
      }
      return true, data[idx];
    }

    method UpdateEntry(idx: nat, val: u32) returns (found: bool)
      modifies this
      ensures found <==> idx < |old(data)|
      ensures data == if idx < |old(data)| then old(data)[idx := val] else old(data)
    {
      if idx >= |data| {
        return false;
      }
      data := data[idx := val];
      return true;
    }

    method Serialize(os: OStream, bo: ByteOrder)
      requires os.Valid() && os.pos == |os.buf|
      modifies os
      ensures os.Valid() && os.pos == |os.buf| && os.buf == old(os.buf) + TextBytes(data, bo)
    {
      ghost var start := os.buf;
      Pow256Values();
      assert TextBytes(data[..0], bo) == [] && start + [] == start;
      hide Overwrite, TextBytes, IntBytes, Pow256;
      for i := 0 to |data|
        invariant os.Valid() && os.pos == |os.buf| && os.buf == start + TextBytes(data[..i], bo)
      {
        WriteInt(os, data[i], 4, bo);
        TextBytesSnoc(data, i, bo);
        AppendAssociates(start, TextBytes(data[..i], bo), IntBytes(data[i], 4, bo));
      }
      assert data[..|data|] == data;
    }
  }

  class Data {
    const header: SectionHeader
    var data: Bytes

    constructor (h: Shdr)
      ensures data == [] && fresh(header) && header.h == h
    {
      header := new SectionHeader(h);
      data := [];
    }

    method PushString(entry: Bytes) returns (offset: nat)
      modifies this, header
      ensures offset == |old(data)| && data == old(data) + entry
      ensures header.h == old(header.h).(size := Wrap(|data|))
    {
      offset := |data|;
      data := data + entry;
      header.h := header.h.(size := Wrap(|data|));
    }

    /** The word overload stores its four bytes most significant first. */
    method PushWord(entry: u32) returns (offset: nat)
      modifies this, header
      ensures offset == |old(data)| && data == old(data) + IntBytes(entry, 4, BE)
      ensures header.h == old(header.h).(size := Wrap(|data|))
    {
      offset := |data|;
      BigEndianWord(entry);
      data := data + [(entry / 0x100_0000) % 0x100];
      data := data + [(entry / 0x1_0000) % 0x100];
      data := data + [(entry / 0x100) % 0x100];
      data := data + [entry % 0x100];
      header.h := header.h.(size := Wrap(|data|));
    }

    method Serialize(os: OStream)
      requires os.Valid() && os.pos == |os.buf|
      modifies os
      ensures os.Valid() && os.pos == |os.buf| && os.buf == old(os.buf) + data
    {
      os.Write(data);
    }
  }

  lemma BigEndianWord(v: u32)
    ensures IntBytes(v, 4, BE)
            == [(v / 0x100_0000) % 0x100, (v / 0x1_0000) % 0x100, (v / 0x100) % 0x100, v % 0x100]
  {
    Pow256Values();
    assert Pow256(3) == 0x100_0000;
    LittleAt(v, 4, 0);
    LittleAt(v, 4, 1);
    LittleAt(v, 4, 2);
    LittleAt(v, 4, 3);
  }

  class Symtab {
    const header: SectionHeader
    var data: seq<Sym>

    constructor (h: Shdr)
      ensures data == [] && fresh(header) && header.h == h
    {
      header := new SectionHeader(h);
      data := [];
    }

    method Push(sym: Sym)
      modifies this, header
      ensures data == old(data) + [sym]
      ensures header.h == old(header.h).(size := Wrap(16 * |data|))
    {
      data := data + [sym];
      header.h := header.h.(size := Wrap(|data| * 16));
    }

    method Serialize(os: OStream, bo: ByteOrder)
      requires os.Valid() && os.pos == |os.buf|
      modifies os, header
      ensures os.Valid() && os.pos == |os.buf| && os.buf == old(os.buf) + SymtabBytes(data, bo)
      ensures header.h == if data == [] then old(header.h)
                          else old(header.h).(offset := Wrap(|old(os.buf)|), size := Wrap(16 * |data|))
    {
      hide Overwrite, SymtabBytes, SymBytes;
      ghost var start := os.buf;
      NoSymbols(data, bo);
      assert start + [] == start;
      if |data| > 0 {
        header.h := header.h.(offset := Wrap(os.pos));
        header.h := header.h.(size := Wrap(|data| * 16));
        for i := 0 to |data|
          modifies os
          invariant os.Valid() && os.pos == |os.buf| && os.buf == start + SymtabBytes(data[..i], bo)
        {
          SerializeSym(data[i], os, bo);
          SymtabBytesSnoc(data, i, bo);
          AppendAssociates(start, SymtabBytes(data[..i], bo), SymBytes(data[i], bo));
        }
      }
      assert data[..|data|] == data;
    }
  }
}
