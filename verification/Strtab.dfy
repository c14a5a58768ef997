/** String tables (System V gABI, chapter 4, "String Table"). */
module Strtab {
  import opened Machine
  import opened Stream
  import opened ElfFormat

  datatype Option<+T> = None | Some(value: T)

  /** What C sees of a byte string: everything before its first NUL. */
  function CStr(s: Bytes): (r: Bytes)
    ensures NulFree(r)
    ensures NulFree(s) ==> r == s
    decreases |s|
  {
    if s == [] || s[0] == 0 then []
    else
      assert forall i :: 0 < i < |s| ==> s[1..][i - 1] == s[i];
      [s[0]] + CStr(s[1..])
  }

  predicate NulFree(s: Bytes) {
    forall i :: 0 <= i < |s| ==> s[i] != 0
  }

  lemma {:induction false} CStrIs(s: Bytes, r: Bytes)
    ensures CStr(s) == r <==> |r| <= |s| && s[..|r|] == r && NulFree(r) && (|r| == |s| || s[|r|] == 0)
    decreases |s|
  {
    if s != [] && s[0] != 0 && r != [] {
      var t, q := s[1..], r[1..];
      CStrIs(t, q);
      assert s == [s[0]] + t && r == [r[0]] + q && (|r| < |s| ==> s[|r|] == t[|q|]);
      assert NulFree(r) <==> r[0] != 0 && NulFree(q) by {
        assert forall j :: 0 < j < |r| ==> r[j] == q[j - 1];
      }
      assert |r| <= |s| ==> s[..|r|] == [s[0]] + t[..|q|];
    }
  }

  /** The C string that starts at `off`. */
  function CStringAt(table: Bytes, off: nat): Bytes
    requires off <= |table|
  {
    CStr(table[off..])
  }

  /** The bytes of a table after `add_string`, and the offset it returns. */
  function Add(table: Bytes, s: Bytes): Bytes {
    if |table| < 2 then table + s + [0, 0] else table[..|table| - 1] + s + [0] + table[|table| - 1..]
  }

  function AddOffset(table: Bytes): nat {
    if |table| < 2 then 1 else |table| - 1
  }

  // ---------- The refinement: a table is its list of names ----------

  function Body(names: seq<Bytes>): (b: Bytes)
    ensures names == [] <==> b == []
    decreases |names|
  {
    if names == [] then [] else Body(names[..|names| - 1]) + names[|names| - 1] + [0]
  }

  /** One leading NUL, each name with its terminator, and, unless the table is empty, one more NUL. */
  function TableOf(names: seq<Bytes>): (t: Bytes)
    ensures t != []
  {
    if names == [] then [0] else [0] + Body(names) + [0]
  }

  /** Where name `k` starts: one past the lengths, terminators included, of the names before it. */
  function OffsetOf(names: seq<Bytes>, k: nat): nat
    requires k <= |names|
  {
    if k == 0 then 1 else OffsetOf(names, k - 1) + |names[k - 1]| + 1
  }

  lemma {:induction false} BodyLength(names: seq<Bytes>, k: nat)
    requires k <= |names|
    ensures |Body(names[..k])| == OffsetOf(names, k) - 1
  {
    if k > 0 {
      BodyLength(names, k - 1);
      assert names[..k][..k - 1] == names[..k - 1];
    }
  }

  lemma BodySnoc(names: seq<Bytes>, s: Bytes)
    ensures Body(names + [s]) == Body(names) + s + [0]
  {
    assert (names + [s])[..|names|] == names;
  }

  lemma AddToWrapped(body: Bytes, s: Bytes)
    requires body != []
    ensures Add([0] + body + [0], s) == [0] + (body + s + [0]) + [0]
    ensures AddOffset([0] + body + [0]) == 1 + |body|
  {
    var t := [0] + body + [0];
    assert t[..|t| - 1] == [0] + body && t[|t| - 1..] == [0];
  }

  /** `add_string` appends a name: the table stays the table of its names, and the offset is the new name's. */
  lemma AddAppends(names: seq<Bytes>, s: Bytes)
    ensures Add(TableOf(names), s) == TableOf(names + [s])
    ensures AddOffset(TableOf(names)) == OffsetOf(names, |names|)
  {
    hide Add, AddOffset, Body, TableOf, OffsetOf;
    BodySnoc(names, s);
    BodyLength(names, |names|);
    assert names[..|names|] == names;
    TableForm(names);
    TableForm(names + [s]);
    if names == [] {
      AddToEmpty(s);
    } else {
      AddToWrapped(Body(names), s);
    }
  }

  lemma TableForm(names: seq<Bytes>)
    ensures TableOf(names) == if names == [] then [0] else [0] + Body(names) + [0]
    ensures Body([]) == [] && OffsetOf([], 0) == 1
  {}

  lemma AddToEmpty(s: Bytes)
    ensures Add([0], s) == [0] + ([] + s + [0]) + [0] && AddOffset([0]) == 1
  {
    assert [0] + s + [0, 0] == [0] + ([] + s + [0]) + [0];
  }

  /** Offsets handed out earlier do not move. */
  lemma {:induction false} OffsetStable(names: seq<Bytes>, more: seq<Bytes>, k: nat)
    requires k <= |names|
    ensures OffsetOf(names + more, k) == OffsetOf(names, k)
  {
    if k > 0 {
      OffsetStable(names, more, k - 1);
    }
  }

  /** Storing name `k` of a list after the names before it. */
  lemma StoreNext(names: seq<Bytes>, k: nat)
    requires k < |names| && NulFree(names[k])
    ensures Add(TableOf(names[..k]), CStr(names[k])) == TableOf(names[..k + 1])
    ensures AddOffset(TableOf(names[..k])) == OffsetOf(names, k)
  {
    hide TableOf, Add, AddOffset;
    AddAppends(names[..k], names[k]);
    OffsetStable(names[..k], names[k..], k);
    assert names[..k] + [names[k]] == names[..k + 1] && names[..k] + names[k..] == names;
  }

  lemma {:induction false} BodySlice(names: seq<Bytes>, k: nat)
    requires k < |names|
    ensures Body(names[..k]) + names[k] + [0] <= Body(names)
    decreases |names|
  {
    var n := |names| - 1;
    if k < n {
      BodySlice(names[..n], k);
      assert names[..n][..k] == names[..k];
    }
  }

  lemma {:induction false} CStrStops(s: Bytes, rest: Bytes)
    requires NulFree(s)
    ensures CStr(s + [0] + rest) == s
    decreases |s|
  {
    if s == [] {
      assert (s + [0] + rest)[0] == 0;
    } else {
      CStrStops(s[1..], rest);
      assert (s + [0] + rest)[1..] == s[1..] + [0] + rest;
    }
  }

  /** However many names follow, reading at the offset of name `k` gives name `k`. */
  lemma NameAt(names: seq<Bytes>, k: nat)
    requires k < |names| && NulFree(names[k])
    ensures OffsetOf(names, k) + |names[k]| + 1 < |TableOf(names)|
    ensures CStringAt(TableOf(names), OffsetOf(names, k)) == names[k]
  {
    BodyLength(names, k);
    BodySlice(names, k);
    SliceInTable(Body(names[..k]), names[k], Body(names));
  }

  lemma SliceInTable(before: Bytes, s: Bytes, body: Bytes)
    requires before + s + [0] <= body && NulFree(s)
    ensures CStringAt([0] + body + [0], 1 + |before|) == s
  {
    var after := body[|before| + |s| + 1..];
    assert body == before + s + [0] + after;
    assert ([0] + body + [0])[1 + |before|..] == s + [0] + (after + [0]);
    hide CStr;
    CStrStops(s, after + [0]);
  }

  // ---------- The class ----------

  /** A section header, shared between a section and the header table. */
  class SectionHeader {
    var h: Shdr

    constructor (h: Shdr)
      ensures this.h == h
    {
      this.h := h;
    }
  }

  class StringTable {
    const header: SectionHeader
    var data: Bytes

    ghost predicate Valid()
      reads this
    {
      data != []
    }

    constructor (h: Shdr)
      ensures Valid() && data == [0] && fresh(header) && header.h == h
    {
      header := new SectionHeader(h);
      data := [0];
    }

    method AddString(str: Bytes) returns (offset: nat)
      requires Valid()
      modifies this, header
      ensures Valid() && data == Add(old(data), CStr(str)) && offset == AddOffset(old(data))
      ensures header.h == old(header.h).(size := Wrap(|data|))
    {
      var s := CStr(str);
      if |data| < 2 {
        offset := 1;
        data := data + [0];
      } else {
        offset := |data| - 1;
      }
      data := data[..|data| - 1] + s + data[|data| - 1..];
      data := data[..|data| - 1] + [0] + data[|data| - 1..];
      header.h := header.h.(size := Wrap(|data|));
    }

    /** `None` stands for the `out_of_range` exception. */
    method GetString(offset: nat) returns (r: Option<Bytes>)
      ensures r == if offset < |data| then Some(CStringAt(data, offset)) else None
    {
      if offset >= |data| {
        return None;
      }
      return Some(CStringAt(data, offset));
    }

    /** Appends the table to the stream, wherever the stream is positioned, and records where. */
    method Serialize(os: OStream)
      requires Valid() && os.Valid()
      modifies os, header
      ensures os.Valid() && os.buf == old(os.buf) + data && os.pos == |os.buf|
      ensures header.h == old(header.h).(offset := Wrap(|old(os.buf)|), size := Wrap(|data|))
    {
      os.SeekEnd();
      header.h := header.h.(offset := Wrap(os.pos));
      header.h := header.h.(size := Wrap(|data|));
      os.Write(data);
    }
  }
}
