/** Integers as bytes, and the output stream they are written to. */
module Stream {
  import opened Machine

  datatype ByteOrder = LE | BE

  function Pow256(k: nat): (p: nat)
    ensures p > 0
  {
    if k == 0 then 1 else 0x100 * Pow256(k - 1)
  }

  /** The `width` low bytes of `v`, least significant first. */
  function Little(v: nat, width: nat): (b: Bytes)
    ensures |b| == width
    decreases width
  {
    if width == 0 then [] else [v % 0x100] + Little(v / 0x100, width - 1)
  }

  /** The number that a little-endian byte string denotes. */
  function Value(b: Bytes): (v: nat)
    ensures v < Pow256(|b|)
    decreases |b|
  {
    if b == [] then 0 else b[0] + 0x100 * Value(b[1..])
  }

  function Reverse(b: Bytes): (r: Bytes)
    ensures |r| == |b|
    ensures forall i :: 0 <= i < |b| ==> r[i] == b[|b| - 1 - i]
    decreases |b|
  {
    if b == [] then [] else Reverse(b[1..]) + [b[0]]
  }

  function IntBytes(v: nat, width: nat, bo: ByteOrder): (b: Bytes)
    ensures |b| == width
  {
    if bo == LE then Little(v, width) else Reverse(Little(v, width))
  }

  lemma DivideOnce(v: nat, p: nat)
    requires p > 0
    ensures v / 0x100 / p == v / (0x100 * p)
  {
    Peel(v, 0x100, p, 0x100 * p);
    DivMod(v / 0x100, p, v / (0x100 * p), v / 0x100 % p);
  }

  /** Byte `i` is `(v >> 8 i) & 0xFF`. */
  lemma {:induction false} LittleAt(v: nat, width: nat, i: nat)
    requires i < width
    ensures Little(v, width)[i] == (v / Pow256(i)) % 0x100
    decreases i
  {
    if i > 0 {
      LittleAt(v / 0x100, width - 1, i - 1);
      DivideOnce(v, Pow256(i - 1));
    }
  }

  lemma {:induction false} ValueOfLittle(v: nat, width: nat)
    requires v < Pow256(width)
    ensures Value(Little(v, width)) == v
    decreases width
  {
    if width > 0 {
      assert v / 0x100 < Pow256(width - 1);
      ValueOfLittle(v / 0x100, width - 1);
      assert Little(v, width)[1..] == Little(v / 0x100, width - 1);
    }
  }

  lemma {:induction false} LittleOfValue(b: Bytes)
    ensures Little(Value(b), |b|) == b
    decreases |b|
  {
    if b != [] {
      LittleOfValue(b[1..]);
      assert Value(b) / 0x100 == Value(b[1..]) && Value(b) % 0x100 == b[0];
      assert b == [b[0]] + b[1..];
    }
  }

  // ---------- Records as sequences of integer fields ----------

  datatype Field = Field(value: nat, width: nat)

  function Encode(fields: seq<Field>, bo: ByteOrder): Bytes
    decreases |fields|
  {
    if fields == [] then []
    else
      var n := |fields| - 1;
      Encode(fields[..n], bo) + IntBytes(fields[n].value, fields[n].width, bo)
  }

  /** The little-endian integer at offset `off` of `b`. */
  function IntAt(b: Bytes, off: nat, width: nat): (v: nat)
    requires off + width <= |b|
    ensures v < Pow256(width)
  {
    Value(b[off..off + width])
  }

  lemma EncodeSnoc(fields: seq<Field>, k: nat, bo: ByteOrder)
    requires k < |fields|
    ensures Encode(fields[..k + 1], bo) == Encode(fields[..k], bo) + IntBytes(fields[k].value, fields[k].width, bo)
  {
    assert fields[..k + 1][..k] == fields[..k];
  }

  /** How many bytes the first `k` fields take. */
  function EncodedLength(fields: seq<Field>, k: nat): nat
    requires k <= |fields|
  {
    |Encode(fields[..k], LE)|
  }

  lemma {:induction false} EncodePrefix(fields: seq<Field>, k: nat, bo: ByteOrder)
    requires k <= |fields|
    ensures Encode(fields[..k], bo) <= Encode(fields, bo)
    decreases |fields| - k
  {
    hide Encode, IntBytes;
    if k < |fields| {
      EncodeSnoc(fields, k, bo);
      EncodePrefix(fields, k + 1, bo);
      PrefixOfPrefix(Encode(fields[..k], bo), IntBytes(fields[k].value, fields[k].width, bo), Encode(fields, bo));
    } else {
      assert fields[..k] == fields;
    }
  }

  lemma PrefixOfPrefix(x: Bytes, y: Bytes, all: Bytes)
    requires x + y <= all
    ensures x <= all
  {}

  /** Field `k`, which starts at `off` of a record inside `b`, is read back from there. */
  lemma DecodeField(b: Bytes, front: Bytes, fields: seq<Field>, rest: Bytes, k: nat, off: nat)
    requires k < |fields| && fields[k].value < Pow256(fields[k].width)
    requires off == EncodedLength(fields, k) && b == front + Encode(fields, LE) + rest
    ensures EncodedLength(fields, k + 1) == off + fields[k].width <= |Encode(fields, LE)|
    ensures IntAt(b, |front| + off, fields[k].width) == fields[k].value
  {
    hide Encode, Little, Value, Pow256;
    EncodeSnoc(fields, k, LE);
    EncodePrefix(fields, k + 1, LE);
    ValueOfLittle(fields[k].value, fields[k].width);
    SliceOfPrefix(front, Encode(fields[..k], LE), Little(fields[k].value, fields[k].width), Encode(fields, LE), rest);
  }

  lemma SliceOfPrefix(front: Bytes, x: Bytes, y: Bytes, all: Bytes, rest: Bytes)
    requires x + y <= all
    ensures (front + all + rest)[|front| + |x|..|front| + |x| + |y|] == y
  {
    assert all == x + y + all[|x| + |y|..];
  }

  // ---------- The output stream ----------

  /** `bytes` written over `buf` from position `pos` on. */
  function Overwrite(buf: Bytes, pos: nat, bytes: Bytes): (r: Bytes)
    requires pos <= |buf|
    ensures |r| == if pos + |bytes| <= |buf| then |buf| else pos + |bytes|
    ensures pos == |buf| ==> r == buf + bytes
  {
    buf[..pos] + bytes + if pos + |bytes| <= |buf| then buf[pos + |bytes|..] else []
  }

  lemma OverwriteTwice(buf: Bytes, pos: nat, x: Bytes, y: Bytes)
    requires pos <= |buf|
    ensures Overwrite(Overwrite(buf, pos, x), pos + |x|, y) == Overwrite(buf, pos, x + y)
  {}

  lemma SubSlice(b: Bytes, at: nat, n: nat, i: nat, j: nat)
    requires at + n <= |b| && i <= j <= n
    ensures b[at..at + n][i..j] == b[at + i..at + j]
  {
    var x, y := b[at..at + n][i..j], b[at + i..at + j];
    assert forall k :: 0 <= k < j - i ==> x[k] == b[at + i + k] == y[k];
  }

  lemma AppendAssociates(a: Bytes, b: Bytes, c: Bytes)
    ensures (a + b) + c == a + (b + c)
  {}

  lemma Regroup(a: Bytes, b: Bytes, c: Bytes, d: Bytes, e: Bytes, f: Bytes)
    ensures a + b + c + d + e + f == a + (b + c + d + e + f)
  {}

  lemma OverwriteAtStart(x: Bytes, rest: Bytes, y: Bytes)
    requires |x| == |y|
    ensures Overwrite(x + rest, 0, y) == y + rest
  {}

  class OStream {
    var buf: Bytes
    var pos: nat

    ghost predicate Valid()
      reads this
    {
      pos <= |buf|
    }

    constructor ()
      ensures Valid() && buf == [] && pos == 0
    {
      buf, pos := [], 0;
    }

    method Write(bytes: Bytes)
      requires Valid()
      modifies this
      ensures Valid() && buf == Overwrite(old(buf), old(pos), bytes) && pos == old(pos) + |bytes|
    {
      buf := Overwrite(buf, pos, bytes);
      pos := pos + |bytes|;
    }

    method SeekBegin()
      modifies this
      ensures Valid() && buf == old(buf) && pos == 0
    {
      pos := 0;
    }

    method SeekEnd()
      modifies this
      ensures Valid() && buf == old(buf) && pos == |buf|
    {
      pos := |buf|;
    }
  }

  // ---------- The input stream ----------

  /** A file opened for reading. Once it has failed it neither moves nor delivers anything. */
  class IStream {
    const bytes: Bytes
    var pos: nat
    var failed: bool

    constructor (bytes: Bytes)
      ensures this.bytes == bytes && pos == 0 && !failed
    {
      this.bytes := bytes;
      pos, failed := 0, false;
    }

    method Seek(off: nat)
      modifies this
      ensures failed == old(failed) && pos == if failed then old(pos) else off
    {
      if !failed {
        pos := off;
      }
    }

    /** The next `size` bytes; the stream fails if there are fewer, and delivers those. */
    method Read(size: nat) returns (b: Bytes)
      modifies this
      ensures old(failed) ==> failed && b == []
      ensures !old(failed) && old(pos) + size <= |bytes| ==> !failed && b == bytes[old(pos)..old(pos) + size]
      ensures !old(failed) && old(pos) + size > |bytes| ==>
                failed == (size > 0) && b == if old(pos) <= |bytes| then bytes[old(pos)..] else []
    {
      if failed {
        return [];
      }
      b := if pos + size <= |bytes| then bytes[pos..pos + size] else if pos <= |bytes| then bytes[pos..] else [];
      pos := pos + |b|;
      failed := |b| < size;
    }
  }

  /** `write<T>`: the bytes of one unsigned integer of `width` bytes, in the given order. */
  method WriteInt(out: OStream, value: nat, width: nat, bo: ByteOrder)
    requires out.Valid() && value < Pow256(width)
    modifies out
    ensures out.Valid() && out.pos == old(out.pos) + width
    ensures out.buf == Overwrite(old(out.buf), old(out.pos), IntBytes(value, width, bo))
  {
    hide Little, Pow256, Reverse, Overwrite;
    ghost var le := Little(value, width);
    var bytes := new u8[width](_ => 0);
    if bo == LE {
      for i := 0 to width
        modifies bytes
        invariant forall k :: 0 <= k < i ==> bytes[k] == le[k]
      {
        LittleAt(value, width, i);
        bytes[i] := (value / Pow256(i)) % 0x100;
      }
      assert bytes[..] == le;
    } else {
      for i := 0 to width
        modifies bytes
        invariant forall k :: width - i <= k < width ==> bytes[k] == le[width - 1 - k]
      {
        LittleAt(value, width, i);
        bytes[width - i - 1] := (value / Pow256(i)) % 0x100;
      }
      assert bytes[..] == Reverse(le);
    }
    out.Write(bytes[..]);
  }

  /** The stream after `k` fields of a record that began at `start` of `before`. */
  ghost predicate Written(buf: Bytes, pos: nat, before: Bytes, start: nat, fields: seq<Field>, k: nat, bo: ByteOrder) {
    && start <= |before| && k <= |fields|
    && buf == Overwrite(before, start, Encode(fields[..k], bo))
    && pos == start + |Encode(fields[..k], bo)|
  }

  method WriteField(out: OStream, value: nat, width: nat, bo: ByteOrder,
                    ghost before: Bytes, ghost start: nat, ghost fields: seq<Field>, ghost k: nat)
    requires out.Valid() && k < |fields| && fields[k] == Field(value, width) && value < Pow256(width)
    requires Written(out.buf, out.pos, before, start, fields, k, bo)
    modifies out
    ensures out.Valid() && Written(out.buf, out.pos, before, start, fields, k + 1, bo)
  {
    hide Pow256, IntBytes, Overwrite, Encode;
    WriteInt(out, value, width, bo);
    EncodeSnoc(fields, k, bo);
    OverwriteTwice(before, start, Encode(fields[..k], bo), IntBytes(value, width, bo));
  }

  lemma OverwriteNothing(buf: Bytes, pos: nat)
    requires pos <= |buf|
    ensures Overwrite(buf, pos, []) == buf
  {}

  lemma WrittenNone(buf: Bytes, pos: nat, fields: seq<Field>, bo: ByteOrder)
    requires pos <= |buf|
    ensures Written(buf, pos, buf, pos, fields, 0, bo)
  {
    assert Encode(fields[..0], bo) == [];
    OverwriteNothing(buf, pos);
    hide Overwrite, Encode;
  }

  lemma WrittenAll(buf: Bytes, pos: nat, before: Bytes, start: nat, fields: seq<Field>, bo: ByteOrder)
    requires Written(buf, pos, before, start, fields, |fields|, bo)
    ensures buf == Overwrite(before, start, Encode(fields, bo)) && pos == start + |Encode(fields, bo)|
  {
    assert fields[..|fields|] == fields;
    hide Overwrite, Encode;
  }

  lemma EncodedLengthEnds(fields: seq<Field>)
    ensures EncodedLength(fields, 0) == 0 && EncodedLength(fields, |fields|) == |Encode(fields, LE)|
  {
    assert fields[..|fields|] == fields && fields[..0] == [];
  }
}
