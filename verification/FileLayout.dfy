/** Where everything is in the finished file. */
module FileLayout {
  import opened Machine
  import opened Stream
  import opened ElfFormat
  import opened Sections
  import opened ElfState

  lemma Slice(f: Bytes, a: Bytes, x: Bytes, b: Bytes)
    requires f == a + x + b
    ensures f[|a|..|a| + |x|] == x
  {}

  lemma SevenParts(e: Bytes, t: Bytes, d: Bytes, s: Bytes, n: Bytes, y: Bytes, c: Bytes)
    ensures var f := e + (t + d + s + n + y) + c;
            f == [] + e + (t + d + s + n + y + c) && f == e + t + (d + s + n + y + c)
            && f == (e + t) + d + (s + n + y + c) && f == (e + t + d) + s + (n + y + c)
            && f == (e + t + d + s) + n + (y + c) && f == (e + t + d + s + n) + y + c
            && f == (e + t + d + s + n + y) + c + []
  {}

  lemma ContentSizes(s: ElfState)
    ensures |EhdrBytes(FinalEhdr(s))| == EHDR_SIZE
    ensures |TextBytes(s.text, LE)| == 4 * |s.text|
    ensures |SymtabBytes(s.symtab, LE)| == 16 * |s.symtab|
    ensures |Concat(ShdrParts(PlacedHeaders(s), LE))| == 240
  {
    hide EhdrBytes, PlacedHeaders, Concat, FinalEhdr, SymParts, ShdrParts;
    ParseEhdrBytes(FinalEhdr(s), []);
    ConcatLength(TextParts(s.text, LE), 4);
    SymPartSizes(s.symtab);
    ConcatLength(SymParts(s.symtab, LE), 16);
    ShdrPartSizes(PlacedHeaders(s));
    ConcatLength(ShdrParts(PlacedHeaders(s), LE), 40);
  }

  lemma SymPartSizes(syms: seq<Sym>)
    ensures |SymParts(syms, LE)| == |syms| && forall i :: 0 <= i < |syms| ==> |SymParts(syms, LE)[i]| == 16
  {
    hide SymBytes;
    forall i | 0 <= i < |syms|
      ensures |SymParts(syms, LE)[i]| == 16
    {
      ParseSymBytes(syms[i], []);
    }
  }

  lemma ShdrPartSizes(headers: seq<Shdr>)
    ensures |ShdrParts(headers, LE)| == |headers|
    ensures forall i :: 0 <= i < |headers| ==> |ShdrParts(headers, LE)[i]| == 40
  {
    hide ShdrBytes;
    forall i | 0 <= i < |headers|
      ensures |ShdrParts(headers, LE)[i]| == 40
    {
      ParseShdrBytes(headers[i], []);
    }
  }

  /** Contents `c` fill the file from `Layout(s, c)` to where the next contents start. */
  ghost predicate Holds(s: ElfState, c: nat)
    requires c < 5
  {
    && Layout(s, c) + |Contents(s)[c]| == Layout(s, c + 1) <= |FileOf(s)|
    && FileOf(s)[Layout(s, c)..Layout(s, c + 1)] == Contents(s)[c]
  }

  /** The header, the five sections and the header table tile the file: each starts where the one before it ends,
      each range holds exactly its contents, and the file ends with the table. */
  lemma Tiling(s: ElfState)
    ensures var f := FileOf(s);
            |f| == Layout(s, 5) + 40 * 6
            && f[..Layout(s, 0)] == EhdrBytes(FinalEhdr(s))
            && f[Layout(s, 5)..] == Concat(ShdrParts(PlacedHeaders(s), LE))
    ensures forall c :: 0 <= c < 5 ==> Holds(s, c)
  {
    LayoutValues(s);
    ContentSizes(s);
    ContentList(s);
    var e, t, d, st := EhdrBytes(FinalEhdr(s)), TextBytes(s.text, LE), s.data, s.strtab;
    var n, y, c := ShstrtabBytes(), SymtabBytes(s.symtab, LE), Concat(ShdrParts(PlacedHeaders(s), LE));
    hide EhdrBytes, TextBytes, ShstrtabBytes, SymtabBytes, Concat, FinalEhdr, PlacedHeaders, Layout, Contents;
    var f := FileOf(s);
    SevenParts(e, t, d, st, n, y, c);
    Slice(f, [], e, t + d + st + n + y + c);
    Slice(f, e + t + d + st + n + y, c, []);
    forall k | 0 <= k < 5
      ensures Holds(s, k)
    {
      match k
      case 0 => Slice(f, e, t, d + st + n + y + c);
      case 1 => Slice(f, e + t, d, st + n + y + c);
      case 2 => Slice(f, e + t + d, st, n + y + c);
      case 3 => Slice(f, e + t + d + st, n, y + c);
      case 4 => Slice(f, e + t + d + st + n, y, c);
    }
  }

  lemma ContentList(s: ElfState)
    ensures var c := Contents(s);
            c[0] == TextBytes(s.text, LE) && c[1] == s.data && c[2] == s.strtab && c[3] == ShstrtabBytes()
            && c[4] == SymtabBytes(s.symtab, LE)
  {}

  /** Which contents header `i` describes: text and data come first in the file, but last in the table. */
  function ContentIndex(i: nat): nat
    requires 1 <= i <= 5
  {
    match i
    case 1 => 2
    case 2 => 3
    case 3 => 4
    case 4 => 0
    case 5 => 1
  }

  /** In a file below 4 GiB every header gives the position and the size of its own section. */
  lemma HeadersLocate(s: ElfState, i: nat)
    requires |FileOf(s)| < TWO32 && 1 <= i <= 5
    ensures PlacedHeaders(s)[i].offset == Layout(s, ContentIndex(i))
    ensures PlacedHeaders(s)[i].size == |Contents(s)[ContentIndex(i)]|
    ensures FinalEhdr(s).shoff == Layout(s, 5)
  {
    Tiling(s);
    LayoutValues(s);
    ContentSizes(s);
    ContentList(s);
    hide FileOf, Layout, Contents, TextBytes, SymtabBytes, ShstrtabBytes, Concat, NameOffset;
  }

  lemma HeldRange(s: ElfState, c: nat)
    requires c < 5 && Holds(s, c)
    ensures Layout(s, c) <= Layout(s, c + 1) <= |FileOf(s)|
    ensures FileOf(s)[Layout(s, c)..Layout(s, c + 1)] == Contents(s)[c]
  {
    hide FileOf, Contents, Layout;
  }

  /** The file in numbers: words from byte 52 on, then the data, the strings, the 40 bytes of section names, the
      symbols, and 240 bytes of headers. */
  lemma FileInNumbers(s: ElfState)
    ensures var f, d := FileOf(s), 52 + 4 * |s.text|;
            var t := d + |s.data|;
            var n := t + |s.strtab|;
            var y := n + 40 + 16 * |s.symtab|;
            |f| == y + 240 && f[52..d] == TextBytes(s.text, LE) && f[d..t] == s.data && f[t..n] == s.strtab
            && f[n..n + 40] == ShstrtabBytes() && f[n + 40..y] == SymtabBytes(s.symtab, LE)
  {
    Tiling(s);
    LayoutValues(s);
    ContentSizes(s);
    ContentList(s);
    SectionNameOffsets();
    hide FileOf, Contents, TextBytes, SymtabBytes, ShstrtabBytes, Concat, Layout, NameOffset, FinalEhdr, PlacedHeaders,
         Holds;
    HeldRange(s, 0);
    HeldRange(s, 1);
    HeldRange(s, 2);
    HeldRange(s, 3);
    HeldRange(s, 4);
  }
}
