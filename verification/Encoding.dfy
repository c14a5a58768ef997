/** The instruction formats of sections 2.2 and 2.3 of the RISC-V Unprivileged ISA
    (version 20250508): bit-field records, packing, and unpacking.

    A bit-field of width n is a number below 2^n. Shifting left by k is multiplication by
    2^k, `(v >> k) & BIT_MASK(n)` is `(v / 2^k) % 2^n`, and since the fields of a format do
    not overlap, or-ing them together is addition. */
module Encoding {
  import opened Machine

  type b1 = n: nat | n < 0x2
  type b3 = n: nat | n < 0x8
  type b4 = n: nat | n < 0x10
  type b5 = n: nat | n < 0x20
  type b6 = n: nat | n < 0x40
  type b7 = n: nat | n < 0x80
  type b8 = n: nat | n < 0x100
  type b10 = n: nat | n < 0x400
  type b12 = n: nat | n < 0x1000
  type b20 = n: nat | n < 0x10_0000

  // ---------- Formats, lowest field first ----------

  datatype RType = RType(opcode: b7, rd: b5, funct3: b3, rs1: b5, rs2: b5, funct7: b7)
  datatype IType = IType(opcode: b7, rd: b5, funct3: b3, rs1: b5, imm: b12)
  datatype SType = SType(opcode: b7, immLo: b5, funct3: b3, rs1: b5, rs2: b5, immHi: b7)
  datatype UType = UType(opcode: b7, rd: b5, imm: b20)
  datatype BType = BType(opcode: b7, imm11: b1, imm4_1: b4, funct3: b3, rs1: b5, rs2: b5, imm10_5: b6, imm12: b1)
  datatype JType = JType(opcode: b7, rd: b5, imm12_19: b8, imm11: b1, imm1_10: b10, imm20: b1)

  /** `stype32_t` and `rtype32_t` share the layout of section 2.2; only the names of two fields differ. */
  function AsR(i: SType): RType {
    RType(i.opcode, i.immLo, i.funct3, i.rs1, i.rs2, i.immHi)
  }

  function PackR(i: RType): u32 {
    i.funct7 * 0x200_0000 + i.rs2 * 0x10_0000 + i.rs1 * 0x8000 + i.funct3 * 0x1000 + i.rd * 0x80 + i.opcode
  }

  function PackI(i: IType): u32 {
    i.imm * 0x10_0000 + i.rs1 * 0x8000 + i.funct3 * 0x1000 + i.rd * 0x80 + i.opcode
  }

  function PackS(i: SType): u32 {
    i.immHi * 0x200_0000 + i.rs2 * 0x10_0000 + i.rs1 * 0x8000 + i.funct3 * 0x1000 + i.immLo * 0x80 + i.opcode
  }

  function PackU(i: UType): u32 {
    i.imm * 0x1000 + i.rd * 0x80 + i.opcode
  }

  function PackB(i: BType): u32 {
    i.imm12 * 0x8000_0000 + i.imm10_5 * 0x200_0000 + i.rs2 * 0x10_0000 + i.rs1 * 0x8000
    + i.funct3 * 0x1000 + i.imm4_1 * 0x100 + i.imm11 * 0x80 + i.opcode
  }

  function PackJ(i: JType): u32 {
    i.imm20 * 0x8000_0000 + i.imm1_10 * 0x20_0000 + i.imm11 * 0x10_0000 + i.imm12_19 * 0x1000
    + i.rd * 0x80 + i.opcode
  }

  // ---------- Packing is or-ing ----------

  function Or(a: nat, b: nat): nat {
    OrBits(a, b, 32)
  }

  /** A field that ends below bit `p`, or-ed into fields that start there or above. */
  lemma OrField(x: nat, hi: nat, p: nat, lo: nat)
    requires p <= 32 && hi < Pow2(32 - p) && lo < Pow2(p) && x == hi * Pow2(p)
    ensures Or(x, lo) == x + lo
  {
    OrOfDisjoint(hi, lo, p, 32);
  }

  /** The conversion operators or the shifted fields together, highest first; as the fields of each format are
      disjoint, that is their sum. */
  lemma PackRIsOr(i: RType)
    ensures Or(Or(Or(Or(Or(i.funct7 * 0x200_0000, i.rs2 * 0x10_0000), i.rs1 * 0x8000), i.funct3 * 0x1000),
            i.rd * 0x80), i.opcode) == PackR(i)
  {
    hide OrBits, Pow2;
    Pow2Values();
    OrField(i.funct7 * 0x200_0000, i.funct7, 25, i.rs2 * 0x10_0000);
    var h1 := i.funct7 * 0x20 + i.rs2;
    OrField(h1 * 0x10_0000, h1, 20, i.rs1 * 0x8000);
    var h2 := h1 * 0x20 + i.rs1;
    OrField(h2 * 0x8000, h2, 15, i.funct3 * 0x1000);
    var h3 := h2 * 0x8 + i.funct3;
    OrField(h3 * 0x1000, h3, 12, i.rd * 0x80);
    var h4 := h3 * 0x20 + i.rd;
    OrField(h4 * 0x80, h4, 7, i.opcode);
  }

  lemma PackIIsOr(i: IType)
    ensures Or(Or(Or(Or(i.imm * 0x10_0000, i.rs1 * 0x8000), i.funct3 * 0x1000), i.rd * 0x80), i.opcode) == PackI(i)
  {
    hide OrBits, Pow2;
    Pow2Values();
    OrField(i.imm * 0x10_0000, i.imm, 20, i.rs1 * 0x8000);
    var h1 := i.imm * 0x20 + i.rs1;
    OrField(h1 * 0x8000, h1, 15, i.funct3 * 0x1000);
    var h2 := h1 * 0x8 + i.funct3;
    OrField(h2 * 0x1000, h2, 12, i.rd * 0x80);
    var h3 := h2 * 0x20 + i.rd;
    OrField(h3 * 0x80, h3, 7, i.opcode);
  }

  lemma PackSIsOr(i: SType)
    ensures Or(Or(Or(Or(Or(i.immHi * 0x200_0000, i.rs2 * 0x10_0000), i.rs1 * 0x8000), i.funct3 * 0x1000),
            i.immLo * 0x80), i.opcode) == PackS(i)
  {
    PackRIsOr(AsR(i));
  }

  lemma PackUIsOr(i: UType)
    ensures Or(Or(i.imm * 0x1000, i.rd * 0x80), i.opcode) == PackU(i)
  {
    hide OrBits, Pow2;
    Pow2Values();
    OrField(i.imm * 0x1000, i.imm, 12, i.rd * 0x80);
    var h1 := i.imm * 0x20 + i.rd;
    OrField(h1 * 0x80, h1, 7, i.opcode);
  }

  lemma PackBIsOr(i: BType)
    ensures Or(Or(Or(Or(Or(Or(Or(i.imm12 * 0x8000_0000, i.imm10_5 * 0x200_0000), i.rs2 * 0x10_0000),
            i.rs1 * 0x8000), i.funct3 * 0x1000), i.imm4_1 * 0x100), i.imm11 * 0x80), i.opcode) == PackB(i)
  {
    hide OrBits, Pow2;
    Pow2Values();
    OrField(i.imm12 * 0x8000_0000, i.imm12, 31, i.imm10_5 * 0x200_0000);
    var h1 := i.imm12 * 0x40 + i.imm10_5;
    OrField(h1 * 0x200_0000, h1, 25, i.rs2 * 0x10_0000);
    var h2 := h1 * 0x20 + i.rs2;
    OrField(h2 * 0x10_0000, h2, 20, i.rs1 * 0x8000);
    var h3 := h2 * 0x20 + i.rs1;
    OrField(h3 * 0x8000, h3, 15, i.funct3 * 0x1000);
    var h4 := h3 * 0x8 + i.funct3;
    OrField(h4 * 0x1000, h4, 12, i.imm4_1 * 0x100);
    var h5 := h4 * 0x10 + i.imm4_1;
    OrField(h5 * 0x100, h5, 8, i.imm11 * 0x80);
    var h6 := h5 * 0x2 + i.imm11;
    OrField(h6 * 0x80, h6, 7, i.opcode);
  }

  lemma PackJIsOr(i: JType)
    ensures Or(Or(Or(Or(Or(i.imm20 * 0x8000_0000, i.imm1_10 * 0x20_0000), i.imm11 * 0x10_0000),
            i.imm12_19 * 0x1000), i.rd * 0x80), i.opcode) == PackJ(i)
  {
    hide OrBits, Pow2;
    Pow2Values();
    OrField(i.imm20 * 0x8000_0000, i.imm20, 31, i.imm1_10 * 0x20_0000);
    var h1 := i.imm20 * 0x400 + i.imm1_10;
    OrField(h1 * 0x20_0000, h1, 21, i.imm11 * 0x10_0000);
    var h2 := h1 * 0x2 + i.imm11;
    OrField(h2 * 0x10_0000, h2, 20, i.imm12_19 * 0x1000);
    var h3 := h2 * 0x100 + i.imm12_19;
    OrField(h3 * 0x1000, h3, 12, i.rd * 0x80);
    var h4 := h3 * 0x20 + i.rd;
    OrField(h4 * 0x80, h4, 7, i.opcode);
  }

  // ---------- Unpacking. The program has no R and I unpackers: those two follow the standard ----------

  function UnpackR(v: u32): RType {
    RType(v % 0x80, (v / 0x80) % 0x20, (v / 0x1000) % 0x8, (v / 0x8000) % 0x20, (v / 0x10_0000) % 0x20,
          (v / 0x200_0000) % 0x80)
  }

  function UnpackI(v: u32): IType {
    IType(v % 0x80, (v / 0x80) % 0x20, (v / 0x1000) % 0x8, (v / 0x8000) % 0x20, (v / 0x10_0000) % 0x1000)
  }

  function UnpackS(v: u32): SType {
    SType(v % 0x80, (v / 0x80) % 0x20, (v / 0x1000) % 0x8, (v / 0x8000) % 0x20, (v / 0x10_0000) % 0x20,
          (v / 0x200_0000) % 0x80)
  }

  function UnpackU(v: u32): UType {
    UType(v % 0x80, (v / 0x80) % 0x20, (v / 0x1000) % 0x10_0000)
  }

  function UnpackB(v: u32): BType {
    BType(v % 0x80, (v / 0x80) % 0x2, (v / 0x100) % 0x10, (v / 0x1000) % 0x8, (v / 0x8000) % 0x20,
          (v / 0x10_0000) % 0x20, (v / 0x200_0000) % 0x40, (v / 0x8000_0000) % 0x2)
  }

  function UnpackJ(v: u32): JType {
    JType(v % 0x80, (v / 0x80) % 0x20, (v / 0x1000) % 0x100, (v / 0x10_0000) % 0x2, (v / 0x20_0000) % 0x400,
          (v / 0x8000_0000) % 0x2)
  }

  // ---------- Emitters. Arguments are `unsigned`, and a bit-field keeps the low bits it is given ----------

  function EmitR(funct7: u32, rs1: u32, rs2: u32, funct3: u32, rd: u32, opcode: u32): u32 {
    PackR(RType(opcode % 0x80, rd % 0x20, funct3 % 0x8, rs1 % 0x20, rs2 % 0x20, funct7 % 0x80))
  }

  function EmitI(rd: u32, rs1: u32, imm: u32, funct3: u32, opcode: u32): u32 {
    PackI(IType(opcode % 0x80, rd % 0x20, funct3 % 0x8, rs1 % 0x20, imm % 0x1000))
  }

  function EmitS(rs2: u32, rs1: u32, imm: u32, funct3: u32, opcode: u32): u32 {
    PackS(SType(opcode % 0x80, imm % 0x20, funct3 % 0x8, rs1 % 0x20, rs2 % 0x20, (imm / 0x20) % 0x80))
  }

  function EmitU(imm: u32, rd: u32, opcode: u32): u32 {
    PackU(UType(opcode % 0x80, rd % 0x20, imm % 0x10_0000))
  }

  /** The parameter order of the definition, `rs2` before `rs1`; the prototype names them the other way round. */
  function EmitB(imm: u32, rs2: u32, rs1: u32, funct3: u32, opcode: u32): u32 {
    PackB(BType(opcode % 0x80, (imm / 0x800) % 0x2, (imm / 0x2) % 0x10, funct3 % 0x8, rs1 % 0x20, rs2 % 0x20,
                (imm / 0x20) % 0x40, (imm / 0x1000) % 0x2))
  }

  function EmitJ(imm: u32, rd: u32, opcode: u32): u32 {
    PackJ(JType(opcode % 0x80, rd % 0x20, (imm / 0x1000) % 0x100, (imm / 0x800) % 0x2, (imm / 0x2) % 0x400,
                (imm / 0x10_0000) % 0x2))
  }

  // ---------- Immediates as the standard reassembles and sign-extends them (section 2.3) ----------

  function ImmS(i: SType): u32 { i.immHi * 0x20 + i.immLo }
  function ImmB(i: BType): u32 { i.imm12 * 0x1000 + i.imm11 * 0x800 + i.imm10_5 * 0x20 + i.imm4_1 * 0x2 }
  function ImmJ(i: JType): u32 { i.imm20 * 0x10_0000 + i.imm12_19 * 0x1000 + i.imm11 * 0x800 + i.imm1_10 * 0x2 }

  function OffsetI(w: u32): int { Signed(UnpackI(w).imm, 0x800) }
  function OffsetS(w: u32): int { Signed(ImmS(UnpackS(w)), 0x800) }
  function OffsetB(w: u32): int { Signed(ImmB(UnpackB(w)), 0x1000) }
  function OffsetJ(w: u32): int { Signed(ImmJ(UnpackJ(w)), 0x10_0000) }

  // ---------- Packing and unpacking are inverse ----------

  /** `lo` is the part of `w` below bit position `unit`, `field` the `width`-sized field there, `hi` the rest. */
  lemma FieldAt(w: nat, unit: nat, width: nat, hi: nat, field: nat, lo: nat)
    requires field < width && lo < unit
    requires w == (hi * width + field) * unit + lo
    ensures (w / unit) % width == field
    ensures w / unit == hi * width + field
  {
    DivMod(w, unit, hi * width + field, lo);
    DivMod(hi * width + field, width, hi, field);
  }

  lemma UnpackPackR(i: RType)
    ensures UnpackR(PackR(i)) == i
  {
    var w := PackR(i);
    FieldAt(w, 0x1000, 0x8, i.funct7 * 0x400 + i.rs2 * 0x20 + i.rs1, i.funct3, i.rd * 0x80 + i.opcode);
    FieldAt(w, 0x80, 0x20, w / 0x1000, i.rd, i.opcode);
    FieldAt(w, 0x8000, 0x20, i.funct7 * 0x20 + i.rs2, i.rs1, i.funct3 * 0x1000 + i.rd * 0x80 + i.opcode);
    FieldAt(w, 0x10_0000, 0x20, i.funct7, i.rs2, i.rs1 * 0x8000 + i.funct3 * 0x1000 + i.rd * 0x80 + i.opcode);
    FieldAt(w, 0x200_0000, 0x80, 0, i.funct7,
            i.rs2 * 0x10_0000 + i.rs1 * 0x8000 + i.funct3 * 0x1000 + i.rd * 0x80 + i.opcode);
    FieldAt(w, 1, 0x80, w / 0x80, i.opcode, 0);
  }

  lemma UnpackPackI(i: IType)
    ensures UnpackI(PackI(i)) == i
  {
    var w := PackI(i);
    FieldAt(w, 0x1000, 0x8, i.imm * 0x20 + i.rs1, i.funct3, i.rd * 0x80 + i.opcode);
    FieldAt(w, 0x80, 0x20, w / 0x1000, i.rd, i.opcode);
    FieldAt(w, 0x8000, 0x20, i.imm, i.rs1, i.funct3 * 0x1000 + i.rd * 0x80 + i.opcode);
    FieldAt(w, 0x10_0000, 0x1000, 0, i.imm, i.rs1 * 0x8000 + i.funct3 * 0x1000 + i.rd * 0x80 + i.opcode);
    FieldAt(w, 1, 0x80, w / 0x80, i.opcode, 0);
  }

  lemma BijectionS(i: SType, w: u32)
    ensures UnpackS(PackS(i)) == i
    ensures PackS(UnpackS(w)) == w
  {
    assert PackS(i) == PackR(AsR(i));
    UnpackPackR(AsR(i));
    RefoldS(w);
  }

  lemma BijectionU(i: UType, w: u32)
    ensures UnpackU(PackU(i)) == i
    ensures PackU(UnpackU(w)) == w
  {
    var v := PackU(i);
    FieldAt(v, 0x1000, 0x10_0000, 0, i.imm, i.rd * 0x80 + i.opcode);
    FieldAt(v, 0x80, 0x20, i.imm, i.rd, i.opcode);
    FieldAt(v, 1, 0x80, v / 0x80, i.opcode, 0);
    RefoldU(w);
  }

  lemma BijectionB(i: BType, w: u32)
    ensures UnpackB(PackB(i)) == i
    ensures PackB(UnpackB(w)) == w
  {
    UnpackPackB(i);
    RefoldB(w);
  }

  lemma BijectionJ(i: JType, w: u32)
    ensures UnpackJ(PackJ(i)) == i
    ensures PackJ(UnpackJ(w)) == w
  {
    UnpackPackJ(i);
    RefoldJ(w);
  }

  lemma UnpackPackB(i: BType)
    ensures UnpackB(PackB(i)) == i
  {
    var w := PackB(i);
    var lo3 := i.imm4_1 * 0x100 + i.imm11 * 0x80 + i.opcode;
    var lo4 := i.funct3 * 0x1000 + lo3;
    var lo5 := i.rs1 * 0x8000 + lo4;
    var hi5 := i.imm12 * 0x40 + i.imm10_5;
    FieldAt(w, 0x8000_0000, 0x2, 0, i.imm12, i.imm10_5 * 0x200_0000 + i.rs2 * 0x10_0000 + lo5);
    FieldAt(w, 0x200_0000, 0x40, i.imm12, i.imm10_5, i.rs2 * 0x10_0000 + lo5);
    FieldAt(w, 0x10_0000, 0x20, hi5, i.rs2, lo5);
    FieldAt(w, 0x8000, 0x20, hi5 * 0x20 + i.rs2, i.rs1, lo4);
    FieldAt(w, 0x1000, 0x8, w / 0x8000, i.funct3, lo3);
    FieldAt(w, 0x100, 0x10, w / 0x1000, i.imm4_1, i.imm11 * 0x80 + i.opcode);
    FieldAt(w, 0x80, 0x2, w / 0x100, i.imm11, i.opcode);
    FieldAt(w, 1, 0x80, w / 0x80, i.opcode, 0);
  }

  lemma UnpackPackJ(i: JType)
    ensures UnpackJ(PackJ(i)) == i
  {
    var w := PackJ(i);
    var lo3 := i.imm12_19 * 0x1000 + i.rd * 0x80 + i.opcode;
    FieldAt(w, 0x8000_0000, 0x2, 0, i.imm20, i.imm1_10 * 0x20_0000 + i.imm11 * 0x10_0000 + lo3);
    FieldAt(w, 0x20_0000, 0x400, i.imm20, i.imm1_10, i.imm11 * 0x10_0000 + lo3);
    FieldAt(w, 0x10_0000, 0x2, i.imm20 * 0x400 + i.imm1_10, i.imm11, lo3);
    FieldAt(w, 0x1000, 0x100, w / 0x10_0000, i.imm12_19, i.rd * 0x80 + i.opcode);
    FieldAt(w, 0x80, 0x20, w / 0x1000, i.rd, i.opcode);
    FieldAt(w, 1, 0x80, w / 0x80, i.opcode, 0);
  }

  // Every word is the sum of its fields, in each format: `Peel` splits off one field at a time, and the `Sum` lemmas
  // put the parts together again without looking at the quotients.

  lemma SumS(v: int, h1: int, h2: int, h3: int, h4: int, h5: int,
             f0: int, f1: int, f2: int, f3: int, f4: int, f5: int)
    requires v == h1 * 0x80 + f0 && h1 == h2 * 0x20 + f1 && h2 == h3 * 0x8 + f2
    requires h3 == h4 * 0x20 + f3 && h4 == h5 * 0x20 + f4 && h5 == f5
    ensures f5 * 0x200_0000 + f4 * 0x10_0000 + f3 * 0x8000 + f2 * 0x1000 + f1 * 0x80 + f0 == v
  {}

  lemma RefoldS(v: u32)
    ensures PackS(UnpackS(v)) == v
  {
    Peel(v, 0x80, 0x20, 0x1000);
    Peel(v, 0x1000, 0x8, 0x8000);
    Peel(v, 0x8000, 0x20, 0x10_0000);
    Peel(v, 0x10_0000, 0x20, 0x200_0000);
    SumS(v, v / 0x80, v / 0x1000, v / 0x8000, v / 0x10_0000, v / 0x200_0000,
         v % 0x80, (v / 0x80) % 0x20, (v / 0x1000) % 0x8,
         (v / 0x8000) % 0x20, (v / 0x10_0000) % 0x20, (v / 0x200_0000) % 0x80);
  }

  lemma SumU(v: int, h1: int, h2: int, f0: int, f1: int, f2: int)
    requires v == h1 * 0x80 + f0 && h1 == h2 * 0x20 + f1 && h2 == f2
    ensures f2 * 0x1000 + f1 * 0x80 + f0 == v
  {}

  lemma RefoldU(v: u32)
    ensures PackU(UnpackU(v)) == v
  {
    Peel(v, 0x80, 0x20, 0x1000);
    SumU(v, v / 0x80, v / 0x1000, v % 0x80, (v / 0x80) % 0x20, (v / 0x1000) % 0x10_0000);
  }

  lemma SumB(v: int, h1: int, h2: int, h3: int, h4: int, h5: int, h6: int, h7: int,
             f0: int, f1: int, f2: int, f3: int, f4: int, f5: int, f6: int, f7: int)
    requires v == h1 * 0x80 + f0 && h1 == h2 * 0x2 + f1 && h2 == h3 * 0x10 + f2 && h3 == h4 * 0x8 + f3
    requires h4 == h5 * 0x20 + f4 && h5 == h6 * 0x20 + f5 && h6 == h7 * 0x40 + f6 && h7 == f7
    ensures f7 * 0x8000_0000 + f6 * 0x200_0000 + f5 * 0x10_0000 + f4 * 0x8000 + f3 * 0x1000 + f2 * 0x100
            + f1 * 0x80 + f0 == v
  {}

  lemma RefoldB(v: u32)
    ensures PackB(UnpackB(v)) == v
  {
    Peel(v, 0x80, 0x2, 0x100);
    Peel(v, 0x100, 0x10, 0x1000);
    Peel(v, 0x1000, 0x8, 0x8000);
    Peel(v, 0x8000, 0x20, 0x10_0000);
    Peel(v, 0x10_0000, 0x20, 0x200_0000);
    Peel(v, 0x200_0000, 0x40, 0x8000_0000);
    SumB(v, v / 0x80, v / 0x100, v / 0x1000, v / 0x8000, v / 0x10_0000, v / 0x200_0000, v / 0x8000_0000,
         v % 0x80, (v / 0x80) % 0x2, (v / 0x100) % 0x10, (v / 0x1000) % 0x8,
         (v / 0x8000) % 0x20, (v / 0x10_0000) % 0x20, (v / 0x200_0000) % 0x40, (v / 0x8000_0000) % 0x2);
  }

  lemma SumJ(v: int, h1: int, h2: int, h3: int, h4: int, h5: int,
             f0: int, f1: int, f2: int, f3: int, f4: int, f5: int)
    requires v == h1 * 0x80 + f0 && h1 == h2 * 0x20 + f1 && h2 == h3 * 0x100 + f2
    requires h3 == h4 * 0x2 + f3 && h4 == h5 * 0x400 + f4 && h5 == f5
    ensures f5 * 0x8000_0000 + f4 * 0x20_0000 + f3 * 0x10_0000 + f2 * 0x1000 + f1 * 0x80 + f0 == v
  {}

  lemma RefoldJ(v: u32)
    ensures PackJ(UnpackJ(v)) == v
  {
    Peel(v, 0x80, 0x20, 0x1000);
    Peel(v, 0x1000, 0x100, 0x10_0000);
    Peel(v, 0x10_0000, 0x2, 0x20_0000);
    Peel(v, 0x20_0000, 0x400, 0x8000_0000);
    SumJ(v, v / 0x80, v / 0x1000, v / 0x10_0000, v / 0x20_0000, v / 0x8000_0000,
         v % 0x80, (v / 0x80) % 0x20, (v / 0x1000) % 0x100,
         (v / 0x10_0000) % 0x2, (v / 0x20_0000) % 0x400, (v / 0x8000_0000) % 0x2);
  }

  // ---------- Emitting, then decoding ----------

  lemma SplitImmB(imm: u32)
    ensures ((imm / 0x1000) % 0x2) * 0x1000 + ((imm / 0x800) % 0x2) * 0x800 + ((imm / 0x20) % 0x40) * 0x20
            + ((imm / 0x2) % 0x10) * 0x2 == imm % 0x2000 - imm % 2
  {
    Peel(imm, 0x2, 0x10, 0x20);
    Peel(imm, 0x20, 0x40, 0x800);
    Peel(imm, 0x800, 0x2, 0x1000);
    Peel(imm, 0x1000, 0x2, 0x2000);
  }

  lemma SplitImmJ(imm: u32)
    ensures ((imm / 0x10_0000) % 0x2) * 0x10_0000 + ((imm / 0x1000) % 0x100) * 0x1000 + ((imm / 0x800) % 0x2) * 0x800
            + ((imm / 0x2) % 0x400) * 0x2 == imm % 0x20_0000 - imm % 2
  {
    Peel(imm, 0x2, 0x400, 0x800);
    Peel(imm, 0x800, 0x2, 0x1000);
    Peel(imm, 0x1000, 0x100, 0x10_0000);
    Peel(imm, 0x10_0000, 0x2, 0x20_0000);
  }

  lemma SplitImmS(imm: u32)
    ensures ((imm / 0x20) % 0x80) * 0x20 + imm % 0x20 == imm % 0x1000
  {
    Peel(imm, 0x20, 0x80, 0x1000);
  }

  /** What the decoder sees of an emitted branch: every register and code field, and bits 12..1 of the immediate. */
  lemma EmitBDecodes(imm: u32, rs2: u32, rs1: u32, funct3: u32, opcode: u32)
    ensures var i := UnpackB(EmitB(imm, rs2, rs1, funct3, opcode));
            i.rs2 == rs2 % 0x20 && i.rs1 == rs1 % 0x20 && i.funct3 == funct3 % 0x8 && i.opcode == opcode % 0x80
            && ImmB(i) == imm % 0x2000 - imm % 2
  {
    SplitImmB(imm);
    UnpackPackB(BType(opcode % 0x80, (imm / 0x800) % 0x2, (imm / 0x2) % 0x10, funct3 % 0x8, rs1 % 0x20, rs2 % 0x20,
                      (imm / 0x20) % 0x40, (imm / 0x1000) % 0x2));
  }

  lemma EmitJDecodes(imm: u32, rd: u32, opcode: u32)
    ensures var i := UnpackJ(EmitJ(imm, rd, opcode));
            i.rd == rd % 0x20 && i.opcode == opcode % 0x80 && ImmJ(i) == imm % 0x20_0000 - imm % 2
  {
    SplitImmJ(imm);
    UnpackPackJ(JType(opcode % 0x80, rd % 0x20, (imm / 0x1000) % 0x100, (imm / 0x800) % 0x2, (imm / 0x2) % 0x400,
                      (imm / 0x10_0000) % 0x2));
  }

  /** Which bits of the immediate each part of a branch and of a jump holds: 12, 11, 10..5 and 4..1, and 20, 19..12, 11
      and 10..1. */
  lemma ImmediateParts(imm: u32, rs2: u32, rs1: u32, funct3: u32, opcode: u32)
    ensures var b := UnpackB(EmitB(imm, rs2, rs1, funct3, opcode));
            b.imm12 == (imm / 0x1000) % 0x2 && b.imm11 == (imm / 0x800) % 0x2 && b.imm10_5 == (imm / 0x20) % 0x40
            && b.imm4_1 == (imm / 0x2) % 0x10
    ensures var j := UnpackJ(EmitJ(imm, rs1, opcode));
            j.imm20 == (imm / 0x10_0000) % 0x2 && j.imm12_19 == (imm / 0x1000) % 0x100
            && j.imm11 == (imm / 0x800) % 0x2 && j.imm1_10 == (imm / 0x2) % 0x400
  {
    hide PackB, PackJ, UnpackB, UnpackJ;
    UnpackPackB(BType(opcode % 0x80, (imm / 0x800) % 0x2, (imm / 0x2) % 0x10, funct3 % 0x8, rs1 % 0x20, rs2 % 0x20,
                      (imm / 0x20) % 0x40, (imm / 0x1000) % 0x2));
    UnpackPackJ(JType(opcode % 0x80, rs1 % 0x20, (imm / 0x1000) % 0x100, (imm / 0x800) % 0x2, (imm / 0x2) % 0x400,
                      (imm / 0x10_0000) % 0x2));
  }

  lemma EmitSDecodes(rs2: u32, rs1: u32, imm: u32, funct3: u32, opcode: u32)
    ensures var i := UnpackS(EmitS(rs2, rs1, imm, funct3, opcode));
            i == SType(opcode % 0x80, imm % 0x20, funct3 % 0x8, rs1 % 0x20, rs2 % 0x20, (imm / 0x20) % 0x80)
            && ImmS(i) == imm % 0x1000
  {
    hide PackS, UnpackS;
    SplitImmS(imm);
    BijectionS(SType(opcode % 0x80, imm % 0x20, funct3 % 0x8, rs1 % 0x20, rs2 % 0x20, (imm / 0x20) % 0x80), 0);
  }

  lemma EmitIDecodes(rd: u32, rs1: u32, imm: u32, funct3: u32, opcode: u32)
    ensures UnpackI(EmitI(rd, rs1, imm, funct3, opcode))
            == IType(opcode % 0x80, rd % 0x20, funct3 % 0x8, rs1 % 0x20, imm % 0x1000)
  {
    UnpackPackI(IType(opcode % 0x80, rd % 0x20, funct3 % 0x8, rs1 % 0x20, imm % 0x1000));
  }

  lemma EmitRDecodes(funct7: u32, rs1: u32, rs2: u32, funct3: u32, rd: u32, opcode: u32)
    ensures UnpackR(EmitR(funct7, rs1, rs2, funct3, rd, opcode))
            == RType(opcode % 0x80, rd % 0x20, funct3 % 0x8, rs1 % 0x20, rs2 % 0x20, funct7 % 0x80)
  {
    UnpackPackR(RType(opcode % 0x80, rd % 0x20, funct3 % 0x8, rs1 % 0x20, rs2 % 0x20, funct7 % 0x80));
  }

  lemma NarrowIDecodes(rd: b5, rs1: b5, imm: b12, funct3: b3, opcode: b7)
    ensures UnpackI(EmitI(rd, rs1, imm, funct3, opcode)) == IType(opcode, rd, funct3, rs1, imm)
  {
    hide EmitI, UnpackI;
    EmitIDecodes(rd, rs1, imm, funct3, opcode);
  }

  lemma NarrowRDecodes(rs1: b5, rs2: b5, funct3: b3, rd: b5, opcode: b7)
    ensures UnpackR(EmitR(0, rs1, rs2, funct3, rd, opcode)) == RType(opcode, rd, funct3, rs1, rs2, 0)
  {
    hide EmitR, UnpackR;
    EmitRDecodes(0, rs1, rs2, funct3, rd, opcode);
  }

  /** Bits 12..1: what a branch keeps of its immediate. */
  function BranchBits(imm: u32): u32 {
    imm % 0x2000 - imm % 2
  }

  /** Bits 20..1: what a jump keeps of its immediate. */
  function JumpBits(imm: u32): u32 {
    imm % 0x20_0000 - imm % 2
  }

  /** Wrapping keeps the low bits. */
  lemma WrapLow(d: int)
    ensures Wrap(d) % 2 == d % 2 && Wrap(d) % 0x2000 == d % 0x2000 && Wrap(d) % 0x20_0000 == d % 0x20_0000
  {
    var q, w := d / TWO32, d % TWO32;
    DivMod(d, 2, 0x8000_0000 * q + w / 2, w % 2);
    DivMod(d, 0x2000, 0x8_0000 * q + w / 0x2000, w % 0x2000);
    DivMod(d, 0x20_0000, 0x800 * q + w / 0x20_0000, w % 0x20_0000);
  }

  /** Sign extension of an even number `e` that is `d` up to a multiple of `2 * half`, and up to its last bit. */
  lemma SignedIs(d: int, e: nat, q: int, r: int, half: int)
    requires half > 0 && half % 2 == 0 && e < 2 * half && e % 2 == 0 && 0 <= r < 2 && d == 2 * (half * q) + e + r
    ensures Signed(e, half) == d <==> r == 0 && -half <= d < half
  {
    MulFacts(half, 0, 1, q);
    MulFacts(half, 0, q, -1);
    MulFacts(half, 0, q, -2);
  }

  lemma BranchBitsOf(d: int, w: u32)
    requires w % 2 == d % 2 && w % 0x2000 == d % 0x2000
    ensures d == 2 * (0x1000 * (d / 0x2000)) + BranchBits(w) + d % 2 && BranchBits(w) < 0x2000
    ensures BranchBits(w) % 2 == 0
  {
    var low := w % 0x2000;
    DivMod(w, 2, 0x1000 * (w / 0x2000) + low / 2, low % 2);
  }

  lemma JumpBitsOf(d: int, w: u32)
    requires w % 2 == d % 2 && w % 0x20_0000 == d % 0x20_0000
    ensures d == 2 * (0x10_0000 * (d / 0x20_0000)) + JumpBits(w) + d % 2 && JumpBits(w) < 0x20_0000
    ensures JumpBits(w) % 2 == 0
  {
    var low := w % 0x20_0000;
    DivMod(w, 2, 0x10_0000 * (w / 0x20_0000) + low / 2, low % 2);
  }

  lemma KeptExactly(d: int)
    ensures Signed(BranchBits(Wrap(d)), 0x1000) == d <==> d % 2 == 0 && -0x1000 <= d < 0x1000
    ensures Signed(JumpBits(Wrap(d)), 0x10_0000) == d <==> d % 2 == 0 && -0x10_0000 <= d < 0x10_0000
  {
    hide Wrap, BranchBits, JumpBits, Signed;
    WrapLow(d);
    BranchBitsOf(d, Wrap(d));
    JumpBitsOf(d, Wrap(d));
    SignedIs(d, BranchBits(Wrap(d)), d / 0x2000, d % 2, 0x1000);
    SignedIs(d, JumpBits(Wrap(d)), d / 0x20_0000, d % 2, 0x10_0000);
  }

  /** A displacement survives a branch word exactly when it is even and fits 13 bits. */
  lemma BranchOffsetExact(d: int, rs2: u32, rs1: u32, funct3: u32, opcode: u32)
    ensures OffsetB(EmitB(Wrap(d), rs2, rs1, funct3, opcode)) == d <==> d % 2 == 0 && -0x1000 <= d < 0x1000
  {
    hide EmitB, UnpackB, ImmB, Wrap;
    EmitBDecodes(Wrap(d), rs2, rs1, funct3, opcode);
    KeptExactly(d);
  }

  /** A displacement survives a jump word exactly when it is even and fits 21 bits. */
  lemma JumpOffsetExact(d: int, rd: u32, opcode: u32)
    ensures OffsetJ(EmitJ(Wrap(d), rd, opcode)) == d <==> d % 2 == 0 && -0x10_0000 <= d < 0x10_0000
  {
    hide EmitJ, UnpackJ, ImmJ, Wrap;
    EmitJDecodes(Wrap(d), rd, opcode);
    KeptExactly(d);
  }

  /** Decoding any word as a branch or a jump and emitting what was decoded gives the word back. */
  lemma ReemitBranchAndJump(w: u32)
    ensures var b := UnpackB(w); EmitB(ImmB(b), b.rs2, b.rs1, b.funct3, b.opcode) == w
    ensures var j := UnpackJ(w); EmitJ(ImmJ(j), j.rd, j.opcode) == w
  {
    hide UnpackB, UnpackJ, ImmB, ImmJ, PackB, PackJ;
    ImmBFields(UnpackB(w));
    ImmJFields(UnpackJ(w));
    RefoldB(w);
    RefoldJ(w);
  }

  lemma ImmBFields(b: BType)
    ensures var imm := ImmB(b);
            (imm / 0x1000) % 0x2 == b.imm12 && (imm / 0x800) % 0x2 == b.imm11
            && (imm / 0x20) % 0x40 == b.imm10_5 && (imm / 0x2) % 0x10 == b.imm4_1
  {
    var imm := ImmB(b);
    FieldAt(imm, 0x1000, 0x2, 0, b.imm12, b.imm11 * 0x800 + b.imm10_5 * 0x20 + b.imm4_1 * 2);
    FieldAt(imm, 0x800, 0x2, b.imm12, b.imm11, b.imm10_5 * 0x20 + b.imm4_1 * 2);
    FieldAt(imm, 0x20, 0x40, b.imm12 * 2 + b.imm11, b.imm10_5, b.imm4_1 * 2);
    FieldAt(imm, 0x2, 0x10, (b.imm12 * 2 + b.imm11) * 0x40 + b.imm10_5, b.imm4_1, 0);
  }

  lemma ImmJFields(j: JType)
    ensures var imm := ImmJ(j);
            (imm / 0x10_0000) % 0x2 == j.imm20 && (imm / 0x1000) % 0x100 == j.imm12_19
            && (imm / 0x800) % 0x2 == j.imm11 && (imm / 0x2) % 0x400 == j.imm1_10
  {
    var imm := ImmJ(j);
    FieldAt(imm, 0x10_0000, 0x2, 0, j.imm20, j.imm12_19 * 0x1000 + j.imm11 * 0x800 + j.imm1_10 * 2);
    FieldAt(imm, 0x1000, 0x100, j.imm20, j.imm12_19, j.imm11 * 0x800 + j.imm1_10 * 2);
    FieldAt(imm, 0x800, 0x2, j.imm20 * 0x100 + j.imm12_19, j.imm11, j.imm1_10 * 2);
    FieldAt(imm, 0x2, 0x400, (j.imm20 * 0x100 + j.imm12_19) * 2 + j.imm11, j.imm1_10, 0);
  }

  lemma EmitBNormal(imm: u32, rs2: b5, rs1: b5, funct3: b3, opcode: b7)
    ensures var w := EmitB(imm, rs2, rs1, funct3, opcode);
            w == EmitB(BranchBits(imm), rs2, rs1, funct3, opcode)
            && UnpackB(w).rs2 == rs2 && UnpackB(w).rs1 == rs1 && UnpackB(w).funct3 == funct3
            && ImmB(UnpackB(w)) == BranchBits(imm)
  {
    hide EmitB, UnpackB, ImmB, BranchBits;
    NarrowFieldsDecode(imm, rs2, rs1, funct3, opcode);
    ReemitBranchAndJump(EmitB(imm, rs2, rs1, funct3, opcode));
  }

  lemma NarrowFieldsDecode(imm: u32, rs2: b5, rs1: b5, funct3: b3, opcode: b7)
    ensures var i := UnpackB(EmitB(imm, rs2, rs1, funct3, opcode));
            i.rs2 == rs2 && i.rs1 == rs1 && i.funct3 == funct3 && i.opcode == opcode && ImmB(i) == BranchBits(imm)
  {
    hide EmitB, UnpackB, ImmB;
    EmitBDecodes(imm, rs2, rs1, funct3, opcode);
  }

  /** What a jump's immediate alone puts into bits 31..12, where a branch has its registers and its function code. */
  function JumpUpper(imm: u32): u32 {
    EmitJ(imm, 0, 0)
  }

  /** What a branch's immediate alone puts into bits 11..7, where a jump has its register. */
  function BranchRd(imm: u32): b5 {
    (imm / 0x2) % 0x10 * 2 + (imm / 0x800) % 0x2
  }

  lemma UpperFields(v: u32, w: u32)
    requires v / 0x1000 == w / 0x1000
    ensures UnpackB(v).funct3 == UnpackB(w).funct3 && UnpackB(v).rs1 == UnpackB(w).rs1
    ensures UnpackB(v).rs2 == UnpackB(w).rs2
  {
    assert v / 0x8000 == v / 0x1000 / 8 && w / 0x8000 == w / 0x1000 / 8;
    assert v / 0x10_0000 == v / 0x1000 / 0x100 && w / 0x10_0000 == w / 0x1000 / 0x100;
  }

  lemma JumpAsBranch(imm: u32, rd: u32, opcode: u32)
    ensures var i, upper := UnpackB(EmitJ(imm, rd, opcode)), UnpackB(JumpUpper(imm));
            i.funct3 == upper.funct3 && i.rs1 == upper.rs1 && i.rs2 == upper.rs2
  {
    JumpUpperBits(imm, rd, opcode);
    hide EmitJ, UnpackB;
    UpperFields(EmitJ(imm, rd, opcode), JumpUpper(imm));
  }

  lemma JumpUpperBits(imm: u32, rd: u32, opcode: u32)
    ensures EmitJ(imm, rd, opcode) / 0x1000 == JumpUpper(imm) / 0x1000
  {
    var hi := (imm / 0x10_0000) % 0x2 * 0x8_0000 + (imm / 0x2) % 0x400 * 0x200 + (imm / 0x800) % 0x2 * 0x100
              + (imm / 0x1000) % 0x100;
    DivMod(EmitJ(imm, rd, opcode), 0x1000, hi, rd % 0x20 * 0x80 + opcode % 0x80);
    DivMod(JumpUpper(imm), 0x1000, hi, 0);
  }

  lemma BranchAsJump(imm: u32, rs2: u32, rs1: u32, funct3: u32, opcode: u32)
    ensures var i := UnpackJ(EmitB(imm, rs2, rs1, funct3, opcode));
            i.rd == BranchRd(imm) && i.opcode == opcode % 0x80
  {
    var w := EmitB(imm, rs2, rs1, funct3, opcode);
    var b := BType(opcode % 0x80, (imm / 0x800) % 0x2, (imm / 0x2) % 0x10, funct3 % 0x8, rs1 % 0x20, rs2 % 0x20,
                   (imm / 0x20) % 0x40, (imm / 0x1000) % 0x2);
    UnpackPackB(b);
    RdBits(w);
    hide UnpackB, UnpackJ, PackB;
  }

  lemma RdBits(w: u32)
    ensures UnpackJ(w).rd == UnpackB(w).imm4_1 * 2 + UnpackB(w).imm11 && UnpackJ(w).opcode == UnpackB(w).opcode
  {
    var h, g := w / 0x80, w / 0x100;
    Peel(w, 0x80, 0x2, 0x100);
    DivMod(h, 0x20, g / 0x10, g % 0x10 * 2 + h % 2);
  }

  /** When a word is the branch emitted for given operands. */
  lemma IsEmittedBranch(w: u32, imm: u32, rs2: b5, rs1: b5, funct3: b3, opcode: b7)
    ensures w == EmitB(imm, rs2, rs1, funct3, opcode)
            <==> var i := UnpackB(w);
                 i.rs2 == rs2 && i.rs1 == rs1 && i.funct3 == funct3 && i.opcode == opcode && ImmB(i) == BranchBits(imm)
  {
    hide EmitB, UnpackB, ImmB, BranchBits;
    NarrowFieldsDecode(imm, rs2, rs1, funct3, opcode);
    EmitBNormal(imm, rs2, rs1, funct3, opcode);
    ReemitBranchAndJump(w);
  }

  lemma IsEmittedJump(w: u32, imm: u32, rd: b5, opcode: b7)
    ensures w == EmitJ(imm, rd, opcode)
            <==> var i := UnpackJ(w); i.rd == rd && i.opcode == opcode && ImmJ(i) == JumpBits(imm)
  {
    hide EmitJ, UnpackJ, ImmJ, JumpBits;
    NarrowJumpDecodes(imm, rd, opcode);
    ReemitBranchAndJump(w);
    ReemitBranchAndJump(EmitJ(imm, rd, opcode));
  }

  lemma NarrowJumpDecodes(imm: u32, rd: b5, opcode: b7)
    ensures var i := UnpackJ(EmitJ(imm, rd, opcode)); i.rd == rd && i.opcode == opcode && ImmJ(i) == JumpBits(imm)
  {
    hide EmitJ, UnpackJ, ImmJ;
    EmitJDecodes(imm, rd, opcode);
  }

  /** Two branch words of one opcode are equal exactly when their registers, their function codes and bits 12..1 of
      their immediates are. */
  lemma EmitBEqual(imm: u32, rs2: b5, rs1: b5, funct3: b3, imm': u32, rs2': b5, rs1': b5, funct3': b3, opcode: b7)
    ensures EmitB(imm, rs2, rs1, funct3, opcode) == EmitB(imm', rs2', rs1', funct3', opcode)
            <==> rs2 == rs2' && rs1 == rs1' && funct3 == funct3' && BranchBits(imm) == BranchBits(imm')
  {
    hide EmitB, UnpackB, ImmB, BranchBits;
    EmitBNormal(imm, rs2, rs1, funct3, opcode);
    EmitBNormal(imm', rs2', rs1', funct3', opcode);
  }

  // ---------- The range checks, and the statements that rely on them ----------

  predicate IsWithinRange12b(imm: int) {
    -2048 <= imm && imm <= 2047
  }

  predicate IsWithinRange21b(imm: int) {
    -1048576 <= imm && imm <= 1048575
  }

  /** An integer literal passes the check exactly when the instruction emitted for its low 12 bits means the literal. */
  lemma LiteralCheckIsExact(literal: int, rd: u32, rs1: u32, funct3: u32, opcode: u32)
    ensures IsWithinRange12b(literal) <==> OffsetI(EmitI(rd, rs1, literal % 0x1000, funct3, opcode)) == literal
  {
    hide EmitI, UnpackI;
    EmitIDecodes(rd, rs1, literal % 0x1000, funct3, opcode);
  }

  /** A load and a store with the same operands address the same location: same base register, and the same
      sign-extended offset, which is the written displacement exactly when that fits 12 bits. */
  lemma LoadStoreAgree(disp: int, base: u32, r: u32, funct3: u32, loadOp: u32, storeOp: u32)
    ensures var load, store := EmitI(r, base, Wrap(disp), funct3, loadOp), EmitS(r, base, Wrap(disp), funct3, storeOp);
            OffsetI(load) == OffsetS(store)
            && UnpackI(load).rs1 == UnpackS(store).rs1 == base % 0x20
            && UnpackI(load).rd == UnpackS(store).rs2 == r % 0x20
            && (OffsetI(load) == disp <==> IsWithinRange12b(disp))
  {
    hide EmitI, EmitS, UnpackI, UnpackS, ImmS, Wrap, Signed;
    EmitIDecodes(r, base, Wrap(disp), funct3, loadOp);
    EmitSDecodes(r, base, Wrap(disp), funct3, storeOp);
    LowTwelveSigned(disp);
  }

  lemma LowTwelveSigned(d: int)
    ensures Signed(Wrap(d) % 0x1000, 0x800) == d <==> IsWithinRange12b(d)
  {
    DivMod(d, 0x1000, 0x10_0000 * (d / TWO32) + Wrap(d) / 0x1000, Wrap(d) % 0x1000);
  }
}
