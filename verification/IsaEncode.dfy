/** The instruction encoders of machismo's emulator (src/isa_emul.c, src/arm64_enc.h), each with the
    lemma that the processor decodes the word as the instruction it is named after. */
module IsaEncode {
  import opened A64Memory
  import opened A64
  import opened BitFields

  function Reg(r: RegNo): bv32 {
    Bits8(r) as bv32
  }

  function SizeBits(size: Size): bv32 {
    match size
    case Byte => 0
    case Half => 1
    case Word => 2
    case Dword => 3
  }

  function EncB(offset: int): bv32 {
    0x1400_0000 | (Bits32(offset) & 0x3FF_FFFF)
  }

  function EncCbnzW(rt: RegNo, offset: int): bv32 {
    0x3500_0000 | ((Bits32(offset) & 0x7_FFFF) << 5) | Reg(rt)
  }

  function EncBne(offset: int): bv32 {
    0x5400_0000 | ((Bits32(offset) & 0x7_FFFF) << 5) | 1
  }

  function EncStrPre(rt: RegNo): bv32 { 0xF81F_0FE0 | Reg(rt) }

  function EncLdrPost(rt: RegNo): bv32 { 0xF841_07E0 | Reg(rt) }

  function EncMrsNzcv(rt: RegNo): bv32 { 0xD53B_4200 | Reg(rt) }

  function EncMsrNzcv(rt: RegNo): bv32 { 0xD51B_4200 | Reg(rt) }

  const CLREX: bv32 := 0xD503_3F5F

  function EncLdxr(size: Size, acquire: bool, rt: RegNo, rn: RegNo): bv32 {
    (if acquire then 0x0840_FC00 else 0x0840_7C00) | (SizeBits(size) << 30) | (Reg(rn) << 5) | Reg(rt)
  }

  function EncStxr(size: Size, release: bool, rs: RegNo, rt: RegNo, rn: RegNo): bv32 {
    (if release then 0x0800_FC00 else 0x0800_7C00) | (SizeBits(size) << 30) | (Reg(rs) << 16) | (Reg(rn) << 5) | Reg(rt)
  }

  /** Rm, Rn and Rd of the three-register forms. */
  function Regs(rd: RegNo, rn: RegNo, rm: RegNo): bv32 {
    (Reg(rm) << 16) | (Reg(rn) << 5) | Reg(rd)
  }

  function EncAdd(is64: bool, rd: RegNo, rn: RegNo, rm: RegNo): bv32 {
    (if is64 then 0x8B00_0000 else 0x0B00_0000) | Regs(rd, rn, rm)
  }

  function EncBic(is64: bool, rd: RegNo, rn: RegNo, rm: RegNo): bv32 {
    (if is64 then 0x8A20_0000 else 0x0A20_0000) | Regs(rd, rn, rm)
  }

  function EncEor(is64: bool, rd: RegNo, rn: RegNo, rm: RegNo): bv32 {
    (if is64 then 0xCA00_0000 else 0x4A00_0000) | Regs(rd, rn, rm)
  }

  function EncOrr(is64: bool, rd: RegNo, rn: RegNo, rm: RegNo): bv32 {
    (if is64 then 0xAA00_0000 else 0x2A00_0000) | Regs(rd, rn, rm)
  }

  function EncMov(is64: bool, rd: RegNo, rn: RegNo): bv32 { EncOrr(is64, rd, ZR, rn) }

  function EncCmp(is64: bool, rn: RegNo, rm: RegNo): bv32 {
    (if is64 then 0xEB00_0000 else 0x6B00_0000) | Regs(ZR, rn, rm)
  }

  function EncCsel(is64: bool, rd: RegNo, rn: RegNo, rm: RegNo, cond: int): bv32
    requires 0 <= cond < 16
  {
    (if is64 then 0x9A80_0000 else 0x1A80_0000) | ((Bits8(cond) as bv32) << 12) | Regs(rd, rn, rm)
  }

  function EncSxtb(rd: RegNo, rn: RegNo): bv32 { 0x1300_1C00 | (Reg(rn) << 5) | Reg(rd) }

  function EncSxth(rd: RegNo, rn: RegNo): bv32 { 0x1300_3C00 | (Reg(rn) << 5) | Reg(rd) }

  function EncVBic(vd: RegNo, vn: RegNo, vm: RegNo): bv32 { 0x4E60_1C00 | Regs(vd, vn, vm) }

  function EncVEor(vd: RegNo, vn: RegNo, vm: RegNo): bv32 { 0x6E20_1C00 | Regs(vd, vn, vm) }

  function EncStrQPre(vt: RegNo): bv32 { 0x3C9F_0FE0 | Reg(vt) }

  function EncLdrQPost(vt: RegNo): bv32 { 0x3CC1_07E0 | Reg(vt) }

  // ----- decoding what was encoded -----

  lemma FieldIs(w: bv32, at: bv5, r: RegNo)
    requires (w >> at) & 0x1F == Reg(r)
    ensures Field5(w, at) == r
  {
    hide Nat8, Bits8;
    assert ((w >> at) & 0x1F) as bv8 == Bits8(r);
  }

  lemma Imm26Is(w: bv32, offset: int)
    requires -0x200_0000 <= offset < 0x200_0000
    requires w & 0x3FF_FFFF == Bits32(offset) & 0x3FF_FFFF
    ensures Imm26(w) == offset
  {
    hide Nat32, Bits32;
    Low26(offset);
  }

  lemma Imm19Is(w: bv32, offset: int)
    requires -0x4_0000 <= offset < 0x4_0000
    requires (w >> 5) & 0x7_FFFF == Bits32(offset) & 0x7_FFFF
    ensures Imm19(w) == offset
  {
    hide Nat32, Bits32;
    Low19(offset);
  }

  lemma BranchWord(offset: int)
    ensures Decode(EncB(offset)) == Branch(Imm26(EncB(offset)))
    ensures EncB(offset) & 0x3FF_FFFF == Bits32(offset) & 0x3FF_FFFF
  {
    hide Field5, Nat8, Imm9, Imm19, Imm26, Bits32;
  }

  lemma CbnzWord(rt: RegNo, offset: int)
    ensures Decode(EncCbnzW(rt, offset)) == Cbnz(rt, Imm19(EncCbnzW(rt, offset)))
    ensures (EncCbnzW(rt, offset) >> 5) & 0x7_FFFF == Bits32(offset) & 0x7_FFFF
  {
    SmallBits8(rt);
    hide Field5, Bits8, Nat8, Imm9, Imm19, Imm26, Bits32;
    FieldIs(EncCbnzW(rt, offset), 0, rt);
  }

  lemma BneWord(offset: int)
    ensures Decode(EncBne(offset)) == BranchIf(1, Imm19(EncBne(offset)))
    ensures (EncBne(offset) >> 5) & 0x7_FFFF == Bits32(offset) & 0x7_FFFF
  {
    assert Nat8(1) == 1;
    hide Field5, Nat8, Imm9, Imm19, Imm26, Bits32;
  }

  /** A branch in range is decoded with the offset it was encoded with. */
  lemma DecodeB(offset: int)
    requires -0x200_0000 <= offset < 0x200_0000
    ensures Decode(EncB(offset)) == Branch(offset)
  {
    BranchWord(offset);
    hide Decode, Bits32, Imm26, EncB;
    Imm26Is(EncB(offset), offset);
  }

  lemma DecodeCbnzW(rt: RegNo, offset: int)
    requires -0x4_0000 <= offset < 0x4_0000
    ensures Decode(EncCbnzW(rt, offset)) == Cbnz(rt, offset)
  {
    CbnzWord(rt, offset);
    hide Decode, Bits32, Imm19, EncCbnzW;
    Imm19Is(EncCbnzW(rt, offset), offset);
  }

  lemma DecodeBne(offset: int)
    requires -0x4_0000 <= offset < 0x4_0000
    ensures Decode(EncBne(offset)) == BranchIf(1, offset)
  {
    BneWord(offset);
    hide Decode, Bits32, Imm19, EncBne;
    Imm19Is(EncBne(offset), offset);
  }

  lemma DecodeStrPre(rt: RegNo)
    ensures Decode(EncStrPre(rt)) == StrPre(rt, ZR, -16)
  {
    Constants();
    SmallBits8(rt);
    hide Field5, Bits8, Nat8, Nat32, Imm19, Imm26;
    FieldIs(EncStrPre(rt), 0, rt);
    FieldIs(EncStrPre(rt), 5, ZR);
  }

  lemma DecodeLdrPost(rt: RegNo)
    ensures Decode(EncLdrPost(rt)) == LdrPost(rt, ZR, 16)
  {
    Constants();
    SmallBits8(rt);
    hide Field5, Bits8, Nat8, Nat32, Imm19, Imm26;
    FieldIs(EncLdrPost(rt), 0, rt);
    FieldIs(EncLdrPost(rt), 5, ZR);
  }

  lemma DecodeStrQPre(vt: RegNo)
    ensures Decode(EncStrQPre(vt)) == StrQPre(vt, ZR, -16)
  {
    Constants();
    SmallBits8(vt);
    hide Field5, Bits8, Nat8, Nat32, Imm19, Imm26;
    FieldIs(EncStrQPre(vt), 0, vt);
    FieldIs(EncStrQPre(vt), 5, ZR);
  }

  lemma DecodeLdrQPost(vt: RegNo)
    ensures Decode(EncLdrQPost(vt)) == LdrQPost(vt, ZR, 16)
  {
    Constants();
    SmallBits8(vt);
    hide Field5, Bits8, Nat8, Nat32, Imm19, Imm26;
    FieldIs(EncLdrQPost(vt), 0, vt);
    FieldIs(EncLdrQPost(vt), 5, ZR);
  }

  /** The fields of SP and of the stack offsets 16 and -16. */
  lemma Constants()
    ensures Bits8(ZR) == 31
    ensures Nat32(0x1F0) == 0x1F0 && Nat32(0x010) == 0x010
  {
    assert Nat8(0xF0) == 0xF0 && Nat8(1) == 1 && Nat8(0) == 0 && Nat8(0x10) == 0x10;
  }

  lemma DecodeNzcv(rt: RegNo)
    ensures Decode(EncMrsNzcv(rt)) == MrsNzcv(rt)
    ensures Decode(EncMsrNzcv(rt)) == MsrNzcv(rt)
    ensures Decode(CLREX) == Clrex
  {
    SmallBits8(rt);
    hide Field5, Bits8, Nat8, Imm9, Imm19, Imm26;
    FieldIs(EncMrsNzcv(rt), 0, rt);
    FieldIs(EncMsrNzcv(rt), 0, rt);
  }

  lemma DecodeLdxr(size: Size, acquire: bool, rt: RegNo, rn: RegNo)
    ensures Decode(EncLdxr(size, acquire, rt, rn)) == LoadEx(size, acquire, rt, rn)
  {
    SmallBits8(rt);
    SmallBits8(rn);
    hide Field5, Bits8, Nat8, Imm9, Imm19, Imm26;
    FieldIs(EncLdxr(size, acquire, rt, rn), 0, rt);
    FieldIs(EncLdxr(size, acquire, rt, rn), 5, rn);
  }

  lemma DecodeStxr(size: Size, release: bool, rs: RegNo, rt: RegNo, rn: RegNo)
    ensures Decode(EncStxr(size, release, rs, rt, rn)) == StoreEx(size, release, rs, rt, rn)
  {
    SmallBits8(rs);
    SmallBits8(rt);
    SmallBits8(rn);
    hide Field5, Bits8, Nat8, Imm9, Imm19, Imm26;
    FieldIs(EncStxr(size, release, rs, rt, rn), 0, rt);
    FieldIs(EncStxr(size, release, rs, rt, rn), 5, rn);
    FieldIs(EncStxr(size, release, rs, rt, rn), 16, rs);
  }

  /** An opcode that leaves the three register fields free keeps them. */
  lemma RegFields(w: bv32, opcode: bv32, rd: RegNo, rn: RegNo, rm: RegNo)
    requires opcode & 0x001F_03FF == 0 && w == opcode | Regs(rd, rn, rm)
    ensures Field5(w, 0) == rd && Field5(w, 5) == rn && Field5(w, 16) == rm
    ensures w & 0xFFE0_FC00 == opcode
  {
    SmallBits8(rd);
    SmallBits8(rn);
    SmallBits8(rm);
    hide Field5, Bits8;
    FieldIs(w, 0, rd);
    FieldIs(w, 5, rn);
    FieldIs(w, 16, rm);
  }

  lemma AddWord(w: bv32, is64: bool)
    requires w & 0xFFE0_FC00 == if is64 then 0x8B00_0000 else 0x0B00_0000
    ensures Decode(w) == AddReg(is64, Field5(w, 0), Field5(w, 5), Field5(w, 16))
  {
    hide Field5, Nat8, Imm9, Imm19, Imm26;
  }

  lemma BicWord(w: bv32, is64: bool)
    requires w & 0xFFE0_FC00 == if is64 then 0x8A20_0000 else 0x0A20_0000
    ensures Decode(w) == LogicReg(AndNot, is64, Field5(w, 0), Field5(w, 5), Field5(w, 16))
  {
    hide Field5, Nat8, Imm9, Imm19, Imm26;
  }

  lemma EorWord(w: bv32, is64: bool)
    requires w & 0xFFE0_FC00 == if is64 then 0xCA00_0000 else 0x4A00_0000
    ensures Decode(w) == LogicReg(Xor, is64, Field5(w, 0), Field5(w, 5), Field5(w, 16))
  {
    hide Field5, Nat8, Imm9, Imm19, Imm26;
  }

  lemma OrrWord(w: bv32, is64: bool)
    requires w & 0xFFE0_FC00 == if is64 then 0xAA00_0000 else 0x2A00_0000
    ensures Decode(w) == LogicReg(Or, is64, Field5(w, 0), Field5(w, 5), Field5(w, 16))
  {
    hide Field5, Nat8, Imm9, Imm19, Imm26;
  }

  lemma CmpWord(w: bv32, is64: bool)
    requires w & 0xFFE0_FC00 == if is64 then 0xEB00_0000 else 0x6B00_0000
    ensures Decode(w) == Subs(is64, Field5(w, 0), Field5(w, 5), Field5(w, 16))
  {
    hide Field5, Nat8, Imm9, Imm19, Imm26;
  }

  lemma DecodeAdd(is64: bool, rd: RegNo, rn: RegNo, rm: RegNo)
    ensures Decode(EncAdd(is64, rd, rn, rm)) == AddReg(is64, rd, rn, rm)
  {
    var w, opcode := EncAdd(is64, rd, rn, rm), if is64 then 0x8B00_0000 else 0x0B00_0000;
    assert w == opcode | Regs(rd, rn, rm);
    hide *;
    RegFields(w, opcode, rd, rn, rm);
    AddWord(w, is64);
  }

  lemma DecodeBic(is64: bool, rd: RegNo, rn: RegNo, rm: RegNo)
    ensures Decode(EncBic(is64, rd, rn, rm)) == LogicReg(AndNot, is64, rd, rn, rm)
  {
    var w, opcode := EncBic(is64, rd, rn, rm), if is64 then 0x8A20_0000 else 0x0A20_0000;
    assert w == opcode | Regs(rd, rn, rm);
    hide *;
    RegFields(w, opcode, rd, rn, rm);
    BicWord(w, is64);
  }

  lemma DecodeEor(is64: bool, rd: RegNo, rn: RegNo, rm: RegNo)
    ensures Decode(EncEor(is64, rd, rn, rm)) == LogicReg(Xor, is64, rd, rn, rm)
  {
    var w, opcode := EncEor(is64, rd, rn, rm), if is64 then 0xCA00_0000 else 0x4A00_0000;
    assert w == opcode | Regs(rd, rn, rm);
    hide *;
    RegFields(w, opcode, rd, rn, rm);
    EorWord(w, is64);
  }

  lemma DecodeOrr(is64: bool, rd: RegNo, rn: RegNo, rm: RegNo)
    ensures Decode(EncOrr(is64, rd, rn, rm)) == LogicReg(Or, is64, rd, rn, rm)
  {
    var w, opcode := EncOrr(is64, rd, rn, rm), if is64 then 0xAA00_0000 else 0x2A00_0000;
    assert w == opcode | Regs(rd, rn, rm);
    hide *;
    RegFields(w, opcode, rd, rn, rm);
    OrrWord(w, is64);
  }

  lemma DecodeCmp(is64: bool, rn: RegNo, rm: RegNo)
    ensures Decode(EncCmp(is64, rn, rm)) == Subs(is64, ZR, rn, rm)
  {
    var w, opcode := EncCmp(is64, rn, rm), if is64 then 0xEB00_0000 else 0x6B00_0000;
    assert w == opcode | Regs(ZR, rn, rm);
    hide *;
    RegFields(w, opcode, ZR, rn, rm);
    CmpWord(w, is64);
  }

  function CselOpcode(is64: bool, c: bv8): bv32 {
    (if is64 then 0x9A80_0000 else 0x1A80_0000) | ((c as bv32) << 12)
  }

  lemma CselWord(is64: bool, c: bv8, w: bv32)
    requires c < 16 && w & 0xFFE0_FC00 == CselOpcode(is64, c)
    ensures Decode(w) == Csel(is64, Field5(w, 0), Field5(w, 5), Field5(w, 16), Nat8(c))
  {
    hide Field5, Nat8, Imm9, Imm19, Imm26;
    assert ((w >> 12) & 0xF) as bv8 == c;
  }

  lemma DecodeCsel(is64: bool, rd: RegNo, rn: RegNo, rm: RegNo, cond: int)
    requires 0 <= cond < 16
    ensures Decode(EncCsel(is64, rd, rn, rm, cond)) == Csel(is64, rd, rn, rm, cond)
  {
    CondFits(cond);
    var w, opcode := EncCsel(is64, rd, rn, rm, cond), CselOpcode(is64, Bits8(cond));
    assert w == opcode | Regs(rd, rn, rm) by { hide Regs, Bits8; }
    assert opcode & 0x001F_03FF == 0 by { CselFree(is64, Bits8(cond)); }
    hide *;
    RegFields(w, opcode, rd, rn, rm);
    CselWord(is64, Bits8(cond), w);
  }

  lemma CselFree(is64: bool, c: bv8)
    requires c < 16
    ensures CselOpcode(is64, c) & 0x001F_03FF == 0
  {
  }

  lemma CondFits(cond: int)
    requires 0 <= cond < 16
    ensures Bits8(cond) < 16
  {
  }

  lemma SxtFields(w: bv32, opcode: bv32, rd: RegNo, rn: RegNo)
    requires opcode & 0x3FF == 0 && w == opcode | (Reg(rn) << 5) | Reg(rd)
    ensures Field5(w, 0) == rd && Field5(w, 5) == rn
    ensures w & 0xFFFF_FC00 == opcode
  {
    SmallBits8(rd);
    SmallBits8(rn);
    hide Field5, Bits8;
    FieldIs(w, 0, rd);
    FieldIs(w, 5, rn);
  }

  lemma SxtbWord(w: bv32)
    requires w & 0xFFFF_FC00 == 0x1300_1C00
    ensures Decode(w) == Sxt(Byte, Field5(w, 0), Field5(w, 5))
  {
    hide Field5, Nat8, Imm9, Imm19, Imm26;
  }

  lemma DecodeSxtb(rd: RegNo, rn: RegNo)
    ensures Decode(EncSxtb(rd, rn)) == Sxt(Byte, rd, rn)
  {
    var w := EncSxtb(rd, rn);
    assert w == 0x1300_1C00 | (Reg(rn) << 5) | Reg(rd);
    hide *;
    SxtFields(w, 0x1300_1C00, rd, rn);
    SxtbWord(w);
  }

  lemma SxthWord(w: bv32)
    requires w & 0xFFFF_FC00 == 0x1300_3C00
    ensures Decode(w) == Sxt(Half, Field5(w, 0), Field5(w, 5))
  {
    hide Field5, Nat8, Imm9, Imm19, Imm26;
  }

  lemma DecodeSxth(rd: RegNo, rn: RegNo)
    ensures Decode(EncSxth(rd, rn)) == Sxt(Half, rd, rn)
  {
    var w := EncSxth(rd, rn);
    assert w == 0x1300_3C00 | (Reg(rn) << 5) | Reg(rd);
    hide *;
    SxtFields(w, 0x1300_3C00, rd, rn);
    SxthWord(w);
  }

  lemma VBicWord(w: bv32)
    requires w & 0xFFE0_FC00 == 0x4E60_1C00
    ensures Decode(w) == VBic(Field5(w, 0), Field5(w, 5), Field5(w, 16))
  {
    hide Field5, Nat8, Imm9, Imm19, Imm26;
  }

  lemma VBicFields(w: bv32, vd: RegNo, vn: RegNo, vm: RegNo)
    requires w == EncVBic(vd, vn, vm)
    ensures Field5(w, 0) == vd && Field5(w, 5) == vn && Field5(w, 16) == vm
    ensures w & 0xFFE0_FC00 == 0x4E60_1C00
  {
    hide Regs, Field5;
    RegFields(w, 0x4E60_1C00, vd, vn, vm);
  }

  lemma DecodeVBic(vd: RegNo, vn: RegNo, vm: RegNo)
    ensures Decode(EncVBic(vd, vn, vm)) == VBic(vd, vn, vm)
  {
    hide *;
    VBicFields(EncVBic(vd, vn, vm), vd, vn, vm);
    VBicWord(EncVBic(vd, vn, vm));
  }

  lemma VEorWord(w: bv32)
    requires w & 0xFFE0_FC00 == 0x6E20_1C00
    ensures Decode(w) == VEor(Field5(w, 0), Field5(w, 5), Field5(w, 16))
  {
    hide Field5, Nat8, Imm9, Imm19, Imm26;
  }

  lemma VEorFields(w: bv32, vd: RegNo, vn: RegNo, vm: RegNo)
    requires w == EncVEor(vd, vn, vm)
    ensures Field5(w, 0) == vd && Field5(w, 5) == vn && Field5(w, 16) == vm
    ensures w & 0xFFE0_FC00 == 0x6E20_1C00
  {
    hide Regs, Field5;
    RegFields(w, 0x6E20_1C00, vd, vn, vm);
  }

  lemma DecodeVEor(vd: RegNo, vn: RegNo, vm: RegNo)
    ensures Decode(EncVEor(vd, vn, vm)) == VEor(vd, vn, vm)
  {
    hide *;
    VEorFields(EncVEor(vd, vn, vm), vd, vn, vm);
    VEorWord(EncVEor(vd, vn, vm));
  }
}
