/** The emulator of src/isa_emul.c: recognising LSE atomics and BCAX, choosing scratch registers,
    and the island programs, both as instructions and as the words the emulator writes. */
module IsaEmul {
  import opened Basics
  import opened BitFields
  import opened A64Memory
  import opened A64
  import opened IsaEncode
  import opened LseValues

  // ----- recognising instructions -----

  datatype Atomic = Atomic(op: LseOp, size: Size, acquire: bool, release: bool, rs: RegNo, rt: RegNo, rn: RegNo)

  function DecodeLse(w: bv32): Option<Atomic> {
    var rs, rn, rt := Field5(w, 16), Field5(w, 5), Field5(w, 0);
    if w & 0x3F20_0C00 == 0x3820_0000 then
      var op := if BitSet(w, 15) then Swp else OpcodeOp((w >> 12) & 7);
      Some(Atomic(op, SizeOf(w), BitSet(w, 23), BitSet(w, 22), rs, rt, rn))
    else if w & 0x3FA0_7C00 == 0x08A0_7C00 then
      Some(Atomic(Cas, SizeOf(w), BitSet(w, 23), BitSet(w, 15), rs, rt, rn))
    else None
  }

  datatype BcaxRegs = BcaxRegs(vd: RegNo, vn: RegNo, vm: RegNo, va: RegNo)

  function DecodeBcax(w: bv32): Option<BcaxRegs> {
    if w & 0xFFE0_8000 != 0xCE20_0000 then None
    else Some(BcaxRegs(Field5(w, 0), Field5(w, 5), Field5(w, 16), Field5(w, 10)))
  }

  function LseInstr(d: Atomic): Instr {
    Lse(d.op, d.size, d.acquire, d.release, d.rs, d.rt, d.rn)
  }

  function BcaxInstr(b: BcaxRegs): Instr {
    Bcax(b.vd, b.vn, b.vm, b.va)
  }

  /** A word of the atomics' group with bit 15 set whose opcode is not SWP's: LDAPR and later extensions. */
  predicate SwpLookalike(w: bv32) {
    w & 0x3F20_8C00 == 0x3820_8000 && (w >> 12) & 7 != 0
  }

  /** The emulator takes exactly the LSE instructions, and the lookalikes as SWP; only the acquire
      flag of a compare-and-swap can differ, and then the emulator asks for more ordering. */
  lemma DecodeLseAgrees(w: bv32)
    ensures DecodeLse(w).Some? <==> Decode(w).Lse? || SwpLookalike(w)
    ensures Decode(w).Lse? ==>
              var d := DecodeLse(w).value;
              LseInstr(d) == Decode(w).(acquire := d.acquire) && (d.acquire <==> Decode(w).acquire || d.op == Cas)
    ensures SwpLookalike(w) ==> DecodeLse(w).value.op == Swp
  {
    hide Field5, Imm9, Imm19, Imm26, Nat8, Nat32, SizeOf, OpcodeOp;
    if w & 0x3F20_0C00 == 0x3820_0000 {
      hide DecodeOther;
      AtomicGroup(w);
      OpcodeNotCas((w >> 12) & 7);
    } else if w & 0x3FA0_7C00 == 0x08A0_7C00 {
      hide DecodeOther;
    } else {
      NotAtomic(w);
    }
  }

  lemma OpcodeNotCas(opc: bv32)
    ensures OpcodeOp(opc) != Cas
  {
  }

  lemma AtomicGroup(w: bv32)
    requires w & 0x3F20_0C00 == 0x3820_0000
    ensures Decode(w) == DecodeMemory(w)
    ensures w & 0x3F20_8C00 == if BitSet(w, 15) then 0x3820_8000 else 0x3820_0000
    ensures w & 0x3F20_FC00 == 0x3820_8000 <==> BitSet(w, 15) && (w >> 12) & 7 == 0
  {
    hide DecodeOther, DecodeMemory;
  }

  lemma NotAtomic(w: bv32)
    requires w & 0x3F20_0C00 != 0x3820_0000 && w & 0x3FA0_7C00 != 0x08A0_7C00
    ensures !Decode(w).Lse? && !SwpLookalike(w)
  {
    hide Field5, Imm9, Imm19, Imm26, Nat8, Nat32, SizeOf, OpcodeOp;
  }

  /** The emulator takes exactly the BCAX instructions, with their operands. */
  lemma DecodeBcaxAgrees(w: bv32)
    ensures DecodeBcax(w).Some? <==> Decode(w).Bcax?
    ensures DecodeBcax(w).Some? ==> BcaxInstr(DecodeBcax(w).value) == Decode(w)
  {
    hide *;
    if DecodeBcaxMask(w) {
      BcaxTaken(w);
    } else {
      BcaxRefused(w);
    }
  }

  predicate DecodeBcaxMask(w: bv32) {
    w & 0xFFE0_8000 == 0xCE20_0000
  }

  lemma BcaxTaken(w: bv32)
    requires DecodeBcaxMask(w)
    ensures DecodeBcax(w).Some? && Decode(w).Bcax? && Decode(w) == BcaxInstr(DecodeBcax(w).value)
  {
    hide Field5, Imm9, Imm19, Imm26, Nat8, Nat32, SizeOf, OpcodeOp, DecodeMemory;
  }

  lemma BcaxRefused(w: bv32)
    requires !DecodeBcaxMask(w)
    ensures DecodeBcax(w).None? && !Decode(w).Bcax?
  {
    hide Field5, Imm9, Imm19, Imm26, Nat8, Nat32, SizeOf, OpcodeOp;
  }

  // ----- scratch registers -----

  function FreeDown(used: set<int>, r: int): RegNo
    requires r <= 16
    decreases r
  {
    if r < 9 then FreeUp(used, 17) else if r !in used then r else FreeDown(used, r - 1)
  }

  function FreeUp(used: set<int>, r: int): RegNo
    requires 17 <= r
    decreases 29 - r
  {
    if r > 28 then 8 else if r !in used then r else FreeUp(used, r + 1)
  }

  /** The scratch register for a set of registers in use. */
  function Scratch(used: set<int>): RegNo {
    FreeDown(used, 16)
  }

  method PickScratch(used: set<int>) returns (r: RegNo)
    ensures r == Scratch(used)
  {
    var k := 16;
    while k >= 9
      invariant 8 <= k <= 16
      invariant FreeDown(used, 16) == FreeDown(used, k)
    {
      if k !in used {
        return k;
      }
      k := k - 1;
    }
    k := 17;
    while k <= 28
      invariant 17 <= k <= 29
      invariant FreeDown(used, 16) == FreeUp(used, k)
    {
      if k !in used {
        return k;
      }
      k := k + 1;
    }
    return 8;
  }

  lemma {:induction false} FreeDownIs(used: set<int>, r: int)
    requires 9 <= r <= 16 && exists k :: 9 <= k <= r && k !in used
    ensures 9 <= FreeDown(used, r) <= r && FreeDown(used, r) !in used
    decreases r
  {
    if r in used {
      var k :| 9 <= k <= r && k !in used;
      FreeDownIs(used, r - 1);
    }
  }

  /** With at most seven registers in use a free one of X9 to X16 is found: never X18, FP or LR. */
  lemma ScratchFree(used: set<int>)
    requires |used| <= 7
    ensures 9 <= Scratch(used) <= 16 && Scratch(used) !in used
  {
    var low := {9, 10, 11, 12, 13, 14, 15, 16};
    if low <= used {
      SubsetSize(low, used);
    }
    var k :| k in low && k !in used;
    FreeDownIs(used, 16);
  }

  datatype Scratches = Scratches(s1: RegNo, s2: RegNo, s3: RegNo)

  /** The registers an island must not clobber before they are saved. */
  function InUse(d: Atomic): set<int> {
    {31, d.rs, d.rn, d.rt}
  }

  function ScratchesOf(d: Atomic): Scratches {
    var s1 := Scratch(InUse(d));
    var s2 := Scratch(InUse(d) + {s1});
    Scratches(s1, s2, Scratch(InUse(d) + {s1, s2}))
  }

  /** Three different registers of X9 to X16, none of them an operand. */
  lemma ScratchesDistinct(d: Atomic)
    ensures
      var c := ScratchesOf(d);
      && 9 <= c.s1 <= 16 && 9 <= c.s2 <= 16 && 9 <= c.s3 <= 16
      && c.s1 != c.s2 && c.s1 != c.s3 && c.s2 != c.s3
      && {c.s1, c.s2, c.s3} !! InUse(d)
  {
    var c := ScratchesOf(d);
    hide Scratch;
    AtMostFour(31, d.rs, d.rn, d.rt);
    ScratchFree(InUse(d));
    assert |InUse(d) + {c.s1}| <= 5;
    ScratchFree(InUse(d) + {c.s1});
    assert InUse(d) + {c.s1, c.s2} == InUse(d) + {c.s1} + {c.s2};
    ScratchFree(InUse(d) + {c.s1, c.s2});
  }

  lemma AtMostFour(a: int, b: int, c: int, d: int)
    ensures |{a, b, c, d}| <= 4
  {
    assert {a, b, c, d} == {a} + {b} + {c} + {d};
    assert |{a} + {b}| <= 2;
    assert |{a} + {b} + {c}| <= 3;
  }

  // ----- island programs -----

  /** Both sides of a signed comparison narrower than a register are sign-extended first. */
  predicate SubWord(size: Size) {
    size.Byte? || size.Half?
  }

  function SignedCond(op: LseOp): int {
    if op == LdSmax then COND_LT else COND_GT
  }

  function UnsignedCond(op: LseOp): int {
    if op == LdUmax then COND_LO else COND_HI
  }

  /** The instructions between load- and store-exclusive. */
  function OpInstrs(d: Atomic): (p: seq<Instr>)
    ensures d.op == Cas ==> |p| == 0
    ensures d.op == LdUmax || d.op == LdUmin ==> |p| == 2
    ensures d.op == LdSmax || d.op == LdSmin ==> |p| == if SubWord(d.size) then 4 else 2
    ensures d.op != Cas ==> |p| >= 1
  {
    var c, is64 := ScratchesOf(d), d.size.Dword?;
    match d.op
    case LdAdd => [AddReg(is64, c.s2, c.s1, d.rs)]
    case LdClr => [LogicReg(AndNot, is64, c.s2, c.s1, d.rs)]
    case LdEor => [LogicReg(Xor, is64, c.s2, c.s1, d.rs)]
    case LdSet => [LogicReg(Or, is64, c.s2, c.s1, d.rs)]
    case LdSmax => SignedInstrs(d)
    case LdSmin => SignedInstrs(d)
    case LdUmax => [Subs(is64, ZR, c.s1, d.rs), Csel(is64, c.s2, d.rs, c.s1, UnsignedCond(d.op))]
    case LdUmin => [Subs(is64, ZR, c.s1, d.rs), Csel(is64, c.s2, d.rs, c.s1, UnsignedCond(d.op))]
    case Swp => [LogicReg(Or, is64, c.s2, ZR, d.rs)]
    case Cas => []
  }

  function SignedInstrs(d: Atomic): (p: seq<Instr>)
    ensures |p| == if SubWord(d.size) then 4 else 2
  {
    var c, is64 := ScratchesOf(d), d.size.Dword?;
    if SubWord(d.size) then
      [Sxt(d.size, c.s2, c.s1), Sxt(d.size, c.s3, d.rs), Subs(false, ZR, c.s2, c.s3),
       Csel(is64, c.s2, d.rs, c.s1, SignedCond(d.op))]
    else
      [Subs(is64, ZR, c.s1, d.rs), Csel(is64, c.s2, d.rs, c.s1, SignedCond(d.op))]
  }

  function OpWords(d: Atomic): seq<bv32> {
    var c, is64 := ScratchesOf(d), d.size.Dword?;
    match d.op
    case LdAdd => [EncAdd(is64, c.s2, c.s1, d.rs)]
    case LdClr => [EncBic(is64, c.s2, c.s1, d.rs)]
    case LdEor => [EncEor(is64, c.s2, c.s1, d.rs)]
    case LdSet => [EncOrr(is64, c.s2, c.s1, d.rs)]
    case LdSmax => SignedWords(d)
    case LdSmin => SignedWords(d)
    case LdUmax => [EncCmp(is64, c.s1, d.rs), EncCsel(is64, c.s2, d.rs, c.s1, UnsignedCond(d.op))]
    case LdUmin => [EncCmp(is64, c.s1, d.rs), EncCsel(is64, c.s2, d.rs, c.s1, UnsignedCond(d.op))]
    case Swp => [EncMov(is64, c.s2, d.rs)]
    case Cas => []
  }

  function SignedWords(d: Atomic): seq<bv32> {
    var c, is64 := ScratchesOf(d), d.size.Dword?;
    if SubWord(d.size) then
      [if d.size.Byte? then EncSxtb(c.s2, c.s1) else EncSxth(c.s2, c.s1),
       if d.size.Byte? then EncSxtb(c.s3, d.rs) else EncSxth(c.s3, d.rs),
       EncCmp(false, c.s2, c.s3),
       EncCsel(is64, c.s2, d.rs, c.s1, SignedCond(d.op))]
    else
      [EncCmp(is64, c.s1, d.rs), EncCsel(is64, c.s2, d.rs, c.s1, SignedCond(d.op))]
  }

  function RmwSave(c: Scratches): seq<Instr> {
    [StrPre(c.s1, ZR, -16), StrPre(c.s2, ZR, -16), StrPre(c.s3, ZR, -16), MrsNzcv(c.s1), StrPre(c.s1, ZR, -16)]
  }

  function RmwSaveWords(c: Scratches): seq<bv32> {
    [EncStrPre(c.s1), EncStrPre(c.s2), EncStrPre(c.s3), EncMrsNzcv(c.s1), EncStrPre(c.s1)]
  }

  function RmwRestore(c: Scratches, back: int): seq<Instr> {
    [LdrPost(c.s1, ZR, 16), MsrNzcv(c.s1), LdrPost(c.s3, ZR, 16), LdrPost(c.s2, ZR, 16), LdrPost(c.s1, ZR, 16), Branch(back)]
  }

  function RmwRestoreWords(c: Scratches, back: int): seq<bv32> {
    [EncLdrPost(c.s1), EncMsrNzcv(c.s1), EncLdrPost(c.s3), EncLdrPost(c.s2), EncLdrPost(c.s1), EncB(back)]
  }

  /** Copy of the old memory value to the result register, unless that is the zero register. */
  function Return(d: Atomic, from: RegNo, to: RegNo): seq<Instr> {
    if to != ZR then [LogicReg(Or, d.size.Dword?, to, ZR, from)] else []
  }

  function ReturnWords(d: Atomic, from: RegNo, to: RegNo): seq<bv32> {
    if to != ZR then [EncMov(d.size.Dword?, to, from)] else []
  }

  /** The island of an atomic other than compare-and-swap; `back` is the offset of its last branch. */
  function RmwProgram(d: Atomic, back: int): seq<Instr> {
    var c := ScratchesOf(d);
    RmwSave(c) + [LoadEx(d.size, d.acquire, c.s1, d.rn)] + OpInstrs(d) +
    [StoreEx(d.size, d.release, c.s3, c.s2, d.rn), Cbnz(c.s3, -2 - |OpInstrs(d)|)] +
    Return(d, c.s1, d.rt) + RmwRestore(c, back)
  }

  function RmwWords(d: Atomic, back: int): seq<bv32> {
    var c := ScratchesOf(d);
    RmwSaveWords(c) + [EncLdxr(d.size, d.acquire, c.s1, d.rn)] + OpWords(d) +
    [EncStxr(d.size, d.release, c.s3, c.s2, d.rn), EncCbnzW(c.s3, -2 - |OpWords(d)|)] +
    ReturnWords(d, c.s1, d.rt) + RmwRestoreWords(c, back)
  }

  function CasSave(c: Scratches): seq<Instr> {
    [StrPre(c.s1, ZR, -16), StrPre(c.s2, ZR, -16), MrsNzcv(c.s1), StrPre(c.s1, ZR, -16)]
  }

  function CasSaveWords(c: Scratches): seq<bv32> {
    [EncStrPre(c.s1), EncStrPre(c.s2), EncMrsNzcv(c.s1), EncStrPre(c.s1)]
  }

  function CasLoop(d: Atomic): seq<Instr> {
    var c := ScratchesOf(d);
    [LoadEx(d.size, d.acquire, c.s2, d.rn), Subs(d.size.Dword?, ZR, c.s2, d.rs), BranchIf(COND_NE, 3),
     StoreEx(d.size, d.release, c.s1, d.rt, d.rn), Cbnz(c.s1, -4), Clrex]
  }

  function CasLoopWords(d: Atomic): seq<bv32> {
    var c := ScratchesOf(d);
    [EncLdxr(d.size, d.acquire, c.s2, d.rn), EncCmp(d.size.Dword?, c.s2, d.rs), EncBne(3),
     EncStxr(d.size, d.release, c.s1, d.rt, d.rn), EncCbnzW(c.s1, -4), CLREX]
  }

  function CasRestore(c: Scratches, back: int): seq<Instr> {
    [LdrPost(c.s1, ZR, 16), MsrNzcv(c.s1), LdrPost(c.s2, ZR, 16), LdrPost(c.s1, ZR, 16), Branch(back)]
  }

  function CasRestoreWords(c: Scratches, back: int): seq<bv32> {
    [EncLdrPost(c.s1), EncMsrNzcv(c.s1), EncLdrPost(c.s2), EncLdrPost(c.s1), EncB(back)]
  }

  /** The island of a compare-and-swap. */
  function CasProgram(d: Atomic, back: int): seq<Instr> {
    var c := ScratchesOf(d);
    CasSave(c) + CasLoop(d) + Return(d, c.s2, d.rs) + CasRestore(c, back)
  }

  function CasWords(d: Atomic, back: int): seq<bv32> {
    var c := ScratchesOf(d);
    CasSaveWords(c) + CasLoopWords(d) + ReturnWords(d, c.s2, d.rs) + CasRestoreWords(c, back)
  }

  function LseProgram(d: Atomic, back: int): seq<Instr> {
    if d.op == Cas then CasProgram(d, back) else RmwProgram(d, back)
  }

  function LseWords(d: Atomic, back: int): seq<bv32> {
    if d.op == Cas then CasWords(d, back) else RmwWords(d, back)
  }

  /** Highest vector register none of the operands uses. */
  function VecScratch(used: set<int>, r: int): RegNo
    requires r <= 31
    decreases r + 1
  {
    if r < 0 then 31 else if r !in used then r else VecScratch(used, r - 1)
  }

  function VecTemp(b: BcaxRegs): RegNo {
    VecScratch({b.vd, b.vn, b.vm, b.va}, 31)
  }

  function BcaxProgram(b: BcaxRegs, back: int): seq<Instr> {
    if b.va == b.vd then
      [VBic(b.vd, b.vm, b.vd), VEor(b.vd, b.vn, b.vd), Branch(back)]
    else
      [StrQPre(VecTemp(b), ZR, -16), VBic(VecTemp(b), b.vm, b.va), VEor(b.vd, b.vn, VecTemp(b)),
       LdrQPost(VecTemp(b), ZR, 16), Branch(back)]
  }

  function BcaxWords(b: BcaxRegs, back: int): seq<bv32> {
    if b.va == b.vd then
      [EncVBic(b.vd, b.vm, b.vd), EncVEor(b.vd, b.vn, b.vd), EncB(back)]
    else
      [EncStrQPre(VecTemp(b)), EncVBic(VecTemp(b), b.vm, b.va), EncVEor(b.vd, b.vn, VecTemp(b)),
       EncLdrQPost(VecTemp(b)), EncB(back)]
  }

  // ----- the words decode to the programs -----

  ghost predicate DecodesTo(words: seq<bv32>, program: seq<Instr>) {
    |words| == |program| && forall i :: 0 <= i < |words| ==> Decode(words[i]) == program[i]
  }

  lemma DecodesAppend(w1: seq<bv32>, p1: seq<Instr>, w2: seq<bv32>, p2: seq<Instr>)
    requires DecodesTo(w1, p1) && DecodesTo(w2, p2)
    ensures DecodesTo(w1 + w2, p1 + p2)
  {
    hide Decode;
  }

  /** A branch offset that fits the 26-bit field. */
  predicate InBranchRange(offset: int) {
    -0x200_0000 <= offset < 0x200_0000
  }

  lemma SignedDecodes(d: Atomic)
    ensures DecodesTo(SignedWords(d), SignedInstrs(d))
  {
    hide Decode, EncCmp, EncCsel, EncSxtb, EncSxth, ScratchesOf;
    var c, is64 := ScratchesOf(d), d.size.Dword?;
    DecodeCsel(is64, c.s2, d.rs, c.s1, SignedCond(d.op));
    if SubWord(d.size) {
      DecodeSxtb(c.s2, c.s1);
      DecodeSxtb(c.s3, d.rs);
      DecodeSxth(c.s2, c.s1);
      DecodeSxth(c.s3, d.rs);
      DecodeCmp(false, c.s2, c.s3);
    } else {
      DecodeCmp(is64, c.s1, d.rs);
    }
  }

  lemma UnsignedDecodes(d: Atomic)
    requires d.op == LdUmax || d.op == LdUmin
    ensures DecodesTo(OpWords(d), OpInstrs(d))
  {
    hide Decode, EncCmp, EncCsel, ScratchesOf;
    var c, is64 := ScratchesOf(d), d.size.Dword?;
    DecodeCsel(is64, c.s2, d.rs, c.s1, UnsignedCond(d.op));
    DecodeCmp(is64, c.s1, d.rs);
  }

  lemma OpDecodes(d: Atomic)
    ensures DecodesTo(OpWords(d), OpInstrs(d))
    ensures |OpInstrs(d)| == |OpWords(d)| <= 4
  {
    hide Decode, EncAdd, EncBic, EncEor, EncOrr, EncCmp, EncCsel, EncSxtb, EncSxth, ScratchesOf;
    var c, is64 := ScratchesOf(d), d.size.Dword?;
    match d.op
    case LdAdd => DecodeAdd(is64, c.s2, c.s1, d.rs);
    case LdClr => DecodeBic(is64, c.s2, c.s1, d.rs);
    case LdEor => DecodeEor(is64, c.s2, c.s1, d.rs);
    case LdSet => DecodeOrr(is64, c.s2, c.s1, d.rs);
    case LdSmax => SignedDecodes(d);
    case LdSmin => SignedDecodes(d);
    case LdUmax => UnsignedDecodes(d);
    case LdUmin => UnsignedDecodes(d);
    case Swp => DecodeOrr(is64, c.s2, ZR, d.rs);
    case Cas =>
  }

  lemma ReturnDecodes(d: Atomic, from: RegNo, to: RegNo)
    ensures DecodesTo(ReturnWords(d, from, to), Return(d, from, to))
  {
    hide Decode, EncOrr;
    DecodeOrr(d.size.Dword?, to, ZR, from);
  }

  lemma RmwSaveDecodes(c: Scratches)
    ensures DecodesTo(RmwSaveWords(c), RmwSave(c))
  {
    hide Decode, EncStrPre, EncMrsNzcv, EncMsrNzcv;
    DecodeStrPre(c.s1);
    DecodeStrPre(c.s2);
    DecodeStrPre(c.s3);
    DecodeNzcv(c.s1);
  }

  lemma RmwRestoreDecodes(c: Scratches, back: int)
    requires InBranchRange(back)
    ensures DecodesTo(RmwRestoreWords(c, back), RmwRestore(c, back))
  {
    hide Decode, EncLdrPost, EncMrsNzcv, EncMsrNzcv, EncB;
    DecodeLdrPost(c.s1);
    DecodeLdrPost(c.s2);
    DecodeLdrPost(c.s3);
    DecodeNzcv(c.s1);
    DecodeB(back);
  }

  lemma RmwStoreDecodes(d: Atomic, c: Scratches, n: int)
    requires 0 <= n <= 4
    ensures DecodesTo([EncStxr(d.size, d.release, c.s3, c.s2, d.rn), EncCbnzW(c.s3, -2 - n)],
                      [StoreEx(d.size, d.release, c.s3, c.s2, d.rn), Cbnz(c.s3, -2 - n)])
  {
    hide Decode, EncStxr, EncCbnzW;
    DecodeStxr(d.size, d.release, c.s3, c.s2, d.rn);
    DecodeCbnzW(c.s3, -2 - n);
  }

  lemma RmwLoadDecodes(d: Atomic, c: Scratches)
    ensures DecodesTo([EncLdxr(d.size, d.acquire, c.s1, d.rn)], [LoadEx(d.size, d.acquire, c.s1, d.rn)])
  {
    hide Decode, EncLdxr;
    DecodeLdxr(d.size, d.acquire, c.s1, d.rn);
  }

  lemma Decodes4(w1: seq<bv32>, p1: seq<Instr>, w2: seq<bv32>, p2: seq<Instr>,
                 w3: seq<bv32>, p3: seq<Instr>, w4: seq<bv32>, p4: seq<Instr>)
    requires DecodesTo(w1, p1) && DecodesTo(w2, p2) && DecodesTo(w3, p3) && DecodesTo(w4, p4)
    ensures DecodesTo(w1 + w2 + w3 + w4, p1 + p2 + p3 + p4)
  {
    hide *;
    DecodesAppend(w1, p1, w2, p2);
    DecodesAppend(w1 + w2, p1 + p2, w3, p3);
    DecodesAppend(w1 + w2 + w3, p1 + p2 + p3, w4, p4);
  }

  lemma RmwDecodes(d: Atomic, back: int)
    requires d.op != Cas && InBranchRange(back)
    ensures DecodesTo(RmwWords(d, back), RmwProgram(d, back))
  {
    hide Decode, DecodesTo, ScratchesOf, OpWords, OpInstrs, RmwSave, RmwSaveWords, RmwRestore, RmwRestoreWords,
      Return, ReturnWords, EncLdxr, EncStxr, EncCbnzW, InBranchRange;
    var c := ScratchesOf(d);
    var n := |OpWords(d)|;
    var load, loadW := [LoadEx(d.size, d.acquire, c.s1, d.rn)], [EncLdxr(d.size, d.acquire, c.s1, d.rn)];
    var store := [StoreEx(d.size, d.release, c.s3, c.s2, d.rn), Cbnz(c.s3, -2 - n)];
    var storeW := [EncStxr(d.size, d.release, c.s3, c.s2, d.rn), EncCbnzW(c.s3, -2 - n)];
    RmwSaveDecodes(c);
    RmwLoadDecodes(d, c);
    OpDecodes(d);
    RmwStoreDecodes(d, c, n);
    ReturnDecodes(d, c.s1, d.rt);
    RmwRestoreDecodes(c, back);
    Decodes4(RmwSaveWords(c), RmwSave(c), loadW, load, OpWords(d), OpInstrs(d), storeW, store);
    DecodesAppend(RmwSaveWords(c) + loadW + OpWords(d) + storeW, RmwSave(c) + load + OpInstrs(d) + store,
                  ReturnWords(d, c.s1, d.rt), Return(d, c.s1, d.rt));
    DecodesAppend(RmwSaveWords(c) + loadW + OpWords(d) + storeW + ReturnWords(d, c.s1, d.rt),
                  RmwSave(c) + load + OpInstrs(d) + store + Return(d, c.s1, d.rt),
                  RmwRestoreWords(c, back), RmwRestore(c, back));
  }

  lemma CasSaveDecodes(c: Scratches)
    ensures DecodesTo(CasSaveWords(c), CasSave(c))
  {
    hide Decode, EncStrPre, EncMrsNzcv, EncMsrNzcv;
    DecodeStrPre(c.s1);
    DecodeStrPre(c.s2);
    DecodeNzcv(c.s1);
  }

  lemma CasLoopDecodes(d: Atomic)
    ensures DecodesTo(CasLoopWords(d), CasLoop(d))
  {
    hide Decode, EncLdxr, EncCmp, EncBne, EncStxr, EncCbnzW, EncMrsNzcv, EncMsrNzcv, ScratchesOf;
    var c := ScratchesOf(d);
    DecodeLdxr(d.size, d.acquire, c.s2, d.rn);
    DecodeCmp(d.size.Dword?, c.s2, d.rs);
    DecodeBne(3);
    DecodeStxr(d.size, d.release, c.s1, d.rt, d.rn);
    DecodeCbnzW(c.s1, -4);
    DecodeNzcv(c.s1);
  }

  lemma CasRestoreDecodes(c: Scratches, back: int)
    requires InBranchRange(back)
    ensures DecodesTo(CasRestoreWords(c, back), CasRestore(c, back))
  {
    hide Decode, EncLdrPost, EncMrsNzcv, EncMsrNzcv, EncB;
    DecodeLdrPost(c.s1);
    DecodeLdrPost(c.s2);
    DecodeNzcv(c.s1);
    DecodeB(back);
  }

  lemma CasDecodes(d: Atomic, back: int)
    requires d.op == Cas && InBranchRange(back)
    ensures DecodesTo(CasWords(d, back), CasProgram(d, back))
  {
    hide Decode, DecodesTo, ScratchesOf, CasSave, CasSaveWords, CasLoop, CasLoopWords, CasRestore, CasRestoreWords,
      Return, ReturnWords, InBranchRange;
    var c := ScratchesOf(d);
    CasSaveDecodes(c);
    CasLoopDecodes(d);
    ReturnDecodes(d, c.s2, d.rs);
    CasRestoreDecodes(c, back);
    Decodes4(CasSaveWords(c), CasSave(c), CasLoopWords(d), CasLoop(d), ReturnWords(d, c.s2, d.rs),
             Return(d, c.s2, d.rs), CasRestoreWords(c, back), CasRestore(c, back));
  }

  lemma RmwLength(d: Atomic, back: int)
    requires d.op != Cas
    ensures |RmwWords(d, back)| == 14 + |OpWords(d)| + (if d.rt != ZR then 1 else 0)
    ensures 1 <= |OpWords(d)| <= 4
  {
    hide EncStrPre, EncLdrPost, EncMrsNzcv, EncMsrNzcv, EncLdxr, EncStxr, EncCbnzW, EncOrr, EncB, ScratchesOf, OpWords;
    OpWordCount(d);
  }

  lemma OpWordCount(d: Atomic)
    requires d.op != Cas
    ensures 1 <= |OpWords(d)| <= 4
  {
    hide EncAdd, EncBic, EncEor, EncOrr, EncCmp, EncCsel, EncSxtb, EncSxth, ScratchesOf;
  }

  lemma CasLength(d: Atomic, back: int)
    ensures |CasWords(d, back)| == 15 + (if d.rs != ZR then 1 else 0)
  {
    hide EncStrPre, EncLdrPost, EncMrsNzcv, EncMsrNzcv, EncLdxr, EncStxr, EncCbnzW, EncOrr, EncB, EncCmp, EncBne,
      ScratchesOf;
  }

  /** The processor reads the emitted words as the island program. */
  lemma LseDecodes(d: Atomic, back: int)
    requires InBranchRange(back)
    ensures DecodesTo(LseWords(d, back), LseProgram(d, back))
  {
    if d.op == Cas {
      CasDecodes(d, back);
    } else {
      RmwDecodes(d, back);
    }
  }

  // ----- ordering -----

  /** Whether an instruction accesses memory other than by a push or a pop. */
  predicate Touches(i: Instr) {
    match i
    case StrPre(_, rn, _) => rn != ZR
    case LdrPost(_, rn, _) => rn != ZR
    case StrQPre(_, rn, _) => rn != ZR
    case LdrQPost(_, rn, _) => rn != ZR
    case LoadEx(_, _, _, _) => true
    case StoreEx(_, _, _, _, _) => true
    case Lse(_, _, _, _, _, _, _) => true
    case LoadAcquire(_, _, _, _) => true
    case _ => false
  }

  /** Words l and s are the only ones that access memory: a load-exclusive and then a store-exclusive, of
      the size and at the base register of the atomic, the load with acquire ordering whenever the atomic
      has it, the store with release ordering exactly when the atomic has it. */
  ghost predicate OrderedAt(i: Instr, words: seq<bv32>, l: int, s: int)
    requires i.Lse?
  {
    && 0 <= l < s < |words|
    && Decode(words[l]).LoadEx? && Decode(words[s]).StoreEx?
    && Decode(words[l]).size == Decode(words[s]).size == i.size && Decode(words[l]).rn == Decode(words[s]).rn == i.rn
    && (i.acquire ==> Decode(words[l]).acquire) && (Decode(words[l]).acquire ==> i.acquire || i.lse == Cas)
    && Decode(words[s]).release == i.release
    && forall k :: 0 <= k < |words| && k != l && k != s ==> !Touches(Decode(words[k]))
  }

  ghost predicate Ordered(i: Instr, words: seq<bv32>)
    requires i.Lse?
  {
    exists l, s :: OrderedAt(i, words, l, s)
  }

  /** The same of a program. */
  predicate ProgramOrdered(d: Atomic, p: seq<Instr>, l: int, s: int) {
    && 0 <= l < s < |p|
    && p[l].LoadEx? && p[l].size == d.size && p[l].rn == d.rn && p[l].acquire == d.acquire
    && p[s].StoreEx? && p[s].size == d.size && p[s].rn == d.rn && p[s].release == d.release
    && forall k :: 0 <= k < |p| && k != l && k != s ==> !Touches(p[k])
  }

  lemma OpsTouchNothing(d: Atomic)
    ensures forall k :: 0 <= k < |OpInstrs(d)| ==> !Touches(OpInstrs(d)[k])
  {
    hide ScratchesOf;
  }

  lemma RmwOrdered(d: Atomic, back: int)
    requires d.op != Cas
    ensures ProgramOrdered(d, RmwProgram(d, back), 5, 6 + |OpInstrs(d)|)
  {
    OpsTouchNothing(d);
    hide ScratchesOf, OpInstrs;
  }

  lemma CasOrdered(d: Atomic, back: int)
    ensures ProgramOrdered(d, CasProgram(d, back), 4, 7)
  {
    hide ScratchesOf;
  }

  /** The branch back is the last word, and the only one that depends on where the island lies. */
  lemma BackLast(d: Atomic, back: int)
    ensures var n := |LseWords(d, 0)|;
      && n > 0 && |LseWords(d, back)| == n && LseWords(d, back)[n - 1] == EncB(back)
      && forall k :: 0 <= k < n - 1 ==> LseWords(d, back)[k] == LseWords(d, 0)[k]
  {
    hide EncStrPre, EncLdrPost, EncMrsNzcv, EncMsrNzcv, EncLdxr, EncStxr, EncCbnzW, EncOrr, EncB, EncCmp, EncBne,
      ScratchesOf, OpWords;
  }

  lemma OrderDecoded(d: Atomic, words: seq<bv32>, p: seq<Instr>, l: int, s: int)
    requires ProgramOrdered(d, p, l, s) && |words| == |p|
    requires forall k :: 0 <= k < |p| - 1 ==> Decode(words[k]) == p[k]
    requires Decode(words[|p| - 1]).Branch? && p[|p| - 1].Branch?
    ensures OrderedAt(LseInstr(d), words, l, s)
  {
    hide Decode;
  }

  /** Wherever it lies, an island keeps the ordering of the atomic it is for. */
  lemma LseOrdered(d: Atomic, back: int)
    ensures Ordered(LseInstr(d), LseWords(d, back))
  {
    hide Decode, EncB, LseWords, LseProgram, OpInstrs, OrderedAt, ProgramOrdered;
    BackLast(d, back);
    BackLast(d, 0);
    BranchWord(back);
    BranchWord(0);
    LseDecodes(d, 0);
    var l, s := if d.op == Cas then 4 else 5, if d.op == Cas then 7 else 6 + |OpInstrs(d)|;
    ProgramOrder(d, 0, l, s);
    OrderDecoded(d, LseWords(d, back), LseProgram(d, 0), l, s);
  }

  lemma ProgramOrder(d: Atomic, back: int, l: int, s: int)
    requires if d.op == Cas then l == 4 && s == 7 else l == 5 && s == 6 + |OpInstrs(d)|
    ensures ProgramOrdered(d, LseProgram(d, back), l, s)
  {
    hide OpInstrs, ProgramOrdered, RmwProgram, CasProgram;
    if d.op == Cas {
      CasOrdered(d, back);
    } else {
      RmwOrdered(d, back);
    }
  }

  lemma BcaxDecodes(b: BcaxRegs, back: int)
    requires InBranchRange(back)
    ensures DecodesTo(BcaxWords(b, back), BcaxProgram(b, back))
  {
    hide Decode, EncStrQPre, EncLdrQPost, EncVBic, EncVEor, EncB, VecTemp;
    DecodeStrQPre(VecTemp(b));
    DecodeLdrQPost(VecTemp(b));
    DecodeVBic(VecTemp(b), b.vm, b.va);
    DecodeVEor(b.vd, b.vn, VecTemp(b));
    DecodeVBic(b.vd, b.vm, b.vd);
    DecodeVEor(b.vd, b.vn, b.vd);
    DecodeB(back);
  }
}
