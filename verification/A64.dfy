/** The part of the A64 machine that machismo's branch islands use, next to the ARMv8.1 and later
    instructions they replace. Behaviour follows sections C6.2 (base instructions) and C7.2
    (Advanced SIMD) of the Arm Architecture Reference Manual, DDI 0487.

    General registers hold integers in 0 .. 2^64, vector registers 16 bytes; the program counter
    counts 32-bit words. Code is separate from data. */
module A64 {
  import opened A64Memory
  import opened BitFields

  type Code = map<int, bv32>

  type RegNo = r: int | 0 <= r < 32

  /** Register number 31: the zero register, or SP where an instruction takes a base address. */
  const ZR: RegNo := 31

  datatype Flags = Flags(n: bool, z: bool, c: bool, v: bool)

  /** The exclusive monitor: the access the last load-exclusive made, until something clears it. */
  datatype Monitor = Open | Exclusive(addr: int, size: Size)

  const VEC_ZERO: seq<bv8> := [0, 0, 0, 0, 0, 0, 0, 0, 0, 0, 0, 0, 0, 0, 0, 0]

  type Vec = q: seq<bv8> | |q| == 16 witness VEC_ZERO

  datatype State = State(
    x: map<int, U64>,
    sp: U64,
    flags: Flags,
    q: map<int, Vec>,
    mem: Memory,
    monitor: Monitor,
    pc: int)

  function X(s: State, r: int): U64 {
    if r != ZR && r in s.x then s.x[r] else 0
  }

  function Base(s: State, r: int): U64 {
    if r == ZR then s.sp else X(s, r)
  }

  function SetX(s: State, r: int, v: U64): State {
    if r == ZR then s else s.(x := s.x[r := v])
  }

  function SetBase(s: State, r: int, v: U64): State {
    if r == ZR then s.(sp := v) else SetX(s, r, v)
  }

  function Q(s: State, r: int): Vec {
    if r in s.q then s.q[r] else VEC_ZERO
  }

  function SetQ(s: State, r: int, v: Vec): State {
    s.(q := s.q[r := v])
  }

  function Advance(s: State, words: int): State {
    s.(pc := s.pc + words)
  }

  // ----- arithmetic of the base instructions -----

  function Width(is64: bool): int {
    if is64 then TWO64 else TWO32
  }

  datatype Bitwise = AndNot | Xor | Or

  function Bit(op: Bitwise, a: bool, b: bool): bool {
    match op
    case AndNot => a && !b
    case Xor => a != b
    case Or => a || b
  }

  /** The low n bits of a and b combined bit by bit. */
  function Combine(op: Bitwise, a: int, b: int, n: nat): int
    decreases n, 0
  {
    if n == 0 then 0
    else (if Bit(op, a % 2 == 1, b % 2 == 1) then 1 else 0) + 2 * Combine(op, a / 2, b / 2, n - 1)
  }

  function BitCount(range: int): nat {
    if range == TWO64 then 64 else if range == TWO32 then 32 else if range == TWO16 then 16 else 8
  }

  function Logical(op: Bitwise, a: int, b: int, range: int): int {
    Combine(op, a, b, BitCount(range))
  }

  function Signed(range: int, v: int): int {
    if v < range / 2 then v else v - range
  }

  /** AddWithCarry(a, NOT b, 1) of the architecture's shared pseudocode: the flags of a comparison. */
  function CompareFlags(range: int, a: int, b: int): Flags
    requires range > 0
  {
    var notB := range - 1 - b;
    var unsignedSum := a + notB + 1;
    var signedSum := Signed(range, a) + Signed(range, notB) + 1;
    var result := unsignedSum % range;
    Flags(result >= range / 2, result == 0, result != unsignedSum, Signed(range, result) != signedSum)
  }

  /** ConditionHolds of the shared pseudocode. */
  predicate Holds(cond: int, f: Flags) {
    var base :=
      match cond / 2
      case 0 => f.z
      case 1 => f.c
      case 2 => f.n
      case 3 => f.v
      case 4 => f.c && !f.z
      case 5 => f.n == f.v
      case 6 => f.n == f.v && !f.z
      case _ => true;
    if cond % 2 == 1 && cond != 15 then !base else base
  }

  /** NZCV as MRS reads it: bits 31 to 28. */
  function FlagsWord(f: Flags): U64 {
    (if f.n then 0x8000_0000 else 0) + (if f.z then 0x4000_0000 else 0) +
    (if f.c then 0x2000_0000 else 0) + (if f.v then 0x1000_0000 else 0)
  }

  function WordFlags(w: int): Flags {
    Flags(w / 0x8000_0000 % 2 == 1, w / 0x4000_0000 % 2 == 1, w / 0x2000_0000 % 2 == 1, w / 0x1000_0000 % 2 == 1)
  }

  lemma FlagsWordRoundTrip(f: Flags)
    ensures WordFlags(FlagsWord(f)) == f
  {
  }

  function SignExtended(size: Size, v: int): (r: int)
    requires size.Byte? || size.Half?
  {
    Signed(Range(size), v % Range(size)) % TWO32
  }

  // ----- vectors -----

  function StoreVec(m: Memory, a: int, bytes: seq<bv8>): Memory
    decreases |bytes|
  {
    if bytes == [] then m else StoreVec(Put(m, a, bytes[0]), a + 1, bytes[1..])
  }

  function LoadVec(m: Memory, a: int): Vec {
    seq(16, i requires 0 <= i < 16 => At(m, a + i))
  }

  /** Vn AND NOT Vm, byte by byte. */
  function VecBic(n: Vec, m: Vec): Vec {
    seq(16, i requires 0 <= i < 16 => n[i] & !m[i])
  }

  function VecEor(n: Vec, m: Vec): Vec {
    seq(16, i requires 0 <= i < 16 => n[i] ^ m[i])
  }

  // ----- instructions -----

  datatype LseOp = LdAdd | LdClr | LdEor | LdSet | LdSmax | LdSmin | LdUmax | LdUmin | Swp | Cas

  datatype Instr =
    | StrPre(rt: RegNo, rn: RegNo, imm: int)
    | LdrPost(rt: RegNo, rn: RegNo, imm: int)
    | StrQPre(vt: RegNo, rn: RegNo, imm: int)
    | LdrQPost(vt: RegNo, rn: RegNo, imm: int)
    | MrsNzcv(rt: RegNo)
    | MsrNzcv(rt: RegNo)
    | LoadEx(size: Size, acquire: bool, rt: RegNo, rn: RegNo)
    | StoreEx(size: Size, release: bool, rs: RegNo, rt: RegNo, rn: RegNo)
    | Clrex
    | AddReg(is64: bool, rd: RegNo, rn: RegNo, rm: RegNo)
    | LogicReg(op: Bitwise, is64: bool, rd: RegNo, rn: RegNo, rm: RegNo)
    | Subs(is64: bool, rd: RegNo, rn: RegNo, rm: RegNo)
    | Csel(is64: bool, rd: RegNo, rn: RegNo, rm: RegNo, cond: int)
    | Sxt(from: Size, rd: RegNo, rn: RegNo)
    | BranchIf(cond: int, offset: int)
    | Cbnz(rt: RegNo, offset: int)
    | Branch(offset: int)
    | VBic(vd: RegNo, vn: RegNo, vm: RegNo)
    | VEor(vd: RegNo, vn: RegNo, vm: RegNo)
    | Lse(lse: LseOp, size: Size, acquire: bool, release: bool, rs: RegNo, rt: RegNo, rn: RegNo)
    | Bcax(vd: RegNo, vn: RegNo, vm: RegNo, va: RegNo)
    | LoadAcquire(size: Size, rcpc: bool, rt: RegNo, rn: RegNo)
    | Unmodelled(word: bv32)

  /** What an LSE read-modify-write stores, given the old memory value. */
  function Rmw(op: LseOp, size: Size, was: int, source: int): int {
    var r := Range(size);
    var v := source % r;
    match op
    case LdAdd => (was + v) % r
    case LdClr => Logical(AndNot, was, v, r)
    case LdEor => Logical(Xor, was, v, r)
    case LdSet => Logical(Or, was, v, r)
    case LdSmax => if Signed(r, was) > Signed(r, v) then was else v
    case LdSmin => if Signed(r, was) > Signed(r, v) then v else was
    case LdUmax => if was > v then was else v
    case LdUmin => if was > v then v else was
    case Swp => v
    case Cas => v
  }

  /** Effect on memory of one LSE instruction, executed as one atomic access. */
  function LseMemory(i: Instr, s: State): Memory
    requires i.Lse?
  {
    var addr := Base(s, i.rn);
    var was := Load(s.mem, addr, i.size);
    if i.lse == Cas then
      if was == X(s, i.rs) % Range(i.size) then Store(s.mem, addr, i.size, X(s, i.rt)) else s.mem
    else
      Store(s.mem, addr, i.size, Rmw(i.lse, i.size, was, X(s, i.rs)))
  }

  /** The register an LSE instruction returns the old memory value in. */
  function LseDest(i: Instr): RegNo
    requires i.Lse?
  {
    if i.lse == Cas then i.rs else i.rt
  }

  function LseExec(i: Instr, s: State): State
    requires i.Lse?
  {
    var was := Load(s.mem, Base(s, i.rn), i.size);
    Advance(SetX(s.(mem := LseMemory(i, s)), LseDest(i), was % TWO64), 1)
  }

  function BcaxExec(i: Instr, s: State): State
    requires i.Bcax?
  {
    Advance(SetQ(s, i.vd, VecEor(Q(s, i.vn), VecBic(Q(s, i.vm), Q(s, i.va)))), 1)
  }

  function StoreExExec(i: Instr, s: State): State
    requires i.StoreEx?
  {
    var addr := Base(s, i.rn);
    var s1 := s.(monitor := Open);
    if s.monitor == Exclusive(addr, i.size) then
      Advance(SetX(s1.(mem := Store(s.mem, addr, i.size, X(s, i.rt))), i.rs, 0), 1)
    else
      Advance(SetX(s1, i.rs, 1), 1)
  }

  /** One step of the processor. An unmodelled word does not execute. */
  function Exec(i: Instr, s: State): State {
    match i
    case StrPre(rt, rn, imm) =>
      var a := Wrap(Base(s, rn) + imm);
      Advance(SetBase(s.(mem := Store(s.mem, a, Dword, X(s, rt))), rn, a), 1)
    case LdrPost(rt, rn, imm) =>
      var a := Base(s, rn);
      Advance(SetX(SetBase(s, rn, Wrap(a + imm)), rt, Wrap(Load(s.mem, a, Dword))), 1)
    case StrQPre(vt, rn, imm) =>
      var a := Wrap(Base(s, rn) + imm);
      Advance(SetBase(s.(mem := StoreVec(s.mem, a, Q(s, vt))), rn, a), 1)
    case LdrQPost(vt, rn, imm) =>
      var a := Base(s, rn);
      Advance(SetQ(SetBase(s, rn, Wrap(a + imm)), vt, LoadVec(s.mem, a)), 1)
    case MrsNzcv(rt) => Advance(SetX(s, rt, FlagsWord(s.flags)), 1)
    case MsrNzcv(rt) => Advance(s.(flags := WordFlags(X(s, rt))), 1)
    case LoadEx(size, _, rt, rn) =>
      var a := Base(s, rn);
      Advance(SetX(s.(monitor := Exclusive(a, size)), rt, Wrap(Load(s.mem, a, size))), 1)
    case StoreEx(_, _, _, _, _) => StoreExExec(i, s)
    case Clrex => Advance(s.(monitor := Open), 1)
    case AddReg(is64, rd, rn, rm) =>
      Advance(SetX(s, rd, Wrap((X(s, rn) + X(s, rm)) % Width(is64))), 1)
    case LogicReg(op, is64, rd, rn, rm) =>
      Advance(SetX(s, rd, Wrap(Logical(op, X(s, rn), X(s, rm), Width(is64)))), 1)
    case Subs(is64, rd, rn, rm) =>
      var r := Width(is64);
      var a, b := X(s, rn) % r, X(s, rm) % r;
      Advance(SetX(s.(flags := CompareFlags(r, a, b)), rd, Wrap((a - b) % r)), 1)
    case Csel(is64, rd, rn, rm, cond) =>
      Advance(SetX(s, rd, Wrap((if Holds(cond, s.flags) then X(s, rn) else X(s, rm)) % Width(is64))), 1)
    case Sxt(from, rd, rn) =>
      if from.Byte? || from.Half? then Advance(SetX(s, rd, Wrap(SignExtended(from, X(s, rn)))), 1) else s
    case BranchIf(cond, offset) => Advance(s, if Holds(cond, s.flags) then offset else 1)
    case Cbnz(rt, offset) => Advance(s, if X(s, rt) % TWO32 != 0 then offset else 1)
    case Branch(offset) => Advance(s, offset)
    case VBic(vd, vn, vm) => Advance(SetQ(s, vd, VecBic(Q(s, vn), Q(s, vm))), 1)
    case VEor(vd, vn, vm) => Advance(SetQ(s, vd, VecEor(Q(s, vn), Q(s, vm))), 1)
    case Lse(_, _, _, _, _, _, _) => LseExec(i, s)
    case Bcax(_, _, _, _) => BcaxExec(i, s)
    case LoadAcquire(size, _, rt, rn) => Advance(SetX(s, rt, Wrap(Load(s.mem, Base(s, rn), size))), 1)
    case Unmodelled(_) => s
  }

  // Instructions on their own, for proofs that hide Exec.

  lemma ExecAddReg(is64: bool, rd: RegNo, rn: RegNo, rm: RegNo, s: State)
    ensures Exec(AddReg(is64, rd, rn, rm), s) == Advance(SetX(s, rd, Wrap((X(s, rn) + X(s, rm)) % Width(is64))), 1)
  {
  }

  lemma ExecLogicReg(op: Bitwise, is64: bool, rd: RegNo, rn: RegNo, rm: RegNo, s: State)
    ensures Exec(LogicReg(op, is64, rd, rn, rm), s) ==
            Advance(SetX(s, rd, Wrap(Logical(op, X(s, rn), X(s, rm), Width(is64)))), 1)
  {
  }

  lemma ExecSubs(is64: bool, rd: RegNo, rn: RegNo, rm: RegNo, s: State)
    ensures
      var r := Width(is64);
      Exec(Subs(is64, rd, rn, rm), s) ==
      Advance(SetX(s.(flags := CompareFlags(r, X(s, rn) % r, X(s, rm) % r)), rd,
                   Wrap((X(s, rn) % r - X(s, rm) % r) % r)), 1)
  {
  }

  lemma ExecCsel(is64: bool, rd: RegNo, rn: RegNo, rm: RegNo, cond: int, s: State)
    ensures Exec(Csel(is64, rd, rn, rm, cond), s) ==
            Advance(SetX(s, rd, Wrap((if Holds(cond, s.flags) then X(s, rn) else X(s, rm)) % Width(is64))), 1)
  {
  }

  lemma ExecSxt(from: Size, rd: RegNo, rn: RegNo, s: State)
    requires from.Byte? || from.Half?
    ensures Exec(Sxt(from, rd, rn), s) == Advance(SetX(s, rd, Wrap(SignExtended(from, X(s, rn)))), 1)
  {
  }

  lemma ZeroRegister(s: State)
    ensures X(s, ZR) == 0
  {
  }

  // ----- decoding -----

  function Field5(w: bv32, at: bv5): RegNo {
    Nat8(((w >> at) & 0x1F) as bv8) % 32
  }

  function SizeOf(w: bv32): Size {
    var f := w >> 30;
    if f == 0 then Byte else if f == 1 then Half else if f == 2 then Word else Dword
  }

  predicate BitSet(w: bv32, at: bv5) {
    (w >> at) & 1 == 1
  }

  function Imm9(w: bv32): int {
    var u := Nat32((w >> 12) & 0x1FF);
    if u < 0x100 then u else u - 0x200
  }

  function Imm19(w: bv32): int {
    var u := Nat32((w >> 5) & 0x7_FFFF);
    if u < 0x4_0000 then u else u - 0x8_0000
  }

  function Imm26(w: bv32): int {
    var u := Nat32(w & 0x3FF_FFFF);
    if u < 0x200_0000 then u else u - 0x400_0000
  }

  function OpcodeOp(opc: bv32): LseOp {
    if opc == 0 then LdAdd
    else if opc == 1 then LdClr
    else if opc == 2 then LdEor
    else if opc == 3 then LdSet
    else if opc == 4 then LdSmax
    else if opc == 5 then LdSmin
    else if opc == 6 then LdUmax
    else LdUmin
  }

  /** Loads, stores and atomics. LDXR ignores Rs and STXR ignores Rt2, as the architecture's decode does. */
  function DecodeMemory(w: bv32): Instr {
    var rt, rn, rs := Field5(w, 0), Field5(w, 5), Field5(w, 16);
    if w & 0xFFE0_0C00 == 0xF800_0C00 then StrPre(rt, rn, Imm9(w))
    else if w & 0xFFE0_0C00 == 0xF840_0400 then LdrPost(rt, rn, Imm9(w))
    else if w & 0xFFE0_0C00 == 0x3C80_0C00 then StrQPre(rt, rn, Imm9(w))
    else if w & 0xFFE0_0C00 == 0x3CC0_0400 then LdrQPost(rt, rn, Imm9(w))
    else if w & 0x3FE0_0000 == 0x0840_0000 then LoadEx(SizeOf(w), BitSet(w, 15), rt, rn)
    else if w & 0x3FE0_0000 == 0x0800_0000 then StoreEx(SizeOf(w), BitSet(w, 15), rs, rt, rn)
    else if w & 0x3FE0_8000 == 0x08C0_8000 then LoadAcquire(SizeOf(w), false, rt, rn)
    else if w & 0x3FFF_FC00 == 0x38BF_C000 then LoadAcquire(SizeOf(w), true, rt, rn)
    else if w & 0x3F20_8C00 == 0x3820_0000 then
      Lse(OpcodeOp((w >> 12) & 7), SizeOf(w), BitSet(w, 23), BitSet(w, 22), rs, rt, rn)
    else if w & 0x3F20_FC00 == 0x3820_8000 then
      Lse(Swp, SizeOf(w), BitSet(w, 23), BitSet(w, 22), rs, rt, rn)
    else if w & 0x3FA0_7C00 == 0x08A0_7C00 then
      Lse(Cas, SizeOf(w), BitSet(w, 22), BitSet(w, 15), rs, rt, rn)
    else Unmodelled(w)
  }

  /** Data processing, branches, system and vector instructions. */
  function DecodeOther(w: bv32): Instr {
    var rd, rn, rm := Field5(w, 0), Field5(w, 5), Field5(w, 16);
    var is64 := BitSet(w, 31);
    if w & 0xFFFF_FFE0 == 0xD53B_4200 then MrsNzcv(rd)
    else if w & 0xFFFF_FFE0 == 0xD51B_4200 then MsrNzcv(rd)
    else if w & 0xFFFF_F0FF == 0xD503_305F then Clrex
    else if w & 0x7FE0_FC00 == 0x0B00_0000 then AddReg(is64, rd, rn, rm)
    else if w & 0x7FE0_FC00 == 0x0A20_0000 then LogicReg(AndNot, is64, rd, rn, rm)
    else if w & 0x7FE0_FC00 == 0x4A00_0000 then LogicReg(Xor, is64, rd, rn, rm)
    else if w & 0x7FE0_FC00 == 0x2A00_0000 then LogicReg(Or, is64, rd, rn, rm)
    else if w & 0x7FE0_FC00 == 0x6B00_0000 then Subs(is64, rd, rn, rm)
    else if w & 0x7FE0_0C00 == 0x1A80_0000 then Csel(is64, rd, rn, rm, Nat8(((w >> 12) & 0xF) as bv8))
    else if w & 0xFFFF_FC00 == 0x1300_1C00 then Sxt(Byte, rd, rn)
    else if w & 0xFFFF_FC00 == 0x1300_3C00 then Sxt(Half, rd, rn)
    else if w & 0xFF00_0010 == 0x5400_0000 then BranchIf(Nat8((w & 0xF) as bv8), Imm19(w))
    else if w & 0xFF00_0000 == 0x3500_0000 then Cbnz(rd, Imm19(w))
    else if w & 0xFC00_0000 == 0x1400_0000 then Branch(Imm26(w))
    else if w & 0xFFE0_FC00 == 0x4E60_1C00 then VBic(rd, rn, rm)
    else if w & 0xFFE0_FC00 == 0x6E20_1C00 then VEor(rd, rn, rm)
    else if w & 0xFFE0_8000 == 0xCE20_0000 then Bcax(rd, rn, rm, Field5(w, 10))
    else Unmodelled(w)
  }

  /** Bits 27 and 25 separate loads and stores (x1x0) from everything else. */
  function Decode(w: bv32): Instr {
    if (w >> 27) & 1 == 1 && (w >> 25) & 1 == 0 then DecodeMemory(w) else DecodeOther(w)
  }

  /** One step of the program: fetch, decode, execute. */
  function Step(code: Code, s: State): State
    requires s.pc in code
  {
    Exec(Decode(code[s.pc]), s)
  }
}
