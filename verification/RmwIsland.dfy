/** The island of a read-modify-write atomic, step by step under interference: what holds at every
    word of the island, and that each step keeps it. */
module RmwIsland {
  import opened Basics
  import opened A64Memory
  import opened A64
  import opened LseValues
  import opened IsaEmul
  import opened StackFrame
  import opened Interleaving

  /** One execution of a patched instruction: the atomic, the state at the patched word, and where
      its island begins. */
  datatype Ctx = Ctx(d: Atomic, s0: State, base: int)

  /** Where the accesses of the loop go: the base register's address, or, with SP as base, the slot of the
      saved flags, since the pushes have moved SP. */
  function Target(c: Ctx): int {
    if c.d.rn == ZR then Slot(c.s0.sp, 3) else X(c.s0, c.d.rn)
  }

  /** A base register other than SP leads outside the frame. */
  ghost predicate Sound(c: Ctx) {
    && c.d.op != Cas
    && (c.d.rn != ZR ==> Apart(Target(c), Bytes(c.d.size), Frame(c.s0.sp), FRAME))
  }

  function Regs3(c: Ctx): set<int> {
    var t := ScratchesOf(c.d);
    {t.s1, t.s2, t.s3}
  }

  /** What the island's loop makes of memory m. */
  function MemAfter(c: Ctx, m: Memory): Memory {
    var v := IslandValue(c.d.op, c.d.size, Load(m, Target(c), c.d.size), X(c.s0, c.d.rs));
    Store(m, Target(c), c.d.size, v)
  }

  /** The flags word on the stack. With SP as base the loop's store has changed it. */
  function FlagSlot(c: Ctx, lin: Option<Memory>): U64 {
    if lin.Some? && c.d.rn == ZR then Wrap(Load(MemAfter(c, lin.value), Slot(c.s0.sp, 3), Dword))
    else FlagsWord(c.s0.flags)
  }

  /** The values on the stack, in the order they were pushed. */
  function Pushes(c: Ctx, lin: Option<Memory>): seq<int> {
    var t := ScratchesOf(c.d);
    [X(c.s0, t.s1), X(c.s0, t.s2), X(c.s0, t.s3), FlagSlot(c, lin)]
  }

  /** The state the island leaves when its loop sees memory m. */
  function After(c: Ctx, m: Memory): State {
    var s := c.s0.(mem := MemAfter(c, m), flags := WordFlags(FlagSlot(c, Some(m))));
    Advance(SetX(s, c.d.rt, Wrap(Load(m, Target(c), c.d.size))), 1)
  }

  // Positions in the island.
  function StoreAt(c: Ctx): int { 6 + |OpInstrs(c.d)| }
  function CbnzAt(c: Ctx): int { StoreAt(c) + 1 }
  function RestoreAt(c: Ctx): int { StoreAt(c) + 2 + if c.d.rt != ZR then 1 else 0 }
  function Length(c: Ctx): int { RestoreAt(c) + 6 }

  ghost predicate Stack(c: Ctx, s: State, depth: nat, lin: Option<Memory>)
    requires depth <= 4
  {
    Holding(c.s0, s, Pushes(c, lin)[..depth])
  }

  /** All general registers but the scratch registers are as in t. */
  ghost predicate Others(c: Ctx, s: State, t: State) {
    forall r :: r !in Regs3(c) ==> X(s, r) == X(t, r)
  }

  /** How far the instructions between load and store have come, j of them done. */
  ghost predicate Computed(c: Ctx, s: State, j: int) {
    var d, t := c.d, ScratchesOf(c.d);
    var was, source := X(s, t.s1), X(c.s0, d.rs);
    if j == |OpInstrs(d)| then X(s, t.s2) == IslandValue(d.op, d.size, was, source)
    else if (d.op == LdSmax || d.op == LdSmin) && SubWord(d.size) then
      && (j >= 1 ==> X(s, t.s2) == SignExtended(d.size, was))
      && (j >= 2 ==> X(s, t.s3) == SignExtended(d.size, source))
      && (j >= 3 ==> s.flags == CompareFlags(TWO32, SignExtended(d.size, was), SignExtended(d.size, source)))
    else j >= 1 ==> s.flags == CompareFlags(Wide(d.size), was % Wide(d.size), source % Wide(d.size))
  }

  /** Between load- and store-exclusive: if the monitor survived, memory still holds what was loaded. */
  ghost predicate Loaded(c: Ctx, s: State) {
    var v := X(s, ScratchesOf(c.d).s1);
    && 0 <= v < Range(c.d.size)
    && (s.monitor == Exclusive(Target(c), c.d.size) ==> Load(s.mem, Target(c), c.d.size) == v)
  }

  /** The scratch register holds the value the instruction returns. */
  ghost predicate Returned(c: Ctx, s: State, m: Memory) {
    X(s, ScratchesOf(c.d).s1) == Load(m, Target(c), c.d.size)
  }

  /** Before the k-th word, while registers are being saved. */
  ghost predicate Saving(c: Ctx, s: State, k: int) {
    && 0 <= k <= 4
    && Stack(c, s, if k == 4 then 3 else k, None)
    && Others(c, s, c.s0)
    && (k <= 3 ==> s.flags == c.s0.flags && forall r :: X(s, r) == X(c.s0, r))
    && (k == 4 ==> X(s, ScratchesOf(c.d).s1) == FlagsWord(c.s0.flags))
  }

  /** Before the k-th word, from the load-exclusive to the copy of the result. `lin` is the memory
      the store-exclusive that succeeded found, once it has. */
  ghost predicate Looping(c: Ctx, s: State, k: int, lin: Option<Memory>) {
    && 5 <= k < RestoreAt(c)
    && Stack(c, s, 4, lin)
    && Others(c, s, c.s0)
    && (k < CbnzAt(c) ==> lin.None?)
    && (6 <= k <= StoreAt(c) ==> Loaded(c, s) && Computed(c, s, k - 6))
    && (k == CbnzAt(c) ==> X(s, ScratchesOf(c.d).s3) == if lin.Some? then 0 else 1)
    && (k > CbnzAt(c) ==> lin.Some?)
    && (k >= CbnzAt(c) && lin.Some? ==> Returned(c, s, lin.value) && s.monitor == Open)
  }

  /** Before the k-th word of the restore. */
  ghost predicate Restoring(c: Ctx, s: State, k: int, m: Memory) {
    var t, s0 := ScratchesOf(c.d), c.s0;
    && 0 <= k <= 5 && s.monitor == Open
    && Stack(c, s, if k == 0 then 4 else if k <= 2 then 3 else 5 - k, Some(m))
    && Others(c, s, After(c, m))
    && (k == 1 ==> X(s, t.s1) == FlagSlot(c, Some(m)))
    && (k >= 2 ==> s.flags == After(c, m).flags)
    && (k >= 3 ==> X(s, t.s3) == X(s0, t.s3))
    && (k >= 4 ==> X(s, t.s2) == X(s0, t.s2))
    && (k >= 5 ==> X(s, t.s1) == X(s0, t.s1))
  }

  /** What holds before the k-th word of the island. */
  ghost predicate InIsland(c: Ctx, s: State, k: int, lin: Option<Memory>) {
    if k <= 4 then Saving(c, s, k) && lin.None?
    else if k < RestoreAt(c) then Looping(c, s, k, lin)
    else lin.Some? && Restoring(c, s, k - RestoreAt(c), lin.value)
  }

  /** Before the patched word, in the island, or past the patched word. */
  ghost predicate Inv(c: Ctx, s: State, lin: Option<Memory>) {
    if s.pc == c.s0.pc then lin.None? && SameCore(s, c.s0) && s.q == c.s0.q
    else if s.pc == c.s0.pc + 1 then lin.Some? && SameCore(s, After(c, lin.value)) && s.monitor == Open
    else InIsland(c, s, s.pc - c.base, lin)
  }

  function Back(c: Ctx): int {
    c.s0.pc + 1 - (c.base + Length(c) - 1)
  }

  /** The instruction at each position. */
  function InstrAt(c: Ctx, k: int): Instr {
    var d, t, n, e := c.d, ScratchesOf(c.d), |OpInstrs(c.d)|, RestoreAt(c);
    if k <= 4 then
      if k == 0 then StrPre(t.s1, ZR, -16) else if k == 1 then StrPre(t.s2, ZR, -16)
      else if k == 2 then StrPre(t.s3, ZR, -16) else if k == 3 then MrsNzcv(t.s1) else StrPre(t.s1, ZR, -16)
    else if k == 5 then LoadEx(d.size, d.acquire, t.s1, d.rn)
    else if k < StoreAt(c) then OpInstrs(d)[k - 6]
    else if k == StoreAt(c) then StoreEx(d.size, d.release, t.s3, t.s2, d.rn)
    else if k == CbnzAt(c) then Cbnz(t.s3, -2 - n)
    else if k < e then LogicReg(Or, d.size.Dword?, d.rt, ZR, t.s1)
    else if k == e + 1 then MsrNzcv(t.s1)
    else if k == e + 5 then Branch(Back(c))
    else LdrPost(if k == e + 2 then t.s3 else if k == e + 3 then t.s2 else t.s1, ZR, 16)
  }

  lemma Layout(c: Ctx)
    ensures |RmwProgram(c.d, Back(c))| == Length(c)
    ensures forall k :: 0 <= k < Length(c) ==> RmwProgram(c.d, Back(c))[k] == InstrAt(c, k)
  {
    hide ScratchesOf, OpInstrs;
  }

  // ----- one step at each kind of word -----

  /** A push of register r saves the next value and leaves shared memory alone. */
  lemma PushNext(c: Ctx, s: State, r: RegNo, n: nat)
    requires n < 4 && Stack(c, s, n, None) && X(s, r) == Pushes(c, None)[n]
    ensures
      var s' := Exec(StrPre(r, ZR, -16), s);
      Stack(c, s', n + 1, None) && SameShared(s.mem, s'.mem, c.s0.sp) && s'.x == s.x && s'.flags == s.flags && s'.pc == s.pc + 1
  {
    hide ScratchesOf, Exec, Holding, AgreeOutside;
    PushStep(c.s0, s, Pushes(c, None)[..n], r);
    assert Pushes(c, None)[..n + 1] == Pushes(c, None)[..n] + [Pushes(c, None)[n]];
  }

  lemma SavePushStep(c: Ctx, s: State, k: int)
    requires Saving(c, s, k) && k <= 2
    ensures
      var t := ScratchesOf(c.d);
      var s' := Exec(StrPre(if k == 0 then t.s1 else if k == 1 then t.s2 else t.s3, ZR, -16), s);
      Saving(c, s', k + 1) && SameShared(s.mem, s'.mem, c.s0.sp) && s'.pc == s.pc + 1
  {
    hide Store, Load, ScratchesOf, AgreeOutside, Saved, Exec, FlagsWord;
    var t := ScratchesOf(c.d);
    PushNext(c, s, if k == 0 then t.s1 else if k == 1 then t.s2 else t.s3, k);
    hide Stack;
  }

  lemma SaveFlagsStep(c: Ctx, s: State)
    requires Saving(c, s, 3)
    ensures
      var s' := Exec(MrsNzcv(ScratchesOf(c.d).s1), s);
      Saving(c, s', 4) && SameShared(s.mem, s'.mem, c.s0.sp) && s'.pc == s.pc + 1
  {
    hide Load, ScratchesOf, Saved, FlagsWord, At;
    ScratchesDistinct(c.d);
  }

  lemma PushFlagsStep(c: Ctx, s: State)
    requires Saving(c, s, 4) && Sound(c)
    ensures
      var s' := Exec(StrPre(ScratchesOf(c.d).s1, ZR, -16), s);
      Looping(c, s', 5, None) && SameShared(s.mem, s'.mem, c.s0.sp) && s'.pc == s.pc + 1
  {
    hide Store, Load, ScratchesOf, AgreeOutside, Saved, Exec, FlagsWord;
    hide Stack, Loaded, Computed, Returned, OpInstrs;
    PushNext(c, s, ScratchesOf(c.d).s1, 3);
    OpCount(c.d);
  }

  /** Inside the loop the base register, or SP, leads to the target. */
  lemma BaseIs(c: Ctx, s: State, lin: Option<Memory>)
    requires Stack(c, s, 4, lin) && Others(c, s, c.s0)
    ensures Base(s, c.d.rn) == Target(c)
  {
    hide ScratchesOf, Saved, MemAfter;
    ScratchesDistinct(c.d);
  }

  lemma LoadStep(c: Ctx, s: State)
    requires Looping(c, s, 5, None) && Sound(c)
    ensures
      var s' := Exec(LoadEx(c.d.size, c.d.acquire, ScratchesOf(c.d).s1, c.d.rn), s);
      Looping(c, s', 6, None) && s'.mem == s.mem && s'.monitor == Exclusive(Target(c), c.d.size) && s'.pc == s.pc + 1
  {
    hide Load, ScratchesOf, Saved, OpInstrs, Target, MemAfter;
    BaseIs(c, s, None);
    ScratchesDistinct(c.d);
    LoadRange(s.mem, Target(c), c.d.size);
    OpCount(c.d);
  }

  lemma OpCount(d: Atomic)
    requires d.op != Cas
    ensures 1 <= |OpInstrs(d)| <= 4
    ensures (d.op == LdSmax || d.op == LdSmin) && SubWord(d.size) ==> |OpInstrs(d)| == 4
  {
    hide ScratchesOf;
  }

  /** A step between load and store that writes flags and one of the two other scratch registers. */
  lemma RegisterStep(c: Ctx, s: State, k: int, r: RegNo, v: U64, f: Flags)
    requires Looping(c, s, k, None) && 6 <= k < StoreAt(c) && Sound(c)
    requires r == ScratchesOf(c.d).s2 || r == ScratchesOf(c.d).s3 || r == ZR
    requires Computed(c, Advance(SetX(s.(flags := f), r, v), 1), k + 1 - 6)
    ensures
      var s' := Advance(SetX(s.(flags := f), r, v), 1);
      Looping(c, s', k + 1, None) && s'.mem == s.mem && s'.monitor == s.monitor && s'.pc == s.pc + 1
  {
    hide Load, ScratchesOf, Saved, OpInstrs, Computed;
    ScratchesDistinct(c.d);
  }

  lemma SourceSame(c: Ctx, s: State)
    requires Others(c, s, c.s0)
    ensures X(s, c.d.rs) == X(c.s0, c.d.rs) && X(s, c.d.rn) == X(c.s0, c.d.rn)
  {
    hide ScratchesOf;
    ScratchesDistinct(c.d);
  }

  lemma FinalComputed(c: Ctx, s: State, v: U64, f: Flags)
    requires v == IslandValue(c.d.op, c.d.size, X(s, ScratchesOf(c.d).s1), X(c.s0, c.d.rs))
    ensures Computed(c, Advance(SetX(s.(flags := f), ScratchesOf(c.d).s2, v), 1), |OpInstrs(c.d)|)
  {
    hide ScratchesOf, OpInstrs, IslandValue;
    ScratchesDistinct(c.d);
  }

  lemma SingleInstr(d: Atomic)
    requires |OpInstrs(d)| == 1
    ensures
      var t, is64 := ScratchesOf(d), d.size.Dword?;
      OpInstrs(d)[0] ==
      match d.op
      case LdAdd => AddReg(is64, t.s2, t.s1, d.rs)
      case LdClr => LogicReg(AndNot, is64, t.s2, t.s1, d.rs)
      case LdEor => LogicReg(Xor, is64, t.s2, t.s1, d.rs)
      case LdSet => LogicReg(Or, is64, t.s2, t.s1, d.rs)
      case _ => LogicReg(Or, is64, t.s2, ZR, d.rs)
    ensures d.op in {LdAdd, LdClr, LdEor, LdSet, Swp}
  {
    hide ScratchesOf;
  }

  lemma SimpleExec(d: Atomic, s: State)
    requires |OpInstrs(d)| == 1
    ensures
      var t := ScratchesOf(d);
      Exec(OpInstrs(d)[0], s) ==
      Advance(SetX(s, t.s2, Wrap(IslandValue(d.op, d.size, X(s, t.s1), X(s, d.rs)))), 1)
  {
    hide Exec, Logical, ScratchesOf, CompareFlags, Holds, SignedOperand, OpInstrs, SetX, Advance, X, Wrap;
    SingleInstr(d);
    MoveValue(d.size, X(s, d.rs));
    ZeroRegister(s);
    var t, is64 := ScratchesOf(d), d.size.Dword?;
    match d.op
    case LdAdd => ExecAddReg(is64, t.s2, t.s1, d.rs, s);
    case LdClr => ExecLogicReg(AndNot, is64, t.s2, t.s1, d.rs, s);
    case LdEor => ExecLogicReg(Xor, is64, t.s2, t.s1, d.rs, s);
    case LdSet => ExecLogicReg(Or, is64, t.s2, t.s1, d.rs, s);
    case _ => ExecLogicReg(Or, is64, t.s2, ZR, d.rs, s);
  }

  /** The one-instruction operations. */
  lemma SimpleStep(c: Ctx, s: State)
    requires Looping(c, s, 6, None) && Sound(c) && |OpInstrs(c.d)| == 1
    ensures
      var s' := Exec(OpInstrs(c.d)[0], s);
      Looping(c, s', 7, None) && s'.mem == s.mem && s'.monitor == s.monitor && s'.pc == s.pc + 1
  {
    hide Load, ScratchesOf, Saved, Logical, Stack, Loaded, IslandValue, Exec, OpInstrs, Computed, SetX, Advance, Others, X;
    var t := ScratchesOf(c.d);
    var v := IslandValue(c.d.op, c.d.size, X(s, t.s1), X(c.s0, c.d.rs));
    SimpleExec(c.d, s);
    SourceSame(c, s);
    IslandValueRange(c.d.op, c.d.size, X(s, t.s1), X(c.s0, c.d.rs));
    SmallMod(v, TWO64);
    FinalComputed(c, s, v, s.flags);
    RegisterStep(c, s, 6, t.s2, v, s.flags);
  }

  predicate SignedOp(op: LseOp) {
    op == LdSmax || op == LdSmin
  }

  predicate UnsignedOp(op: LseOp) {
    op == LdUmax || op == LdUmin
  }

  function CondOf(op: LseOp): int {
    if SignedOp(op) then SignedCond(op) else UnsignedCond(op)
  }

  lemma CompareInstrs(d: Atomic)
    requires SignedOp(d.op) || UnsignedOp(d.op)
    ensures
      var t, is64, p := ScratchesOf(d), d.size.Dword?, OpInstrs(d);
      if SignedOp(d.op) && SubWord(d.size) then
        p == [Sxt(d.size, t.s2, t.s1), Sxt(d.size, t.s3, d.rs), Subs(false, ZR, t.s2, t.s3),
              Csel(is64, t.s2, d.rs, t.s1, CondOf(d.op))]
      else
        p == [Subs(is64, ZR, t.s1, d.rs), Csel(is64, t.s2, d.rs, t.s1, CondOf(d.op))]
  {
    hide ScratchesOf;
  }

  /** The state after the comparison on whole registers. */
  function Compared(c: Ctx, s: State): State {
    var r := Width(c.d.size.Dword?);
    var a, b := X(s, ScratchesOf(c.d).s1) % r, X(c.s0, c.d.rs) % r;
    Advance(SetX(s.(flags := CompareFlags(r, a, b)), ZR, Wrap((a - b) % r)), 1)
  }

  lemma CompareComputed(c: Ctx, s: State)
    requires (SignedOp(c.d.op) && !SubWord(c.d.size)) || UnsignedOp(c.d.op)
    ensures Computed(c, Compared(c, s), 1) && StoreAt(c) == 8
  {
    hide ScratchesOf, OpInstrs, CompareFlags, X, SetX, IslandValue, SignedOperand, Wrap;
    var r := Width(c.d.size.Dword?);
    var a, b := X(s, ScratchesOf(c.d).s1) % r, X(c.s0, c.d.rs) % r;
    var f := CompareFlags(r, a, b);
    CompareInstrs(c.d);
    ZeroWrite(s.(flags := f), Wrap((a - b) % r));
    SameX(s, s.(flags := f, pc := s.pc + 1));
  }

  lemma CompareExec(c: Ctx, s: State)
    requires (SignedOp(c.d.op) && !SubWord(c.d.size)) || UnsignedOp(c.d.op)
    requires X(s, c.d.rs) == X(c.s0, c.d.rs)
    ensures |OpInstrs(c.d)| == 2 && Exec(OpInstrs(c.d)[0], s) == Compared(c, s)
  {
    hide ScratchesOf, OpInstrs, CompareFlags, Exec, X, SetX, Advance, Wrap;
    CompareInstrs(c.d);
    ExecSubs(c.d.size.Dword?, ZR, ScratchesOf(c.d).s1, c.d.rs, s);
  }

  lemma CompareKeeps(c: Ctx, s: State)
    requires Looping(c, s, 6, None) && Sound(c) && 6 < StoreAt(c) && Computed(c, Compared(c, s), 1)
    ensures
      var s' := Compared(c, s);
      Looping(c, s', 7, None) && s'.mem == s.mem && s'.monitor == s.monitor && s'.pc == s.pc + 1
  {
    hide Looping, Sound, StoreAt, Computed, X, SetX, Advance, CompareFlags, ScratchesOf, Wrap;
    var r := Width(c.d.size.Dword?);
    var a, b := X(s, ScratchesOf(c.d).s1) % r, X(c.s0, c.d.rs) % r;
    RegisterStep(c, s, 6, ZR, Wrap((a - b) % r), CompareFlags(r, a, b));
  }

  /** First of the two instructions of a comparison on whole registers. */
  lemma CompareStep(c: Ctx, s: State)
    requires Looping(c, s, 6, None) && Sound(c)
    requires (SignedOp(c.d.op) && !SubWord(c.d.size)) || UnsignedOp(c.d.op)
    ensures
      var s' := Exec(OpInstrs(c.d)[0], s);
      Looping(c, s', 7, None) && s'.mem == s.mem && s'.monitor == s.monitor && s'.pc == s.pc + 1
  {
    hide Looping, Others, Exec, OpInstrs, X, Computed, Compared, Sound, StoreAt;
    LoopingOthers(c, s, 6);
    SourceSame(c, s);
    CompareExec(c, s);
    CompareComputed(c, s);
    CompareKeeps(c, s);
  }

  lemma LoopingOthers(c: Ctx, s: State, k: int)
    requires Looping(c, s, k, None)
    ensures Others(c, s, c.s0)
  {
  }

  lemma ZeroWrite(s: State, v: U64)
    ensures SetX(s, ZR, v) == s
  {
  }

  /** What the conditional select of operation d leaves. */
  function Chosen(d: Atomic, f: Flags, source: int, was: int): int {
    (if Holds(CondOf(d.op), f) then source else was) % Width(d.size.Dword?)
  }

  lemma ChooseExec(d: Atomic, s: State)
    requires SignedOp(d.op) || UnsignedOp(d.op)
    ensures
      var t := ScratchesOf(d);
      && |OpInstrs(d)| >= 2
      && Exec(OpInstrs(d)[|OpInstrs(d)| - 1], s) ==
         Advance(SetX(s, t.s2, Wrap(Chosen(d, s.flags, X(s, d.rs), X(s, t.s1)))), 1)
  {
    hide ScratchesOf, Exec, OpInstrs, SetX, Holds, X, Advance, Wrap, CondOf;
    var t, is64 := ScratchesOf(d), d.size.Dword?;
    CompareInstrs(d);
    ExecCsel(is64, t.s2, d.rs, t.s1, CondOf(d.op), s);
  }

  /** After the comparison the select yields the value the island stores. */
  lemma ChooseValue(c: Ctx, s: State)
    requires SignedOp(c.d.op) || UnsignedOp(c.d.op)
    requires Computed(c, s, |OpInstrs(c.d)| - 1)
    ensures
      var was, source := X(s, ScratchesOf(c.d).s1), X(c.s0, c.d.rs);
      IslandValue(c.d.op, c.d.size, was, source) == Chosen(c.d, s.flags, source, was)
  {
    hide ScratchesOf, OpInstrs, CompareFlags, Holds, X, SignExtended;
    CompareInstrs(c.d);
  }

  /** A step that writes the value for the store. */
  lemma ValueStep(c: Ctx, s: State, k: int, v: U64)
    requires Looping(c, s, k, None) && k == StoreAt(c) - 1 && 6 <= k && Sound(c)
    requires v == IslandValue(c.d.op, c.d.size, X(s, ScratchesOf(c.d).s1), X(c.s0, c.d.rs))
    ensures
      var s' := Advance(SetX(s, ScratchesOf(c.d).s2, v), 1);
      Looping(c, s', k + 1, None) && s'.mem == s.mem && s'.monitor == s.monitor && s'.pc == s.pc + 1
  {
    hide Looping, Sound, OpInstrs, ScratchesOf, IslandValue, X, SetX, Advance, Computed;
    FinalComputed(c, s, v, s.flags);
    RegisterStep(c, s, k, ScratchesOf(c.d).s2, v, s.flags);
  }

  /** The conditional select that ends a comparison. */
  lemma ChooseStep(c: Ctx, s: State)
    requires SignedOp(c.d.op) || UnsignedOp(c.d.op)
    requires Looping(c, s, StoreAt(c) - 1, None) && Sound(c)
    ensures |OpInstrs(c.d)| >= 2
    ensures
      var s' := Exec(OpInstrs(c.d)[|OpInstrs(c.d)| - 1], s);
      Looping(c, s', StoreAt(c), None) && s'.mem == s.mem && s'.monitor == s.monitor && s'.pc == s.pc + 1
  {
    hide Looping, Others, ScratchesOf, Exec, OpInstrs, SetX, X, Computed, Advance, Sound, Wrap, IslandValue, Chosen, StoreAt;
    Positions(c);
    var v := IslandValue(c.d.op, c.d.size, X(s, ScratchesOf(c.d).s1), X(c.s0, c.d.rs));
    ChooseExec(c.d, s);
    LoopingOthers(c, s, StoreAt(c) - 1);
    LoopingComputed(c, s, StoreAt(c) - 1);
    SourceSame(c, s);
    ChooseValue(c, s);
    IslandValueRange(c.d.op, c.d.size, X(s, ScratchesOf(c.d).s1), X(c.s0, c.d.rs));
    WrapSmall(v);
    ValueStep(c, s, StoreAt(c) - 1, v);
  }

  lemma WrapSmall(v: int)
    requires 0 <= v < TWO64
    ensures Wrap(v) == v
  {
  }

  lemma LoopingComputed(c: Ctx, s: State, k: int)
    requires Looping(c, s, k, None) && 6 <= k <= StoreAt(c)
    ensures Computed(c, s, k - 6)
  {
  }

  /** The state after step j of the sub-word signed comparison. */
  function Extended(c: Ctx, s: State, j: int): State
    requires SubWord(c.d.size)
  {
    hide ScratchesOf, SignExtended, CompareFlags;
    var t, d := ScratchesOf(c.d), c.d;
    var a, b := SignExtended(d.size, X(s, t.s1)), SignExtended(d.size, X(c.s0, d.rs));
    if j == 0 then Advance(SetX(s, t.s2, Wrap(a)), 1)
    else if j == 1 then Advance(SetX(s, t.s3, Wrap(b)), 1)
    else Advance(SetX(s.(flags := CompareFlags(TWO32, a, b)), ZR, Wrap((a - b) % TWO32)), 1)
  }

  lemma SignedComputed(c: Ctx, s: State, j: int)
    requires SignedOp(c.d.op) && SubWord(c.d.size) && 0 <= j <= 2 && Computed(c, s, j)
    ensures |OpInstrs(c.d)| == 4 && Computed(c, Extended(c, s, j), j + 1)
  {
    hide ScratchesOf, OpInstrs, CompareFlags, SignExtended, IslandValue;
    CompareInstrs(c.d);
    ScratchesDistinct(c.d);
    SignExtendedRange(c.d.size, X(s, ScratchesOf(c.d).s1));
    SignExtendedRange(c.d.size, X(c.s0, c.d.rs));
  }

  lemma SignedExec(c: Ctx, s: State, j: int)
    requires SignedOp(c.d.op) && SubWord(c.d.size) && 0 <= j <= 2 && Computed(c, s, j) && |OpInstrs(c.d)| == 4
    requires X(s, c.d.rs) == X(c.s0, c.d.rs)
    ensures Exec(OpInstrs(c.d)[j], s) == Extended(c, s, j)
  {
    hide ScratchesOf, OpInstrs, CompareFlags, Exec, SetX, Advance, X, SignExtended, IslandValue;
    var t, d := ScratchesOf(c.d), c.d;
    CompareInstrs(d);
    SignExtendedRange(d.size, X(s, t.s1));
    SignExtendedRange(d.size, X(c.s0, d.rs));
    if j == 0 {
      ExecSxt(d.size, t.s2, t.s1, s);
    } else if j == 1 {
      ExecSxt(d.size, t.s3, d.rs, s);
    } else {
      ExecSubs(false, ZR, t.s2, t.s3, s);
    }
  }

  lemma SignedKeeps(c: Ctx, s: State, j: int)
    requires Looping(c, s, 6 + j, None) && Sound(c) && 0 <= j <= 2 && 6 + j < StoreAt(c) && SubWord(c.d.size)
    requires Computed(c, Extended(c, s, j), j + 1)
    ensures
      var s' := Extended(c, s, j);
      Looping(c, s', 7 + j, None) && s'.mem == s.mem && s'.monitor == s.monitor && s'.pc == s.pc + 1
  {
    hide Looping, Sound, StoreAt, Computed, X, SetX, Advance, CompareFlags, ScratchesOf, SignExtended, Wrap;
    var t, d := ScratchesOf(c.d), c.d;
    var a, b := SignExtended(d.size, X(s, t.s1)), SignExtended(d.size, X(c.s0, d.rs));
    if j == 0 {
      RegisterStep(c, s, 6, t.s2, Wrap(a), s.flags);
    } else if j == 1 {
      RegisterStep(c, s, 7, t.s3, Wrap(b), s.flags);
    } else {
      RegisterStep(c, s, 8, ZR, Wrap((a - b) % TWO32), CompareFlags(TWO32, a, b));
    }
  }

  /** The sign extensions and the comparison of the sub-word signed operations. */
  lemma SignedStep(c: Ctx, s: State, j: int)
    requires SignedOp(c.d.op) && SubWord(c.d.size) && 0 <= j <= 2
    requires Looping(c, s, 6 + j, None) && Sound(c)
    ensures |OpInstrs(c.d)| == 4
    ensures
      var s' := Exec(OpInstrs(c.d)[j], s);
      Looping(c, s', 7 + j, None) && s'.mem == s.mem && s'.monitor == s.monitor && s'.pc == s.pc + 1
  {
    hide Looping, Others, Exec, OpInstrs, X, Computed, Extended, Sound, ScratchesOf;
    CompareInstrs(c.d);
    LoopingOthers(c, s, 6 + j);
    LoopingComputed(c, s, 6 + j);
    SourceSame(c, s);
    SignedComputed(c, s, j);
    SignedExec(c, s, j);
    SignedKeeps(c, s, j);
  }

  /** Every instruction between load- and store-exclusive. */
  lemma OpStep(c: Ctx, s: State, k: int)
    requires Looping(c, s, k, None) && Sound(c) && 6 <= k < StoreAt(c)
    ensures
      var s' := Exec(OpInstrs(c.d)[k - 6], s);
      Looping(c, s', k + 1, None) && s'.mem == s.mem && s'.monitor == s.monitor && s'.pc == s.pc + 1
  {
    hide Looping, Exec, OpInstrs, ScratchesOf, Sound;
    var d := c.d;
    if SignedOp(d.op) || UnsignedOp(d.op) {
      CompareInstrs(d);
      if k == StoreAt(c) - 1 {
        ChooseStep(c, s);
      } else if SignedOp(d.op) && SubWord(d.size) {
        SignedStep(c, s, k - 6);
      } else {
        CompareStep(c, s);
      }
    } else {
      SingleOp(d) by { GoodOp(c); }
      SimpleStep(c, s);
    }
  }

  lemma GoodOp(c: Ctx)
    requires Sound(c)
    ensures c.d.op != Cas
  {
  }

  lemma SingleOp(d: Atomic)
    requires d.op != Cas && !SignedOp(d.op) && !UnsignedOp(d.op)
    ensures |OpInstrs(d)| == 1
  {
    hide ScratchesOf;
  }

  // ----- the store-exclusive -----

  /** When the monitor survived, the store is made on the memory that was loaded from. */
  lemma StoredOnLoaded(c: Ctx, s: State)
    requires Looping(c, s, StoreAt(c), None)
    requires s.monitor == Exclusive(Target(c), c.d.size)
    ensures Store(s.mem, Target(c), c.d.size, X(s, ScratchesOf(c.d).s2)) == MemAfter(c, s.mem)
    ensures Returned(c, s, s.mem) && Stack(c, s, 4, None)
  {
    hide Load, Store, ScratchesOf, Saved, Stack, OpInstrs, Others, IslandValue, Target;
  }

  /** The frame after the store: unchanged, or with SP as base changed in the slot of the flags. */
  lemma FrameStored(c: Ctx, s: State)
    requires Sound(c) && Stack(c, s, 4, None)
    ensures Saved(MemAfter(c, s.mem), c.s0.sp, Pushes(c, Some(s.mem)))
    ensures c.d.rn == ZR ==> SameShared(s.mem, MemAfter(c, s.mem), c.s0.sp)
  {
    hide Load, Store, ScratchesOf, IslandValue, Saved;
    var v := IslandValue(c.d.op, c.d.size, Load(s.mem, Target(c), c.d.size), X(c.s0, c.d.rs));
    var before, after := Pushes(c, None), Pushes(c, Some(s.mem));
    assert before[..4] == before;
    if c.d.rn == ZR {
      SavedPart(s.mem, c.s0.sp, before, 3);
      SlotStored(s.mem, c.s0.sp, 3, c.d.size, v, before[..3]);
      LoadRange(MemAfter(c, s.mem), Slot(c.s0.sp, 3), Dword);
      assert after[..3] == before[..3];
      SavedOne(MemAfter(c, s.mem), c.s0.sp, after);
    } else {
      assert after == before;
      StoreElsewhere(s.mem, Target(c), c.d.size, v, c.s0.sp);
      SavedSame(s.mem, MemAfter(c, s.mem), c.s0.sp, before);
    }
  }

  lemma SavedOne(m: Memory, sp: int, vals: seq<int>)
    requires |vals| == 4 && Saved(m, sp, vals[..3]) && Load(m, Slot(sp, 3), Dword) == vals[3]
    ensures Saved(m, sp, vals)
  {
    hide Load, Slot;
    assert forall i :: 0 <= i < 3 ==> vals[..3][i] == vals[i];
  }

  lemma StoreWins(c: Ctx, s: State)
    requires Looping(c, s, StoreAt(c), None) && Sound(c)
    requires s.monitor == Exclusive(Target(c), c.d.size)
    ensures
      var s' := Exec(StoreEx(c.d.size, c.d.release, ScratchesOf(c.d).s3, ScratchesOf(c.d).s2, c.d.rn), s);
      Looping(c, s', CbnzAt(c), Some(s.mem)) && s'.mem == MemAfter(c, s.mem) && s'.pc == s.pc + 1
  {
    hide Load, Store, ScratchesOf, Saved, OpInstrs, Computed, Target, MemAfter, FlagSlot, SameShared;
    BaseIs(c, s, None);
    ScratchesDistinct(c.d);
    StoredOnLoaded(c, s);
    FrameStored(c, s);
    assert Pushes(c, Some(s.mem))[..4] == Pushes(c, Some(s.mem));
    hide Pushes;
  }

  lemma StoreLoses(c: Ctx, s: State)
    requires Looping(c, s, StoreAt(c), None) && Sound(c)
    requires s.monitor != Exclusive(Target(c), c.d.size)
    ensures
      var s' := Exec(StoreEx(c.d.size, c.d.release, ScratchesOf(c.d).s3, ScratchesOf(c.d).s2, c.d.rn), s);
      Looping(c, s', CbnzAt(c), None) && s'.mem == s.mem && s'.pc == s.pc + 1
  {
    hide Load, Store, ScratchesOf, Saved, OpInstrs, Computed, Target, MemAfter;
    BaseIs(c, s, None);
    ScratchesDistinct(c.d);
  }

  lemma CbnzStep(c: Ctx, s: State, lin: Option<Memory>)
    requires Looping(c, s, CbnzAt(c), lin) && Sound(c)
    ensures
      var s' := Exec(Cbnz(ScratchesOf(c.d).s3, -2 - |OpInstrs(c.d)|), s);
      && s'.mem == s.mem
      && (lin.None? ==> s'.pc == s.pc - CbnzAt(c) + 5 && Looping(c, s', 5, None))
      && (lin.Some? ==> s'.pc == s.pc + 1 && InIsland(c, s', CbnzAt(c) + 1, lin))
  {
    hide Load, ScratchesOf, Saved, OpInstrs, MemAfter, FlagSlot, Target;
    OpCount(c.d);
  }

  lemma ReturnStep(c: Ctx, s: State, m: Memory)
    requires Looping(c, s, CbnzAt(c) + 1, Some(m)) && Sound(c) && c.d.rt != ZR
    ensures
      var s' := Exec(LogicReg(Or, c.d.size.Dword?, c.d.rt, ZR, ScratchesOf(c.d).s1), s);
      s'.mem == s.mem && s'.pc == s.pc + 1 && Restoring(c, s', 0, m)
  {
    hide Load, ScratchesOf, Saved, OpInstrs, MemAfter, FlagSlot, Target, Logical, Exec;
    var d, t := c.d, ScratchesOf(c.d);
    ScratchesDistinct(d);
    ExecLogicReg(Or, d.size.Dword?, d.rt, ZR, t.s1, s);
    ZeroRegister(s);
    var v := X(s, t.s1);
    MoveValue(d.size, v);
    LoadRange(m, Target(c), d.size);
    SmallMod(v, Wide(d.size));
  }

  // ----- restoring -----

  lemma PopNext(c: Ctx, s: State, r: RegNo, n: nat, lin: Option<Memory>)
    requires n < 4 && Stack(c, s, n + 1, lin) && r != ZR
    ensures
      var s' := Exec(LdrPost(r, ZR, 16), s);
      && Stack(c, s', n, lin) && s'.mem == s.mem && s'.monitor == s.monitor && s'.flags == s.flags && s'.pc == s.pc + 1
      && X(s', r) == Pushes(c, lin)[n]
      && forall r' :: r' != r ==> X(s', r') == X(s, r')
  {
    hide ScratchesOf, Exec, Holding, X, FlagSlot;
    assert Pushes(c, lin)[..n + 1] == Pushes(c, lin)[..n] + [Pushes(c, lin)[n]];
    PopStep(c.s0, s, Pushes(c, lin)[..n], Pushes(c, lin)[n], r);
  }

  lemma AfterOthers(c: Ctx, m: Memory)
    ensures
      var t := ScratchesOf(c.d);
      && X(After(c, m), t.s1) == X(c.s0, t.s1)
      && X(After(c, m), t.s2) == X(c.s0, t.s2)
      && X(After(c, m), t.s3) == X(c.s0, t.s3)
    ensures After(c, m).sp == c.s0.sp && After(c, m).q == c.s0.q
    ensures After(c, m).pc == c.s0.pc + 1
  {
    hide Load, MemAfter, ScratchesOf, FlagSlot;
    ScratchesDistinct(c.d);
  }

  lemma RestorePopStep(c: Ctx, s: State, k: int, m: Memory)
    requires Sound(c) && Restoring(c, s, k, m) && (k == 0 || 2 <= k <= 4)
    ensures
      var t := ScratchesOf(c.d);
      var s' := Exec(LdrPost(if k == 2 then t.s3 else if k == 3 then t.s2 else t.s1, ZR, 16), s);
      Restoring(c, s', k + 1, m) && s'.mem == s.mem && s'.pc == s.pc + 1
  {
    hide Load, ScratchesOf, Stack, Exec, After, FlagSlot;
    var t := ScratchesOf(c.d);
    ScratchesDistinct(c.d);
    PopNext(c, s, if k == 2 then t.s3 else if k == 3 then t.s2 else t.s1, if k == 0 then 3 else 4 - k, Some(m));
  }

  lemma AfterFlags(c: Ctx, m: Memory)
    ensures After(c, m).flags == WordFlags(FlagSlot(c, Some(m)))
  {
    hide Load, MemAfter, FlagSlot, WordFlags;
  }

  lemma OthersSame(c: Ctx, s: State, s': State, t: State)
    requires Others(c, s, t) && s'.x == s.x
    ensures Others(c, s', t)
  {
    hide ScratchesOf;
  }

  lemma RestoreFlagsStep(c: Ctx, s: State, m: Memory)
    requires Sound(c) && Restoring(c, s, 1, m)
    ensures
      var s' := Exec(MsrNzcv(ScratchesOf(c.d).s1), s);
      Restoring(c, s', 2, m) && s'.mem == s.mem && s'.pc == s.pc + 1
  {
    hide Load, ScratchesOf, Saved, MemAfter, FlagSlot, WordFlags, Others;
    AfterFlags(c, m);
    OthersSame(c, s, Exec(MsrNzcv(ScratchesOf(c.d).s1), s), After(c, m));
  }

  lemma BackStack(c: Ctx, s: State, m: Memory)
    requires Restoring(c, s, 5, m)
    ensures s.sp == c.s0.sp && s.q == c.s0.q
  {
    hide Load, ScratchesOf, Saved, After, FlagSlot;
  }

  lemma BackStep(c: Ctx, s: State, m: Memory)
    requires Sound(c) && Restoring(c, s, 5, m) && s.pc == c.base + Length(c) - 1
    ensures
      var s' := Exec(Branch(Back(c)), s);
      SameCore(s', After(c, m)) && s'.mem == s.mem && s'.monitor == Open
  {
    hide Load, ScratchesOf, Holding, After, FlagSlot, OpInstrs, Pushes;
    BackStack(c, s, m);
    AfterOthers(c, m);
  }

  // ----- one step of a run -----

  function NextLin(c: Ctx, s: State, lin: Option<Memory>): Option<Memory> {
    if s.pc == c.base + StoreAt(c) && s.monitor == Exclusive(Target(c), c.d.size) then Some(s.mem) else lin
  }

  /** The store-exclusive that succeeds: on whatever memory it finds, with the flags still saved; with
      SP as base it stays inside the frame. */
  ghost predicate Wins(c: Ctx, s: State, s': State) {
    && s'.mem == MemAfter(c, s.mem)
    && Load(s.mem, Slot(c.s0.sp, 3), Dword) == FlagsWord(c.s0.flags)
    && (c.d.rn == ZR ==> SameShared(s.mem, s'.mem, c.s0.sp))
  }

  /** A step of the core keeps the invariant; only the store-exclusive that succeeds changes shared
      memory, as the island's operation does. */
  ghost predicate StepKeeps(c: Ctx, s: State, s': State, lin: Option<Memory>) {
    var lin' := NextLin(c, s, lin);
    && Inv(c, s', lin') && s'.pc != c.s0.pc
    && (if lin' == lin then SameShared(s.mem, s'.mem, c.s0.sp)
        else lin.None? && Wins(c, s, s'))
  }

  /** The patched word and the one after it lie outside the island. */
  ghost predicate Clear(c: Ctx) {
    !(0 <= c.s0.pc - c.base < Length(c)) && !(0 <= c.s0.pc + 1 - c.base < Length(c))
  }

  /** A step to word k that changes nothing but private state. */
  lemma Quiet(c: Ctx, s: State, s': State, lin: Option<Memory>, k: int)
    requires Clear(c) && 0 <= k < Length(c) && s'.pc == c.base + k
    requires InIsland(c, s', k, lin) && NextLin(c, s, lin) == lin && SameShared(s.mem, s'.mem, c.s0.sp)
    ensures StepKeeps(c, s, s', lin)
  {
    hide InIsland, SameShared, SameCore, NextLin, Length;
  }

  lemma Positions(c: Ctx)
    ensures 6 <= StoreAt(c) < CbnzAt(c) < RestoreAt(c) < Length(c)
    ensures CbnzAt(c) == StoreAt(c) + 1 == 7 + |OpInstrs(c.d)|
    ensures RestoreAt(c) == CbnzAt(c) + 1 + (if c.d.rt != ZR then 1 else 0) && Length(c) == RestoreAt(c) + 6
  {
    hide OpInstrs;
  }

  lemma SaveBounds(c: Ctx, s: State, k: int)
    requires Saving(c, s, k)
    ensures 0 <= k <= 4
  {
  }

  lemma RestoreBounds(c: Ctx, s: State, j: int, m: Memory)
    requires Restoring(c, s, j, m)
    ensures 0 <= j <= 5
  {
  }

  lemma SaveStep(c: Ctx, s: State, k: int)
    requires Sound(c) && Clear(c) && Saving(c, s, k) && k == s.pc - c.base
    ensures StepKeeps(c, s, Exec(InstrAt(c, k), s), None)
  {
    hide Exec, OpInstrs, ScratchesOf, Saving, Looping, SameShared, Sound, Clear, StepKeeps, StoreAt, CbnzAt, RestoreAt, Length;
    Positions(c);
    SaveBounds(c, s, k);
    var s' := Exec(InstrAt(c, k), s);
    if k <= 2 {
      SavePushStep(c, s, k);
      Quiet(c, s, s', None, k + 1);
    } else if k == 3 {
      SaveFlagsStep(c, s);
      Quiet(c, s, s', None, 4);
    } else {
      PushFlagsStep(c, s);
      Quiet(c, s, s', None, 5);
    }
  }

  lemma LoopBounds(c: Ctx, s: State, k: int, lin: Option<Memory>)
    requires Looping(c, s, k, lin)
    ensures 5 <= k < RestoreAt(c) && (k < CbnzAt(c) ==> lin.None?) && (k > CbnzAt(c) ==> lin.Some?)
    ensures k > CbnzAt(c) ==> k == CbnzAt(c) + 1 && c.d.rt != ZR
  {
  }

  lemma StoreKeeps(c: Ctx, s: State)
    requires Sound(c) && Clear(c) && Looping(c, s, StoreAt(c), None) && s.pc == c.base + StoreAt(c)
    ensures
      var t := ScratchesOf(c.d);
      StepKeeps(c, s, Exec(StoreEx(c.d.size, c.d.release, t.s3, t.s2, c.d.rn), s), None)
  {
    hide Exec, OpInstrs, ScratchesOf, Looping, SameShared, Sound, MemAfter, Load, Target;
    SharedRefl(s.mem, c.s0.sp);
    LoopStack(c, s);
    if s.monitor == Exclusive(Target(c), c.d.size) {
      StoreWins(c, s);
      FrameStored(c, s);
    } else {
      StoreLoses(c, s);
    }
  }

  lemma LoopStack(c: Ctx, s: State)
    requires Looping(c, s, StoreAt(c), None)
    ensures Stack(c, s, 4, None) && Load(s.mem, Slot(c.s0.sp, 3), Dword) == FlagsWord(c.s0.flags)
  {
    hide Load, ScratchesOf, OpInstrs, FlagsWord, Others, Loaded, Computed, Returned;
    assert Pushes(c, None)[..4] == Pushes(c, None);
    assert Load(s.mem, Slot(c.s0.sp, 3), Dword) == Pushes(c, None)[3];
  }

  lemma NotStoring(c: Ctx, s: State, lin: Option<Memory>)
    requires s.pc != c.base + StoreAt(c)
    ensures NextLin(c, s, lin) == lin
  {
  }

  lemma LoopStep(c: Ctx, s: State, lin: Option<Memory>, k: int)
    requires Sound(c) && Clear(c) && Looping(c, s, k, lin) && k == s.pc - c.base
    ensures StepKeeps(c, s, Exec(InstrAt(c, k), s), lin)
  {
    hide Exec, OpInstrs, ScratchesOf, Looping, Restoring, SameShared, Sound, Clear, StepKeeps, StoreAt, CbnzAt, RestoreAt, Length, NextLin;
    LoopBounds(c, s, k, lin);
    Positions(c);
    if k < StoreAt(c) {
      NotStoring(c, s, lin);
      BeforeStore(c, s, k);
    } else if k == StoreAt(c) {
      StoreKeeps(c, s);
    } else {
      NotStoring(c, s, lin);
      AfterStore(c, s, lin, k);
    }
  }

  lemma BeforeStore(c: Ctx, s: State, k: int)
    requires Sound(c) && Clear(c) && Looping(c, s, k, None) && k == s.pc - c.base && 5 <= k < StoreAt(c)
    requires NextLin(c, s, None) == None
    ensures StepKeeps(c, s, Exec(InstrAt(c, k), s), None)
  {
    hide Exec, OpInstrs, ScratchesOf, Looping, Restoring, SameShared, Sound, Clear, StepKeeps, StoreAt, CbnzAt, RestoreAt, Length, NextLin;
    Positions(c);
    SharedRefl(s.mem, c.s0.sp);
    var s' := Exec(InstrAt(c, k), s);
    if k == 5 {
      LoadStep(c, s);
    } else {
      OpStep(c, s, k);
    }
    Quiet(c, s, s', None, k + 1);
  }

  lemma AfterStore(c: Ctx, s: State, lin: Option<Memory>, k: int)
    requires Sound(c) && Clear(c) && Looping(c, s, k, lin) && k == s.pc - c.base && k > StoreAt(c)
    requires NextLin(c, s, lin) == lin
    ensures StepKeeps(c, s, Exec(InstrAt(c, k), s), lin)
  {
    hide Exec, OpInstrs, ScratchesOf, Looping, Restoring, SameShared, Sound, Clear, StepKeeps, StoreAt, CbnzAt, RestoreAt, Length, NextLin;
    LoopBounds(c, s, k, lin);
    Positions(c);
    SharedRefl(s.mem, c.s0.sp);
    var s' := Exec(InstrAt(c, k), s);
    if k == CbnzAt(c) {
      CbnzStep(c, s, lin);
      Quiet(c, s, s', lin, if lin.None? then 5 else k + 1);
    } else {
      ReturnStep(c, s, lin.value);
      Quiet(c, s, s', lin, k + 1);
    }
  }

  lemma RestoreStep(c: Ctx, s: State, m: Memory, k: int)
    requires Sound(c) && Clear(c) && Restoring(c, s, k - RestoreAt(c), m) && k == s.pc - c.base
    ensures StepKeeps(c, s, Exec(InstrAt(c, k), s), Some(m))
  {
    hide Exec, OpInstrs, ScratchesOf, Looping, Restoring, SameShared, Sound, Clear, StepKeeps, StoreAt, CbnzAt, RestoreAt, Length;
    var j := k - RestoreAt(c);
    RestoreBounds(c, s, j, m);
    if j == 5 {
      LastStep(c, s, m);
    } else {
      Positions(c);
      SharedRefl(s.mem, c.s0.sp);
      if j == 1 {
        RestoreFlagsStep(c, s, m);
      } else {
        RestorePopStep(c, s, j, m);
      }
      Quiet(c, s, Exec(InstrAt(c, k), s), Some(m), k + 1);
    }
  }

  lemma LastStep(c: Ctx, s: State, m: Memory)
    requires Sound(c) && Restoring(c, s, 5, m) && s.pc == c.base + RestoreAt(c) + 5
    ensures StepKeeps(c, s, Exec(InstrAt(c, RestoreAt(c) + 5), s), Some(m))
  {
    hide Exec, OpInstrs, ScratchesOf, Looping, Restoring, Sound, After, Saving, Load, At;
    BackStep(c, s, m);
    AfterOthers(c, m);
  }

  lemma IslandStep(c: Ctx, s: State, lin: Option<Memory>)
    requires Sound(c) && Clear(c) && InIsland(c, s, s.pc - c.base, lin) && 0 <= s.pc - c.base < Length(c)
    ensures StepKeeps(c, s, Exec(InstrAt(c, s.pc - c.base), s), lin)
  {
    hide Exec, InstrAt, OpInstrs, ScratchesOf, Saving, Looping, Restoring, Sound, Clear, StepKeeps;
    var k := s.pc - c.base;
    if k <= 4 {
      SaveStep(c, s, k);
    } else if k < RestoreAt(c) {
      LoopStep(c, s, lin, k);
    } else {
      RestoreStep(c, s, lin.value, k);
    }
  }

  lemma EntryStep(c: Ctx, s: State)
    requires Sound(c) && Clear(c) && Inv(c, s, None) && s.pc == c.s0.pc
    ensures StepKeeps(c, s, Exec(Branch(c.base - c.s0.pc), s), None)
  {
    hide OpInstrs, ScratchesOf, Load;
  }

  lemma StackUnderInterference(c: Ctx, s: State, s': State)
    requires Interfere(c.s0.sp, s, s')
    ensures forall n: nat, lin :: n <= 4 && Stack(c, s, n, lin) ==> Stack(c, s', n, lin)
  {
    hide ScratchesOf, Interfere, Holding, FlagSlot;
    forall n: nat, lin | n <= 4 && Stack(c, s, n, lin)
      ensures Stack(c, s', n, lin)
    {
      HoldingUnderInterference(c.s0, s, s', Pushes(c, lin)[..n]);
    }
  }

  lemma LoopUnderInterference(c: Ctx, s: State, s': State, k: int, lin: Option<Memory>)
    requires Looping(c, s, k, lin) && Interfere(c.s0.sp, s, s')
    ensures Looping(c, s', k, lin)
  {
    hide Load, ScratchesOf, OpInstrs, AgreeOn, IslandValue, Holding, FlagSlot, Target;
    HoldingUnderInterference(c.s0, s, s', Pushes(c, lin)[..4]);
    SameX(s, s');
    if s'.monitor == Exclusive(Target(c), c.d.size) {
      LoadSame(s.mem, s'.mem, Target(c), c.d.size);
    }
    hide X;
  }

  /** Interference keeps the invariant. */
  lemma InterferenceKeeps(c: Ctx, s: State, s': State, lin: Option<Memory>)
    requires Inv(c, s, lin) && Interfere(c.s0.sp, s, s')
    ensures Inv(c, s', lin)
  {
    hide Load, ScratchesOf, OpInstrs, AgreeOn, Stack, Looping, After, X, Q;
    StackUnderInterference(c, s, s');
    SameX(s, s');
    SameQ(s, s');
    var k := s.pc - c.base;
    if s.pc != c.s0.pc && s.pc != c.s0.pc + 1 && 4 < k < RestoreAt(c) {
      LoopUnderInterference(c, s, s', k, lin);
    }
  }

  // ----- whole runs -----

  /** The patched word and its island are in place and every branch is in range. */
  ghost predicate Patched(c: Ctx, code: Code) {
    && Installed(code, c.s0.pc, c.base, RmwWords(c.d, Back(c)))
    && InBranchRange(c.base - c.s0.pc) && InBranchRange(Back(c))
  }

  lemma CpuKeeps(c: Ctx, code: Code, s: State, lin: Option<Memory>)
    requires Sound(c) && Patched(c, code) && Inv(c, s, lin) && s.pc in code
    ensures StepKeeps(c, s, Step(code, s), lin)
  {
    hide Exec, InstrAt, OpInstrs, ScratchesOf, InIsland, StepKeeps, SameCore, RmwWords, RmwProgram, Step, Length,
      InBranchRange, Decode;
    GoodOp(c);
    RmwDecodes(c.d, Back(c));
    Layout(c);
    Fetch(code, c.s0.pc, c.base, RmwWords(c.d, Back(c)), RmwProgram(c.d, Back(c)), s);
    if s.pc == c.s0.pc {
      EntryStep(c, s);
    } else {
      IslandStep(c, s, lin);
    }
  }

  /** The run so far: nothing stored yet, or stored once, at step k, as the instruction would have. */
  ghost predicate Progress(c: Ctx, code: Code, tr: seq<State>, lin: Option<Memory>, k: int) {
    && |tr| > 0
    && Inv(c, tr[|tr| - 1], lin)
    && StoresOnlyAt(code, c.s0.sp, tr, k)
    && (lin.None? ==> k == -1)
    && (lin.Some? ==> 0 <= k < |tr| - 1 && StoredAt(c, code, tr[k], tr[k + 1]) && lin.value == tr[k].mem)
  }

  /** A step of the core that makes the loop's store. */
  ghost predicate StoredAt(c: Ctx, code: Code, s: State, s': State) {
    CpuStep(code, s, s') && Wins(c, s, s')
  }

  lemma ProgressStep(c: Ctx, code: Code, tr: seq<State>, s': State, lin: Option<Memory>, k: int)
      returns (lin': Option<Memory>, k': int)
    requires Sound(c) && Patched(c, code) && Progress(c, code, tr, lin, k)
    requires Next(code, c.s0.sp, tr[|tr| - 1], s')
    ensures Progress(c, code, tr + [s'], lin', k')
  {
    hide Inv, Sound, Patched, Wins, Step, SameShared, Interfere;
    var s := tr[|tr| - 1];
    lin', k' := lin, k;
    if CpuStep(code, s, s') {
      CpuKeeps(c, code, s, lin);
      lin' := NextLin(c, s, lin);
      if lin' != lin {
        k' := |tr| - 1;
      }
    } else {
      InterferenceKeeps(c, s, s', lin);
    }
    var tr' := tr + [s'];
    forall j | 0 <= j < |tr'| - 1 && j != k' && CpuStep(code, tr'[j], tr'[j + 1])
      ensures SameShared(tr'[j].mem, tr'[j + 1].mem, c.s0.sp)
    {
      if j < |tr| - 1 {
        assert tr'[j] == tr[j] && tr'[j + 1] == tr[j + 1];
      }
    }
  }

  lemma {:induction false} ProgressAll(c: Ctx, code: Code, tr: seq<State>) returns (lin: Option<Memory>, k: int)
    requires Sound(c) && Patched(c, code) && Run(code, c.s0.sp, tr) && tr[0] == c.s0
    ensures Progress(c, code, tr, lin, k)
    decreases |tr|
  {
    hide Sound, Patched, Next;
    if |tr| == 1 {
      lin, k := None, -1;
    } else {
      var n := |tr| - 1;
      var before := tr[..n];
      forall i | 0 <= i < n - 1 ensures Next(code, c.s0.sp, before[i], before[i + 1]) {
        assert Next(code, c.s0.sp, tr[i], tr[i + 1]);
      }
      hide Progress;
      var lin0, k0 := ProgressAll(c, code, before);
      lin, k := ProgressStep(c, code, before, tr[n], lin0, k0);
      assert before + [tr[n]] == tr;
    }
  }

  /** Atomicity under interference. Every run from the patched word to the word after it, with other
      cores storing between any two steps, makes the loop's store at exactly one step k, on the memory it
      finds there, and ends with the registers, stack pointer, flags and vectors the island's operation
      leaves on that memory. */
  lemma IslandAtomic(c: Ctx, code: Code, tr: seq<State>) returns (k: nat)
    requires Sound(c) && Patched(c, code) && Run(code, c.s0.sp, tr)
    requires tr[0] == c.s0 && tr[|tr| - 1].pc == c.s0.pc + 1
    ensures k < |tr| - 1 && StoredAt(c, code, tr[k], tr[k + 1])
    ensures SameCore(tr[|tr| - 1], After(c, tr[k].mem))
    ensures StoresOnlyAt(code, c.s0.sp, tr, k)
  {
    hide Sound, Patched, Run, SameCore, StoresOnlyAt, CpuStep, StoredAt;
    var lin, j := ProgressAll(c, code, tr);
    k := j;
  }

  /** What the caller has to provide for the island to be the instruction: the base register is not SP,
      the accessed bytes lie outside the frame, and the operand fits. */
  ghost predicate Good(c: Ctx) {
    Sound(c) && c.d.rn != ZR && SourceFits(c.d.op, c.d.size, X(c.s0, c.d.rs))
  }

  /** Then the island's operation is the instruction. */
  lemma AfterIsInstruction(c: Ctx, m: Memory)
    requires Good(c)
    ensures After(c, m) == LseExec(LseInstr(c.d), c.s0.(mem := m))
  {
    hide Load, Store, ScratchesOf, IslandValue, Rmw, Range, FlagsWord, WordFlags;
    var d := c.d;
    var was, source := Load(m, Target(c), d.size), X(c.s0, d.rs);
    LoadRange(m, Target(c), d.size);
    IslandValueCorrect(d.op, d.size, was, source);
    SmallMod(Rmw(d.op, d.size, was, source), Range(d.size)) by {
      ModRange(IslandValue(d.op, d.size, was, source), Range(d.size));
    }
    StoreCongruent(m, Target(c), d.size, IslandValue(d.op, d.size, was, source), Rmw(d.op, d.size, was, source));
    FlagsWordRoundTrip(c.s0.flags);
  }

  /** So the one step k of a finished run has the effect of the whole atomic instruction on the memory it
      finds, and the run ends as the instruction would, executed at that moment. */
  lemma RmwAtomic(c: Ctx, code: Code, tr: seq<State>) returns (k: nat)
    requires Good(c) && Patched(c, code) && Run(code, c.s0.sp, tr)
    requires tr[0] == c.s0 && tr[|tr| - 1].pc == c.s0.pc + 1
    ensures k < |tr| - 1 && CpuStep(code, tr[k], tr[k + 1])
    ensures tr[k + 1].mem == LseExec(LseInstr(c.d), c.s0.(mem := tr[k].mem)).mem
    ensures SameCore(tr[|tr| - 1], LseExec(LseInstr(c.d), c.s0.(mem := tr[k].mem)))
    ensures StoresOnlyAt(code, c.s0.sp, tr, k)
  {
    hide Patched, Run, SameCore, StoresOnlyAt, CpuStep, MemAfter, FlagSlot, Target, LseExec;
    k := IslandAtomic(c, code, tr);
    AfterIsInstruction(c, tr[k].mem);
  }

  // ----- progress -----

  /** Steps left when no other core interferes: one failed store-exclusive at most. */
  function Rank(c: Ctx, s: State, lin: Option<Memory>): int {
    var k := s.pc - c.base;
    if s.pc == c.s0.pc + 1 then 0
    else if s.pc == c.s0.pc then Length(c) + 1
    else if (6 <= k <= StoreAt(c) && s.monitor != Exclusive(Target(c), c.d.size)) || (k == CbnzAt(c) && lin.None?) then
      CbnzAt(c) + 1 - k + Length(c) - 5
    else Length(c) - k
  }

  lemma SoloStep(c: Ctx, s: State, lin: Option<Memory>)
    requires Sound(c) && Clear(c) && InIsland(c, s, s.pc - c.base, lin) && 0 <= s.pc - c.base < Length(c)
    ensures 0 <= Rank(c, Exec(InstrAt(c, s.pc - c.base), s), NextLin(c, s, lin)) < Rank(c, s, lin)
  {
    hide Exec, OpInstrs, ScratchesOf, Saving, Looping, Restoring, SameShared, Sound, After, StoreAt, CbnzAt, RestoreAt, Length;
    Positions(c);
    var k := s.pc - c.base;
    if k <= 4 {
      if k <= 2 {
        SavePushStep(c, s, k);
      } else if k == 3 {
        SaveFlagsStep(c, s);
      } else {
        PushFlagsStep(c, s);
      }
    } else if k < RestoreAt(c) {
      SoloLoopStep(c, s, lin, k);
    } else {
      SoloRestoreStep(c, s, lin.value, k);
    }
  }

  lemma SoloLoopStep(c: Ctx, s: State, lin: Option<Memory>, k: int)
    requires Sound(c) && Clear(c) && Looping(c, s, k, lin) && k == s.pc - c.base && 0 <= k < Length(c)
    ensures 0 <= Rank(c, Exec(InstrAt(c, k), s), NextLin(c, s, lin)) < Rank(c, s, lin)
  {
    hide Exec, OpInstrs, ScratchesOf, Saving, Looping, Restoring, SameShared, Sound, After, StoreAt, CbnzAt, RestoreAt, Length;
    Positions(c);
    LoopBounds(c, s, k, lin);
    if k == 5 {
      LoadStep(c, s);
    } else if k < StoreAt(c) {
      OpStep(c, s, k);
    } else if k == StoreAt(c) {
      if s.monitor == Exclusive(Target(c), c.d.size) {
        StoreWins(c, s);
      } else {
        StoreLoses(c, s);
      }
    } else if k == CbnzAt(c) {
      CbnzStep(c, s, lin);
    } else {
      ReturnStep(c, s, lin.value);
    }
  }

  lemma SoloRestoreStep(c: Ctx, s: State, m: Memory, k: int)
    requires Sound(c) && Clear(c) && Restoring(c, s, k - RestoreAt(c), m) && k == s.pc - c.base && 0 <= k < Length(c)
    ensures 0 <= Rank(c, Exec(InstrAt(c, k), s), Some(m)) < Rank(c, s, Some(m))
  {
    hide Exec, OpInstrs, ScratchesOf, Saving, Looping, Restoring, SameShared, Sound, After, StoreAt, CbnzAt, RestoreAt, Length;
    Positions(c);
    var j := k - RestoreAt(c);
    RestoreBounds(c, s, j, m);
    if j == 1 {
      RestoreFlagsStep(c, s, m);
    } else if j == 5 {
      BackStep(c, s, m);
      AfterOthers(c, m);
    } else {
      RestorePopStep(c, s, j, m);
    }
  }

  lemma CpuRank(c: Ctx, code: Code, s: State, lin: Option<Memory>)
    requires Sound(c) && Patched(c, code) && Inv(c, s, lin) && s.pc != c.s0.pc + 1
    ensures s.pc in code && 0 <= Rank(c, Step(code, s), NextLin(c, s, lin)) < Rank(c, s, lin)
  {
    hide Exec, InstrAt, OpInstrs, ScratchesOf, SameCore, RmwWords, RmwProgram, Step, Saving, Looping, Restoring,
      InBranchRange, Decode, StoreAt, CbnzAt, RestoreAt, Length;
    GoodOp(c);
    Positions(c);
    RmwDecodes(c.d, Back(c));
    Layout(c);
    var k := s.pc - c.base;
    if s.pc == c.s0.pc {
      Fetch(code, c.s0.pc, c.base, RmwWords(c.d, Back(c)), RmwProgram(c.d, Back(c)), s);
      BranchPc(s, c.base - c.s0.pc);
    } else {
      IslandBounds(c, s, k, lin);
      InCode(code, c.s0.pc, c.base, RmwWords(c.d, Back(c)), k);
      Fetch(code, c.s0.pc, c.base, RmwWords(c.d, Back(c)), RmwProgram(c.d, Back(c)), s);
      SoloStep(c, s, lin);
    }
  }

  lemma IslandBounds(c: Ctx, s: State, k: int, lin: Option<Memory>)
    requires InIsland(c, s, k, lin)
    ensures 0 <= k < Length(c)
  {
    hide Stack, Others, OpInstrs;
  }

  /** Wherever other cores leave the run, left alone it finishes, within twice the island's length. */
  lemma {:induction false} RmwFinishes(c: Ctx, code: Code, s: State, lin: Option<Memory>) returns (tr: seq<State>)
    requires Sound(c) && Patched(c, code) && Inv(c, s, lin)
    ensures SoloRun(code, tr) && tr[0] == s && tr[|tr| - 1].pc == c.s0.pc + 1
    ensures |tr| - 1 <= Rank(c, s, lin) <= 2 * Length(c)
    decreases Rank(c, s, lin)
  {
    hide Sound, Patched, Inv, InIsland, Exec, Step, NextLin;
    RankBound(c, s, lin);
    if s.pc == c.s0.pc + 1 {
      tr := [s];
    } else {
      CpuRank(c, code, s, lin);
      CpuKeeps(c, code, s, lin);
      var s' := Step(code, s);
      var rest := RmwFinishes(c, code, s', NextLin(c, s, lin));
      tr := [s] + rest;
      forall i | 0 <= i < |tr| - 1 ensures CpuStep(code, tr[i], tr[i + 1]) {
        if i > 0 {
          assert CpuStep(code, rest[i - 1], rest[i]);
        }
      }
    }
  }

  lemma RankBound(c: Ctx, s: State, lin: Option<Memory>)
    requires Inv(c, s, lin)
    ensures 0 <= Rank(c, s, lin) <= 2 * Length(c)
  {
    hide Stack, Others, OpInstrs, SameCore;
    Positions(c);
  }
}
