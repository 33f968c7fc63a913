/** The island of a compare-and-swap, step by step under interference. A failed comparison takes
    effect at the load-exclusive that saw the value; a swap at the store-exclusive that succeeds. */
module CasIsland {
  import opened A64Memory
  import opened A64
  import opened LseValues
  import opened IsaEmul
  import opened StackFrame
  import opened Interleaving

  datatype Ctx = Ctx(d: Atomic, s0: State, base: int)

  /** Where the run is with respect to memory: nothing seen, a value loaded from memory m that
      still has to be compared or stored, or the whole effect done as on memory m. */
  datatype Ghost = Idle | Saw(m: Memory) | Done(m: Memory)

  /** With SP as base the loop accesses the slot of the saved flags, since the pushes have moved SP. */
  function Target(c: Ctx): int {
    if c.d.rn == ZR then Slot(c.s0.sp, 2) else X(c.s0, c.d.rn)
  }

  /** A base register other than SP leads outside the frame. */
  ghost predicate Sound(c: Ctx) {
    && c.d.op == Cas
    && (c.d.rn != ZR ==> Apart(Target(c), Bytes(c.d.size), Frame(c.s0.sp), FRAME))
  }

  function Regs2(c: Ctx): set<int> {
    var t := ScratchesOf(c.d);
    {t.s1, t.s2}
  }

  /** What the island makes of memory m: it compares whole W or X registers. */
  function MemAfter(c: Ctx, m: Memory): Memory {
    if Load(m, Target(c), c.d.size) % Wide(c.d.size) == Expected(c) then Store(m, Target(c), c.d.size, X(c.s0, c.d.rt))
    else m
  }

  /** The flags word on the stack. With SP as base a swap has changed it. */
  function FlagSlot(c: Ctx, g: Ghost): U64 {
    if g.Done? && c.d.rn == ZR then Wrap(Load(MemAfter(c, g.m), Slot(c.s0.sp, 2), Dword))
    else FlagsWord(c.s0.flags)
  }

  function Pushes(c: Ctx, g: Ghost): seq<int> {
    var t := ScratchesOf(c.d);
    [X(c.s0, t.s1), X(c.s0, t.s2), FlagSlot(c, g)]
  }

  /** The state the island leaves when it sees memory m. */
  function After(c: Ctx, m: Memory): State {
    var s := c.s0.(mem := MemAfter(c, m), flags := WordFlags(FlagSlot(c, Done(m))));
    Advance(SetX(s, c.d.rs, Wrap(Load(m, Target(c), c.d.size))), 1)
  }

  function RestoreAt(c: Ctx): int { if c.d.rs != ZR then 11 else 10 }
  function Length(c: Ctx): int { RestoreAt(c) + 5 }

  function Back(c: Ctx): int {
    c.s0.pc + 1 - (c.base + Length(c) - 1)
  }

  ghost predicate Stack(c: Ctx, s: State, depth: nat, g: Ghost)
    requires depth <= 3
  {
    Holding(c.s0, s, Pushes(c, g)[..depth])
  }

  ghost predicate Others(c: Ctx, s: State, t: State) {
    forall r :: r !in Regs2(c) ==> X(s, r) == X(t, r)
  }

  /** What the compare register and the loaded value look like to the island's comparison. */
  function Loaded(c: Ctx, s: State): int { X(s, ScratchesOf(c.d).s2) % Wide(c.d.size) }
  function Expected(c: Ctx): int { X(c.s0, c.d.rs) % Wide(c.d.size) }

  /** The scratch register holds what memory m held. */
  ghost predicate Returned(c: Ctx, s: State, m: Memory) {
    X(s, ScratchesOf(c.d).s2) == Load(m, Target(c), c.d.size)
  }

  /** If the monitor survived, memory still holds the loaded value. */
  ghost predicate Current(c: Ctx, s: State) {
    s.monitor == Exclusive(Target(c), c.d.size) ==>
      Load(s.mem, Target(c), c.d.size) == X(s, ScratchesOf(c.d).s2)
  }

  /** On memory m the island stores nothing. */
  ghost predicate Differs(c: Ctx, m: Memory) {
    MemAfter(c, m) == m
  }

  /** The flags were still saved when memory was m. */
  ghost predicate FlagsIn(c: Ctx, m: Memory) {
    Load(m, Slot(c.s0.sp, 2), Dword) == FlagsWord(c.s0.flags)
  }

  ghost predicate Saving(c: Ctx, s: State, k: int) {
    && 0 <= k <= 3
    && Stack(c, s, if k == 3 then 2 else k, Idle)
    && Others(c, s, c.s0)
    && (k <= 2 ==> s.flags == c.s0.flags && forall r :: X(s, r) == X(c.s0, r))
    && (k == 3 ==> X(s, ScratchesOf(c.d).s1) == FlagsWord(c.s0.flags))
  }

  ghost predicate Looping(c: Ctx, s: State, k: int, g: Ghost) {
    && 4 <= k < RestoreAt(c)
    && Stack(c, s, 3, g)
    && Others(c, s, c.s0)
    && (k == 4 ==> g.Idle?)
    && (5 <= k <= 7 ==> g.Saw? && Returned(c, s, g.m) && Current(c, s) && FlagsIn(c, g.m))
    && (k == 6 ==> s.flags == CompareFlags(Wide(c.d.size), Loaded(c, s), Expected(c)))
    && (k == 7 ==> Loaded(c, s) == Expected(c))
    && (k == 8 ==> !g.Saw? && X(s, ScratchesOf(c.d).s1) == if g.Done? then 0 else 1)
    && (k >= 9 ==> g.Done?)
    && (g.Done? ==> Returned(c, s, g.m) && (k != 9 ==> s.monitor == Open))
  }

  ghost predicate Restoring(c: Ctx, s: State, k: int, m: Memory) {
    var t, s0 := ScratchesOf(c.d), c.s0;
    && 0 <= k <= 4 && s.monitor == Open
    && Stack(c, s, if k == 0 then 3 else if k <= 2 then 2 else 4 - k, Done(m))
    && Others(c, s, After(c, m))
    && (k == 1 ==> X(s, t.s1) == FlagSlot(c, Done(m)))
    && (k >= 2 ==> s.flags == After(c, m).flags)
    && (k >= 3 ==> X(s, t.s2) == X(s0, t.s2))
    && (k >= 4 ==> X(s, t.s1) == X(s0, t.s1))
  }

  ghost predicate InIsland(c: Ctx, s: State, k: int, g: Ghost) {
    if k <= 3 then Saving(c, s, k) && g.Idle?
    else if k < RestoreAt(c) then Looping(c, s, k, g)
    else g.Done? && Restoring(c, s, k - RestoreAt(c), g.m)
  }

  ghost predicate Inv(c: Ctx, s: State, g: Ghost) {
    if s.pc == c.s0.pc then g.Idle? && SameCore(s, c.s0) && s.q == c.s0.q
    else if s.pc == c.s0.pc + 1 then g.Done? && SameCore(s, After(c, g.m)) && s.monitor == Open
    else InIsland(c, s, s.pc - c.base, g)
  }

  function InstrAt(c: Ctx, k: int): Instr {
    var d, t, e := c.d, ScratchesOf(c.d), RestoreAt(c);
    if k <= 3 then
      if k == 0 then StrPre(t.s1, ZR, -16) else if k == 1 then StrPre(t.s2, ZR, -16)
      else if k == 2 then MrsNzcv(t.s1) else StrPre(t.s1, ZR, -16)
    else if k == 4 then LoadEx(d.size, d.acquire, t.s2, d.rn)
    else if k == 5 then Subs(d.size.Dword?, ZR, t.s2, d.rs)
    else if k == 6 then BranchIf(COND_NE, 3)
    else if k == 7 then StoreEx(d.size, d.release, t.s1, d.rt, d.rn)
    else if k == 8 then Cbnz(t.s1, -4)
    else if k == 9 then Clrex
    else if k < e then LogicReg(Or, d.size.Dword?, d.rs, ZR, t.s2)
    else if k == e + 1 then MsrNzcv(t.s1)
    else if k == e + 4 then Branch(Back(c))
    else LdrPost(if k == e + 2 then t.s2 else t.s1, ZR, 16)
  }

  lemma Layout(c: Ctx)
    ensures |CasProgram(c.d, Back(c))| == Length(c)
    ensures forall k :: 0 <= k < Length(c) ==> CasProgram(c.d, Back(c))[k] == InstrAt(c, k)
  {
    hide ScratchesOf;
  }

  // ----- one step at each kind of word -----

  lemma PushNext(c: Ctx, s: State, r: RegNo, n: nat)
    requires n < 3 && Stack(c, s, n, Idle) && X(s, r) == Pushes(c, Idle)[n]
    ensures
      var s' := Exec(StrPre(r, ZR, -16), s);
      Stack(c, s', n + 1, Idle) && SameShared(s.mem, s'.mem, c.s0.sp) && s'.x == s.x && s'.flags == s.flags && s'.pc == s.pc + 1
  {
    hide ScratchesOf, Exec, Holding, AgreeOutside;
    PushStep(c.s0, s, Pushes(c, Idle)[..n], r);
    assert Pushes(c, Idle)[..n + 1] == Pushes(c, Idle)[..n] + [Pushes(c, Idle)[n]];
  }

  lemma PopNext(c: Ctx, s: State, r: RegNo, n: nat, g: Ghost)
    requires n < 3 && Stack(c, s, n + 1, g) && r != ZR
    ensures
      var s' := Exec(LdrPost(r, ZR, 16), s);
      && Stack(c, s', n, g) && s'.mem == s.mem && s'.monitor == s.monitor && s'.flags == s.flags && s'.pc == s.pc + 1
      && X(s', r) == Pushes(c, g)[n]
      && forall r' :: r' != r ==> X(s', r') == X(s, r')
  {
    hide ScratchesOf, Exec, Holding, X, FlagSlot;
    assert Pushes(c, g)[..n + 1] == Pushes(c, g)[..n] + [Pushes(c, g)[n]];
    PopStep(c.s0, s, Pushes(c, g)[..n], Pushes(c, g)[n], r);
  }

  lemma SavePushStep(c: Ctx, s: State, k: int)
    requires Saving(c, s, k) && k <= 1
    ensures
      var t := ScratchesOf(c.d);
      var s' := Exec(StrPre(if k == 0 then t.s1 else t.s2, ZR, -16), s);
      Saving(c, s', k + 1) && SameShared(s.mem, s'.mem, c.s0.sp) && s'.pc == s.pc + 1
  {
    hide Load, ScratchesOf, AgreeOutside, Exec, FlagsWord, Holding;
    var t := ScratchesOf(c.d);
    PushNext(c, s, if k == 0 then t.s1 else t.s2, k);
    hide Stack;
  }

  lemma SaveFlagsStep(c: Ctx, s: State)
    requires Saving(c, s, 2)
    ensures
      var s' := Exec(MrsNzcv(ScratchesOf(c.d).s1), s);
      Saving(c, s', 3) && SameShared(s.mem, s'.mem, c.s0.sp) && s'.pc == s.pc + 1
  {
    hide Load, ScratchesOf, Saved, FlagsWord, At;
    ScratchesDistinct(c.d);
  }

  lemma PushFlagsStep(c: Ctx, s: State)
    requires Saving(c, s, 3)
    ensures
      var s' := Exec(StrPre(ScratchesOf(c.d).s1, ZR, -16), s);
      Looping(c, s', 4, Idle) && SameShared(s.mem, s'.mem, c.s0.sp) && s'.pc == s.pc + 1
  {
    hide ScratchesOf, AgreeOutside, Exec, FlagsWord, Stack, Returned, Current, FlagsIn;
    PushNext(c, s, ScratchesOf(c.d).s1, 2);
  }

  lemma SourceSame(c: Ctx, s: State)
    requires Others(c, s, c.s0)
    ensures X(s, c.d.rs) == X(c.s0, c.d.rs) && X(s, c.d.rn) == X(c.s0, c.d.rn) && X(s, c.d.rt) == X(c.s0, c.d.rt)
  {
    hide ScratchesOf;
    ScratchesDistinct(c.d);
  }

  /** Inside the loop the base register, or SP, leads to the target. */
  lemma BaseIs(c: Ctx, s: State, g: Ghost)
    requires Stack(c, s, 3, g) && Others(c, s, c.s0)
    ensures Base(s, c.d.rn) == Target(c)
  {
    hide ScratchesOf, Saved, MemAfter;
    ScratchesDistinct(c.d);
  }

  /** The stack is the same until something is done. */
  lemma SameStack(c: Ctx, s: State, g: Ghost, g': Ghost)
    requires Stack(c, s, 3, g) && !g.Done? && !g'.Done?
    ensures Stack(c, s, 3, g') && FlagsIn(c, s.mem)
  {
    hide Load, ScratchesOf, FlagsWord;
    assert Pushes(c, g)[..3] == Pushes(c, g) == Pushes(c, g') == Pushes(c, g')[..3];
    assert Load(s.mem, Slot(c.s0.sp, 2), Dword) == Pushes(c, g)[2];
  }

  lemma LoadStep(c: Ctx, s: State)
    requires Looping(c, s, 4, Idle) && Sound(c)
    ensures
      var s' := Exec(LoadEx(c.d.size, c.d.acquire, ScratchesOf(c.d).s2, c.d.rn), s);
      && Looping(c, s', 5, Saw(s.mem)) && s'.mem == s.mem
      && s'.monitor == Exclusive(Target(c), c.d.size) && s'.pc == s.pc + 1
  {
    hide Load, ScratchesOf, Saved, Target, MemAfter, Pushes, FlagsIn;
    BaseIs(c, s, Idle);
    SameStack(c, s, Idle, Saw(s.mem));
    ScratchesDistinct(c.d);
    LoadRange(s.mem, Target(c), c.d.size);
  }

  lemma CompareStep(c: Ctx, s: State, m: Memory)
    requires Looping(c, s, 5, Saw(m)) && Sound(c)
    ensures
      var s' := Exec(Subs(c.d.size.Dword?, ZR, ScratchesOf(c.d).s2, c.d.rs), s);
      Looping(c, s', 6, Saw(m)) && s'.mem == s.mem && s'.monitor == s.monitor && s'.pc == s.pc + 1
  {
    hide Load, ScratchesOf, Saved, CompareFlags, Pushes, Target, FlagsIn;
    SourceSame(c, s);
  }

  lemma BranchStep(c: Ctx, s: State, m: Memory)
    requires Looping(c, s, 6, Saw(m)) && Sound(c)
    ensures
      var s' := Exec(BranchIf(COND_NE, 3), s);
      && s'.mem == s.mem && s'.monitor == s.monitor
      && (if Loaded(c, s) != Expected(c) then s'.pc == s.pc + 3 && Looping(c, s', 9, Done(m)) && Differs(c, m) && FlagsIn(c, m)
          else s'.pc == s.pc + 1 && Looping(c, s', 7, Saw(m)))
  {
    hide Load, ScratchesOf, Saved, CompareFlags, Holds, MemAfter, Store, Target, Pushes, FlagsIn;
    UnsignedConditions(Wide(c.d.size), Loaded(c, s), Expected(c));
    if Loaded(c, s) != Expected(c) {
      NothingStored(c, s, m);
    }
  }

  /** A comparison the island sees fail leaves the flags on the stack as they are. */
  lemma NothingStored(c: Ctx, s: State, m: Memory)
    requires Returned(c, s, m) && Loaded(c, s) != Expected(c) && Stack(c, s, 3, Saw(m)) && FlagsIn(c, m)
    ensures Differs(c, m) && Stack(c, s, 3, Done(m))
  {
    hide Load, ScratchesOf, Store, At, Range, Wide, Target, FlagsWord, Holding;
    assert Pushes(c, Done(m)) == Pushes(c, Saw(m));
  }

  lemma WideRange(size: Size)
    ensures 0 < Range(size) <= Wide(size)
  {
  }

  /** The frame after the store: unchanged, or with SP as base changed in the slot of the flags. */
  lemma FrameStored(c: Ctx, s: State)
    requires Sound(c) && Stack(c, s, 3, Idle) && MemAfter(c, s.mem) == Store(s.mem, Target(c), c.d.size, X(c.s0, c.d.rt))
    ensures Saved(MemAfter(c, s.mem), c.s0.sp, Pushes(c, Done(s.mem)))
    ensures c.d.rn == ZR ==> SameShared(s.mem, MemAfter(c, s.mem), c.s0.sp)
  {
    hide Load, Store, ScratchesOf, Saved, MemAfter;
    var v := X(c.s0, c.d.rt);
    var before, after := Pushes(c, Idle), Pushes(c, Done(s.mem));
    assert before[..3] == before;
    if c.d.rn == ZR {
      SavedPart(s.mem, c.s0.sp, before, 2);
      SlotStored(s.mem, c.s0.sp, 2, c.d.size, v, before[..2]);
      LoadRange(MemAfter(c, s.mem), Slot(c.s0.sp, 2), Dword);
      assert after[..2] == before[..2];
      SavedOne(MemAfter(c, s.mem), c.s0.sp, after);
    } else {
      assert after == before;
      StoreElsewhere(s.mem, Target(c), c.d.size, v, c.s0.sp);
      SavedSame(s.mem, MemAfter(c, s.mem), c.s0.sp, before);
    }
  }

  lemma SavedOne(m: Memory, sp: int, vals: seq<int>)
    requires |vals| == 3 && Saved(m, sp, vals[..2]) && Load(m, Slot(sp, 2), Dword) == vals[2]
    ensures Saved(m, sp, vals)
  {
    hide Load, Slot;
    assert forall i :: 0 <= i < 2 ==> vals[..2][i] == vals[i];
  }

  /** When the monitor survived, the store is made on the memory that was loaded from. */
  lemma StoredOnLoaded(c: Ctx, s: State, m: Memory)
    requires Looping(c, s, 7, Saw(m)) && s.monitor == Exclusive(Target(c), c.d.size)
    ensures MemAfter(c, s.mem) == Store(s.mem, Target(c), c.d.size, X(c.s0, c.d.rt))
    ensures Returned(c, s, s.mem) && Stack(c, s, 3, Saw(m)) && Others(c, s, c.s0)
  {
    hide Load, Store, ScratchesOf, Stack, Others, Target, Wide;
  }

  /** The store-exclusive that succeeds: on whatever memory it finds, with the flags still saved; with
      SP as base it stays inside the frame. */
  ghost predicate Wins(c: Ctx, m: Memory, m': Memory) {
    && m' == MemAfter(c, m) && FlagsIn(c, m)
    && (c.d.rn == ZR ==> SameShared(m, m', c.s0.sp))
  }

  lemma StoreWins(c: Ctx, s: State, m: Memory)
    requires Looping(c, s, 7, Saw(m)) && Sound(c)
    requires s.monitor == Exclusive(Target(c), c.d.size)
    ensures
      var s' := Exec(StoreEx(c.d.size, c.d.release, ScratchesOf(c.d).s1, c.d.rt, c.d.rn), s);
      Looping(c, s', 8, Done(s.mem)) && Wins(c, s.mem, s'.mem) && s'.pc == s.pc + 1
  {
    hide Load, Store, ScratchesOf, Saved, Range, Wide, Target, MemAfter, FlagSlot, SameShared, FlagsIn;
    StoredOnLoaded(c, s, m);
    BaseIs(c, s, Saw(m));
    SourceSame(c, s);
    ScratchesDistinct(c.d);
    SameStack(c, s, Saw(m), Idle);
    FrameStored(c, s);
    assert Pushes(c, Done(s.mem))[..3] == Pushes(c, Done(s.mem));
    hide Pushes;
  }

  lemma StoreLoses(c: Ctx, s: State, m: Memory)
    requires Looping(c, s, 7, Saw(m)) && Sound(c)
    requires s.monitor != Exclusive(Target(c), c.d.size)
    ensures
      var s' := Exec(StoreEx(c.d.size, c.d.release, ScratchesOf(c.d).s1, c.d.rt, c.d.rn), s);
      Looping(c, s', 8, Idle) && s'.mem == s.mem && s'.pc == s.pc + 1
  {
    hide Load, Store, ScratchesOf, Saved, Target, MemAfter, Pushes, FlagsIn;
    BaseIs(c, s, Saw(m));
    SameStack(c, s, Saw(m), Idle);
    SourceSame(c, s);
    ScratchesDistinct(c.d);
  }

  lemma CbnzStep(c: Ctx, s: State, g: Ghost)
    requires Looping(c, s, 8, g)
    ensures
      var s' := Exec(Cbnz(ScratchesOf(c.d).s1, -4), s);
      && s'.mem == s.mem
      && (g.Idle? ==> s'.pc == s.pc - 4 && Looping(c, s', 4, Idle))
      && (g.Done? ==> s'.pc == s.pc + 1 && Looping(c, s', 9, g))
      && !g.Saw?
  {
    hide Load, ScratchesOf, Saved, Pushes, Target, FlagsIn;
  }

  lemma ClrexStep(c: Ctx, s: State, m: Memory)
    requires Looping(c, s, 9, Done(m)) && Sound(c)
    ensures
      var s' := Exec(Clrex, s);
      s'.mem == s.mem && s'.pc == s.pc + 1 && InIsland(c, s', 10, Done(m))
  {
    hide Load, ScratchesOf, Saved, MemAfter, FlagSlot, Target, FlagsIn;
  }

  lemma ReturnStep(c: Ctx, s: State, m: Memory)
    requires Looping(c, s, 10, Done(m)) && Sound(c) && c.d.rs != ZR
    ensures
      var s' := Exec(LogicReg(Or, c.d.size.Dword?, c.d.rs, ZR, ScratchesOf(c.d).s2), s);
      s'.mem == s.mem && s'.pc == s.pc + 1 && Restoring(c, s', 0, m)
  {
    hide Load, ScratchesOf, Saved, MemAfter, FlagSlot, Target, FlagsIn, Logical, Exec;
    var d, t := c.d, ScratchesOf(c.d);
    ScratchesDistinct(d);
    ExecLogicReg(Or, d.size.Dword?, d.rs, ZR, t.s2, s);
    ZeroRegister(s);
    var v := X(s, t.s2);
    MoveValue(d.size, v);
    LoadRange(m, Target(c), d.size);
    SmallMod(v, Wide(d.size));
  }

  lemma AfterOthers(c: Ctx, m: Memory)
    ensures
      var t := ScratchesOf(c.d);
      X(After(c, m), t.s1) == X(c.s0, t.s1) && X(After(c, m), t.s2) == X(c.s0, t.s2)
    ensures After(c, m).sp == c.s0.sp && After(c, m).q == c.s0.q
    ensures After(c, m).pc == c.s0.pc + 1
  {
    hide Load, MemAfter, ScratchesOf, FlagSlot;
    ScratchesDistinct(c.d);
  }

  lemma RestorePopStep(c: Ctx, s: State, k: int, m: Memory)
    requires Sound(c) && Restoring(c, s, k, m) && (k == 0 || 2 <= k <= 3)
    ensures
      var t := ScratchesOf(c.d);
      var s' := Exec(LdrPost(if k == 2 then t.s2 else t.s1, ZR, 16), s);
      Restoring(c, s', k + 1, m) && s'.mem == s.mem && s'.pc == s.pc + 1
  {
    hide Load, ScratchesOf, Stack, Exec, After, FlagSlot;
    var t := ScratchesOf(c.d);
    ScratchesDistinct(c.d);
    PopNext(c, s, if k == 2 then t.s2 else t.s1, if k == 0 then 2 else 3 - k, Done(m));
  }

  lemma AfterFlags(c: Ctx, m: Memory)
    ensures After(c, m).flags == WordFlags(FlagSlot(c, Done(m)))
  {
    hide Load, MemAfter, FlagSlot, WordFlags;
  }

  lemma OthersSame(c: Ctx, s: State, s': State, t: State)
    requires Others(c, s, t) && s'.x == s.x
    ensures Others(c, s', t)
  {
    hide ScratchesOf;
  }

  lemma RestoreFlagsStep(c: Ctx, s: State, m: Memory)
    requires Restoring(c, s, 1, m)
    ensures
      var s' := Exec(MsrNzcv(ScratchesOf(c.d).s1), s);
      Restoring(c, s', 2, m) && s'.mem == s.mem && s'.pc == s.pc + 1
  {
    hide Load, ScratchesOf, Saved, MemAfter, FlagSlot, WordFlags, Others;
    AfterFlags(c, m);
    OthersSame(c, s, Exec(MsrNzcv(ScratchesOf(c.d).s1), s), After(c, m));
  }

  lemma BackStack(c: Ctx, s: State, m: Memory)
    requires Restoring(c, s, 4, m)
    ensures s.sp == c.s0.sp && s.q == c.s0.q
  {
    hide Load, ScratchesOf, Saved, After, FlagSlot;
  }

  lemma BackStep(c: Ctx, s: State, m: Memory)
    requires Sound(c) && Restoring(c, s, 4, m) && s.pc == c.base + Length(c) - 1
    ensures
      var s' := Exec(Branch(Back(c)), s);
      SameCore(s', After(c, m)) && s'.mem == s.mem && s'.monitor == Open
  {
    hide Load, ScratchesOf, Holding, After, FlagSlot, Pushes;
    BackStack(c, s, m);
    AfterOthers(c, m);
  }

  // ----- one step of a run -----

  function NextGhost(c: Ctx, s: State, g: Ghost): Ghost {
    var k := s.pc - c.base;
    if s.pc == c.s0.pc then g
    else if k == 4 then Saw(s.mem)
    else if k == 6 && g.Saw? && Loaded(c, s) != Expected(c) then Done(g.m)
    else if k == 7 then (if s.monitor == Exclusive(Target(c), c.d.size) then Done(s.mem) else Idle)
    else g
  }

  /** What a step of the core may do to shared memory. */
  ghost predicate Effect(c: Ctx, s: State, s': State, g: Ghost, g': Ghost) {
    match g'
    case Idle => SameShared(s.mem, s'.mem, c.s0.sp)
    case Saw(m) => SameShared(s.mem, s'.mem, c.s0.sp) && (g == g' || (m == s.mem && s'.mem == s.mem))
    case Done(m) =>
      if g == g' then SameShared(s.mem, s'.mem, c.s0.sp)
      else if g == Saw(m) && s'.mem == s.mem then Differs(c, m) && FlagsIn(c, m)
      else g.Saw? && m == s.mem && Wins(c, m, s'.mem)
  }

  ghost predicate StepKeeps(c: Ctx, s: State, s': State, g: Ghost) {
    Inv(c, s', NextGhost(c, s, g)) && s'.pc != c.s0.pc && Effect(c, s, s', g, NextGhost(c, s, g))
  }

  ghost predicate Clear(c: Ctx) {
    !(0 <= c.s0.pc - c.base < Length(c)) && !(0 <= c.s0.pc + 1 - c.base < Length(c))
  }

  lemma Lands(c: Ctx, s': State, g: Ghost, k: int)
    requires Clear(c) && 0 <= k < Length(c) && s'.pc == c.base + k && InIsland(c, s', k, g)
    ensures Inv(c, s', g) && s'.pc != c.s0.pc
  {
    hide InIsland, SameCore;
  }

  lemma SaveStep(c: Ctx, s: State, k: int)
    requires Sound(c) && Clear(c) && Saving(c, s, k) && k == s.pc - c.base
    ensures StepKeeps(c, s, Exec(InstrAt(c, k), s), Idle)
  {
    hide Exec, ScratchesOf, Saving, Looping, Restoring, SameShared, Sound, Inv;
    SaveBounds(c, s, k);
    var s' := Exec(InstrAt(c, k), s);
    if k <= 1 {
      SavePushStep(c, s, k);
    } else if k == 2 {
      SaveFlagsStep(c, s);
    } else {
      PushFlagsStep(c, s);
    }
    Lands(c, s', Idle, k + 1);
  }

  lemma SaveBounds(c: Ctx, s: State, k: int)
    requires Saving(c, s, k)
    ensures 0 <= k <= 3
  {
  }

  lemma LoopBounds(c: Ctx, s: State, k: int, g: Ghost)
    requires Looping(c, s, k, g)
    ensures 4 <= k < RestoreAt(c)
    ensures (k == 4 ==> g.Idle?) && (5 <= k <= 7 ==> g.Saw?) && (k == 8 ==> !g.Saw?) && (k >= 9 ==> g.Done?)
  {
  }

  lemma RestoreBounds(c: Ctx, s: State, j: int, m: Memory)
    requires Restoring(c, s, j, m)
    ensures 0 <= j <= 4
  {
  }

  lemma StoreStep(c: Ctx, s: State, m: Memory)
    requires Sound(c) && Clear(c) && Looping(c, s, 7, Saw(m)) && s.pc == c.base + 7
    ensures StepKeeps(c, s, Exec(StoreEx(c.d.size, c.d.release, ScratchesOf(c.d).s1, c.d.rt, c.d.rn), s), Saw(m))
    ensures Exec(StoreEx(c.d.size, c.d.release, ScratchesOf(c.d).s1, c.d.rt, c.d.rn), s).pc == s.pc + 1
  {
    hide Exec, ScratchesOf, Saving, Looping, Restoring, SameShared, Sound, Inv, MemAfter, FlagsIn, Target;
    var s' := Exec(StoreEx(c.d.size, c.d.release, ScratchesOf(c.d).s1, c.d.rt, c.d.rn), s);
    SharedRefl(s.mem, c.s0.sp);
    if s.monitor == Exclusive(Target(c), c.d.size) {
      StoreWins(c, s, m);
      Lands(c, s', Done(s.mem), 8);
    } else {
      StoreLoses(c, s, m);
      Lands(c, s', Idle, 8);
    }
  }

  lemma LoopStep(c: Ctx, s: State, g: Ghost, k: int)
    requires Sound(c) && Clear(c) && Looping(c, s, k, g) && k == s.pc - c.base
    ensures StepKeeps(c, s, Exec(InstrAt(c, k), s), g)
  {
    hide Exec, ScratchesOf, Saving, Looping, Restoring, SameShared, Sound, Inv, MemAfter, FlagsIn, Differs, Loaded, Expected;
    LoopBounds(c, s, k, g);
    SharedRefl(s.mem, c.s0.sp);
    var s' := Exec(InstrAt(c, k), s);
    if k == 4 {
      LoadStep(c, s);
      Lands(c, s', Saw(s.mem), 5);
    } else if k == 5 {
      CompareStep(c, s, g.m);
      Lands(c, s', g, 6);
    } else if k == 6 {
      BranchStep(c, s, g.m);
      if Loaded(c, s) != Expected(c) {
        Lands(c, s', Done(g.m), 9);
      } else {
        Lands(c, s', g, 7);
      }
    } else if k == 7 {
      StoreStep(c, s, g.m);
    } else if k == 8 {
      CbnzStep(c, s, g);
      Lands(c, s', g, if g.Idle? then 4 else 9);
    } else if k == 9 {
      ClrexStep(c, s, g.m);
      Lands(c, s', g, 10);
    } else {
      ReturnStep(c, s, g.m);
      Lands(c, s', g, 11);
    }
  }

  lemma RestoreStep(c: Ctx, s: State, m: Memory, k: int)
    requires Sound(c) && Clear(c) && Restoring(c, s, k - RestoreAt(c), m) && k == s.pc - c.base
    ensures StepKeeps(c, s, Exec(InstrAt(c, k), s), Done(m))
  {
    hide Exec, ScratchesOf, Saving, Looping, Restoring, SameShared, Sound, After, Differs, SameCore;
    var j := k - RestoreAt(c);
    RestoreBounds(c, s, j, m);
    SharedRefl(s.mem, c.s0.sp);
    if j == 4 {
      BackStep(c, s, m);
      AfterOthers(c, m);
      CorePc(Exec(InstrAt(c, k), s), After(c, m));
    } else {
      if j == 1 {
        RestoreFlagsStep(c, s, m);
      } else {
        RestorePopStep(c, s, j, m);
      }
      Lands(c, Exec(InstrAt(c, k), s), Done(m), k + 1);
    }
  }

  lemma CorePc(s: State, t: State)
    requires SameCore(s, t)
    ensures s.pc == t.pc
  {
  }

  lemma IslandStep(c: Ctx, s: State, g: Ghost)
    requires Sound(c) && Clear(c) && InIsland(c, s, s.pc - c.base, g) && 0 <= s.pc - c.base < Length(c)
    ensures StepKeeps(c, s, Exec(InstrAt(c, s.pc - c.base), s), g)
  {
    hide Exec, InstrAt, ScratchesOf, Saving, Looping, Restoring, Sound, Clear, StepKeeps;
    var k := s.pc - c.base;
    if k <= 3 {
      SaveStep(c, s, k);
    } else if k < RestoreAt(c) {
      LoopStep(c, s, g, k);
    } else {
      RestoreStep(c, s, g.m, k);
    }
  }

  lemma EntryStep(c: Ctx, s: State)
    requires Sound(c) && Clear(c) && Inv(c, s, Idle) && s.pc == c.s0.pc
    ensures StepKeeps(c, s, Exec(Branch(c.base - c.s0.pc), s), Idle)
  {
    hide ScratchesOf, Load, Sound;
  }

  lemma StackUnderInterference(c: Ctx, s: State, s': State)
    requires Interfere(c.s0.sp, s, s')
    ensures forall n: nat, g :: n <= 3 && Stack(c, s, n, g) ==> Stack(c, s', n, g)
  {
    hide ScratchesOf, Interfere, Holding, FlagSlot;
    forall n: nat, g | n <= 3 && Stack(c, s, n, g)
      ensures Stack(c, s', n, g)
    {
      HoldingUnderInterference(c.s0, s, s', Pushes(c, g)[..n]);
    }
  }

  lemma LoopUnderInterference(c: Ctx, s: State, s': State, k: int, g: Ghost)
    requires Looping(c, s, k, g) && Interfere(c.s0.sp, s, s')
    ensures Looping(c, s', k, g)
  {
    hide Load, ScratchesOf, AgreeOn, Holding, FlagSlot, Target;
    HoldingUnderInterference(c.s0, s, s', Pushes(c, g)[..3]);
    SameX(s, s');
    if s'.monitor == Exclusive(Target(c), c.d.size) {
      LoadSame(s.mem, s'.mem, Target(c), c.d.size);
    }
    hide X;
  }

  /** Interference keeps the invariant. */
  lemma InterferenceKeeps(c: Ctx, s: State, s': State, g: Ghost)
    requires Inv(c, s, g) && Interfere(c.s0.sp, s, s')
    ensures Inv(c, s', g)
  {
    hide Load, ScratchesOf, AgreeOn, Stack, Looping, After, X, Q;
    StackUnderInterference(c, s, s');
    SameX(s, s');
    SameQ(s, s');
    var k := s.pc - c.base;
    if s.pc != c.s0.pc && s.pc != c.s0.pc + 1 && 3 < k < RestoreAt(c) {
      LoopUnderInterference(c, s, s', k, g);
    }
  }

  /** Whether the whole instruction has taken effect: done, or about to be found different. */
  predicate Decided(c: Ctx, g: Ghost): (r: bool)
    ensures r ==> !g.Idle?
  {
    g.Done? || (g.Saw? && Load(g.m, Target(c), c.d.size) % Wide(c.d.size) != Expected(c))
  }

  /** The effect comes at one step, on the memory found there, and no other step changes shared memory. */
  lemma DecidedStep(c: Ctx, s: State, s': State, g: Ghost)
    requires Inv(c, s, g) && s.pc != c.s0.pc + 1 && StepKeeps(c, s, s', g)
    ensures
      var g' := NextGhost(c, s, g);
      && (Decided(c, g') && !Decided(c, g) ==> g'.m == s.mem && s'.mem == MemAfter(c, s.mem))
      && (Decided(c, g) ==> Decided(c, g') && g'.m == g.m)
      && (Decided(c, g) == Decided(c, g') ==> SameShared(s.mem, s'.mem, c.s0.sp))
  {
    hide Load, Store, ScratchesOf, Wide, Target, FlagsIn, Holding, Others, SameCore, SameShared, Restoring, Saving;
    SharedRefl(s.mem, c.s0.sp);
  }

  // ----- whole runs -----

  ghost predicate Patched(c: Ctx, code: Code) {
    && Installed(code, c.s0.pc, c.base, CasWords(c.d, Back(c)))
    && InBranchRange(c.base - c.s0.pc) && InBranchRange(Back(c))
  }

  lemma CpuKeeps(c: Ctx, code: Code, s: State, g: Ghost)
    requires Sound(c) && Patched(c, code) && Inv(c, s, g) && s.pc in code
    ensures StepKeeps(c, s, Step(code, s), g)
  {
    hide Exec, InstrAt, ScratchesOf, InIsland, StepKeeps, SameCore, CasWords, CasProgram, Step, Length, InBranchRange, Decode;
    GoodOp(c);
    CasDecodes(c.d, Back(c));
    Layout(c);
    Fetch(code, c.s0.pc, c.base, CasWords(c.d, Back(c)), CasProgram(c.d, Back(c)), s);
    if s.pc == c.s0.pc {
      EntryStep(c, s);
    } else {
      IslandStep(c, s, g);
    }
  }

  lemma GoodOp(c: Ctx)
    requires Sound(c)
    ensures c.d.op == Cas
  {
  }

  /** Step k of the run is the core's, and changes memory as the island's operation does. */
  ghost predicate EffectAt(c: Ctx, code: Code, tr: seq<State>, k: int) {
    && 0 <= k < |tr| - 1 && CpuStep(code, tr[k], tr[k + 1])
    && Wins(c, tr[k].mem, tr[k + 1].mem)
    && StoresOnlyAt(code, c.s0.sp, tr, k)
  }

  /** No step of the core has changed shared memory. */
  ghost predicate NoStore(c: Ctx, code: Code, tr: seq<State>) {
    StoresOnlyAt(code, c.s0.sp, tr, -1)
  }

  ghost predicate Progress(c: Ctx, code: Code, tr: seq<State>, g: Ghost, k: int) {
    && |tr| > 0
    && Inv(c, tr[|tr| - 1], g)
    && (g.Idle? ==> NoStore(c, code, tr))
    && (g.Saw? ==> NoStore(c, code, tr) && 0 <= k < |tr| - 1 && CpuStep(code, tr[k], tr[k + 1])
                   && tr[k + 1].mem == tr[k].mem == g.m)
    && (g.Done? ==> EffectAt(c, code, tr, k) && g.m == tr[k].mem)
  }

  /** One more step that leaves shared memory alone. */
  lemma QuietStep(c: Ctx, code: Code, tr: seq<State>, s': State, k: int)
    requires |tr| > 0 && StoresOnlyAt(code, c.s0.sp, tr, k)
    requires k == |tr| - 1 || SameShared(tr[|tr| - 1].mem, s'.mem, c.s0.sp) || !CpuStep(code, tr[|tr| - 1], s')
    ensures StoresOnlyAt(code, c.s0.sp, tr + [s'], k)
  {
    hide SameShared, Step;
    var tr' := tr + [s'];
    forall j | 0 <= j < |tr'| - 1 && j != k && CpuStep(code, tr'[j], tr'[j + 1])
      ensures SameShared(tr'[j].mem, tr'[j + 1].mem, c.s0.sp)
    {
      if j < |tr| - 1 {
        assert tr'[j] == tr[j] && tr'[j + 1] == tr[j + 1];
      }
    }
  }

  lemma WeakenStore(c: Ctx, code: Code, tr: seq<State>, k: int)
    requires NoStore(c, code, tr)
    ensures StoresOnlyAt(code, c.s0.sp, tr, k)
  {
    hide SameShared, CpuStep;
  }

  lemma CpuProgress(c: Ctx, code: Code, tr: seq<State>, s': State, g: Ghost, k: int) returns (k': int)
    requires Sound(c) && Patched(c, code) && Progress(c, code, tr, g, k)
    requires CpuStep(code, tr[|tr| - 1], s')
    ensures Progress(c, code, tr + [s'], NextGhost(c, tr[|tr| - 1], g), k')
  {
    hide Inv, Sound, Patched, MemAfter, FlagsIn, Step, SameShared, StoresOnlyAt, NextGhost;
    var s := tr[|tr| - 1];
    var tr' := tr + [s'];
    NotPast(c, code, s);
    CpuKeeps(c, code, s, g);
    var g' := NextGhost(c, s, g);
    assert s' == tr'[|tr'| - 1];
    k' := k;
    if g'.Idle? || g' == g {
      if g.Done? && !g'.Idle? {
        QuietStep(c, code, tr, s', k);
        assert tr'[k] == tr[k] && tr'[k + 1] == tr[k + 1];
      } else {
        IdleFrom(c, s, g);
        QuietStep(c, code, tr, s', -1);
      }
    } else if g'.Saw? {
      IdleFrom(c, s, g);
      QuietStep(c, code, tr, s', -1);
      k' := |tr| - 1;
    } else if g == Saw(g'.m) && s'.mem == s.mem {
      SharedRefl(s.mem, c.s0.sp);
      SharedRefl(g'.m, c.s0.sp);
      QuietStep(c, code, tr, s', -1);
      WeakenStore(c, code, tr', k);
      assert tr'[k] == tr[k] && tr'[k + 1] == tr[k + 1];
    } else {
      k' := |tr| - 1;
      WeakenStore(c, code, tr, k');
      QuietStep(c, code, tr, s', k');
    }
  }

  lemma NotPast(c: Ctx, code: Code, s: State)
    requires Sound(c) && Patched(c, code) && s.pc in code
    ensures s.pc != c.s0.pc + 1
  {
    hide CasWords, CasProgram, InBranchRange, Decode, Apart;
  }

  /** Nothing undoes a finished effect. */
  lemma IdleFrom(c: Ctx, s: State, g: Ghost)
    requires Inv(c, s, g) && s.pc != c.s0.pc + 1
    ensures NextGhost(c, s, g).Idle? || NextGhost(c, s, g).Saw? ==> !g.Done?
  {
    hide Stack, Others, Returned, Current, Restoring, After;
  }

  lemma ProgressStep(c: Ctx, code: Code, tr: seq<State>, s': State, g: Ghost, k: int) returns (g': Ghost, k': int)
    requires Sound(c) && Patched(c, code) && Progress(c, code, tr, g, k)
    requires Next(code, c.s0.sp, tr[|tr| - 1], s')
    ensures Progress(c, code, tr + [s'], g', k')
  {
    hide Inv, Sound, Patched, Wins, Step, SameShared, Interfere, StoresOnlyAt, NextGhost;
    var s := tr[|tr| - 1];
    if CpuStep(code, s, s') {
      g' := NextGhost(c, s, g);
      k' := CpuProgress(c, code, tr, s', g, k);
    } else {
      g', k' := g, k;
      InterferenceKeeps(c, s, s', g);
      QuietStep(c, code, tr, s', if g.Done? then k else -1);
      var tr' := tr + [s'];
      assert s' == tr'[|tr'| - 1];
      if !g.Idle? {
        assert tr'[k] == tr[k] && tr'[k + 1] == tr[k + 1];
      }
    }
  }

  lemma {:induction false} ProgressAll(c: Ctx, code: Code, tr: seq<State>) returns (g: Ghost, k: int)
    requires Sound(c) && Patched(c, code) && Run(code, c.s0.sp, tr) && tr[0] == c.s0
    ensures Progress(c, code, tr, g, k)
    decreases |tr|
  {
    hide Sound, Patched, Next;
    if |tr| == 1 {
      g, k := Idle, -1;
    } else {
      var n := |tr| - 1;
      var before := tr[..n];
      forall i | 0 <= i < n - 1 ensures Next(code, c.s0.sp, before[i], before[i + 1]) {
        assert Next(code, c.s0.sp, tr[i], tr[i + 1]);
      }
      hide Progress;
      var g0, k0 := ProgressAll(c, code, before);
      g, k := ProgressStep(c, code, before, tr[n], g0, k0);
      assert before + [tr[n]] == tr;
    }
  }

  /** Atomicity under interference: at one step k of every finished run memory changes, or stays, as the
      island's operation does to the memory found there; the core changes shared memory at no other step,
      and ends with the registers, stack pointer, flags and vectors the operation leaves. */
  lemma IslandAtomic(c: Ctx, code: Code, tr: seq<State>) returns (k: nat)
    requires Sound(c) && Patched(c, code) && Run(code, c.s0.sp, tr)
    requires tr[0] == c.s0 && tr[|tr| - 1].pc == c.s0.pc + 1
    ensures EffectAt(c, code, tr, k)
    ensures SameCore(tr[|tr| - 1], After(c, tr[k].mem))
  {
    hide Sound, Patched, Run, SameCore, EffectAt;
    var g, j := ProgressAll(c, code, tr);
    EffectPlace(c, code, tr, j);
    k := j;
  }

  lemma EffectPlace(c: Ctx, code: Code, tr: seq<State>, k: int)
    requires EffectAt(c, code, tr, k)
    ensures 0 <= k
  {
  }

  /** The comparison register is clear above a byte or halfword access, or the swap would store what
      was compared with. */
  predicate OperandsFit(size: Size, rs: int, rt: int) {
    rs % Wide(size) < Range(size) || rt % Range(size) == rs % Range(size)
  }

  /** What the caller has to provide for the island to be the instruction. */
  ghost predicate Good(c: Ctx) {
    Sound(c) && c.d.rn != ZR && OperandsFit(c.d.size, X(c.s0, c.d.rs), X(c.s0, c.d.rt))
  }

  /** Then the island's operation is the instruction, up to a store of what is there anyway. */
  lemma AfterIsInstruction(c: Ctx, m: Memory)
    requires Good(c)
    ensures var i := LseExec(LseInstr(c.d), c.s0.(mem := m));
      SameCore(After(c, m), i) && SameShared(MemAfter(c, m), i.mem, c.s0.sp)
  {
    hide Load, Store, ScratchesOf, Range, Wide, FlagsWord, WordFlags, At;
    FlagsWordRoundTrip(c.s0.flags);
    SameMemory(c, m);
  }

  lemma SameMemory(c: Ctx, m: Memory)
    requires Good(c)
    ensures SameShared(MemAfter(c, m), LseMemory(LseInstr(c.d), c.s0.(mem := m)), c.s0.sp)
  {
    hide Load, Store, ScratchesOf, Range, Wide, At;
    var d := c.d;
    var was, rs, rt, r := Load(m, Target(c), d.size), X(c.s0, d.rs), X(c.s0, d.rt), Range(d.size);
    LoadRange(m, Target(c), d.size);
    WideRange(d.size);
    SmallMod(was, Wide(d.size));
    SmallMod(was, r);
    NarrowMod(d.size, rs);
    if was == rs % r && was != rs % Wide(d.size) {
      if rs % Wide(d.size) < r {
        SmallMod(rs % Wide(d.size), r);
      }
      StoreSame(m, Target(c), d.size, rt);
    }
  }

  /** So one step k of a finished run has the effect of the whole instruction on the memory it finds, and
      the run ends as the instruction would, executed at that moment. */
  lemma CasAtomic(c: Ctx, code: Code, tr: seq<State>) returns (k: nat)
    requires Good(c) && Patched(c, code) && Run(code, c.s0.sp, tr)
    requires tr[0] == c.s0 && tr[|tr| - 1].pc == c.s0.pc + 1
    ensures k < |tr| - 1 && CpuStep(code, tr[k], tr[k + 1])
    ensures SameShared(tr[k + 1].mem, LseExec(LseInstr(c.d), c.s0.(mem := tr[k].mem)).mem, c.s0.sp)
    ensures SameCore(tr[|tr| - 1], LseExec(LseInstr(c.d), c.s0.(mem := tr[k].mem)))
    ensures StoresOnlyAt(code, c.s0.sp, tr, k)
  {
    hide Patched, Run, StoresOnlyAt, CpuStep, MemAfter, FlagSlot, FlagsIn, Target, LseExec, After, SameShared;
    k := IslandAtomic(c, code, tr);
    AfterIsInstruction(c, tr[k].mem);
  }

  // ----- progress -----

  /** Steps left when no other core interferes: one failed store-exclusive at most. */
  function Rank(c: Ctx, s: State, g: Ghost): int {
    var k := s.pc - c.base;
    if s.pc == c.s0.pc + 1 then 0
    else if s.pc == c.s0.pc then Length(c) + 1
    else if (5 <= k <= 7 && s.monitor != Exclusive(Target(c), c.d.size)) || (k == 8 && g.Idle?) then
      9 - k + Length(c) - 4
    else Length(c) - k
  }

  lemma SoloStep(c: Ctx, s: State, g: Ghost)
    requires Sound(c) && Clear(c) && InIsland(c, s, s.pc - c.base, g) && 0 <= s.pc - c.base < Length(c)
    ensures 0 <= Rank(c, Exec(InstrAt(c, s.pc - c.base), s), NextGhost(c, s, g)) < Rank(c, s, g)
  {
    hide Exec, ScratchesOf, Saving, Looping, Restoring, SameShared, Sound, After;
    var k := s.pc - c.base;
    if k <= 3 {
      if k <= 1 {
        SavePushStep(c, s, k);
      } else if k == 2 {
        SaveFlagsStep(c, s);
      } else {
        PushFlagsStep(c, s);
      }
    } else if k < RestoreAt(c) {
      SoloLoopStep(c, s, g, k);
    } else {
      var j := k - RestoreAt(c);
      RestoreBounds(c, s, j, g.m);
      if j == 1 {
        RestoreFlagsStep(c, s, g.m);
      } else if j == 4 {
        BackStep(c, s, g.m);
        AfterOthers(c, g.m);
      } else {
        RestorePopStep(c, s, j, g.m);
      }
    }
  }

  lemma SoloLoopStep(c: Ctx, s: State, g: Ghost, k: int)
    requires Sound(c) && Clear(c) && Looping(c, s, k, g) && k == s.pc - c.base
    ensures 0 <= Rank(c, Exec(InstrAt(c, k), s), NextGhost(c, s, g)) < Rank(c, s, g)
  {
    hide Exec, ScratchesOf, Saving, Looping, Restoring, SameShared, Sound, After, Loaded, Expected;
    LoopBounds(c, s, k, g);
    if k == 4 {
      LoadStep(c, s);
    } else if k == 5 {
      CompareStep(c, s, g.m);
    } else if k == 6 {
      BranchStep(c, s, g.m);
    } else if k == 7 {
      StoreStep(c, s, g.m);
    } else if k == 8 {
      CbnzStep(c, s, g);
    } else if k == 9 {
      ClrexStep(c, s, g.m);
    } else {
      ReturnStep(c, s, g.m);
    }
  }

  lemma CpuRank(c: Ctx, code: Code, s: State, g: Ghost)
    requires Sound(c) && Patched(c, code) && Inv(c, s, g) && s.pc != c.s0.pc + 1
    ensures s.pc in code && 0 <= Rank(c, Step(code, s), NextGhost(c, s, g)) < Rank(c, s, g)
  {
    hide Exec, InstrAt, ScratchesOf, SameCore, CasWords, CasProgram, Step, Saving, Looping, Restoring, InBranchRange, Decode;
    GoodOp(c);
    CasDecodes(c.d, Back(c));
    Layout(c);
    var k := s.pc - c.base;
    if s.pc == c.s0.pc {
      Fetch(code, c.s0.pc, c.base, CasWords(c.d, Back(c)), CasProgram(c.d, Back(c)), s);
      BranchPc(s, c.base - c.s0.pc);
    } else {
      IslandBounds(c, s, k, g);
      InCode(code, c.s0.pc, c.base, CasWords(c.d, Back(c)), k);
      Fetch(code, c.s0.pc, c.base, CasWords(c.d, Back(c)), CasProgram(c.d, Back(c)), s);
      SoloStep(c, s, g);
    }
  }

  lemma IslandBounds(c: Ctx, s: State, k: int, g: Ghost)
    requires InIsland(c, s, k, g)
    ensures 0 <= k < Length(c)
  {
    hide Stack, Others;
  }

  lemma RankBound(c: Ctx, s: State, g: Ghost)
    requires Inv(c, s, g)
    ensures 0 <= Rank(c, s, g) <= 2 * Length(c)
  {
    hide Stack, Others, SameCore;
  }

  /** Wherever other cores leave the run, left alone it finishes, within twice the island's length. */
  lemma {:induction false} CasFinishes(c: Ctx, code: Code, s: State, g: Ghost) returns (tr: seq<State>)
    requires Sound(c) && Patched(c, code) && Inv(c, s, g)
    ensures SoloRun(code, tr) && tr[0] == s && tr[|tr| - 1].pc == c.s0.pc + 1
    ensures |tr| - 1 <= Rank(c, s, g) <= 2 * Length(c)
    decreases Rank(c, s, g)
  {
    hide Sound, Patched, Inv, InIsland, Exec, Step, NextGhost;
    RankBound(c, s, g);
    if s.pc == c.s0.pc + 1 {
      tr := [s];
    } else {
      CpuRank(c, code, s, g);
      CpuKeeps(c, code, s, g);
      var s' := Step(code, s);
      var rest := CasFinishes(c, code, s', NextGhost(c, s, g));
      tr := [s] + rest;
      forall i | 0 <= i < |tr| - 1 ensures CpuStep(code, tr[i], tr[i + 1]) {
        if i > 0 {
          assert CpuStep(code, rest[i - 1], rest[i]);
        }
      }
    }
  }
}
