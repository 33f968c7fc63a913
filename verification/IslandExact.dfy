/** When exactly an island does what the instruction it replaces does, said of finished runs: which
    operands it needs, and what happens with SP as base. */
module IslandExact {
  import opened Basics
  import opened A64Memory
  import opened A64
  import opened LseValues
  import opened IsaEmul
  import opened StackFrame
  import opened Interleaving
  import RmwIsland
  import CasIsland

  /** The core has run alone from s0 to the word after the patched one. */
  ghost predicate Finished(code: Code, s0: State, tr: seq<State>) {
    |tr| > 0 && SoloRun(code, tr) && tr[0] == s0 && tr[|tr| - 1].pc == s0.pc + 1
  }

  /** A run from s0 ended as the instruction would have. */
  ghost predicate Ends(d: Atomic, s0: State, s: State) {
    SameCore(s, LseExec(LseInstr(d), s0)) && SameShared(s.mem, LseMemory(LseInstr(d), s0), s0.sp)
  }

  // ----- shared memory -----

  lemma SharedStore(m: Memory, m': Memory, a: int, size: Size, v: int, sp: int)
    requires SameShared(m, m', sp)
    ensures SameShared(Store(m, a, size, v), Store(m', a, size, v), sp)
  {
    hide Store, At, Within;
    forall b: int | !Within(b, Frame(sp), FRAME) ensures At(Store(m, a, size, v), b) == At(Store(m', a, size, v), b) {
      StoreAgree(m, m', a, size, v, b);
    }
  }

  lemma SharedLoad(m: Memory, m': Memory, a: int, size: Size, sp: int)
    requires Apart(a, Bytes(size), Frame(sp), FRAME) && SameShared(m, m', sp)
    ensures Load(m, a, size) == Load(m', a, size)
  {
    hide Load, Frame, Within, At;
    LoadElsewhere(m, m', a, size, sp);
  }

  /** Storing v at a place outside the frame is no change exactly when v is there. */
  lemma SharedKept(m: Memory, a: int, size: Size, v: int, sp: int)
    requires Apart(a, Bytes(size), Frame(sp), FRAME) && 0 <= v < Range(size)
    ensures SameShared(m, Store(m, a, size, v), sp) <==> v == Load(m, a, size)
  {
    hide Load, Store, Apart, At, Range;
    StoreRead(m, a, size, v);
    SmallMod(v, Range(size));
    if v == Load(m, a, size) {
      StoreSame(m, a, size, v);
    }
    if SameShared(m, Store(m, a, size, v), sp) {
      SharedLoad(m, Store(m, a, size, v), a, size, sp);
    }
  }

  // ----- read-modify-write, base register other than SP -----

  /** The same execution with other memory. */
  function RmwOn(c: RmwIsland.Ctx, m: Memory): RmwIsland.Ctx {
    c.(s0 := c.s0.(mem := m))
  }

  /** Left alone, the island applies its operation to the memory it started with. */
  lemma RmwOutcome(c: RmwIsland.Ctx, code: Code, tr: seq<State>)
    requires RmwIsland.Sound(c) && c.d.rn != ZR && RmwIsland.Patched(c, code) && Finished(code, c.s0, tr)
    ensures SameCore(tr[|tr| - 1], RmwIsland.After(c, c.s0.mem))
    ensures SameShared(tr[|tr| - 1].mem, RmwIsland.MemAfter(c, c.s0.mem), c.s0.sp)
  {
    hide RmwIsland.Patched, SoloRun, StoresOnlyAt, CpuStep, SameShared, Load, Store, Apart, IslandValue, WordFlags, FlagsWord;
    SoloIsRun(code, c.s0.sp, tr);
    var k := RmwIsland.IslandAtomic(c, code, tr);
    SharedChain(code, c.s0.sp, tr, k, 0, k);
    SharedChain(code, c.s0.sp, tr, k, k + 1, |tr| - 1);
    var m, last, t := tr[k].mem, tr[|tr| - 1].mem, RmwIsland.Target(c);
    SharedLoad(c.s0.mem, m, t, c.d.size, c.s0.sp);
    var v := IslandValue(c.d.op, c.d.size, Load(m, t, c.d.size), X(c.s0, c.d.rs));
    SharedStore(c.s0.mem, m, t, c.d.size, v, c.s0.sp);
    SharedTrans(Store(c.s0.mem, t, c.d.size, v), Store(m, t, c.d.size, v), last, c.s0.sp);
    SharedSym(Store(c.s0.mem, t, c.d.size, v), last, c.s0.sp);
  }

  /** A run on memory m ends as the instruction exactly when the value stored is the instruction's. */
  lemma RmwEnds(c: RmwIsland.Ctx, code: Code, tr: seq<State>)
    requires RmwIsland.Sound(c) && c.d.rn != ZR && RmwIsland.Patched(c, code) && Finished(code, c.s0, tr)
    ensures
      var was, source := Load(c.s0.mem, X(c.s0, c.d.rn), c.d.size), X(c.s0, c.d.rs);
      Ends(c.d, c.s0, tr[|tr| - 1]) <==>
        IslandValue(c.d.op, c.d.size, was, source) % Range(c.d.size) == Rmw(c.d.op, c.d.size, was, source)
  {
    hide RmwIsland.Patched, SoloRun, SameShared, Load, Store, Apart, IslandValue, Rmw, Range, LseMemory, WordFlags, FlagsWord;
    var d, sp, last, a := c.d, c.s0.sp, tr[|tr| - 1], X(c.s0, c.d.rn);
    var was, source := Load(c.s0.mem, a, d.size), X(c.s0, d.rs);
    var v, w := IslandValue(d.op, d.size, was, source), Rmw(d.op, d.size, was, source);
    RmwOutcome(c, code, tr);
    RmwMemory(d, c.s0);
    FlagsWordRoundTrip(c.s0.flags);
    LoadRange(c.s0.mem, a, d.size);
    RmwRange(d.op, d.size, was, source);
    var mine, theirs := Store(c.s0.mem, a, d.size, v), Store(c.s0.mem, a, d.size, w);
    SmallMod(w, Range(d.size));
    if v % Range(d.size) == w {
      StoreCongruent(c.s0.mem, a, d.size, v, w);
    }
    if SameShared(last.mem, theirs, sp) {
      SharedSym(last.mem, mine, sp);
      SharedTrans(mine, last.mem, theirs, sp);
      SharedLoad(mine, theirs, a, d.size, sp);
      StoreRead(c.s0.mem, a, d.size, v);
      StoreRead(c.s0.mem, a, d.size, w);
    }
  }

  lemma RmwMemory(d: Atomic, s: State)
    requires d.op != Cas
    ensures var a := Base(s, d.rn);
      LseMemory(LseInstr(d), s) == Store(s.mem, a, d.size, Rmw(d.op, d.size, Load(s.mem, a, d.size), X(s, d.rs)))
  {
    hide Load, Store, Rmw;
  }

  lemma RmwRange(op: LseOp, size: Size, was: int, source: int)
    requires 0 <= was < Range(size)
    ensures 0 <= Rmw(op, size, was, source) < Range(size)
  {
    hide Logical, Signed, Range;
    RangePositive(size);
    ModRange(source, Range(size));
    ModRange(was + source % Range(size), Range(size));
    LogicalNarrow(AndNot, size, was, source);
    LogicalNarrow(Xor, size, was, source);
    LogicalNarrow(Or, size, was, source);
  }

  /** The island's finished runs end as the instruction, whatever memory holds at the start, exactly when
      the source fits: for every operation and size that is no condition, except for UMAX and UMIN of a
      byte or halfword. When it does not fit, some memory makes the finished run store another value. */
  lemma RmwExact(c: RmwIsland.Ctx, code: Code)
    requires RmwIsland.Sound(c) && c.d.rn != ZR && RmwIsland.Patched(c, code)
    ensures (forall m: Memory, tr :: Finished(code, RmwOn(c, m).s0, tr) ==> Ends(c.d, RmwOn(c, m).s0, tr[|tr| - 1]))
       <==> SourceFits(c.d.op, c.d.size, X(c.s0, c.d.rs))
  {
    hide RmwIsland.Sound, RmwIsland.Patched, SoloRun, Ends, SourceFits, Load, IslandValue, Rmw, Range, RmwIsland.Inv;
    var d, source := c.d, X(c.s0, c.d.rs);
    if SourceFits(d.op, d.size, source) {
      forall m: Memory, tr | Finished(code, RmwOn(c, m).s0, tr) ensures Ends(d, RmwOn(c, m).s0, tr[|tr| - 1]) {
        RmwOnSame(c, code, m);
        RmwEnds(RmwOn(c, m), code, tr);
        LoadRange(m, X(c.s0, d.rn), d.size);
        IslandValueCorrect(d.op, d.size, Load(m, X(c.s0, d.rn), d.size), source);
      }
    } else {
      var was := WrongValue(d.op, d.size, source);
      var m := Store(c.s0.mem, X(c.s0, d.rn), d.size, was);
      StoreRead(c.s0.mem, X(c.s0, d.rn), d.size, was);
      SmallMod(was, Range(d.size));
      RmwOnSame(c, code, m);
      var tr := RmwSolo(RmwOn(c, m), code);
      RmwEnds(RmwOn(c, m), code, tr);
    }
  }

  lemma RmwOnSame(c: RmwIsland.Ctx, code: Code, m: Memory)
    ensures RmwIsland.Sound(RmwOn(c, m)) == RmwIsland.Sound(c) && RmwIsland.Patched(RmwOn(c, m), code) == RmwIsland.Patched(c, code)
    ensures RmwOn(c, m).d == c.d && RmwOn(c, m).s0.mem == m && forall r :: X(RmwOn(c, m).s0, r) == X(c.s0, r)
  {
    hide ScratchesOf, OpInstrs, RmwWords, InBranchRange, Installed, Apart;
  }

  /** The run of the core alone exists. */
  lemma RmwSolo(c: RmwIsland.Ctx, code: Code) returns (tr: seq<State>)
    requires RmwIsland.Sound(c) && RmwIsland.Patched(c, code)
    ensures Finished(code, c.s0, tr)
  {
    hide RmwIsland.Sound, RmwIsland.Patched, CpuStep, RmwIsland.InIsland, RmwIsland.After;
    tr := RmwIsland.RmwFinishes(c, code, c.s0, None);
  }

  lemma WrongValue(op: LseOp, size: Size, source: int) returns (was: int)
    requires !SourceFits(op, size, source) && 0 <= source < TWO64
    ensures 0 <= was < Range(size) && IslandValue(op, size, was, source) % Range(size) != Rmw(op, size, was, source)
  {
    hide IslandValue, Rmw, Wide, Range;
    was := Range(size) - 1;
    RangePositive(size);
    ModRange(source, Range(size));
    UnsignedOne(op, size, was, source);
  }

  // ----- read-modify-write on SP -----

  /** The flags that come back when v has been stored over the low bytes of the saved ones. */
  function SpFlags(f: Flags, size: Size, v: int): Flags {
    var w := FlagsWord(f);
    WordFlags(w - w % Range(size) + v % Range(size))
  }

  /** With SP as base: the operation is applied to the saved flags, their low bytes are returned. */
  function RmwSpResult(c: RmwIsland.Ctx): State {
    var low := FlagsWord(c.s0.flags) % Range(c.d.size);
    var v := IslandValue(c.d.op, c.d.size, low, X(c.s0, c.d.rs));
    Advance(SetX(c.s0.(flags := SpFlags(c.s0.flags, c.d.size, v)), c.d.rt, Wrap(low)), 1)
  }

  /** Every finished run of an island with SP as base, under any interference, writes only the frame below
      SP, returns the low bytes of the saved flags word, and restores the flags from what its store left
      of that word. */
  lemma RmwSpRuns(c: RmwIsland.Ctx, code: Code, tr: seq<State>)
    requires c.d.op != Cas && c.d.rn == ZR && RmwIsland.Patched(c, code) && Run(code, c.s0.sp, tr)
    requires tr[0] == c.s0 && tr[|tr| - 1].pc == c.s0.pc + 1
    ensures StoresOnlyAt(code, c.s0.sp, tr, -1)
    ensures SameCore(tr[|tr| - 1], RmwSpResult(c))
  {
    hide RmwIsland.Patched, Run, CpuStep, SameShared, Load, Store, IslandValue, WordFlags, FlagsWord, Range, Slot;
    var k := RmwIsland.IslandAtomic(c, code, tr);
    var m, t, size := tr[k].mem, RmwIsland.Target(c), c.d.size;
    LowLoad(m, t, size);
    var v := IslandValue(c.d.op, size, Load(m, t, size), X(c.s0, c.d.rs));
    MergeStore(m, t, size, v);
    LoadRange(RmwIsland.MemAfter(c, m), t, Dword);
    SmallMod(Load(RmwIsland.MemAfter(c, m), t, Dword), TWO64) by { DwordRange(); }
  }

  lemma DwordRange()
    ensures Range(Dword) == TWO64
  {
  }

  /** Storing over the low bytes of the flags word. A byte or halfword never reaches the flags; a wider
      value replaces them. */
  lemma SpFlagsAre(f: Flags, size: Size, v: int)
    ensures SpFlags(f, size, v) == if SubWord(size) then f else WordFlags(v % Range(size))
  {
    hide FlagsWord, WordFlags;
    FlagsWordSmall(f);
    FlagsWordRoundTrip(f);
    if SubWord(size) {
      LowReplaced(FlagsWord(f), Range(size), v);
      TopFlags(FlagsWord(f), FlagsWord(f) - FlagsWord(f) % Range(size) + v % Range(size));
    } else {
      SmallMod(FlagsWord(f), Range(size));
    }
  }

  lemma FlagsWordSmall(f: Flags)
    ensures 0 <= FlagsWord(f) < 0x1_0000_0000
  {
  }

  lemma LowReplaced(w: int, r: int, v: int)
    requires r == 0x100 || r == 0x1_0000
    ensures w / 0x1_0000 == (w - w % r + v % r) / 0x1_0000
  {
    var u := w - w % r + v % r;
    if r == 0x100 {
      assert w / 0x100 == u / 0x100;
      assert w / 0x1_0000 == w / 0x100 / 0x100 && u / 0x1_0000 == u / 0x100 / 0x100;
    }
  }

  lemma RangeWide(size: Size)
    ensures Range(size) <= TWO64
  {
  }

  lemma TopFlags(w: int, u: int)
    requires 0 <= w && w / 0x1_0000 == u / 0x1_0000
    ensures WordFlags(w) == WordFlags(u)
  {
    assert w / 0x1000_0000 == w / 0x1_0000 / 0x1000 && u / 0x1000_0000 == u / 0x1_0000 / 0x1000;
    assert w / 0x2000_0000 == w / 0x1_0000 / 0x2000 && u / 0x2000_0000 == u / 0x1_0000 / 0x2000;
    assert w / 0x4000_0000 == w / 0x1_0000 / 0x4000 && u / 0x4000_0000 == u / 0x1_0000 / 0x4000;
    assert w / 0x8000_0000 == w / 0x1_0000 / 0x8000 && u / 0x8000_0000 == u / 0x1_0000 / 0x8000;
  }

  /** The island on [SP] is the instruction exactly when the word there already is the flags' low part (or
      is not wanted), the operation would not change it, and the operation on the flags leaves them. */
  lemma RmwSpExact(c: RmwIsland.Ctx, code: Code, tr: seq<State>)
    requires c.d.op != Cas && c.d.rn == ZR && RmwIsland.Patched(c, code) && Finished(code, c.s0, tr)
    ensures
      var d, flags, source := c.d, c.s0.flags, X(c.s0, c.d.rs);
      var was, low := Load(c.s0.mem, c.s0.sp, d.size), FlagsWord(flags) % Range(d.size);
      Ends(d, c.s0, tr[|tr| - 1]) <==>
        && (d.rt == ZR || was == low)
        && Rmw(d.op, d.size, was, source) == was
        && (SubWord(d.size) || WordFlags(Rmw(d.op, d.size, low, source)) == flags)
  {
    hide RmwIsland.Patched, SoloRun, StoresOnlyAt, SameShared, Load, Store, IslandValue, WordFlags, FlagsWord, Range, Rmw,
      Apart, LseMemory, SpFlags;
    var d, sp, flags, source, last := c.d, c.s0.sp, c.s0.flags, X(c.s0, c.d.rs), tr[|tr| - 1];
    RangePositive(d.size);
    var was, low := Load(c.s0.mem, sp, d.size), FlagsWord(flags) % Range(d.size);
    ModRange(FlagsWord(flags), Range(d.size));
    RangeWide(d.size);
    SoloIsRun(code, sp, tr);
    RmwSpRuns(c, code, tr);
    SharedChain(code, sp, tr, -1, 0, |tr| - 1);
    TopApart(sp, d.size);
    LoadRange(c.s0.mem, sp, d.size);
    RmwRange(d.op, d.size, was, source);
    RmwMemory(d, c.s0);
    var theirs := Store(c.s0.mem, sp, d.size, Rmw(d.op, d.size, was, source));
    SharedKept(c.s0.mem, sp, d.size, Rmw(d.op, d.size, was, source), sp);
    SharedEither(c.s0.mem, last.mem, theirs, sp);
    RmwSpFlags(d, flags, source);
    SpRegisters(c.s0, last, SpFlags(flags, d.size, IslandValue(d.op, d.size, low, source)), d.rt, low, was);
  }

  lemma SharedEither(a: Memory, b: Memory, c: Memory, sp: int)
    requires SameShared(a, b, sp)
    ensures SameShared(b, c, sp) <==> SameShared(a, c, sp)
  {
    SharedSym(a, b, sp);
    if SameShared(b, c, sp) { SharedTrans(a, b, c, sp); }
    if SameShared(a, c, sp) { SharedTrans(b, a, c, sp); }
  }

  lemma RmwSpFlags(d: Atomic, flags: Flags, source: int)
    requires d.op != Cas && 0 <= source < TWO64
    ensures
      var low := FlagsWord(flags) % Range(d.size);
      SpFlags(flags, d.size, IslandValue(d.op, d.size, low, source)) ==
      if SubWord(d.size) then flags else WordFlags(Rmw(d.op, d.size, low, source))
  {
    hide IslandValue, Rmw, WordFlags, SpFlags, FlagsWord;
    var low := FlagsWord(flags) % Range(d.size);
    SpFlagsAre(flags, d.size, IslandValue(d.op, d.size, low, source));
    if !SubWord(d.size) {
      IslandValueCorrect(d.op, d.size, low, source);
    }
  }

  /** Registers and flags set in one state agree with those set in another exactly when the values do. */
  lemma SpRegisters(s0: State, s: State, f: Flags, r: RegNo, low: int, was: int)
    requires 0 <= low < TWO64 && 0 <= was < TWO64
    requires SameCore(s, Advance(SetX(s0.(flags := f), r, Wrap(low)), 1))
    ensures forall m: Memory ::
      SameCore(s, Advance(SetX(s0.(mem := m), r, was % TWO64), 1)) <==> (r == ZR || was == low) && f == s0.flags
  {
    forall m: Memory
      ensures SameCore(s, Advance(SetX(s0.(mem := m), r, was % TWO64), 1)) <==> (r == ZR || was == low) && f == s0.flags
    {
      var t := Advance(SetX(s0.(mem := m), r, was % TWO64), 1);
      if SameCore(s, t) && r != ZR {
        assert X(s, r) == X(t, r);
      }
    }
  }

  // ----- compare-and-swap, base register other than SP -----

  function CasOn(c: CasIsland.Ctx, m: Memory): CasIsland.Ctx {
    c.(s0 := c.s0.(mem := m))
  }

  /** Left alone, the island applies its operation to the memory it started with. */
  lemma CasOutcome(c: CasIsland.Ctx, code: Code, tr: seq<State>)
    requires CasIsland.Sound(c) && c.d.rn != ZR && CasIsland.Patched(c, code) && Finished(code, c.s0, tr)
    ensures SameCore(tr[|tr| - 1], CasIsland.After(c, c.s0.mem))
    ensures SameShared(tr[|tr| - 1].mem, CasIsland.MemAfter(c, c.s0.mem), c.s0.sp)
  {
    hide CasIsland.Patched, SoloRun, StoresOnlyAt, CpuStep, SameShared, Load, Store, Apart, Wide, WordFlags, FlagsWord;
    SoloIsRun(code, c.s0.sp, tr);
    var k := CasIsland.IslandAtomic(c, code, tr);
    SharedChain(code, c.s0.sp, tr, k, 0, k);
    SharedChain(code, c.s0.sp, tr, k, k + 1, |tr| - 1);
    var m, last, t := tr[k].mem, tr[|tr| - 1].mem, CasIsland.Target(c);
    SharedLoad(c.s0.mem, m, t, c.d.size, c.s0.sp);
    SharedStore(c.s0.mem, m, t, c.d.size, X(c.s0, c.d.rt), c.s0.sp);
    var start := CasIsland.MemAfter(c, c.s0.mem);
    SharedTrans(start, CasIsland.MemAfter(c, m), last, c.s0.sp);
    SharedSym(start, last, c.s0.sp);
  }

  /** The memory value the instruction leaves, and the one the island leaves. */
  function CasLeaves(size: Size, was: int, rs: int, rt: int): int {
    if was == rs % Range(size) then rt % Range(size) else was
  }

  function IslandLeaves(size: Size, was: int, rs: int, rt: int): int {
    if was % Wide(size) == rs % Wide(size) then rt % Range(size) else was
  }

  lemma CasEnds(c: CasIsland.Ctx, code: Code, tr: seq<State>)
    requires CasIsland.Sound(c) && c.d.rn != ZR && CasIsland.Patched(c, code) && Finished(code, c.s0, tr)
    ensures
      var was, rs, rt := Load(c.s0.mem, X(c.s0, c.d.rn), c.d.size), X(c.s0, c.d.rs), X(c.s0, c.d.rt);
      Ends(c.d, c.s0, tr[|tr| - 1]) <==> IslandLeaves(c.d.size, was, rs, rt) == CasLeaves(c.d.size, was, rs, rt)
  {
    hide CasIsland.Patched, SoloRun, SameShared, Load, Store, Apart, Range, Wide, LseMemory, WordFlags, FlagsWord;
    var d, sp, last, a, m := c.d, c.s0.sp, tr[|tr| - 1], X(c.s0, c.d.rn), c.s0.mem;
    var was, rs, rt := Load(m, a, d.size), X(c.s0, d.rs), X(c.s0, d.rt);
    CasOutcome(c, code, tr);
    CasMemory(d, c.s0);
    FlagsWordRoundTrip(c.s0.flags);
    LoadRange(m, a, d.size);
    ModRange(rt, Range(d.size)) by { RangePositive(d.size); }
    SharedRefl(m, sp);
    StoreCongruent(m, a, d.size, rt, rt % Range(d.size)) by { SmallMod(rt % Range(d.size), Range(d.size)); }
    SharedKept(m, a, d.size, rt % Range(d.size), sp);
    SharedEither(CasIsland.MemAfter(c, m), last.mem, LseMemory(LseInstr(d), c.s0), sp) by {
      SharedSym(last.mem, CasIsland.MemAfter(c, m), sp);
    }
    if SameShared(Store(m, a, d.size, rt), m, sp) {
      SharedSym(Store(m, a, d.size, rt), m, sp);
    }
    if SameShared(m, Store(m, a, d.size, rt), sp) {
      SharedSym(m, Store(m, a, d.size, rt), sp);
    }
    SharedRefl(Store(m, a, d.size, rt), sp);
  }

  lemma CasMemory(d: Atomic, s: State)
    requires d.op == Cas
    ensures var a := Base(s, d.rn);
      LseMemory(LseInstr(d), s) ==
      if Load(s.mem, a, d.size) == X(s, d.rs) % Range(d.size) then Store(s.mem, a, d.size, X(s, d.rt)) else s.mem
  {
    hide Load, Store;
  }

  lemma CasOnSame(c: CasIsland.Ctx, code: Code, m: Memory)
    ensures CasIsland.Sound(CasOn(c, m)) == CasIsland.Sound(c) && CasIsland.Patched(CasOn(c, m), code) == CasIsland.Patched(c, code)
    ensures CasOn(c, m).d == c.d && CasOn(c, m).s0.mem == m && forall r :: X(CasOn(c, m).s0, r) == X(c.s0, r)
  {
    hide ScratchesOf, CasWords, InBranchRange, Installed, Apart;
  }

  lemma CasSolo(c: CasIsland.Ctx, code: Code) returns (tr: seq<State>)
    requires CasIsland.Sound(c) && CasIsland.Patched(c, code)
    ensures Finished(code, c.s0, tr)
  {
    hide CasIsland.Sound, CasIsland.Patched, CpuStep, CasIsland.InIsland, CasIsland.After;
    tr := CasIsland.CasFinishes(c, code, c.s0, CasIsland.Idle);
  }

  /** The island leaves the instruction's value for every memory value exactly when the operands fit, and
      else goes wrong where memory holds what the instruction would swap. */
  lemma CasValues(size: Size, was: int, rs: int, rt: int)
    requires 0 <= was < Range(size)
    ensures CasIsland.OperandsFit(size, rs, rt) ==> IslandLeaves(size, was, rs, rt) == CasLeaves(size, was, rs, rt)
    ensures !CasIsland.OperandsFit(size, rs, rt) && was == rs % Range(size) ==>
      IslandLeaves(size, was, rs, rt) != CasLeaves(size, was, rs, rt)
  {
    CasIsland.WideRange(size);
    SmallMod(was, Wide(size));
    NarrowMod(size, rs);
    if rs % Wide(size) < Range(size) {
      SmallMod(rs % Wide(size), Range(size)) by { ModRange(rs, Wide(size)); }
    }
    hide Range, Wide;
  }

  /** The island's finished runs end as the instruction, whatever memory holds at the start, exactly when
      the operands fit. When they do not, some memory makes the finished run miss the swap. */
  lemma CasExact(c: CasIsland.Ctx, code: Code)
    requires CasIsland.Sound(c) && c.d.rn != ZR && CasIsland.Patched(c, code)
    ensures (forall m: Memory, tr :: Finished(code, CasOn(c, m).s0, tr) ==> Ends(c.d, CasOn(c, m).s0, tr[|tr| - 1]))
       <==> CasIsland.OperandsFit(c.d.size, X(c.s0, c.d.rs), X(c.s0, c.d.rt))
  {
    hide CasIsland.Sound, CasIsland.Patched, SoloRun, Ends, CasIsland.OperandsFit, Load, Range, Wide, CasLeaves, IslandLeaves;
    var d, rs, rt, a := c.d, X(c.s0, c.d.rs), X(c.s0, c.d.rt), X(c.s0, c.d.rn);
    if CasIsland.OperandsFit(d.size, rs, rt) {
      forall m: Memory, tr | Finished(code, CasOn(c, m).s0, tr) ensures Ends(d, CasOn(c, m).s0, tr[|tr| - 1]) {
        CasOnSame(c, code, m);
        CasEnds(CasOn(c, m), code, tr);
        LoadRange(m, a, d.size);
        CasValues(d.size, Load(m, a, d.size), rs, rt);
      }
    } else {
      RangePositive(d.size);
      ModRange(rs, Range(d.size));
      var was := rs % Range(d.size);
      var m := Store(c.s0.mem, a, d.size, was);
      StoreRead(c.s0.mem, a, d.size, was);
      SmallMod(was, Range(d.size));
      CasOnSame(c, code, m);
      var tr := CasSolo(CasOn(c, m), code);
      CasEnds(CasOn(c, m), code, tr);
      CasValues(d.size, was, rs, rt);
    }
  }

  // ----- compare-and-swap on SP -----

  /** With SP as base: the saved flags are compared and perhaps replaced, their low bytes are returned. */
  function CasSpResult(c: CasIsland.Ctx): State {
    var size, rs, rt := c.d.size, X(c.s0, c.d.rs), X(c.s0, c.d.rt);
    var low := FlagsWord(c.s0.flags) % Range(size);
    var f := if low == rs % Wide(size) then SpFlags(c.s0.flags, size, rt) else c.s0.flags;
    Advance(SetX(c.s0.(flags := f), c.d.rs, Wrap(low)), 1)
  }

  /** Every finished run with SP as base, under any interference, writes only the frame below SP, returns
      the low bytes of the saved flags word, and swaps, if at all, inside that word. */
  lemma CasSpRuns(c: CasIsland.Ctx, code: Code, tr: seq<State>)
    requires c.d.op == Cas && c.d.rn == ZR && CasIsland.Patched(c, code) && Run(code, c.s0.sp, tr)
    requires tr[0] == c.s0 && tr[|tr| - 1].pc == c.s0.pc + 1
    ensures StoresOnlyAt(code, c.s0.sp, tr, -1)
    ensures SameCore(tr[|tr| - 1], CasSpResult(c))
  {
    hide CasIsland.Patched, Run, CpuStep, SameShared, CasIsland.FlagsIn, CasIsland.MemAfter, CasIsland.After, CasSpResult;
    var k := CasIsland.IslandAtomic(c, code, tr);
    CasSpAfter(c, tr[k].mem);
    CoreKept(tr[|tr| - 1], CasIsland.After(c, tr[k].mem), CasSpResult(c));
  }

  lemma CoreKept(s: State, t: State, u: State)
    requires SameCore(s, t) && t == u.(mem := t.mem)
    ensures SameCore(s, u)
  {
  }

  lemma CasSpAfter(c: CasIsland.Ctx, m: Memory)
    requires c.d.rn == ZR && CasIsland.FlagsIn(c, m)
    ensures CasIsland.After(c, m) == CasSpResult(c).(mem := CasIsland.After(c, m).mem)
  {
    hide Load, Store, WordFlags, FlagsWord, Range, Slot, Wide;
    var t, size := CasIsland.Target(c), c.d.size;
    LowLoad(m, t, size);
    MergeStore(m, t, size, X(c.s0, c.d.rt));
    LoadRange(CasIsland.MemAfter(c, m), t, Dword);
    SmallMod(Load(CasIsland.MemAfter(c, m), t, Dword), TWO64) by { DwordRange(); }
    FlagsWordRoundTrip(c.s0.flags);
    LoadRange(m, t, size);
    SmallMod(Load(m, t, size), Wide(size)) by { CasIsland.WideRange(size); }
  }

  /** The island on [SP] is the instruction exactly when the word there already is the flags' low part (or
      is not wanted), the instruction would not change it, and the island does not change the flags. */
  lemma CasSpExact(c: CasIsland.Ctx, code: Code, tr: seq<State>)
    requires c.d.op == Cas && c.d.rn == ZR && CasIsland.Patched(c, code) && Finished(code, c.s0, tr)
    ensures
      var d, flags, rs, rt, r := c.d, c.s0.flags, X(c.s0, c.d.rs), X(c.s0, c.d.rt), Range(c.d.size);
      var was, low := Load(c.s0.mem, c.s0.sp, d.size), FlagsWord(flags) % Range(d.size);
      Ends(d, c.s0, tr[|tr| - 1]) <==>
        && (d.rs == ZR || was == low)
        && (was == rs % r ==> rt % r == was)
        && (SubWord(d.size) || low != rs % Wide(d.size) || WordFlags(rt % r) == flags)
  {
    hide CasIsland.Patched, SoloRun, StoresOnlyAt, SameShared, Load, Store, WordFlags, FlagsWord, Range, Wide, Apart,
      LseMemory, SpFlags;
    RangePositive(c.d.size);
    var d, sp, flags, rs, rt, last := c.d, c.s0.sp, c.s0.flags, X(c.s0, c.d.rs), X(c.s0, c.d.rt), tr[|tr| - 1];
    var was, low, r := Load(c.s0.mem, sp, d.size), FlagsWord(flags) % Range(d.size), Range(d.size);
    ModRange(FlagsWord(flags), r);
    ModRange(rt, r);
    RangeWide(d.size);
    SoloIsRun(code, sp, tr);
    CasSpRuns(c, code, tr);
    SharedChain(code, sp, tr, -1, 0, |tr| - 1);
    TopApart(sp, d.size);
    LoadRange(c.s0.mem, sp, d.size);
    CasMemory(d, c.s0);
    SharedRefl(c.s0.mem, sp);
    StoreCongruent(c.s0.mem, sp, d.size, rt, rt % r) by { SmallMod(rt % r, r); }
    SharedKept(c.s0.mem, sp, d.size, rt % r, sp);
    SharedEither(c.s0.mem, last.mem, LseMemory(LseInstr(d), c.s0), sp);
    SpFlagsAre(flags, d.size, rt);
    SpRegisters(c.s0, last, if low == rs % Wide(d.size) then SpFlags(flags, d.size, rt) else flags, d.rs, low, was);
  }
}
