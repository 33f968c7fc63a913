/** The island of a BCAX: bit clear and exclusive or in two vector instructions, with a saved
    temporary unless the destination can serve as one. */
module BcaxIsland {
  import opened Basics
  import opened A64Memory
  import opened A64
  import opened IsaEmul
  import opened StackFrame
  import opened Interleaving

  datatype Ctx = Ctx(b: BcaxRegs, s0: State, base: int)

  /** What the island computes: with all three operands the destination, it has overwritten the operand
      xored last. */
  function Result(c: Ctx): Vec {
    var bic := VecBic(Q(c.s0, c.b.vm), Q(c.s0, c.b.va));
    VecEor(if c.b.va == c.b.vd == c.b.vn then bic else Q(c.s0, c.b.vn), bic)
  }

  function After(c: Ctx): State {
    Advance(SetQ(c.s0, c.b.vd, Result(c)), 1)
  }

  function Length(c: Ctx): int { if c.b.va == c.b.vd then 3 else 5 }

  function Back(c: Ctx): int {
    c.s0.pc + 1 - (c.base + Length(c) - 1)
  }

  // ----- 16-byte pushes -----

  lemma {:induction false} StoreVecEffect(m: Memory, a: int, bytes: seq<bv8>)
    requires |bytes| <= 16
    ensures forall i :: 0 <= i < |bytes| ==> At(StoreVec(m, a, bytes), a + i) == bytes[i]
    ensures forall b :: !Within(b, a, |bytes|) ==> At(StoreVec(m, a, bytes), b) == At(m, b)
    decreases |bytes|
  {
    hide At, Put;
    if bytes != [] {
      var m1, rest := Put(m, a, bytes[0]), bytes[1..];
      StoreVecEffect(m1, a + 1, rest);
      var m' := StoreVec(m, a, bytes);
      assert !Within(a, a + 1, |rest|);
      assert At(m', a) == bytes[0] by { PutRead(m, a, bytes[0]); }
      forall i | 0 < i < |bytes| ensures At(m', a + i) == bytes[i] {
        assert At(m', a + 1 + (i - 1)) == rest[i - 1];
      }
      forall b | !Within(b, a, |bytes|) ensures At(m', b) == At(m, b) {
        assert !Within(b, a + 1, |rest|);
        PutOther(m, a, bytes[0], b);
      }
    }
  }

  lemma PutRead(m: Memory, a: int, b: bv8)
    ensures At(Put(m, a, b), a) == b
  {
  }

  /** The temporary's old value lies in the first slot below the stack pointer. */
  ghost predicate SavedVec(m: Memory, sp: int, v: Vec) {
    forall i :: 0 <= i < 16 ==> At(m, Slot(sp, 0) + i) == v[i]
  }

  lemma SlotBytes(sp: int, i: int)
    requires 0 <= i < 16
    ensures Within(Slot(sp, 0) + i, Frame(sp), FRAME)
  {
    var s, f := Slot(sp, 0), Frame(sp);
    assert Wrap(s + i - f) == 48 + i by {
      var p, q := (sp - 16) / TWO64, (sp - FRAME) / TWO64;
      assert s + i - f == TWO64 * (q - p) + (48 + i);
    }
  }

  lemma VecSlotInFrame(sp: int, b: int)
    requires Within(b, Slot(sp, 0), 16)
    ensures Within(b, Frame(sp), FRAME)
  {
    var s, f := Slot(sp, 0), Frame(sp);
    var r := Wrap(b - s);
    assert Wrap(b - f) == 48 + r by {
      var p, q := (sp - 16) / TWO64, (sp - FRAME) / TWO64;
      assert b - f == TWO64 * ((b - s) / TWO64 + q - p) + (48 + r);
    }
  }

  lemma PushVec(m: Memory, sp: int, v: Vec)
    ensures SavedVec(StoreVec(m, Slot(sp, 0), v), sp, v)
    ensures SameShared(m, StoreVec(m, Slot(sp, 0), v), sp)
  {
    hide At, Within, StoreVec, Slot, Frame;
    StoreVecEffect(m, Slot(sp, 0), v);
    forall b | !Within(b, Frame(sp), FRAME) ensures At(m, b) == At(StoreVec(m, Slot(sp, 0), v), b) {
      if Within(b, Slot(sp, 0), 16) {
        VecSlotInFrame(sp, b);
      }
    }
  }

  lemma PopVec(m: Memory, sp: int, v: Vec)
    requires SavedVec(m, sp, v)
    ensures LoadVec(m, Slot(sp, 0)) == v
  {
    hide At, Slot;
  }

  lemma SavedVecSame(m: Memory, m': Memory, sp: int, v: Vec)
    requires SavedVec(m, sp, v) && AgreeOn(m, m', Frame(sp), FRAME)
    ensures SavedVec(m', sp, v)
  {
    hide At, Slot, Frame, Within;
    forall i | 0 <= i < 16 ensures At(m', Slot(sp, 0) + i) == v[i] {
      SlotBytes(sp, i);
    }
  }

  // ----- the invariant -----

  ghost predicate SameRegs(s: State, t: State) {
    s.x == t.x && s.flags == t.flags
  }

  /** Vector registers as in t, but for register r. */
  ghost predicate QExcept(s: State, t: State, r: int) {
    forall q :: q != r ==> Q(s, q) == Q(t, q)
  }

  ghost predicate InShort(c: Ctx, s: State, k: int) {
    && s.sp == c.s0.sp && QExcept(s, c.s0, c.b.vd)
    && (k == 0 ==> Q(s, c.b.vd) == Q(c.s0, c.b.vd))
    && (k == 1 ==> Q(s, c.b.vd) == VecBic(Q(c.s0, c.b.vm), Q(c.s0, c.b.va)))
    && (k == 2 ==> Q(s, c.b.vd) == Result(c))
  }

  ghost predicate InLong(c: Ctx, s: State, k: int) {
    var t := VecTemp(c.b);
    && s.sp == (if 1 <= k <= 3 then Slot(c.s0.sp, 0) else c.s0.sp)
    && (1 <= k <= 3 ==> SavedVec(s.mem, c.s0.sp, Q(c.s0, t)))
    && (k <= 1 ==> forall r :: Q(s, r) == Q(c.s0, r))
    && (k == 2 ==> QExcept(s, c.s0, t) && Q(s, t) == VecBic(Q(c.s0, c.b.vm), Q(c.s0, c.b.va)))
    && (k == 3 ==> QExcept(s, After(c), t))
    && (k == 4 ==> forall r :: Q(s, r) == Q(After(c), r))
  }

  ghost predicate InIsland(c: Ctx, s: State, k: int) {
    && 0 <= k < Length(c) && SameRegs(s, c.s0)
    && if c.b.va == c.b.vd then InShort(c, s, k) else InLong(c, s, k)
  }

  ghost predicate Inv(c: Ctx, s: State) {
    if s.pc == c.s0.pc then SameRegs(s, c.s0) && s.sp == c.s0.sp && forall r :: Q(s, r) == Q(c.s0, r)
    else if s.pc == c.s0.pc + 1 then SameCore(s, After(c))
    else InIsland(c, s, s.pc - c.base)
  }

  lemma TempFree(b: BcaxRegs)
    ensures VecTemp(b) !in {b.vd, b.vn, b.vm, b.va}
  {
    var used := {b.vd, b.vn, b.vm, b.va};
    AtMostFour(b.vd, b.vn, b.vm, b.va);
    var high := {31, 30, 29, 28, 27};
    if high <= used {
      SubsetSize(high, used);
    }
    var k :| k in high && k !in used;
    VecScratchFree(used, 31, k);
  }

  lemma {:induction false} VecScratchFree(used: set<int>, r: int, k: int)
    requires 0 <= k <= r <= 31 && k !in used
    ensures VecScratch(used, r) !in used
    decreases r
  {
    if r in used {
      VecScratchFree(used, r - 1, k);
    }
  }

  lemma ShortStep(c: Ctx, s: State, k: int)
    requires c.b.va == c.b.vd && InIsland(c, s, k) && k <= 1
    ensures
      var s' := Exec(BcaxProgram(c.b, Back(c))[k], s);
      InIsland(c, s', k + 1) && s'.mem == s.mem && s'.monitor == s.monitor && s'.pc == s.pc + 1
  {
    hide VecBic, VecEor;
  }

  lemma LongPush(c: Ctx, s: State)
    requires c.b.va != c.b.vd && InIsland(c, s, 0)
    ensures
      var s' := Exec(StrQPre(VecTemp(c.b), ZR, -16), s);
      InIsland(c, s', 1) && SameShared(s.mem, s'.mem, c.s0.sp) && s'.monitor == s.monitor && s'.pc == s.pc + 1
  {
    hide VecBic, VecEor, At, StoreVec, VecTemp, SavedVec, AgreeOutside, After;
    PushVec(s.mem, c.s0.sp, Q(s, VecTemp(c.b)));
    SlotStep(c.s0.sp, 0);
  }

  lemma LongClear(c: Ctx, s: State)
    requires c.b.va != c.b.vd && InIsland(c, s, 1)
    ensures
      var s' := Exec(VBic(VecTemp(c.b), c.b.vm, c.b.va), s);
      InIsland(c, s', 2) && s'.mem == s.mem && s'.monitor == s.monitor && s'.pc == s.pc + 1
  {
    hide VecBic, VecEor, VecTemp, SavedVec, Slot, After;
    assert Q(s, c.b.vm) == Q(c.s0, c.b.vm) && Q(s, c.b.va) == Q(c.s0, c.b.va);
  }

  lemma LongXor(c: Ctx, s: State)
    requires c.b.va != c.b.vd && InIsland(c, s, 2)
    ensures
      var s' := Exec(VEor(c.b.vd, c.b.vn, VecTemp(c.b)), s);
      InIsland(c, s', 3) && s'.mem == s.mem && s'.monitor == s.monitor && s'.pc == s.pc + 1
  {
    hide VecBic, VecEor, VecTemp, SavedVec, Slot;
    TempFree(c.b);
    var s' := Exec(VEor(c.b.vd, c.b.vn, VecTemp(c.b)), s);
    assert Q(s, c.b.vn) == Q(c.s0, c.b.vn);
    forall r | r != VecTemp(c.b) ensures Q(s', r) == Q(After(c), r) {
      if r != c.b.vd {
        assert Q(s, r) == Q(c.s0, r);
      }
    }
  }

  lemma LongPop(c: Ctx, s: State)
    requires c.b.va != c.b.vd && InIsland(c, s, 3)
    ensures
      var s' := Exec(LdrQPost(VecTemp(c.b), ZR, 16), s);
      InIsland(c, s', 4) && s'.mem == s.mem && s'.monitor == s.monitor && s'.pc == s.pc + 1
  {
    hide VecBic, VecEor, VecTemp, SavedVec, LoadVec;
    TempFree(c.b);
    PopVec(s.mem, c.s0.sp, Q(c.s0, VecTemp(c.b)));
    SlotStep(c.s0.sp, 0);
    SmallWrap(c.s0.sp);
    hide Slot;
  }

  lemma SmallWrap(a: U64)
    ensures Wrap(a - 16 * 0) == a
  {
  }

  lemma LongStep(c: Ctx, s: State, k: int)
    requires c.b.va != c.b.vd && InIsland(c, s, k) && k <= 3
    ensures
      var s' := Exec(BcaxProgram(c.b, Back(c))[k], s);
      InIsland(c, s', k + 1) && SameShared(s.mem, s'.mem, c.s0.sp) && s'.monitor == s.monitor && s'.pc == s.pc + 1
  {
    assert 0 <= k;
    hide VecTemp, SameShared, InIsland, Exec;
    SharedRefl(s.mem, c.s0.sp);
    if k == 0 {
      LongPush(c, s);
    } else if k == 3 {
      LongPop(c, s);
    } else if k == 1 {
      LongClear(c, s);
    } else {
      LongXor(c, s);
    }
  }

  lemma LastStep(c: Ctx, s: State)
    requires InIsland(c, s, Length(c) - 1) && s.pc == c.base + Length(c) - 1
    ensures
      var s' := Exec(Branch(Back(c)), s);
      SameCore(s', After(c)) && s'.mem == s.mem && s'.monitor == s.monitor
  {
    hide VecBic, VecEor, SavedVec, X, VecTemp;
    var s' := Exec(Branch(Back(c)), s);
    SameX(s', After(c));
    SameQ(s', s);
    forall r ensures Q(s', r) == Q(After(c), r) {
      if c.b.va == c.b.vd && r != c.b.vd {
        assert Q(s, r) == Q(c.s0, r);
      }
    }
  }

  ghost predicate Clear(c: Ctx) {
    !(0 <= c.s0.pc - c.base < Length(c)) && !(0 <= c.s0.pc + 1 - c.base < Length(c))
  }

  function Rank(c: Ctx, s: State): int {
    if s.pc == c.s0.pc + 1 then 0 else if s.pc == c.s0.pc then Length(c) + 1 else Length(c) - (s.pc - c.base)
  }

  ghost predicate StepKeeps(c: Ctx, s: State, s': State) {
    Inv(c, s') && s'.monitor == s.monitor && SameShared(s.mem, s'.mem, c.s0.sp) && 0 <= Rank(c, s') < Rank(c, s)
  }

  lemma IslandStep(c: Ctx, s: State, k: int)
    requires Clear(c) && InIsland(c, s, k) && k == s.pc - c.base
    ensures |BcaxProgram(c.b, Back(c))| == Length(c)
    ensures StepKeeps(c, s, Exec(BcaxProgram(c.b, Back(c))[k], s))
  {
    hide Exec, SameShared, SameCore, VecBic, VecEor, VecTemp, After, InShort, InLong, SameRegs;
    SharedRefl(s.mem, c.s0.sp);
    if k == Length(c) - 1 {
      LastStep(c, s);
      PcAfter(c, Exec(Branch(Back(c)), s));
    } else if c.b.va == c.b.vd {
      ShortStep(c, s, k);
    } else {
      LongStep(c, s, k);
    }
  }

  lemma PcAfter(c: Ctx, s: State)
    requires SameCore(s, After(c))
    ensures s.pc == c.s0.pc + 1
  {
  }

  lemma EntryStep(c: Ctx, s: State)
    requires Clear(c) && Inv(c, s) && s.pc == c.s0.pc
    ensures StepKeeps(c, s, Exec(Branch(c.base - c.s0.pc), s))
  {
    hide VecBic, VecEor, VecTemp, SavedVec, After;
  }

  lemma InterferenceKeeps(c: Ctx, s: State, s': State)
    requires Inv(c, s) && Interfere(c.s0.sp, s, s')
    ensures Inv(c, s')
  {
    hide VecBic, VecEor, VecTemp, SavedVec, After, AgreeOn, X, Q, Slot;
    SameX(s, s');
    SameQ(s, s');
    var t := VecTemp(c.b);
    if SavedVec(s.mem, c.s0.sp, Q(c.s0, t)) {
      SavedVecSame(s.mem, s'.mem, c.s0.sp, Q(c.s0, t));
    }
  }

  // ----- whole runs -----

  ghost predicate Patched(c: Ctx, code: Code) {
    && Installed(code, c.s0.pc, c.base, BcaxWords(c.b, Back(c)))
    && InBranchRange(c.base - c.s0.pc) && InBranchRange(Back(c))
  }

  lemma CpuKeeps(c: Ctx, code: Code, s: State)
    requires Patched(c, code) && Inv(c, s)
    ensures s.pc in code <==> s.pc != c.s0.pc + 1
    ensures s.pc in code ==> StepKeeps(c, s, Step(code, s))
  {
    hide Exec, StepKeeps, SameCore, BcaxWords, BcaxProgram, Step, InBranchRange, Decode, InShort, InLong;
    BcaxDecodes(c.b, Back(c));
    ProgramLength(c);
    if s.pc == c.s0.pc {
      EntryStep(c, s);
      Fetch(code, c.s0.pc, c.base, BcaxWords(c.b, Back(c)), BcaxProgram(c.b, Back(c)), s);
    } else if s.pc != c.s0.pc + 1 {
      InCode(code, c.s0.pc, c.base, BcaxWords(c.b, Back(c)), s.pc - c.base);
      IslandStep(c, s, s.pc - c.base);
      Fetch(code, c.s0.pc, c.base, BcaxWords(c.b, Back(c)), BcaxProgram(c.b, Back(c)), s);
    }
  }

  lemma ProgramLength(c: Ctx)
    ensures |BcaxProgram(c.b, Back(c))| == Length(c)
  {
    hide VecTemp;
  }

  lemma {:induction false} RunKeeps(c: Ctx, code: Code, tr: seq<State>, n: nat)
    requires Patched(c, code) && Run(code, c.s0.sp, tr) && tr[0] == c.s0
    requires n < |tr|
    ensures Inv(c, tr[n])
    decreases n
  {
    hide Patched, Step, Interfere, StepKeeps, InIsland;
    if n > 0 {
      RunKeeps(c, code, tr, n - 1);
      assert Next(code, c.s0.sp, tr[n - 1], tr[n]);
      if CpuStep(code, tr[n - 1], tr[n]) {
        CpuKeeps(c, code, tr[n - 1]);
        KeepsInv(c, tr[n - 1], tr[n]);
      } else {
        InterferenceKeeps(c, tr[n - 1], tr[n]);
      }
    }
  }

  lemma KeepsInv(c: Ctx, s: State, s': State)
    requires StepKeeps(c, s, s')
    ensures Inv(c, s') && SameShared(s.mem, s'.mem, c.s0.sp)
  {
  }

  /** Every run from the patched word to the word after it, with other cores storing between any two
      steps, computes the island's result and changes no shared memory. */
  lemma IslandRuns(c: Ctx, code: Code, tr: seq<State>)
    requires Patched(c, code) && Run(code, c.s0.sp, tr)
    requires tr[0] == c.s0 && tr[|tr| - 1].pc == c.s0.pc + 1
    ensures SameCore(tr[|tr| - 1], After(c))
    ensures StoresOnlyAt(code, c.s0.sp, tr, -1)
  {
    assert |tr| > 0;
    hide Patched, Step, StepKeeps, InIsland, SameShared, SameCore, Run;
    RunKeeps(c, code, tr, |tr| - 1);
    forall j | 0 <= j < |tr| - 1 && CpuStep(code, tr[j], tr[j + 1])
      ensures SameShared(tr[j].mem, tr[j + 1].mem, c.s0.sp)
    {
      RunKeeps(c, code, tr, j);
      CpuKeeps(c, code, tr[j]);
      KeepsInv(c, tr[j], tr[j + 1]);
    }
  }

  /** The core alone finishes in at most six steps. */
  lemma {:induction false} BcaxFinishes(c: Ctx, code: Code, s: State) returns (tr: seq<State>)
    requires Patched(c, code) && Inv(c, s)
    ensures SoloRun(code, tr) && tr[0] == s && tr[|tr| - 1].pc == c.s0.pc + 1
    ensures |tr| - 1 <= Rank(c, s) <= 6
    decreases Rank(c, s)
  {
    hide Patched, Step, SameShared, SameCore, InShort, InLong, SameRegs;
    CpuKeeps(c, code, s);
    if s.pc == c.s0.pc + 1 {
      tr := [s];
    } else {
      var s' := Step(code, s);
      var rest := BcaxFinishes(c, code, s');
      tr := [s] + rest;
      forall i | 0 <= i < |tr| - 1 ensures CpuStep(code, tr[i], tr[i + 1]) {
        if i > 0 {
          assert CpuStep(code, rest[i - 1], rest[i]);
        }
      }
    }
  }

  // ----- against the instruction -----

  /** The destination is not at once the cleared operand and the operand xored last, or both vectors
      are zero, which makes the clobbered result right. */
  predicate OperandsFit(b: BcaxRegs, s0: State) {
    b.va == b.vd == b.vn ==> Q(s0, b.vd) == VEC_ZERO && Q(s0, b.vm) == VEC_ZERO
  }

  /** Clearing with the destination as its own operand and xoring it into itself gives zero; the
      instruction gives the or of both vectors. They agree on zero vectors and on no others. */
  lemma SelfClobber(d: Vec, m: Vec)
    ensures VecEor(VecBic(m, d), VecBic(m, d)) == VecEor(d, VecBic(m, d)) <==> d == VEC_ZERO && m == VEC_ZERO
  {
    var t := VecBic(m, d);
    forall i | 0 <= i < 16 ensures (t[i] ^ t[i] == d[i] ^ t[i]) <==> (d[i] == 0 && m[i] == 0) {
      SelfClobberByte(d[i], m[i]);
    }
    var l, r := VecEor(t, t), VecEor(d, t);
    if l == r {
      forall i | 0 <= i < 16 ensures d[i] == 0 && m[i] == 0 {
        assert l[i] == r[i];
      }
      assert d == VEC_ZERO && m == VEC_ZERO;
    }
    if d == VEC_ZERO && m == VEC_ZERO {
      forall i | 0 <= i < 16 ensures l[i] == r[i] {
        assert d[i] == 0 && m[i] == 0;
      }
    }
  }

  lemma SelfClobberByte(d: bv8, m: bv8)
    ensures ((m & !d) ^ (m & !d) == d ^ (m & !d)) <==> (d == 0 && m == 0)
  {
  }

  lemma ResultExact(c: Ctx)
    ensures SameCore(After(c), BcaxExec(BcaxInstr(c.b), c.s0)) <==> OperandsFit(c.b, c.s0)
  {
    hide VecBic, VecEor;
    SelfClobber(Q(c.s0, c.b.vd), Q(c.s0, c.b.vm));
    var mine, theirs := After(c), BcaxExec(BcaxInstr(c.b), c.s0);
    assert Q(mine, c.b.vd) == Result(c);
    assert Q(theirs, c.b.vd) == VecEor(Q(c.s0, c.b.vn), VecBic(Q(c.s0, c.b.vm), Q(c.s0, c.b.va)));
  }

  /** Every finished run, under any interference, ends as the single instruction does exactly when the
      operands fit, and changes no shared memory. */
  lemma BcaxExact(c: Ctx, code: Code, tr: seq<State>)
    requires Patched(c, code) && Run(code, c.s0.sp, tr)
    requires tr[0] == c.s0 && tr[|tr| - 1].pc == c.s0.pc + 1
    ensures SameCore(tr[|tr| - 1], BcaxExec(BcaxInstr(c.b), c.s0)) <==> OperandsFit(c.b, c.s0)
    ensures StoresOnlyAt(code, c.s0.sp, tr, -1)
  {
    assert |tr| > 0;
    hide Patched, Run, SameCore, StoresOnlyAt, OperandsFit;
    IslandRuns(c, code, tr);
    ResultExact(c);
    var last, i := tr[|tr| - 1], BcaxExec(BcaxInstr(c.b), c.s0);
    if SameCore(After(c), i) { CoreTrans(last, After(c), i); }
    if SameCore(last, i) {
      CoreSym(last, After(c));
      CoreTrans(After(c), last, i);
    }
  }
}
