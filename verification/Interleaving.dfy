/** Runs of one core through patched code while other cores store to memory between its steps. */
module Interleaving {
  import opened A64Memory
  import opened A64
  import opened StackFrame
  import opened IsaEncode
  import opened IsaEmul

  /** Other cores may change any memory except the frame below this core's stack pointer. A store
      to the bytes under the exclusive monitor clears it; it may also be lost for no reason. */
  ghost predicate Interfere(sp: int, s: State, s': State) {
    && s' == s.(mem := s'.mem, monitor := s'.monitor)
    && AgreeOn(s.mem, s'.mem, Frame(sp), FRAME)
    && (s'.monitor == s.monitor || s'.monitor == Open)
    && (s'.monitor.Exclusive? ==> AgreeOn(s.mem, s'.mem, s'.monitor.addr, Bytes(s'.monitor.size)))
  }

  ghost predicate CpuStep(code: Code, s: State, s': State) {
    s.pc in code && s' == Step(code, s)
  }

  ghost predicate Next(code: Code, sp: int, s: State, s': State) {
    CpuStep(code, s, s') || Interfere(sp, s, s')
  }

  /** A run: every state follows from the one before. */
  ghost predicate Run(code: Code, sp: int, tr: seq<State>) {
    |tr| > 0 && forall i :: 0 <= i < |tr| - 1 ==> Next(code, sp, tr[i], tr[i + 1])
  }

  /** Registers, stack pointer, flags, vectors and program counter agree. */
  ghost predicate SameCore(s: State, t: State) {
    && (forall r :: X(s, r) == X(t, r))
    && (forall r :: Q(s, r) == Q(t, r))
    && s.sp == t.sp && s.flags == t.flags && s.pc == t.pc
  }

  ghost predicate SameShared(m: Memory, m': Memory, sp: int) {
    AgreeOutside(m, m', Frame(sp), FRAME)
  }

  /** A patched word and its island, and nothing else: a branch to the island, the island's words. */
  ghost predicate Installed(code: Code, site: int, base: int, words: seq<bv32>) {
    && site in code && code[site] == EncB(base - site)
    && (forall i :: 0 <= i < |words| ==> base + i in code && code[base + i] == words[i])
    && (forall pc :: pc in code ==> pc == site || base <= pc < base + |words|)
    && !(base <= site < base + |words|) && !(base <= site + 1 < base + |words|)
  }

  /** What the processor executes inside an installed island, and at the patched word. */
  lemma Fetch(code: Code, site: int, base: int, words: seq<bv32>, program: seq<Instr>, s: State)
    requires Installed(code, site, base, words) && DecodesTo(words, program) && InBranchRange(base - site)
    requires s.pc in code
    ensures s.pc == site ==> Step(code, s) == Exec(Branch(base - site), s)
    ensures s.pc != site ==> 0 <= s.pc - base < |program| && Step(code, s) == Exec(program[s.pc - base], s)
  {
    hide Decode, EncB, Exec;
    if s.pc == site {
      DecodeB(base - site);
    } else {
      assert code[s.pc] == words[s.pc - base];
    }
  }

  lemma InCode(code: Code, site: int, base: int, words: seq<bv32>, i: int)
    requires Installed(code, site, base, words) && 0 <= i < |words|
    ensures base + i in code
  {
    var w := words[i];
  }

  /** A run of the core alone. */
  ghost predicate SoloRun(code: Code, tr: seq<State>) {
    |tr| > 0 && forall i :: 0 <= i < |tr| - 1 ==> CpuStep(code, tr[i], tr[i + 1])
  }

  /** No step of the core alone but the k-th changes shared memory. */
  ghost predicate StoresOnlyAt(code: Code, sp: int, tr: seq<State>, k: int) {
    forall j :: 0 <= j < |tr| - 1 && j != k && CpuStep(code, tr[j], tr[j + 1]) ==>
      SameShared(tr[j].mem, tr[j + 1].mem, sp)
  }

  /** A run of the core alone is a run. */
  lemma SoloIsRun(code: Code, sp: int, tr: seq<State>)
    requires SoloRun(code, tr)
    ensures Run(code, sp, tr)
  {
    hide CpuStep, Interfere;
  }

  /** While the core alone runs, shared memory stays as it is between the storing steps. */
  lemma {:induction false} SharedChain(code: Code, sp: int, tr: seq<State>, k: int, i: nat, j: nat)
    requires SoloRun(code, tr) && StoresOnlyAt(code, sp, tr, k) && i <= j < |tr| && (j <= k || k < i)
    ensures SameShared(tr[i].mem, tr[j].mem, sp)
    decreases j - i
  {
    hide CpuStep, Within, At;
    if i < j {
      SharedChain(code, sp, tr, k, i, j - 1);
      assert CpuStep(code, tr[j - 1], tr[j]);
    }
  }

  // ----- an island's stack -----

  /** The pushed values, the stack pointer below them, and vectors as at the start. */
  ghost predicate Holding(s0: State, s: State, vals: seq<int>) {
    && s.sp == Wrap(s0.sp - 16 * |vals|)
    && Saved(s.mem, s0.sp, vals)
    && s.q == s0.q
  }

  /** A push of register r saves one more value and leaves shared memory alone. */
  lemma PushStep(s0: State, s: State, vals: seq<int>, r: RegNo)
    requires |vals| < 4 && Holding(s0, s, vals)
    ensures
      var s' := Exec(StrPre(r, ZR, -16), s);
      && Holding(s0, s', vals + [X(s, r)]) && SameShared(s.mem, s'.mem, s0.sp)
      && s'.x == s.x && s'.flags == s.flags && s'.pc == s.pc + 1
  {
    hide Store, Load, AgreeOutside, Saved;
    SlotStep(s0.sp, |vals|);
    Pushed(s.mem, s0.sp, vals, X(s, r));
  }

  /** A pop restores the value pushed last. */
  lemma PopStep(s0: State, s: State, vals: seq<int>, v: U64, r: RegNo)
    requires |vals| < 4 && Holding(s0, s, vals + [v]) && r != ZR
    ensures
      var s' := Exec(LdrPost(r, ZR, 16), s);
      && Holding(s0, s', vals) && s'.mem == s.mem && s'.monitor == s.monitor && s'.flags == s.flags && s'.pc == s.pc + 1
      && X(s', r) == v
      && forall r' :: r' != r ==> X(s', r') == X(s, r')
  {
    hide Load;
    SlotStep(s0.sp, |vals|);
    assert (vals + [v])[|vals|] == v;
    assert forall i :: 0 <= i < |vals| ==> vals[i] == (vals + [v])[i];
  }

  /** Interference leaves the stack alone. */
  lemma HoldingUnderInterference(s0: State, s: State, s': State, vals: seq<int>)
    requires Holding(s0, s, vals) && |vals| <= 4 && Interfere(s0.sp, s, s')
    ensures Holding(s0, s', vals)
  {
    hide Load, AgreeOn, Saved;
    SavedSame(s.mem, s'.mem, s0.sp, vals);
  }

  lemma SameX(s: State, s': State)
    requires s.x == s'.x
    ensures forall r :: X(s, r) == X(s', r)
  {
  }

  lemma SameQ(s: State, s': State)
    requires s.q == s'.q
    ensures forall r :: Q(s, r) == Q(s', r)
  {
  }

  lemma SharedRefl(m: Memory, sp: int)
    ensures SameShared(m, m, sp)
  {
  }

  lemma SharedSym(a: Memory, b: Memory, sp: int)
    requires SameShared(a, b, sp)
    ensures SameShared(b, a, sp)
  {
    hide Within, At;
  }

  lemma SharedTrans(a: Memory, b: Memory, c: Memory, sp: int)
    requires SameShared(a, b, sp) && SameShared(b, c, sp)
    ensures SameShared(a, c, sp)
  {
    hide Within, At;
  }

  lemma CoreTrans(s: State, t: State, u: State)
    requires SameCore(s, t) && SameCore(t, u)
    ensures SameCore(s, u)
  {
    hide X, Q;
  }

  lemma CoreSym(s: State, t: State)
    requires SameCore(s, t)
    ensures SameCore(t, s)
  {
    hide X, Q;
  }

  lemma CoreRefl(s: State)
    ensures SameCore(s, s)
  {
  }

  lemma BranchPc(s: State, offset: int)
    ensures Exec(Branch(offset), s).pc == s.pc + offset
  {
  }
}
