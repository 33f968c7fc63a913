/** The patched program simulates the original one. Whatever run the processor makes through the patched
    code section and its islands, with other cores storing in between, the original code section has a run
    with the same registers, flags, vectors and program counter, and the same memory but for dead bytes:
    bytes of islands' frames that the program has not written since. */
module ProgramSim {
  import opened Basics
  import opened A64Memory
  import opened A64
  import opened IsaEncode
  import opened IsaEmul
  import opened StackFrame
  import opened LseValues
  import opened Interleaving
  import opened IsaPatch
  import opened IsaEmit
  import opened PatchedImage
  import opened DeadBytes
  import RmwIsland
  import CasIsland
  import BcaxIsland

  /** A code section before and after both passes, its island pool, what became of each word, and the
      stack, where no other core stores. */
  datatype Program = Program(before: seq<bv32>, code: seq<bv32>, pool: seq<bv32>, a: Addresses, fates: seq<Fate>, stack: Span)

  predicate InStack(pr: Program, b: int) {
    Within(b, pr.stack.at, pr.stack.size)
  }

  predicate InCodeSection(pr: Program, pc: int) {
    pr.a.code <= pc < pr.a.code + |pr.code|
  }

  predicate InPool(pr: Program, pc: int) {
    pr.a.pool <= pc < pr.a.pool + |pr.pool|
  }

  predicate IsMoved(pr: Program, i: int) {
    0 <= i < |pr.fates| && pr.fates[i].Moved?
  }

  /** What the passes leave, with every return branch in reach. */
  ghost predicate Rewritten(pr: Program) {
    && |pr.code| == |pr.before| && |pr.fates| <= |pr.code| && Separate(pr.code, pr.pool, pr.a)
    && (forall i :: 0 <= i < |pr.code| && !IsMoved(pr, i) ==> pr.code[i] == Downgrade(pr.before[i]))
    && (forall i :: 0 <= i < |pr.fates| && pr.fates[i].Moved? ==> SiteOk(pr, i))
  }

  ghost predicate SiteOk(pr: Program, i: nat)
    requires i < |pr.fates| && pr.fates[i].Moved? && i < |pr.code| == |pr.before|
  {
    var w := Downgrade(pr.before[i]);
    && FateOk(w, pr.code[i], pr.pool, pr.a.code + i, pr.a.pool, pr.fates[i])
    && (pr.a.pool + pr.fates[i].start) - (pr.a.code + i) + IslandLength(w) <= 0x200_0002
  }

  function Patched(pr: Program): Code {
    Image(pr.code, pr.pool, pr.a)
  }

  function Original(pr: Program): Code {
    map pc | pr.a.code <= pc < pr.a.code + |pr.before| :: WordAt(pr.before, pr.a.code, pc)
  }

  // ----- runs of a whole program -----

  /** Other cores may change any memory except the stack. */
  ghost predicate Others(pr: Program, s: State, s': State) {
    && s' == s.(mem := s'.mem, monitor := s'.monitor)
    && AgreeOn(s.mem, s'.mem, pr.stack.at, pr.stack.size)
    && (s'.monitor == s.monitor || s'.monitor == Open)
    && (s'.monitor.Exclusive? ==> AgreeOn(s.mem, s'.mem, s'.monitor.addr, Bytes(s'.monitor.size)))
  }

  ghost predicate Moves(code: Code, pr: Program, s: State, s': State) {
    CpuStep(code, s, s') || Others(pr, s, s')
  }

  ghost predicate ProgramRun(code: Code, pr: Program, tr: seq<State>) {
    |tr| > 0 && forall i :: 0 <= i < |tr| - 1 ==> Moves(code, pr, tr[i], tr[i + 1])
  }

  /** The dead bytes after one more step: an island's frame dies at its moved word, and a word of the
      program revives what it writes. */
  ghost function DeadAfter(pr: Program, s: State, s': State, dead: iset<int>): iset<int>
    requires |pr.code| == |pr.before|
  {
    if !CpuStep(Patched(pr), s, s') || !InCodeSection(pr, s.pc) then dead
    else if IsMoved(pr, s.pc - pr.a.code) then iset b: int | b in dead || Within(b, Frame(s.sp), FRAME)
    else Revived(Decode(Downgrade(pr.before[s.pc - pr.a.code])), s, dead)
  }

  ghost function Dead(pr: Program, tr: seq<State>): iset<int>
    requires |pr.code| == |pr.before|
  {
    if |tr| <= 1 then iset{}
    else DeadAfter(pr, tr[|tr| - 2], tr[|tr| - 1], Dead(pr, tr[..|tr| - 1]))
  }

  /** What the program owes its islands: a word that runs reads no dead byte; a moved word is an atomic or
      a BCAX that fits and has its frame in the stack; and the program does not run into the pool. */
  ghost predicate Careful(pr: Program, s: State, s': State, dead: iset<int>)
    requires |pr.code| == |pr.before|
  {
    CpuStep(Patched(pr), s, s') && InCodeSection(pr, s.pc) ==>
      var w := Downgrade(pr.before[s.pc - pr.a.code]);
      var i := Decode(w);
      && Alive(Reads(i, s).at, Reads(i, s).size, dead)
      && if IsMoved(pr, s.pc - pr.a.code) then
           (i.Lse? || i.Bcax?) && Fits(w, s) && forall b: int :: Within(b, Frame(s.sp), FRAME) ==> InStack(pr, b)
         else !InPool(pr, s'.pc)
  }

  ghost predicate CarefulRun(pr: Program, tr: seq<State>)
    requires |pr.code| == |pr.before|
  {
    forall j :: 0 <= j < |tr| - 1 ==> Careful(pr, tr[j], tr[j + 1], Dead(pr, tr[..j + 1]))
  }

  // ----- the relation -----

  /** Where the patched run is: at a word of the program, or in an island entered from word i. */
  datatype Mode =
    | Guest
    | InRmw(i: nat, rmw: RmwIsland.Ctx, lin: Option<Memory>)
    | InCas(i: nat, cas: CasIsland.Ctx, g: CasIsland.Ghost)
    | InBcax(i: nat, bcax: BcaxIsland.Ctx)

  /** An atomic's island was entered from word i in state s0. */
  ghost predicate Entered(pr: Program, i: nat, s0: State, base: int, dead: iset<int>) {
    && IsMoved(pr, i) && i < |pr.before|
    && s0.pc == pr.a.code + i && base == pr.a.pool + pr.fates[i].start
    && (forall b: int :: Within(b, Frame(s0.sp), FRAME) ==> b in dead)
  }

  ghost predicate AtomicSite(pr: Program, i: nat, d: Atomic, s0: State, base: int, dead: iset<int>) {
    && Entered(pr, i, s0, base, dead)
    && var w := Downgrade(pr.before[i]);
       Decode(w).Lse? && DecodeLse(w) == Some(d) && Alive(Base(s0, d.rn), Bytes(d.size), dead)
  }

  ghost predicate BcaxSite(pr: Program, i: nat, c: BcaxIsland.Ctx, dead: iset<int>) {
    && Entered(pr, i, c.s0, c.base, dead) && BcaxIsland.OperandsFit(c.b, c.s0)
    && var w := Downgrade(pr.before[i]);
       Decode(w) == BcaxInstr(c.b) && DecodeLse(w).None? && DecodeBcax(w) == Some(c.b)
  }

  ghost predicate OnRmw(pr: Program, o: State, s: State, dead: iset<int>, i: nat, c: RmwIsland.Ctx, lin: Option<Memory>) {
    && AtomicSite(pr, i, c.d, c.s0, c.base, dead) && RmwIsland.Good(c)
    && RmwIsland.Inv(c, s, lin) && c.base <= s.pc < c.base + RmwIsland.Length(c)
    && o.monitor == Open && SameCore(o, if lin.Some? then RmwIsland.After(c, lin.value) else c.s0)
  }

  ghost predicate OnCas(pr: Program, o: State, s: State, dead: iset<int>, i: nat, c: CasIsland.Ctx, g: CasIsland.Ghost) {
    && AtomicSite(pr, i, c.d, c.s0, c.base, dead) && CasIsland.Good(c)
    && CasIsland.Inv(c, s, g) && c.base <= s.pc < c.base + CasIsland.Length(c)
    && o.monitor == Open && SameCore(o, if CasIsland.Decided(c, g) then CasIsland.After(c, g.m) else c.s0)
  }

  ghost predicate OnBcax(pr: Program, o: State, s: State, dead: iset<int>, i: nat, c: BcaxIsland.Ctx) {
    && BcaxSite(pr, i, c, dead)
    && BcaxIsland.Inv(c, s) && c.base <= s.pc < c.base + BcaxIsland.Length(c)
    && o.monitor == s.monitor && SameCore(o, c.s0)
  }

  /** In an atomic's island the original is where it was, or already past the whole instruction. */
  ghost predicate Related(pr: Program, o: State, s: State, dead: iset<int>, mode: Mode) {
    && AgreeBut(o.mem, s.mem, dead) && (forall b: int :: b in dead ==> InStack(pr, b))
    && match mode
       case Guest => Alike(o, s) && !InPool(pr, s.pc)
       case InRmw(i, c, lin) => OnRmw(pr, o, s, dead, i, c, lin)
       case InCas(i, c, g) => OnCas(pr, o, s, dead, i, c, g)
       case InBcax(i, c) => OnBcax(pr, o, s, dead, i, c)
  }

  // ----- steps of other cores -----

  lemma WithinWrap(b: int, a: int, n: int)
    ensures Within(Wrap(b), a, n) <==> Within(b, a, n)
  {
    var q := b / TWO64;
    assert b == TWO64 * q + Wrap(b);
    assert b - a == TWO64 * q + (Wrap(b) - a);
  }

  /** Memory of the original after other cores' stores: its own stack, their bytes elsewhere. */
  ghost function Mirrored(pr: Program, mine: Memory, theirs: Memory): Memory {
    map x | x in mine.Keys + theirs.Keys :: if InStack(pr, x) then At(mine, x) else At(theirs, x)
  }

  lemma MirroredAt(pr: Program, mine: Memory, theirs: Memory, b: int)
    ensures At(Mirrored(pr, mine, theirs), b) == if InStack(pr, b) then At(mine, b) else At(theirs, b)
  {
    WithinWrap(b, pr.stack.at, pr.stack.size);
    assert Wrap(Wrap(b)) == Wrap(b);
    hide Within;
  }

  /** Whatever other cores do to the patched run they may do to the original one. */
  lemma OthersMirrored(pr: Program, o: State, s: State, s': State, dead: iset<int>, mon: Monitor)
    requires AgreeBut(o.mem, s.mem, dead) && (forall b: int :: b in dead ==> InStack(pr, b)) && Others(pr, s, s')
    requires mon == Open || (mon == s'.monitor && o.monitor == s.monitor)
    ensures var o' := o.(mem := Mirrored(pr, o.mem, s'.mem), monitor := mon);
      Others(pr, o, o') && AgreeBut(o'.mem, s'.mem, dead)
  {
    hide At, Within;
    var o' := o.(mem := Mirrored(pr, o.mem, s'.mem), monitor := mon);
    forall b: int ensures At(o'.mem, b) == if InStack(pr, b) then At(o.mem, b) else At(s'.mem, b) {
      MirroredAt(pr, o.mem, s'.mem, b);
    }
    hide Mirrored;
  }

  /** Such a step is interference for any frame in the stack. */
  lemma OthersInterfere(pr: Program, s: State, s': State, sp: int)
    requires Others(pr, s, s') && forall b: int :: Within(b, Frame(sp), FRAME) ==> InStack(pr, b)
    ensures Interfere(sp, s, s')
  {
    hide At, Within, Frame;
  }

  // ----- the site's own code -----

  ghost function Small(pr: Program, i: nat): Code
    requires Rewritten(pr) && IsMoved(pr, i)
  {
    hide IslandFor, EncB, Recognised;
    SiteImage(pr.code, pr.pool, pr.a, i, pr.fates[i].start, IslandLength(Downgrade(pr.before[i])))
  }

  function Downgraded(words: seq<bv32>): (r: seq<bv32>)
    ensures |r| == |words| && forall i :: 0 <= i < |r| ==> r[i] == Downgrade(words[i])
  {
    seq(|words|, i requires 0 <= i < |words| => Downgrade(words[i]))
  }

  lemma SmallFacts(pr: Program, i: nat)
    requires Rewritten(pr) && IsMoved(pr, i)
    ensures
      var w, site, base := Downgrade(pr.before[i]), pr.a.code + i, pr.a.pool + pr.fates[i].start;
      && SmallAgrees(Patched(pr), Small(pr, i))
      && Installed(Small(pr, i), site, base, IslandFor(w, site, base))
      && InBranchRange(base - site) && InBranchRange(BackOffset(site, base, IslandLength(w)))
      && |IslandFor(w, site, base)| == IslandLength(w)
      && pr.fates[i].start + IslandLength(w) <= |pr.pool|
  {
    hide IslandFor, EncB, Recognised, Image, SiteImage, Installed, InBranchRange, IslandLength, Downgrade;
    assert SiteOk(pr, i);
    var code0 := Downgraded(pr.before);
    SiteInstalled(code0, pr.code, pr.pool, pr.a, i, pr.fates[i].start);
    SiteAgrees(code0, pr.code, pr.pool, pr.a, i, pr.fates[i].start);
  }

  lemma SmallStep(pr: Program, i: nat, s: State, s': State)
    requires Rewritten(pr) && IsMoved(pr, i) && CpuStep(Patched(pr), s, s') && s.pc in Small(pr, i)
    requires SmallAgrees(Patched(pr), Small(pr, i))
    ensures CpuStep(Small(pr, i), s, s')
  {
    hide Decode, Exec, Image, SiteImage;
  }

  // ----- words that stay -----

  /** The downgrade changes nothing but ordering. */
  lemma DowngradeSame(w: bv32, s: State)
    ensures Exec(Decode(Downgrade(w)), s) == Exec(Decode(w), s)
  {
    hide Decode, Load, Downgrade, IsLdapr;
    DowngradeMeaning(w);
    UnchangedDowngrade(w);
  }

  lemma FetchPatched(pr: Program, pc: int)
    requires Rewritten(pr) && InCodeSection(pr, pc)
    ensures pc in Patched(pr) && Patched(pr)[pc] == pr.code[pc - pr.a.code]
    ensures pc in Original(pr) && Original(pr)[pc] == pr.before[pc - pr.a.code]
  {
    hide SiteOk, Downgrade;
  }

  lemma FetchWhere(pr: Program, pc: int)
    requires Rewritten(pr) && pc in Patched(pr)
    ensures InCodeSection(pr, pc) || InPool(pr, pc)
  {
    hide SiteOk, Downgrade;
  }

  lemma GuestStep(pr: Program, o: State, s: State, s': State, dead: iset<int>) returns (o': State)
    requires Rewritten(pr) && Related(pr, o, s, dead, Guest) && CpuStep(Patched(pr), s, s')
    requires Careful(pr, s, s', dead) && !IsMoved(pr, s.pc - pr.a.code)
    ensures InCodeSection(pr, s.pc)
    ensures CpuStep(Original(pr), o, o') && Related(pr, o', s', DeadAfter(pr, s, s', dead), Guest)
  {
    hide Decode, Exec, Downgrade, AgreeBut, Alive, Image, SiteOk, Fits, Reads, SameCore, InStack;
    FetchWhere(pr, s.pc);
    FetchPatched(pr, s.pc);
    var w := pr.before[s.pc - pr.a.code];
    SameFields(o, s);
    DowngradeSame(w, o);
    o' := Exec(Decode(w), o);
    StepAlike(Decode(Downgrade(w)), o, s, dead);
    hide Revived, Alike;
    RevivedLess(Decode(Downgrade(w)), s, dead);
  }

  lemma RevivedLess(i: Instr, s: State, dead: iset<int>)
    ensures forall b: int :: b in Revived(i, s, dead) ==> b in dead
  {
  }

  // ----- atomics -----

  /** The original executes the atomic on the memory the patched run has. */
  lemma AtomicExec(i: Instr, o: State, s0: State, m: Memory, dead: iset<int>)
    requires i.Lse? && SameCore(o, s0) && o.monitor == Open && AgreeBut(o.mem, m, dead)
    requires Alive(Base(s0, i.rn), Bytes(i.size), dead)
    ensures
      var t := Exec(i, s0.(mem := m));
      SameCore(Exec(i, o), t) && AgreeBut(Exec(i, o).mem, t.mem, dead) && Exec(i, o).monitor == Open
  {
    hide Exec, AgreeBut, Alive, X, Q;
    var s := s0.(mem := m, monitor := Open);
    SameX(s0, s);
    SameQ(s0, s);
    BaseSame(s0, s, i.rn);
    LseAlike(i, o, s, dead);
    NothingRevived(i, s, dead);
    MonitorApart(i, s0.(mem := m));
  }

  lemma BaseSame(s: State, t: State, r: int)
    requires s.x == t.x && s.sp == t.sp
    ensures Base(s, r) == Base(t, r)
  {
  }

  /** An atomic neither reads nor changes the monitor. */
  lemma MonitorApart(i: Instr, s: State)
    requires i.Lse?
    ensures
      var t := Exec(i, s.(monitor := Open));
      SameCore(t, Exec(i, s)) && t.mem == Exec(i, s).mem && t.monitor == Open
  {
    hide Load, Store, Rmw;
    SameX(Exec(i, s.(monitor := Open)), Exec(i, s));
    SameQ(Exec(i, s.(monitor := Open)), Exec(i, s));
  }

  /** Only the frame differs, and that is dead. */
  lemma SharedBut(mo: Memory, m: Memory, m': Memory, sp: int, dead: iset<int>)
    requires AgreeBut(mo, m, dead) && SameShared(m, m', sp)
    requires forall b: int :: Within(b, Frame(sp), FRAME) ==> b in dead
    ensures AgreeBut(mo, m', dead)
  {
    hide At, Within;
  }

  lemma AtomicWord(w: bv32, d: Atomic)
    requires Decode(w).Lse? && DecodeLse(w) == Some(d)
    ensures Matches(Decode(w), d)
  {
    hide Decode, DecodeLse;
    DecodeLseAgrees(w);
  }

  /** The original's whole instruction, when the patched run makes its one store. */
  lemma RmwEffect(w: bv32, o: State, c: RmwIsland.Ctx, m: Memory, dead: iset<int>)
    requires Decode(w).Lse? && DecodeLse(w) == Some(c.d) && RmwIsland.Good(c)
    requires SameCore(o, c.s0) && o.monitor == Open && AgreeBut(o.mem, m, dead) && Alive(Base(c.s0, c.d.rn), Bytes(c.d.size), dead)
    ensures
      var o' := Exec(Decode(w), o);
      SameCore(o', RmwIsland.After(c, m)) && o'.monitor == Open && AgreeBut(o'.mem, RmwIsland.MemAfter(c, m), dead)
  {
    hide Decode, DecodeLse, Exec, AgreeBut, Alive, SameCore, RmwIsland.Good, RmwIsland.After, LseExec, RmwIsland.MemAfter;
    AtomicWord(w, c.d);
    AtomicExec(Decode(w), o, c.s0, m, dead);
    SameEffect(Decode(w), c.d, c.s0.(mem := m));
    RmwIsland.AfterIsInstruction(c, m);
    RmwMem(c, m);
  }

  lemma RmwMem(c: RmwIsland.Ctx, m: Memory)
    ensures RmwIsland.After(c, m).mem == RmwIsland.MemAfter(c, m)
  {
    hide Load, Store, WordFlags;
  }

  lemma CasEffect(w: bv32, o: State, c: CasIsland.Ctx, m: Memory, dead: iset<int>)
    requires Decode(w).Lse? && DecodeLse(w) == Some(c.d) && CasIsland.Good(c)
    requires SameCore(o, c.s0) && o.monitor == Open && AgreeBut(o.mem, m, dead) && Alive(Base(c.s0, c.d.rn), Bytes(c.d.size), dead)
    requires forall b: int :: Within(b, Frame(c.s0.sp), FRAME) ==> b in dead
    ensures
      var o' := Exec(Decode(w), o);
      SameCore(o', CasIsland.After(c, m)) && o'.monitor == Open && AgreeBut(o'.mem, CasIsland.MemAfter(c, m), dead)
  {
    hide Decode, DecodeLse, Exec, AgreeBut, Alive, SameCore, CasIsland.Good, CasIsland.After, LseExec, CasIsland.MemAfter, SameShared;
    AtomicWord(w, c.d);
    AtomicExec(Decode(w), o, c.s0, m, dead);
    SameEffect(Decode(w), c.d, c.s0.(mem := m));
    CasIsland.AfterIsInstruction(c, m);
    var i := LseExec(LseInstr(c.d), c.s0.(mem := m));
    CoreSym(CasIsland.After(c, m), i);
    CoreTrans(Exec(Decode(w), o), i, CasIsland.After(c, m));
    SharedSym(CasIsland.MemAfter(c, m), i.mem, c.s0.sp);
    SharedBut(Exec(Decode(w), o).mem, i.mem, CasIsland.MemAfter(c, m), c.s0.sp, dead);
  }

  // ----- one step of the core in an island -----

  /** The island's words, in the pool and not in the code section. */
  lemma IslandPlace(pr: Program, i: nat, pc: int)
    requires Rewritten(pr) && IsMoved(pr, i)
    requires var base := pr.a.pool + pr.fates[i].start;
      pc == pr.a.code + i || base <= pc < base + IslandLength(Downgrade(pr.before[i]))
    ensures pc in Small(pr, i)
    ensures pc != pr.a.code + i ==> InPool(pr, pc) && !InCodeSection(pr, pc)
    ensures !InPool(pr, pr.a.code + i + 1)
  {
    hide IslandFor, EncB, Recognised, Image, InBranchRange, IslandLength, Downgrade;
    assert SiteOk(pr, i);
  }

  lemma RmwReady(pr: Program, i: nat, c: RmwIsland.Ctx, dead: iset<int>)
    requires Rewritten(pr) && AtomicSite(pr, i, c.d, c.s0, c.base, dead) && c.d.op != Cas
    ensures RmwIsland.Patched(c, Small(pr, i)) && RmwIsland.Length(c) == IslandLength(Downgrade(pr.before[i]))
  {
    hide IslandFor, DecodeLse, Decode, Downgrade, Installed, InBranchRange, Small, RmwWords, OpInstrs, SmallAgrees, Alive;
    SmallFacts(pr, i);
    RmwInstalled(c, Downgrade(pr.before[i]), Small(pr, i));
    RmwLengths(c);
  }

  lemma SiteAfter(pr: Program, i: nat, d: Atomic, s0: State, base: int, dead: iset<int>)
    requires Rewritten(pr) && AtomicSite(pr, i, d, s0, base, dead)
    ensures !InPool(pr, s0.pc + 1)
  {
    hide Decode, DecodeLse, Downgrade, Small, Alive;
    IslandPlace(pr, i, s0.pc);
  }

  /** Where the invariant says a run is. */
  lemma RmwWhere(c: RmwIsland.Ctx, s: State, lin: Option<Memory>)
    requires RmwIsland.Inv(c, s, lin) && s.pc != c.s0.pc
    ensures
      if s.pc == c.s0.pc + 1 then lin.Some? && SameCore(s, RmwIsland.After(c, lin.value)) && s.monitor == Open
      else c.base <= s.pc < c.base + RmwIsland.Length(c)
  {
    hide RmwIsland.InIsland, RmwIsland.After, SameCore, Load;
    if s.pc != c.s0.pc + 1 {
      RmwIsland.IslandBounds(c, s, s.pc - c.base, lin);
    }
  }

  /** Where a step of the island leads: to another word of it, or past the moved word. */
  lemma RmwArrives(pr: Program, o: State, s: State, dead: iset<int>, i: nat, c: RmwIsland.Ctx, lin: Option<Memory>)
      returns (mode: Mode)
    requires Rewritten(pr) && AtomicSite(pr, i, c.d, c.s0, c.base, dead) && RmwIsland.Good(c)
    requires AgreeBut(o.mem, s.mem, dead) && forall b: int :: b in dead ==> InStack(pr, b)
    requires RmwIsland.Inv(c, s, lin) && s.pc != c.s0.pc && o.monitor == Open
    requires SameCore(o, if lin.Some? then RmwIsland.After(c, lin.value) else c.s0)
    ensures Related(pr, o, s, dead, mode)
  {
    hide Decode, DecodeLse, Downgrade, AgreeBut, InStack, RmwIsland.Good, RmwIsland.After, RmwIsland.Inv, RmwIsland.Length, Alive,
      SameCore, Small, Rewritten, AtomicSite;
    RmwWhere(c, s, lin);
    if s.pc == c.s0.pc + 1 {
      SiteAfter(pr, i, c.d, c.s0, c.base, dead);
      CoreSym(s, RmwIsland.After(c, lin.value));
      CoreTrans(o, RmwIsland.After(c, lin.value), s);
      mode := Guest;
    } else {
      mode := InRmw(i, c, lin);
    }
  }

  /** The core at the moved word or in its island; the original executes the atomic when the store comes. */
  lemma RmwCpu(pr: Program, o: State, s: State, s': State, dead: iset<int>, i: nat, c: RmwIsland.Ctx, lin: Option<Memory>)
      returns (o': State, mode: Mode)
    requires Rewritten(pr) && AtomicSite(pr, i, c.d, c.s0, c.base, dead) && RmwIsland.Good(c)
    requires AgreeBut(o.mem, s.mem, dead) && forall b: int :: b in dead ==> InStack(pr, b)
    requires RmwIsland.Inv(c, s, lin) && o.monitor == Open
    requires SameCore(o, if lin.Some? then RmwIsland.After(c, lin.value) else c.s0)
    requires s.pc == c.s0.pc || c.base <= s.pc < c.base + RmwIsland.Length(c)
    requires CpuStep(Patched(pr), s, s')
    ensures o' == o || CpuStep(Original(pr), o, o')
    ensures Related(pr, o', s', dead, mode)
  {
    hide Decode, DecodeLse, Downgrade, AgreeBut, InStack, RmwIsland.After, RmwIsland.Inv, RmwIsland.MemAfter, Alive, SameCore,
      SameShared, Exec, Small, IslandLength, RmwIsland.Length, Image, Original, RmwIsland.NextLin, FateOk, Apart;
    RmwSound(c);
    RmwReady(pr, i, c, dead);
    IslandPlace(pr, i, s.pc);
    SmallFacts(pr, i);
    SmallStep(pr, i, s, s');
    RmwIsland.CpuKeeps(c, Small(pr, i), s, lin);
    var lin' := RmwIsland.NextLin(c, s, lin);
    var w := Downgrade(pr.before[i]);
    if lin' == lin {
      o' := o;
      SharedBut(o.mem, s.mem, s'.mem, c.s0.sp, dead);
    } else {
      o' := Exec(Decode(w), o);
      OriginalStep(pr, i, o, c.s0);
      RmwEffect(w, o, c, s.mem, dead);
      RmwLin(c, s, lin);
    }
    mode := RmwArrives(pr, o', s', dead, i, c, lin');
  }

  lemma RmwLin(c: RmwIsland.Ctx, s: State, lin: Option<Memory>)
    requires RmwIsland.NextLin(c, s, lin) != lin
    ensures RmwIsland.NextLin(c, s, lin) == Some(s.mem)
  {
  }

  /** The original, still at the moved word, executes it. */
  lemma OriginalStep(pr: Program, i: nat, o: State, s0: State)
    requires Rewritten(pr) && IsMoved(pr, i) && s0.pc == pr.a.code + i && SameCore(o, s0)
    ensures CpuStep(Original(pr), o, Exec(Decode(Downgrade(pr.before[i])), o))
  {
    hide Decode, Exec, Downgrade, SiteOk, Image, Original, X, Q;
    FetchPatched(pr, o.pc);
    DowngradeSame(pr.before[i], o);
  }

  lemma CasReady(pr: Program, i: nat, c: CasIsland.Ctx, dead: iset<int>)
    requires Rewritten(pr) && AtomicSite(pr, i, c.d, c.s0, c.base, dead) && c.d.op == Cas
    ensures CasIsland.Patched(c, Small(pr, i)) && CasIsland.Length(c) == IslandLength(Downgrade(pr.before[i]))
  {
    hide IslandFor, DecodeLse, Decode, Downgrade, Installed, InBranchRange, Small, CasWords, SmallAgrees, Alive;
    SmallFacts(pr, i);
    CasInstalled(c, Downgrade(pr.before[i]), Small(pr, i));
    CasLengths(c);
  }

  /** Where the invariant says a run is. */
  lemma CasWhere(c: CasIsland.Ctx, s: State, g: CasIsland.Ghost)
    requires CasIsland.Inv(c, s, g) && s.pc != c.s0.pc
    ensures
      if s.pc == c.s0.pc + 1 then g.Done? && CasIsland.Decided(c, g) && SameCore(s, CasIsland.After(c, g.m)) && s.monitor == Open
      else c.base <= s.pc < c.base + CasIsland.Length(c)
  {
    hide CasIsland.InIsland, CasIsland.After, SameCore, Load;
    if s.pc != c.s0.pc + 1 {
      CasIsland.IslandBounds(c, s, s.pc - c.base, g);
    }
  }

  lemma CasArrives(pr: Program, o: State, s: State, dead: iset<int>, i: nat, c: CasIsland.Ctx, g: CasIsland.Ghost)
      returns (mode: Mode)
    requires Rewritten(pr) && AtomicSite(pr, i, c.d, c.s0, c.base, dead) && CasIsland.Good(c)
    requires AgreeBut(o.mem, s.mem, dead) && forall b: int :: b in dead ==> InStack(pr, b)
    requires CasIsland.Inv(c, s, g) && s.pc != c.s0.pc && o.monitor == Open
    requires SameCore(o, if CasIsland.Decided(c, g) then CasIsland.After(c, g.m) else c.s0)
    ensures Related(pr, o, s, dead, mode)
  {
    hide Decode, DecodeLse, Downgrade, AgreeBut, InStack, CasIsland.Good, CasIsland.After, CasIsland.Inv, CasIsland.Length, Alive,
      SameCore, Small, Rewritten, AtomicSite, CasIsland.Decided;
    CasWhere(c, s, g);
    if s.pc == c.s0.pc + 1 {
      SiteAfter(pr, i, c.d, c.s0, c.base, dead);
      CoreSym(s, CasIsland.After(c, g.m));
      CoreTrans(o, CasIsland.After(c, g.m), s);
      mode := Guest;
    } else {
      mode := InCas(i, c, g);
    }
  }

  /** The same for a compare-and-swap, which the original executes at the load that finds a difference or
      at the store. */
  lemma CasCpu(pr: Program, o: State, s: State, s': State, dead: iset<int>, i: nat, c: CasIsland.Ctx, g: CasIsland.Ghost)
      returns (o': State, mode: Mode)
    requires Rewritten(pr) && AtomicSite(pr, i, c.d, c.s0, c.base, dead) && CasIsland.Good(c)
    requires AgreeBut(o.mem, s.mem, dead) && forall b: int :: b in dead ==> InStack(pr, b)
    requires CasIsland.Inv(c, s, g) && o.monitor == Open
    requires SameCore(o, if CasIsland.Decided(c, g) then CasIsland.After(c, g.m) else c.s0)
    requires s.pc == c.s0.pc || c.base <= s.pc < c.base + CasIsland.Length(c)
    requires CpuStep(Patched(pr), s, s')
    ensures o' == o || CpuStep(Original(pr), o, o')
    ensures Related(pr, o', s', dead, mode)
  {
    hide Decode, DecodeLse, Downgrade, AgreeBut, InStack, CasIsland.After, CasIsland.Inv, CasIsland.MemAfter, Alive, SameCore,
      SameShared, Exec, Small, IslandLength, CasIsland.Length, Image, Original, CasIsland.NextGhost, FateOk, Apart,
      CasIsland.Decided, CasIsland.Effect;
    CasSound(c);
    CasReady(pr, i, c, dead);
    IslandPlace(pr, i, s.pc);
    SmallFacts(pr, i);
    SmallStep(pr, i, s, s');
    CasIsland.CpuKeeps(c, Small(pr, i), s, g);
    CasIsland.NotPast(c, Small(pr, i), s);
    CasIsland.DecidedStep(c, s, s', g);
    var g' := CasIsland.NextGhost(c, s, g);
    if CasIsland.Decided(c, g') == CasIsland.Decided(c, g) {
      o' := o;
      SharedBut(o.mem, s.mem, s'.mem, c.s0.sp, dead);
    } else {
      var w := Downgrade(pr.before[i]);
      o' := Exec(Decode(w), o);
      OriginalStep(pr, i, o, c.s0);
      CasEffect(w, o, c, s.mem, dead);
    }
    mode := CasArrives(pr, o', s', dead, i, c, g');
  }

  // ----- BCAX -----

  lemma BcaxReady(pr: Program, i: nat, c: BcaxIsland.Ctx, dead: iset<int>)
    requires Rewritten(pr) && BcaxSite(pr, i, c, dead)
    ensures BcaxIsland.Patched(c, Small(pr, i)) && BcaxIsland.Length(c) == IslandLength(Downgrade(pr.before[i]))
  {
    hide DecodeLse, DecodeBcax, Decode, Downgrade, Installed, InBranchRange, Small, SmallAgrees, BcaxIsland.OperandsFit,
      BcaxWords, IslandLength, IslandFor, BcaxIsland.Length, BcaxIsland.Patched, Rewritten;
    SmallFacts(pr, i);
    BcaxInstalled(c, Downgrade(pr.before[i]), Small(pr, i));
    BcaxLength(c, Downgrade(pr.before[i]));
  }

  lemma BcaxLength(c: BcaxIsland.Ctx, w: bv32)
    requires DecodeLse(w).None? && DecodeBcax(w) == Some(c.b)
    ensures BcaxIsland.Length(c) == IslandLength(w)
  {
    hide DecodeLse, DecodeBcax, VecTemp;
  }

  lemma BcaxBounds(c: BcaxIsland.Ctx, s: State)
    requires BcaxIsland.Inv(c, s) && s.pc != c.s0.pc
    ensures
      if s.pc == c.s0.pc + 1 then SameCore(s, BcaxIsland.After(c))
      else c.base <= s.pc < c.base + BcaxIsland.Length(c)
  {
    hide BcaxIsland.After, SameCore, BcaxIsland.InShort, BcaxIsland.InLong;
  }

  lemma BcaxMoves(c: BcaxIsland.Ctx, s: State, s': State)
    requires BcaxIsland.StepKeeps(c, s, s') && (s.pc == c.s0.pc || c.base <= s.pc < c.base + BcaxIsland.Length(c))
    ensures BcaxIsland.Inv(c, s') && SameShared(s.mem, s'.mem, c.s0.sp) && s'.monitor == s.monitor && s'.pc != c.s0.pc
  {
    hide SameShared, BcaxIsland.Inv;
  }

  /** The original executes the BCAX when the patched run leaves the island. */
  lemma BcaxCpu(pr: Program, o: State, s: State, s': State, dead: iset<int>, i: nat, c: BcaxIsland.Ctx)
      returns (o': State, mode: Mode)
    requires Rewritten(pr) && BcaxSite(pr, i, c, dead)
    requires AgreeBut(o.mem, s.mem, dead) && forall b: int :: b in dead ==> InStack(pr, b)
    requires BcaxIsland.Inv(c, s) && o.monitor == s.monitor && SameCore(o, c.s0)
    requires s.pc == c.s0.pc || c.base <= s.pc < c.base + BcaxIsland.Length(c)
    requires CpuStep(Patched(pr), s, s')
    ensures o' == o || CpuStep(Original(pr), o, o')
    ensures Related(pr, o', s', dead, mode)
  {
    hide Decode, DecodeLse, DecodeBcax, Downgrade, AgreeBut, InStack, BcaxIsland.After, BcaxIsland.Inv, SameCore, SameShared, Exec, Small,
      IslandLength, BcaxIsland.Length, Image, Original, FateOk, BcaxIsland.OperandsFit, BcaxIsland.StepKeeps;
    BcaxReady(pr, i, c, dead);
    IslandPlace(pr, i, s.pc);
    IslandPlace(pr, i, c.s0.pc);
    SmallFacts(pr, i);
    SmallStep(pr, i, s, s');
    BcaxIsland.CpuKeeps(c, Small(pr, i), s);
    BcaxMoves(c, s, s');
    BcaxBounds(c, s');
    SharedBut(o.mem, s.mem, s'.mem, c.s0.sp, dead);
    if s'.pc == c.s0.pc + 1 {
      o' := Exec(Decode(Downgrade(pr.before[i])), o);
      OriginalStep(pr, i, o, c.s0);
      BcaxSame(c, o, s');
      mode := Guest;
    } else {
      o' := o;
      mode := InBcax(i, c);
    }
  }

  lemma BcaxSame(c: BcaxIsland.Ctx, o: State, s: State)
    requires BcaxIsland.OperandsFit(c.b, c.s0) && SameCore(o, c.s0) && SameCore(s, BcaxIsland.After(c))
    ensures var o' := Exec(BcaxInstr(c.b), o);
      SameCore(o', s) && o'.mem == o.mem && o'.monitor == o.monitor
  {
    hide VecBic, VecEor, SameCore, BcaxIsland.After, BcaxIsland.OperandsFit, Alike;
    BcaxIsland.ResultExact(c);
    var t := c.s0.(monitor := o.monitor);
    CoreMonitor(c.s0, o.monitor);
    CoreTrans(o, c.s0, t);
    AlikeBy(o, t);
    PlainAlike(BcaxInstr(c.b), o, t);
    AlikeCore(Exec(BcaxInstr(c.b), o), Exec(BcaxInstr(c.b), t));
    CoreMonitor(BcaxExec(BcaxInstr(c.b), c.s0), o.monitor);
    CoreSym(s, BcaxIsland.After(c));
    var u := BcaxExec(BcaxInstr(c.b), c.s0);
    CoreSym(BcaxIsland.After(c), u);
    CoreSym(u, u.(monitor := o.monitor));
    CoreTrans(Exec(BcaxInstr(c.b), o), u.(monitor := o.monitor), u);
    CoreTrans(Exec(BcaxInstr(c.b), o), u, BcaxIsland.After(c));
    CoreTrans(Exec(BcaxInstr(c.b), o), BcaxIsland.After(c), s);
  }

  lemma CoreMonitor(s: State, mon: Monitor)
    ensures SameCore(s, s.(monitor := mon))
  {
    SameX(s, s.(monitor := mon));
    SameQ(s, s.(monitor := mon));
    hide X, Q;
  }

  lemma AlikeBy(o: State, t: State)
    requires SameCore(o, t) && o.monitor == t.monitor
    ensures Alike(o, t)
  {
  }

  lemma AlikeCore(o: State, t: State)
    requires Alike(o, t)
    ensures SameCore(o, t) && o.monitor == t.monitor
  {
  }

  // ----- entering an island -----

  /** The original loses its monitor, as it may at any time. */
  lemma MonitorLost(pr: Program, o: State)
    ensures Others(pr, o, o.(monitor := Open)) && SameCore(o.(monitor := Open), o)
  {
    CoreMonitor(o, Open);
    CoreSym(o, o.(monitor := Open));
    hide SameCore;
  }

  lemma AliveApart(a: int, n: int, sp: int, dead: iset<int>, more: iset<int>)
    requires Alive(a, n, dead) && Apart(a, n, Frame(sp), FRAME)
    requires forall b: int :: b in more ==> b in dead || Within(b, Frame(sp), FRAME)
    ensures Alive(a, n, more)
  {
    hide Within;
  }

  ghost function Buried(dead: iset<int>, sp: int): iset<int> {
    iset b: int | b in dead || Within(b, Frame(sp), FRAME)
  }

  lemma BuriedFacts(pr: Program, m: Memory, m': Memory, dead: iset<int>, sp: int)
    requires AgreeBut(m, m', dead) && (forall b: int :: b in dead ==> InStack(pr, b))
    requires forall b: int :: Within(b, Frame(sp), FRAME) ==> InStack(pr, b)
    ensures AgreeBut(m, m', Buried(dead, sp)) && forall b: int :: b in Buried(dead, sp) ==> InStack(pr, b)
    ensures forall b: int :: Within(b, Frame(sp), FRAME) ==> b in Buried(dead, sp)
  {
    hide At, Within, InStack;
  }

  /** What a careful program has when it comes to a moved word. */
  ghost predicate AtSite(pr: Program, o: State, s: State, s': State, dead: iset<int>) {
    && Rewritten(pr) && Related(pr, o, s, dead, Guest) && CpuStep(Patched(pr), s, s')
    && InCodeSection(pr, s.pc) && IsMoved(pr, s.pc - pr.a.code)
    && Careful(pr, s, s', dead)
  }

  lemma EnterRmw(pr: Program, o: State, s: State, s': State, dead: iset<int>, d: Atomic) returns (o': State, mode: Mode)
    requires AtSite(pr, o, s, s', dead) && d.op != Cas
    requires var w := Downgrade(pr.before[s.pc - pr.a.code]); Decode(w).Lse? && DecodeLse(w) == Some(d)
    ensures var o1 := o.(monitor := Open); o' == o1 || CpuStep(Original(pr), o1, o')
    ensures Related(pr, o', s', Buried(dead, s.sp), mode)
  {
    hide Decode, DecodeLse, Downgrade, AgreeBut, InStack, Alive, SameCore, Exec, Image, Original, SiteOk, Apart, RmwIsland.After, Buried, Step;
    var i := s.pc - pr.a.code;
    var w, o1, c := Downgrade(pr.before[i]), o.(monitor := Open), RmwIsland.Ctx(d, s, pr.a.pool + pr.fates[i].start);
    AtomicWord(w, d);
    BuriedFacts(pr, o.mem, s.mem, dead, s.sp);
    AliveApart(X(s, d.rn), Bytes(d.size), s.sp, dead, Buried(dead, s.sp)) by { BuriedOnly(dead, s.sp); }
    CoreRefl(s);
    MonitorLost(pr, o);
    CoreTrans(o1, o, s);
    o', mode := RmwCpu(pr, o1, s, s', Buried(dead, s.sp), i, c, None);
  }

  lemma BuriedOnly(dead: iset<int>, sp: int)
    ensures forall b: int :: b in Buried(dead, sp) ==> b in dead || Within(b, Frame(sp), FRAME)
  {
  }

  lemma EnterCas(pr: Program, o: State, s: State, s': State, dead: iset<int>, d: Atomic) returns (o': State, mode: Mode)
    requires AtSite(pr, o, s, s', dead) && d.op == Cas
    requires var w := Downgrade(pr.before[s.pc - pr.a.code]); Decode(w).Lse? && DecodeLse(w) == Some(d)
    ensures var o1 := o.(monitor := Open); o' == o1 || CpuStep(Original(pr), o1, o')
    ensures Related(pr, o', s', Buried(dead, s.sp), mode)
  {
    hide Decode, DecodeLse, Downgrade, AgreeBut, InStack, Alive, SameCore, Exec, Image, Original, SiteOk, Apart, CasIsland.After, Buried, Step;
    var i := s.pc - pr.a.code;
    var w, o1, c := Downgrade(pr.before[i]), o.(monitor := Open), CasIsland.Ctx(d, s, pr.a.pool + pr.fates[i].start);
    AtomicWord(w, d);
    BuriedFacts(pr, o.mem, s.mem, dead, s.sp);
    AliveApart(X(s, d.rn), Bytes(d.size), s.sp, dead, Buried(dead, s.sp)) by { BuriedOnly(dead, s.sp); }
    CoreRefl(s);
    MonitorLost(pr, o);
    CoreTrans(o1, o, s);
    o', mode := CasCpu(pr, o1, s, s', Buried(dead, s.sp), i, c, CasIsland.Idle);
  }

  lemma EnterBcax(pr: Program, o: State, s: State, s': State, dead: iset<int>) returns (o': State, mode: Mode)
    requires AtSite(pr, o, s, s', dead) && Decode(Downgrade(pr.before[s.pc - pr.a.code])).Bcax?
    ensures o' == o || CpuStep(Original(pr), o, o')
    ensures Related(pr, o', s', Buried(dead, s.sp), mode)
  {
    hide Decode, DecodeLse, DecodeBcax, Downgrade, AgreeBut, InStack, Alive, SameCore, Exec, Image, Original, SiteOk, Buried, Step,
      BcaxIsland.OperandsFit, SwpLookalike;
    var i := s.pc - pr.a.code;
    var w := Downgrade(pr.before[i]);
    DecodeBcaxAgrees(w);
    NotBoth(w);
    var c := BcaxIsland.Ctx(DecodeBcax(w).value, s, pr.a.pool + pr.fates[i].start);
    BuriedFacts(pr, o.mem, s.mem, dead, s.sp);
    CoreRefl(s);
    o', mode := BcaxCpu(pr, o, s, s', Buried(dead, s.sp), i, c);
  }

  // ----- every step -----

  lemma CoreMirrored(o: State, m: Memory, mon: Monitor, t: State)
    requires SameCore(o, t)
    ensures SameCore(o.(mem := m, monitor := mon), t)
  {
    SameX(o, o.(mem := m, monitor := mon));
    SameQ(o, o.(mem := m, monitor := mon));
    hide X, Q;
  }

  /** Other cores' steps leave every mode as it is. */
  lemma OthersRelated(pr: Program, o: State, s: State, s': State, dead: iset<int>, mode: Mode) returns (o': State)
    requires Related(pr, o, s, dead, mode) && Others(pr, s, s')
    ensures Others(pr, o, o') && Related(pr, o', s', dead, mode)
  {
    hide AgreeBut, InStack, SameCore, AtomicSite, BcaxSite, RmwIsland.Good, CasIsland.Good, RmwIsland.After, CasIsland.After,
      RmwIsland.Inv, CasIsland.Inv, BcaxIsland.Inv, CasIsland.Decided, RmwIsland.Length, CasIsland.Length, BcaxIsland.Length, AgreeOn;
    var mon := if mode.InRmw? || mode.InCas? then Open else s'.monitor;
    OthersMirrored(pr, o, s, s', dead, mon);
    o' := o.(mem := Mirrored(pr, o.mem, s'.mem), monitor := mon);
    match mode {
      case Guest =>
        CoreMirrored(o, o'.mem, mon, s);
        CoreSym(o', s);
        CoreMirrored(s, s'.mem, s'.monitor, o');
        CoreSym(s', o');
      case InRmw(i, c, lin) =>
        FrameInStack(pr, i, c.s0, c.base, dead) by { AtomicEntered(pr, i, c.d, c.s0, c.base, dead); }
        OthersInterfere(pr, s, s', c.s0.sp);
        RmwIsland.InterferenceKeeps(c, s, s', lin);
        CoreMirrored(o, o'.mem, mon, if lin.Some? then RmwIsland.After(c, lin.value) else c.s0);
      case InCas(i, c, g) =>
        FrameInStack(pr, i, c.s0, c.base, dead) by { AtomicEntered(pr, i, c.d, c.s0, c.base, dead); }
        OthersInterfere(pr, s, s', c.s0.sp);
        CasIsland.InterferenceKeeps(c, s, s', g);
        CoreMirrored(o, o'.mem, mon, if CasIsland.Decided(c, g) then CasIsland.After(c, g.m) else c.s0);
      case InBcax(i, c) =>
        FrameInStack(pr, i, c.s0, c.base, dead) by { BcaxEntered(pr, i, c, dead); }
        OthersInterfere(pr, s, s', c.s0.sp);
        BcaxIsland.InterferenceKeeps(c, s, s');
        CoreMirrored(o, o'.mem, mon, c.s0);
    }
  }

  lemma AtomicEntered(pr: Program, i: nat, d: Atomic, s0: State, base: int, dead: iset<int>)
    requires AtomicSite(pr, i, d, s0, base, dead)
    ensures Entered(pr, i, s0, base, dead)
  {
  }

  lemma BcaxEntered(pr: Program, i: nat, c: BcaxIsland.Ctx, dead: iset<int>)
    requires BcaxSite(pr, i, c, dead)
    ensures Entered(pr, i, c.s0, c.base, dead)
  {
  }

  lemma FrameInStack(pr: Program, i: nat, s0: State, base: int, dead: iset<int>)
    requires Entered(pr, i, s0, base, dead) && forall b: int :: b in dead ==> InStack(pr, b)
    ensures forall b: int :: Within(b, Frame(s0.sp), FRAME) ==> InStack(pr, b)
  {
    hide InStack, Within;
  }

  /** The core's steps at a moved word. */
  lemma EnterStep(pr: Program, o: State, s: State, s': State, dead: iset<int>) returns (otr: seq<State>, mode: Mode)
    requires AtSite(pr, o, s, s', dead)
    ensures ProgramRun(Original(pr), pr, otr) && otr[0] == o
    ensures Related(pr, otr[|otr| - 1], s', DeadAfter(pr, s, s', dead), mode)
  {
    hide Decode, DecodeLse, Downgrade, Exec, Image, Original, SiteOk, Buried, CpuStep, Related, Others, SwpLookalike, Rewritten, Reads, Fits;
    RewrittenSizes(pr);
    var w := Downgrade(pr.before[s.pc - pr.a.code]);
    BuriedDead(pr, s, s', dead);
    var o', o1 := o, o.(monitor := Open);
    if Decode(w).Lse? {
      DecodeLseAgrees(w);
      MonitorLost(pr, o);
      var d := DecodeLse(w).value;
      if d.op == Cas {
        o', mode := EnterCas(pr, o, s, s', dead, d);
      } else {
        o', mode := EnterRmw(pr, o, s, s', dead, d);
      }
      otr := if o' == o1 then [o, o1] else [o, o1, o'];
    } else {
      o', mode := EnterBcax(pr, o, s, s', dead);
      otr := if o' == o then [o] else [o, o'];
    }
  }

  lemma BuriedDead(pr: Program, s: State, s': State, dead: iset<int>)
    requires |pr.code| == |pr.before| && CpuStep(Patched(pr), s, s') && InCodeSection(pr, s.pc) && IsMoved(pr, s.pc - pr.a.code)
    ensures DeadAfter(pr, s, s', dead) == Buried(dead, s.sp)
  {
    hide CpuStep, Image, Within;
  }

  /** The core's steps inside an island. */
  lemma IslandStep(pr: Program, o: State, s: State, s': State, dead: iset<int>, mode: Mode) returns (o': State, next: Mode)
    requires Rewritten(pr) && Related(pr, o, s, dead, mode) && !mode.Guest? && CpuStep(Patched(pr), s, s')
    ensures o' == o || CpuStep(Original(pr), o, o')
    ensures Related(pr, o', s', dead, next) && !InCodeSection(pr, s.pc)
  {
    hide AgreeBut, InStack, SameCore, RmwIsland.Good, CasIsland.Good, RmwIsland.After, CasIsland.After, Rewritten, AtomicSite, BcaxSite,
      RmwIsland.Inv, CasIsland.Inv, BcaxIsland.Inv, CasIsland.Decided, RmwIsland.Length, CasIsland.Length, BcaxIsland.Length,
      Image, Original, Step, IslandLength, InCodeSection;
    match mode {
      case InRmw(i, c, lin) =>
        o', next := RmwCpu(pr, o, s, s', dead, i, c, lin);
        AtomicEntered(pr, i, c.d, c.s0, c.base, dead);
        RmwReady(pr, i, c, dead) by { GoodRmw(c); }
        OutsideCode(pr, i, s.pc, RmwIsland.Length(c));
      case InCas(i, c, g) =>
        o', next := CasCpu(pr, o, s, s', dead, i, c, g);
        AtomicEntered(pr, i, c.d, c.s0, c.base, dead);
        CasReady(pr, i, c, dead) by { GoodCas(c); }
        OutsideCode(pr, i, s.pc, CasIsland.Length(c));
      case InBcax(i, c) =>
        o', next := BcaxCpu(pr, o, s, s', dead, i, c);
        BcaxEntered(pr, i, c, dead);
        BcaxReady(pr, i, c, dead);
        OutsideCode(pr, i, s.pc, BcaxIsland.Length(c));
    }
  }

  lemma GoodRmw(c: RmwIsland.Ctx)
    requires RmwIsland.Good(c)
    ensures c.d.op != Cas
  {
  }

  lemma GoodCas(c: CasIsland.Ctx)
    requires CasIsland.Good(c)
    ensures c.d.op == Cas
  {
  }

  lemma OutsideCode(pr: Program, i: nat, pc: int, n: nat)
    requires Rewritten(pr) && IsMoved(pr, i) && n == IslandLength(Downgrade(pr.before[i]))
    requires var base := pr.a.pool + pr.fates[i].start; base <= pc < base + n
    ensures !InCodeSection(pr, pc)
  {
    hide IslandFor, EncB, Recognised, Image, InBranchRange, IslandLength, Downgrade;
    assert SiteOk(pr, i);
  }

  /** Each step of the patched run is matched by a run of the original. */
  lemma SimulateStep(pr: Program, o: State, s: State, s': State, dead: iset<int>, mode: Mode) returns (otr: seq<State>, next: Mode)
    requires Rewritten(pr) && Related(pr, o, s, dead, mode) && Moves(Patched(pr), pr, s, s') && Careful(pr, s, s', dead)
    ensures ProgramRun(Original(pr), pr, otr) && otr[0] == o
    ensures Related(pr, otr[|otr| - 1], s', DeadAfter(pr, s, s', dead), next)
  {
    hide Decode, Downgrade, Image, Original, SiteOk, CpuStep, Others, Fits, Reads, Revived, OnRmw, OnCas, OnBcax, AgreeBut;
    if CpuStep(Patched(pr), s, s') {
      var o';
      if !mode.Guest? {
        o', next := IslandStep(pr, o, s, s', dead, mode);
        otr := if o' == o then [o] else [o, o'];
      } else if IsMoved(pr, s.pc - pr.a.code) && InCodeSection(pr, s.pc) {
        otr, next := EnterStep(pr, o, s, s', dead);
      } else {
        GuestPlace(pr, o, s, s', dead);
        o' := GuestStep(pr, o, s, s', dead);
        otr, next := [o, o'], Guest;
      }
    } else {
      var o' := OthersRelated(pr, o, s, s', dead, mode);
      otr, next := [o, o'], mode;
    }
  }

  lemma GuestPlace(pr: Program, o: State, s: State, s': State, dead: iset<int>)
    requires Rewritten(pr) && Related(pr, o, s, dead, Guest) && CpuStep(Patched(pr), s, s')
    ensures InCodeSection(pr, s.pc)
  {
    hide Exec, Decode, Rewritten, Image;
    FetchWhere(pr, s.pc);
  }

  lemma JoinRuns(code: Code, pr: Program, a: seq<State>, b: seq<State>)
    requires ProgramRun(code, pr, a) && ProgramRun(code, pr, b) && a[|a| - 1] == b[0]
    ensures ProgramRun(code, pr, a + b[1..]) && (a + b[1..])[0] == a[0]
    ensures (a + b[1..])[|a + b[1..]| - 1] == b[|b| - 1]
  {
    hide Moves;
    var c := a + b[1..];
    forall i | 0 <= i < |c| - 1 ensures Moves(code, pr, c[i], c[i + 1]) {
      if i >= |a| - 1 {
        assert c[i] == b[i - (|a| - 1)] && c[i + 1] == b[i + 1 - (|a| - 1)];
      }
    }
  }

  lemma {:induction false} SimulateRun(pr: Program, tr: seq<State>) returns (otr: seq<State>, mode: Mode)
    requires Rewritten(pr) && ProgramRun(Patched(pr), pr, tr) && CarefulRun(pr, tr) && !InPool(pr, tr[0].pc)
    ensures ProgramRun(Original(pr), pr, otr) && otr[0] == tr[0]
    ensures Related(pr, otr[|otr| - 1], tr[|tr| - 1], Dead(pr, tr), mode)
    decreases |tr|
  {
    hide Moves, Careful, Rewritten, Image, Original, DeadAfter;
    RewrittenSizes(pr);
    var n := |tr| - 1;
    if n == 0 {
      otr, mode := [tr[0]], Guest;
      CoreRefl(tr[0]);
    } else {
      var before := tr[..n];
      RunPrefix(pr, tr, n);
      hide Related;
      var otr0, mode0 := SimulateRun(pr, before);
      assert tr[..n] == before && before[n - 1] == tr[n - 1];
      var step;
      step, mode := SimulateStep(pr, otr0[|otr0| - 1], tr[n - 1], tr[n], Dead(pr, before), mode0);
      JoinRuns(Original(pr), pr, otr0, step);
      otr := otr0 + step[1..];
    }
  }

  lemma RewrittenSizes(pr: Program)
    requires Rewritten(pr)
    ensures |pr.code| == |pr.before|
  {
    hide SiteOk, Downgrade;
  }

  lemma RunPrefix(pr: Program, tr: seq<State>, n: nat)
    requires |pr.code| == |pr.before| && ProgramRun(Patched(pr), pr, tr) && CarefulRun(pr, tr) && 0 < n < |tr|
    ensures ProgramRun(Patched(pr), pr, tr[..n]) && CarefulRun(pr, tr[..n])
    ensures Moves(Patched(pr), pr, tr[n - 1], tr[n]) && Careful(pr, tr[n - 1], tr[n], Dead(pr, tr[..n]))
  {
    hide Moves, Careful, Image, Dead;
    forall i | 0 <= i < n - 1
      ensures Moves(Patched(pr), pr, tr[..n][i], tr[..n][i + 1]) && Careful(pr, tr[..n][i], tr[..n][i + 1], Dead(pr, tr[..n][..i + 1]))
    {
      assert tr[..n][..i + 1] == tr[..i + 1];
      assert Moves(Patched(pr), pr, tr[i], tr[i + 1]) && Careful(pr, tr[i], tr[i + 1], Dead(pr, tr[..i + 1]));
    }
    assert Careful(pr, tr[n - 1], tr[n], Dead(pr, tr[..n - 1 + 1]));
  }

  /** Every careful run of the patched program, other cores storing at any time, that stands at a word of
      the program is matched by a run of the original program from the same state: the same registers,
      stack pointer, flags, vectors, program counter and monitor, and the same memory but for dead bytes. */
  lemma ProgramSimulates(pr: Program, tr: seq<State>) returns (otr: seq<State>)
    requires Rewritten(pr) && ProgramRun(Patched(pr), pr, tr) && CarefulRun(pr, tr)
    requires !InPool(pr, tr[0].pc) && !InPool(pr, tr[|tr| - 1].pc)
    ensures ProgramRun(Original(pr), pr, otr) && otr[0] == tr[0]
    ensures Alike(otr[|otr| - 1], tr[|tr| - 1])
    ensures AgreeBut(otr[|otr| - 1].mem, tr[|tr| - 1].mem, Dead(pr, tr))
  {
    hide Moves, CarefulRun, Alike, AgreeBut, Dead, AtomicSite, BcaxSite, IslandLength, RmwIsland.Length, CasIsland.Length, BcaxIsland.Length;
    var mode;
    otr, mode := SimulateRun(pr, tr);
    AtRest(pr, otr[|otr| - 1], tr[|tr| - 1], Dead(pr, tr), mode);
  }

  lemma AtRest(pr: Program, o: State, s: State, dead: iset<int>, mode: Mode)
    requires Rewritten(pr) && Related(pr, o, s, dead, mode) && !InPool(pr, s.pc)
    ensures Alike(o, s) && AgreeBut(o.mem, s.mem, dead)
  {
    hide AgreeBut, Alike, SameCore, AtomicSite, BcaxSite, RmwIsland.Inv, CasIsland.Inv, BcaxIsland.Inv, RmwIsland.Good, CasIsland.Good,
      RmwIsland.Length, CasIsland.Length, BcaxIsland.Length, CasIsland.Decided, Rewritten, RmwIsland.After, CasIsland.After;
    match mode {
      case Guest =>
      case InRmw(i, c, _) =>
        AtomicEntered(pr, i, c.d, c.s0, c.base, dead);
        RmwReady(pr, i, c, dead) by { GoodRmw(c); }
        InsidePool(pr, i, s.pc, RmwIsland.Length(c));
      case InCas(i, c, _) =>
        AtomicEntered(pr, i, c.d, c.s0, c.base, dead);
        CasReady(pr, i, c, dead) by { GoodCas(c); }
        InsidePool(pr, i, s.pc, CasIsland.Length(c));
      case InBcax(i, c) =>
        BcaxEntered(pr, i, c, dead);
        BcaxReady(pr, i, c, dead);
        InsidePool(pr, i, s.pc, BcaxIsland.Length(c));
    }
  }

  lemma InsidePool(pr: Program, i: nat, pc: int, n: nat)
    requires Rewritten(pr) && IsMoved(pr, i) && n == IslandLength(Downgrade(pr.before[i]))
    requires var base := pr.a.pool + pr.fates[i].start; base <= pc < base + n
    ensures InPool(pr, pc)
  {
    hide IslandFor, EncB, Recognised, Image, InBranchRange, IslandLength, Downgrade;
    assert SiteOk(pr, i);
  }

  /** What the downgrade and the patching pass leave is such a program, when no island ends too far from
      its word. */
  lemma PassesRewrite(pr: Program, code0: seq<bv32>, pool0: seq<bv32>, bottom: nat, top: nat)
    requires |code0| == |pr.before| && forall i :: 0 <= i < |code0| ==> code0[i] == Downgrade(pr.before[i])
    requires Passed(code0, pr.code, pool0, pr.pool, pr.a, bottom, top, pr.fates) && Separate(pr.code, pr.pool, pr.a)
    requires forall i :: 0 <= i < |pr.fates| && pr.fates[i].Moved? ==>
      (pr.a.pool + pr.fates[i].start) - (pr.a.code + i) + IslandLength(code0[i]) <= 0x200_0002
    ensures Rewritten(pr)
  {
    hide IslandFor, EncB, Recognised, InBranchRange, IslandLength, Downgrade;
  }
}
