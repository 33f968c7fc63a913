/** What a patched code section does, in terms of the words it had before: every moved word behaves as
    the instruction it was, and patching again finds nothing. */
module PatchedImage {
  import opened Basics
  import opened A64Memory
  import opened A64
  import opened IsaEncode
  import opened IsaEmul
  import opened StackFrame
  import opened LseValues
  import opened Interleaving
  import opened IsaPatch
  import opened IsaEmit
  import RmwIsland
  import CasIsland
  import BcaxIsland

  // ----- the image -----

  function WordAt(words: seq<bv32>, base: int, pc: int): bv32
    requires base <= pc < base + |words|
  {
    words[pc - base]
  }

  /** Code section and island pool as the processor fetches them. */
  function Image(code: seq<bv32>, pool: seq<bv32>, a: Addresses): Code {
    (map pc | a.pool <= pc < a.pool + |pool| :: WordAt(pool, a.pool, pc)) +
    (map pc | a.code <= pc < a.code + |code| :: WordAt(code, a.code, pc))
  }

  /** One patched word and its island, nothing else. */
  function SiteImage(code: seq<bv32>, pool: seq<bv32>, a: Addresses, i: nat, start: nat, n: nat): Code
    requires i < |code| && start + n <= |pool|
  {
    (map pc | a.pool + start <= pc < a.pool + start + n :: WordAt(pool, a.pool, pc))[a.code + i := code[i]]
  }

  /** Code and pool do not overlap, nor does the word after the code. */
  ghost predicate Separate(code: seq<bv32>, pool: seq<bv32>, a: Addresses) {
    a.code + |code| < a.pool || a.pool + |pool| <= a.code
  }

  /** The i-th word has moved to an island whose return branch reaches. */
  ghost predicate MovedTo(code0: seq<bv32>, code: seq<bv32>, pool: seq<bv32>, a: Addresses, i: nat, start: nat) {
    && i < |code0| == |code|
    && FateOk(code0[i], code[i], pool, a.code + i, a.pool, Moved(start))
    && (a.pool + start) - (a.code + i) + IslandLength(code0[i]) <= 0x200_0002
  }

  lemma SiteInstalled(code0: seq<bv32>, code: seq<bv32>, pool: seq<bv32>, a: Addresses, i: nat, start: nat)
    requires Separate(code, pool, a) && MovedTo(code0, code, pool, a, i, start)
    ensures
      var w, site, base := code0[i], a.code + i, a.pool + start;
      && Installed(SiteImage(code, pool, a, i, start, IslandLength(w)), site, base, IslandFor(w, site, base))
      && InBranchRange(base - site) && InBranchRange(BackOffset(site, base, IslandLength(w)))
      && |IslandFor(w, site, base)| == IslandLength(w)
  {
    hide Recognised, EncB, IslandLength, IslandFor;
    var w, site, base := code0[i], a.code + i, a.pool + start;
    IslandFits(w, site, base);
    var n := IslandLength(w);
    var small := SiteImage(code, pool, a, i, start, n);
    forall k | 0 <= k < n ensures base + k in small && small[base + k] == IslandFor(w, site, base)[k] {
      assert pool[start + k] == pool[start..start + n][k];
    }
  }

  // ----- a moved word behaves as the instruction it was -----

  /** The run has not passed the patched word before its last state. */
  ghost predicate UntilAfter(tr: seq<State>, site: int) {
    |tr| > 0 && tr[0].pc == site && tr[|tr| - 1].pc == site + 1 &&
    forall j :: 0 <= j < |tr| - 1 ==> tr[j].pc != site + 1
  }

  ghost predicate SmallAgrees(full: Code, small: Code) {
    forall pc :: pc in small ==> pc in full && full[pc] == small[pc]
  }

  lemma StepInSite(full: Code, small: Code, sp: int, s: State, s': State)
    requires SmallAgrees(full, small) && Next(full, sp, s, s') && s.pc in small
    ensures Next(small, sp, s, s')
    ensures CpuStep(full, s, s') <==> CpuStep(small, s, s')
  {
    hide Decode, Exec, Interfere;
  }

  /** While the core stays in the site and its island, the rest of the image does not matter. */
  lemma RunInSite(full: Code, small: Code, sp: int, tr: seq<State>)
    requires SmallAgrees(full, small) && Run(full, sp, tr)
    requires forall j :: 0 <= j < |tr| - 1 ==> tr[j].pc in small
    ensures Run(small, sp, tr)
    ensures forall k :: StoresOnlyAt(small, sp, tr, k) ==> StoresOnlyAt(full, sp, tr, k)
  {
    hide Next, CpuStep, SameShared;
    forall j | 0 <= j < |tr| - 1
      ensures Next(small, sp, tr[j], tr[j + 1]) && (CpuStep(full, tr[j], tr[j + 1]) <==> CpuStep(small, tr[j], tr[j + 1]))
    {
      StepInSite(full, small, sp, tr[j], tr[j + 1]);
    }
  }

  lemma {:induction false} RmwStays(c: RmwIsland.Ctx, full: Code, small: Code, tr: seq<State>, n: nat)
    requires RmwIsland.Sound(c) && RmwIsland.Patched(c, small) && SmallAgrees(full, small)
    requires Run(full, c.s0.sp, tr) && tr[0] == c.s0 && UntilAfter(tr, c.s0.pc) && n < |tr|
    ensures forall j :: 0 <= j < n ==> tr[j].pc in small
    decreases n
  {
    hide RmwIsland.Sound, RmwIsland.Patched, Next, SmallAgrees, RmwIsland.Inv, RmwIsland.Progress;
    if n > 0 {
      RmwStays(c, full, small, tr, n - 1);
      PrefixRun(full, c.s0.sp, tr, n);
      RunInSite(full, small, c.s0.sp, tr[..n]);
      var lin, k := RmwIsland.ProgressAll(c, small, tr[..n]);
      RmwLast(c, small, tr[..n], lin, k);
    }
  }

  lemma RmwLast(c: RmwIsland.Ctx, small: Code, tr: seq<State>, lin: Option<Memory>, k: int)
    requires RmwIsland.Sound(c) && RmwIsland.Patched(c, small)
    requires RmwIsland.Progress(c, small, tr, lin, k) && tr[|tr| - 1].pc != c.s0.pc + 1
    ensures tr[|tr| - 1].pc in small
  {
    hide RmwIsland.Inv, RmwIsland.Sound, RmwIsland.Patched, RmwIsland.Rank, RmwIsland.NextLin, RmwIsland.StoredAt,
      StoresOnlyAt, Step;
    RmwIsland.CpuRank(c, small, tr[|tr| - 1], lin);
  }

  lemma PrefixRun(code: Code, sp: int, tr: seq<State>, n: nat)
    requires Run(code, sp, tr) && 0 < n < |tr|
    ensures Run(code, sp, tr[..n])
  {
    hide Next;
    forall j | 0 <= j < n - 1 ensures Next(code, sp, tr[..n][j], tr[..n][j + 1]) {
      assert Next(code, sp, tr[j], tr[j + 1]);
    }
  }

  lemma {:induction false} CasStays(c: CasIsland.Ctx, full: Code, small: Code, tr: seq<State>, n: nat)
    requires CasIsland.Sound(c) && CasIsland.Patched(c, small) && SmallAgrees(full, small)
    requires Run(full, c.s0.sp, tr) && tr[0] == c.s0 && UntilAfter(tr, c.s0.pc) && n < |tr|
    ensures forall j :: 0 <= j < n ==> tr[j].pc in small
    decreases n
  {
    hide CasIsland.Sound, CasIsland.Patched, Next, SmallAgrees, CasIsland.Inv, CasIsland.Progress;
    if n > 0 {
      CasStays(c, full, small, tr, n - 1);
      PrefixRun(full, c.s0.sp, tr, n);
      RunInSite(full, small, c.s0.sp, tr[..n]);
      var g, k := CasIsland.ProgressAll(c, small, tr[..n]);
      CasLast(c, small, tr[..n], g, k);
    }
  }

  lemma CasLast(c: CasIsland.Ctx, small: Code, tr: seq<State>, g: CasIsland.Ghost, k: int)
    requires CasIsland.Sound(c) && CasIsland.Patched(c, small)
    requires CasIsland.Progress(c, small, tr, g, k) && tr[|tr| - 1].pc != c.s0.pc + 1
    ensures tr[|tr| - 1].pc in small
  {
    hide CasIsland.Inv, CasIsland.Sound, CasIsland.Patched, CasIsland.Rank, CasIsland.NextGhost, CasIsland.EffectAt,
      StoresOnlyAt, Step;
    CasIsland.CpuRank(c, small, tr[|tr| - 1], g);
  }

  lemma {:induction false} BcaxStays(c: BcaxIsland.Ctx, full: Code, small: Code, tr: seq<State>, n: nat)
    requires BcaxIsland.OperandsFit(c.b, c.s0) && BcaxIsland.Patched(c, small) && SmallAgrees(full, small)
    requires Run(full, c.s0.sp, tr) && tr[0] == c.s0 && UntilAfter(tr, c.s0.pc) && n < |tr|
    ensures forall j :: 0 <= j < n ==> tr[j].pc in small
    decreases n
  {
    hide BcaxIsland.OperandsFit, BcaxIsland.Patched, Next, SmallAgrees, BcaxIsland.Inv;
    if n > 0 {
      BcaxStays(c, full, small, tr, n - 1);
      PrefixRun(full, c.s0.sp, tr, n);
      RunInSite(full, small, c.s0.sp, tr[..n]);
      BcaxIsland.RunKeeps(c, small, tr[..n], n - 1);
      BcaxIsland.CpuKeeps(c, small, tr[n - 1]);
    }
  }

  /** What the instruction w needs of the state it runs in for its island to be faithful: a base register
      other than SP, operands apart from the 64 bytes below SP, and clear high bits where the island
      compares whole registers. */
  ghost predicate Fits(w: bv32, s0: State) {
    var i := Decode(w);
    if i.Lse? then
      && i.rn != ZR
      && Apart(X(s0, i.rn), Bytes(i.size), Frame(s0.sp), FRAME)
      && (if i.lse == Cas then CasIsland.OperandsFit(i.size, X(s0, i.rs), X(s0, i.rt))
          else SourceFits(i.lse, i.size, X(s0, i.rs)))
    else if i.Bcax? then
      BcaxIsland.OperandsFit(BcaxRegs(i.vd, i.vn, i.vm, i.va), s0)
    else true
  }

  /** Step k has the effect of the whole instruction on shared memory, no other step of the core has
      any, and the run ends as the instruction executed at that moment. */
  ghost predicate ActsAs(i: Instr, image: Code, s0: State, tr: seq<State>, k: nat) {
    && k < |tr| - 1 && CpuStep(image, tr[k], tr[k + 1])
    && SameShared(tr[k + 1].mem, Exec(i, s0.(mem := tr[k].mem)).mem, s0.sp)
    && SameCore(tr[|tr| - 1], Exec(i, s0.(mem := tr[k].mem)))
    && StoresOnlyAt(image, s0.sp, tr, k)
  }

  lemma UntilPc(tr: seq<State>, site: int)
    requires UntilAfter(tr, site)
    ensures |tr| > 0 && tr[|tr| - 1].pc == site + 1
  {
  }

  lemma RmwSound(c: RmwIsland.Ctx)
    requires RmwIsland.Good(c)
    ensures RmwIsland.Sound(c)
  {
  }

  lemma MovedRmw(c: RmwIsland.Ctx, i: Instr, full: Code, small: Code, tr: seq<State>) returns (k: nat)
    requires RmwIsland.Good(c) && RmwIsland.Patched(c, small) && SmallAgrees(full, small)
    requires Run(full, c.s0.sp, tr) && |tr| > 0 && tr[0] == c.s0 && UntilAfter(tr, c.s0.pc)
    requires Matches(i, c.d)
    ensures ActsAs(i, full, tr[0], tr, k)
  {
    hide *;
    RmwSound(c);
    UntilPc(tr, c.s0.pc);
    RmwStays(c, full, small, tr, |tr| - 1);
    RunInSite(full, small, c.s0.sp, tr);
    k := RmwIsland.RmwAtomic(c, small, tr);
    SharedRefl(tr[k + 1].mem, c.s0.sp);
    Assemble(i, c.d, full, small, c.s0, tr, k);
  }

  lemma CasSound(c: CasIsland.Ctx)
    requires CasIsland.Good(c)
    ensures CasIsland.Sound(c)
  {
  }

  lemma MovedCas(c: CasIsland.Ctx, i: Instr, full: Code, small: Code, tr: seq<State>) returns (k: nat)
    requires CasIsland.Good(c) && CasIsland.Patched(c, small) && SmallAgrees(full, small)
    requires Run(full, c.s0.sp, tr) && |tr| > 0 && tr[0] == c.s0 && UntilAfter(tr, c.s0.pc)
    requires Matches(i, c.d)
    ensures ActsAs(i, full, tr[0], tr, k)
  {
    hide *;
    CasSound(c);
    UntilPc(tr, c.s0.pc);
    CasStays(c, full, small, tr, |tr| - 1);
    RunInSite(full, small, c.s0.sp, tr);
    k := CasIsland.CasAtomic(c, small, tr);
    SharedRefl(tr[k + 1].mem, c.s0.sp);
    Assemble(i, c.d, full, small, c.s0, tr, k);
  }

  /** The instruction the emulator took for d, ordering flags aside. */
  predicate Matches(i: Instr, d: Atomic) {
    i.Lse? && i.lse == d.op && i.size == d.size && i.rs == d.rs && i.rt == d.rt && i.rn == d.rn
  }

  lemma Assemble(i: Instr, d: Atomic, full: Code, small: Code, s0: State, tr: seq<State>, k: nat)
    requires SmallAgrees(full, small) && |tr| > 0 && tr[0] == s0 && k < |tr| - 1
    requires Matches(i, d) && CpuStep(small, tr[k], tr[k + 1])
    requires SameShared(tr[k + 1].mem, LseExec(LseInstr(d), s0.(mem := tr[k].mem)).mem, s0.sp)
    requires SameCore(tr[|tr| - 1], LseExec(LseInstr(d), s0.(mem := tr[k].mem)))
    requires StoresOnlyAt(full, s0.sp, tr, k)
    ensures ActsAs(i, full, s0, tr, k)
  {
    hide SmallAgrees, SameCore, SameShared, CpuStep, StoresOnlyAt, LseExec, Exec, Matches;
    StepsAgree(full, small, s0.sp, tr, k);
    SameEffect(i, d, s0.(mem := tr[k].mem));
  }

  lemma StepsAgree(full: Code, small: Code, sp: int, tr: seq<State>, k: nat)
    requires SmallAgrees(full, small) && k < |tr| - 1 && CpuStep(small, tr[k], tr[k + 1])
    ensures CpuStep(full, tr[k], tr[k + 1])
  {
    hide Decode, Exec;
  }

  /** Ordering flags do not change what an atomic instruction does. */
  lemma SameEffect(i: Instr, d: Atomic, s: State)
    requires Matches(i, d)
    ensures Exec(i, s) == LseExec(LseInstr(d), s)
  {
    hide Load, Store;
  }

  lemma MovedLseActs(code0: seq<bv32>, code: seq<bv32>, pool: seq<bv32>, a: Addresses, i: nat, start: nat,
                     tr: seq<State>) returns (k: nat)
    requires Separate(code, pool, a) && MovedTo(code0, code, pool, a, i, start)
    requires Decode(code0[i]).Lse? && UntilAfter(tr, a.code + i) && Fits(code0[i], tr[0])
    requires Run(Image(code, pool, a), tr[0].sp, tr)
    ensures ActsAs(Decode(code0[i]), Image(code, pool, a), tr[0], tr, k)
  {
    hide EncB, IslandLength, Decode, Image, Installed, InBranchRange, Run, Separate, FateOk, DecodeLse, DecodeBcax,
      SwpLookalike, RmwWords, CasWords, ActsAs, SmallAgrees, SiteImage;
    var w, base := code0[i], a.pool + start;
    DecodeLseAgrees(w);
    var d := DecodeLse(w).value;
    SiteInstalled(code0, code, pool, a, i, start);
    SiteAgrees(code0, code, pool, a, i, start);
    var small := SiteImage(code, pool, a, i, start, IslandLength(w));
    hide MovedTo;
    if d.op == Cas {
      var c := CasIsland.Ctx(d, tr[0], base);
      CasInstalled(c, w, small);
      k := MovedCas(c, Decode(w), Image(code, pool, a), small, tr);
    } else {
      var c := RmwIsland.Ctx(d, tr[0], base);
      RmwInstalled(c, w, small);
      k := MovedRmw(c, Decode(w), Image(code, pool, a), small, tr);
    }
  }

  /** The patched code simulates the original: from a moved LSE word to the word after it, every run of
      the patched image, under interference, is one atomic execution of the word that was there; and its
      one load and one store have that word's ordering. */
  lemma MovedLseAtomic(code0: seq<bv32>, code: seq<bv32>, pool: seq<bv32>, a: Addresses, i: nat, start: nat,
                       tr: seq<State>) returns (k: nat)
    requires Separate(code, pool, a) && MovedTo(code0, code, pool, a, i, start)
    requires Decode(code0[i]).Lse? && UntilAfter(tr, a.code + i) && Fits(code0[i], tr[0])
    requires Run(Image(code, pool, a), tr[0].sp, tr)
    ensures ActsAs(Decode(code0[i]), Image(code, pool, a), tr[0], tr, k)
    ensures KeepsOrder(code0[i], pool, start)
  {
    hide Decode, Image, Run, Separate, FateOk, ActsAs, IslandLength, Fits, KeepsOrder;
    FateOrdered(code0[i], code[i], pool, a.code + i, a.pool, start);
    k := MovedLseActs(code0, code, pool, a, i, start, tr);
  }

  lemma RmwInstalled(c: RmwIsland.Ctx, w: bv32, small: Code)
    requires DecodeLse(w) == Some(c.d) && c.d.op != Cas
    requires Installed(small, c.s0.pc, c.base, IslandFor(w, c.s0.pc, c.base))
    requires InBranchRange(c.base - c.s0.pc) && InBranchRange(BackOffset(c.s0.pc, c.base, IslandLength(w)))
    ensures RmwIsland.Patched(c, small)
  {
    hide Installed, InBranchRange, RmwWords, OpInstrs, DecodeLse;
    RmwLengths(c);
  }

  lemma CasInstalled(c: CasIsland.Ctx, w: bv32, small: Code)
    requires DecodeLse(w) == Some(c.d) && c.d.op == Cas
    requires Installed(small, c.s0.pc, c.base, IslandFor(w, c.s0.pc, c.base))
    requires InBranchRange(c.base - c.s0.pc) && InBranchRange(BackOffset(c.s0.pc, c.base, IslandLength(w)))
    ensures CasIsland.Patched(c, small)
  {
    hide Installed, InBranchRange, CasWords, DecodeLse;
    CasLengths(c);
  }

  lemma BcaxInstalled(c: BcaxIsland.Ctx, w: bv32, small: Code)
    requires DecodeLse(w).None? && DecodeBcax(w) == Some(c.b)
    requires Installed(small, c.s0.pc, c.base, IslandFor(w, c.s0.pc, c.base))
    requires InBranchRange(c.base - c.s0.pc) && InBranchRange(BackOffset(c.s0.pc, c.base, IslandLength(w)))
    ensures BcaxIsland.Patched(c, small)
  {
    hide Installed, InBranchRange, DecodeLse, DecodeBcax, VecTemp;
  }

  lemma BcaxReads(w: bv32, s0: State)
    requires Decode(w).Bcax? && Fits(w, s0)
    ensures DecodeLse(w).None? && DecodeBcax(w).Some?
    ensures BcaxIsland.OperandsFit(DecodeBcax(w).value, s0)
    ensures Exec(Decode(w), s0) == BcaxExec(BcaxInstr(DecodeBcax(w).value), s0)
  {
    hide Decode, DecodeLse, DecodeBcax, BcaxIsland.OperandsFit, BcaxExec;
    DecodeBcaxAgrees(w);
    NotBoth(w);
  }

  /** The same for a moved BCAX word: its runs end as the instruction does and touch no shared memory. */
  lemma MovedBcaxCorrect(code0: seq<bv32>, code: seq<bv32>, pool: seq<bv32>, a: Addresses, i: nat, start: nat,
                         tr: seq<State>)
    requires Separate(code, pool, a) && MovedTo(code0, code, pool, a, i, start)
    requires Decode(code0[i]).Bcax? && UntilAfter(tr, a.code + i) && Fits(code0[i], tr[0])
    requires Run(Image(code, pool, a), tr[0].sp, tr)
    ensures SameCore(tr[|tr| - 1], Exec(Decode(code0[i]), tr[0]))
    ensures StoresOnlyAt(Image(code, pool, a), tr[0].sp, tr, -1)
  {
    hide EncB, IslandLength, Decode, Image, Installed, InBranchRange, Run, Separate, FateOk, DecodeLse, DecodeBcax,
      SmallAgrees, SiteImage, SameCore, StoresOnlyAt, SwpLookalike, Fits, Exec, BcaxExec, IslandFor, BcaxInstr,
      BcaxIsland.OperandsFit, BcaxIsland.Patched;
    var w, base := code0[i], a.pool + start;
    BcaxReads(w, tr[0]);
    SiteInstalled(code0, code, pool, a, i, start);
    SiteAgrees(code0, code, pool, a, i, start);
    var full, small := Image(code, pool, a), SiteImage(code, pool, a, i, start, IslandLength(w));
    hide MovedTo;
    var c := BcaxIsland.Ctx(DecodeBcax(w).value, tr[0], base);
    BcaxInstalled(c, w, small);
    BcaxRuns(c, full, small, tr);
  }

  /** In the whole image a run from the moved word stays in its island and ends as the instruction. */
  lemma BcaxRuns(c: BcaxIsland.Ctx, full: Code, small: Code, tr: seq<State>)
    requires BcaxIsland.OperandsFit(c.b, c.s0) && BcaxIsland.Patched(c, small) && SmallAgrees(full, small)
    requires Run(full, c.s0.sp, tr) && tr[0] == c.s0 && UntilAfter(tr, c.s0.pc)
    ensures SameCore(tr[|tr| - 1], BcaxExec(BcaxInstr(c.b), c.s0))
    ensures StoresOnlyAt(full, c.s0.sp, tr, -1)
  {
    hide BcaxIsland.OperandsFit, BcaxIsland.Patched, SmallAgrees, SameCore, StoresOnlyAt;
    BcaxStays(c, full, small, tr, |tr| - 1);
    RunInSite(full, small, c.s0.sp, tr);
    BcaxIsland.BcaxExact(c, small, tr);
  }

  lemma NotBoth(w: bv32)
    requires Decode(w).Bcax?
    ensures DecodeLse(w).None?
  {
    hide Decode, SwpLookalike, DecodeLse;
    DecodeLseAgrees(w);
    if SwpLookalike(w) {
      LookalikeDecode(w);
    }
  }

  lemma SiteAgrees(code0: seq<bv32>, code: seq<bv32>, pool: seq<bv32>, a: Addresses, i: nat, start: nat)
    requires Separate(code, pool, a) && MovedTo(code0, code, pool, a, i, start)
    ensures start + IslandLength(code0[i]) <= |pool|
    ensures SmallAgrees(Image(code, pool, a), SiteImage(code, pool, a, i, start, IslandLength(code0[i])))
  {
    hide Recognised, EncB, IslandLength, IslandFor, InBranchRange;
  }

  lemma RmwLengths(c: RmwIsland.Ctx)
    requires c.d.op != Cas
    ensures RmwIsland.Length(c) == |LseWords(c.d, 0)|
  {
    hide RmwWords, OpInstrs, OpWords;
    RmwLength(c.d, 0);
    OpDecodes(c.d);
  }

  lemma CasLengths(c: CasIsland.Ctx)
    requires c.d.op == Cas
    ensures CasIsland.Length(c) == |LseWords(c.d, 0)|
  {
    hide CasWords;
    CasLength(c.d, 0);
  }

  // ----- the whole pipeline -----

  /** What the LDAPR downgrade and the patching pass together leave of a word. */
  ghost predicate Outcome(w: bv32, w': bv32, site: int, poolAddr: int, f: Fate) {
    if IsLdapr(w) then
      f.Kept? && Decode(w).LoadAcquire? && Decode(w') == Decode(w).(rcpc := false)
    else match f
      case Kept => w' == w && !Decode(w).Lse? && !Decode(w).Bcax?
      case OutOfRange(_) => w' == w
      case Moved(start) => Decode(w') == Branch(poolAddr + start - site) && (Decode(w).Lse? || Decode(w).Bcax? || SwpLookalike(w))
  }

  /** Order matters and suffices: with the downgrade first, every word ends as it was, as the LDAR with
      the same size and registers, or as a branch to an island of its own; no LDAPR is taken for a SWP. */
  lemma PipelineOutcome(code00: seq<bv32>, code0: seq<bv32>, code: seq<bv32>, pool0: seq<bv32>, pool: seq<bv32>,
                        a: Addresses, bottom: nat, top: nat, fates: seq<Fate>, i: nat)
    requires |code00| == |code0| && forall j :: 0 <= j < |code0| ==> code0[j] == Downgrade(code00[j])
    requires Passed(code0, code, pool0, pool, a, bottom, top, fates) && i < |fates|
    ensures Outcome(code00[i], code[i], a.code + i, a.pool, fates[i])
  {
    hide Decode, EncB, Downgrade, IslandFor, IslandLength, SwpLookalike, DecodeLse, DecodeBcax, IsLdapr, Recognised;
    var w := code00[i];
    DowngradeMeaning(w);
    RecognisedExactly(code0[i]);
    UnchangedDowngrade(w);
    if fates[i].Moved? {
      DecodeB(a.pool + fates[i].start - (a.code + i));
    }
    if IsLdapr(w) {
      LdarQuiet(Downgrade(w));
    }
  }

  lemma UnchangedDowngrade(w: bv32)
    ensures !IsLdapr(w) ==> Downgrade(w) == w
  {
  }

  lemma LdarQuiet(w: bv32)
    requires Decode(w).LoadAcquire? && !Decode(w).rcpc
    ensures !Recognised(w)
  {
    hide Decode, Recognised, SwpLookalike;
    RecognisedExactly(w);
  }

  /** A word that decodes to anything an island contains is not taken again. */
  lemma PlainQuiet(w: bv32)
    requires !Decode(w).Lse? && !Decode(w).Bcax? && !Decode(w).Unmodelled? && !Decode(w).LoadAcquire?
    ensures !Recognised(w)
  {
    hide Decode, Recognised, SwpLookalike;
    RecognisedExactly(w);
  }

  ghost predicate Plain(p: seq<Instr>) {
    forall k :: 0 <= k < |p| ==> !p[k].Lse? && !p[k].Bcax? && !p[k].Unmodelled? && !p[k].LoadAcquire?
  }

  lemma ProgramPlain(d: Atomic, b: BcaxRegs, back: int)
    ensures Plain(LseProgram(d, back)) && Plain(BcaxProgram(b, back))
  {
    hide ScratchesOf, VecTemp;
    OpPlain(d);
    hide OpInstrs;
  }

  lemma OpPlain(d: Atomic)
    ensures Plain(OpInstrs(d))
  {
    hide ScratchesOf;
  }

  /** No word of an island is taken by a later pass. */
  lemma IslandQuiet(w: bv32, site: int, base: int, k: nat)
    requires Recognised(w) && k < |IslandFor(w, site, base)|
    requires InBranchRange(BackOffset(site, base, IslandLength(w)))
    ensures !Recognised(IslandFor(w, site, base)[k])
  {
    hide Recognised, Decode, LseWords, BcaxWords, LseProgram, BcaxProgram, DecodeLse, DecodeBcax, InBranchRange, IslandLength;
    RecognisedWhat(w);
    var back := BackOffset(site, base, IslandLength(w));
    match DecodeLse(w) {
      case Some(d) =>
        LseDecodes(d, back);
        ProgramPlain(d, BcaxRegs(0, 0, 0, 0), back);
      case None =>
        var b := DecodeBcax(w).value;
        BcaxDecodes(b, back);
        ProgramPlain(Atomic(Swp, Byte, false, false, 0, 0, 0), b, back);
    }
    PlainQuiet(IslandFor(w, site, base)[k]);
  }

  lemma RecognisedWhat(w: bv32)
    requires Recognised(w)
    ensures DecodeLse(w).Some? || DecodeBcax(w).Some?
  {
    hide DecodeLse, DecodeBcax;
  }

  /** A second pass over fully patched code finds nothing: no word is left to take. */
  lemma FullyPatchedQuiet(code0: seq<bv32>, code: seq<bv32>, pool0: seq<bv32>, pool: seq<bv32>, a: Addresses,
                          bottom: nat, top: nat, fates: seq<Fate>, i: nat)
    requires Passed(code0, code, pool0, pool, a, bottom, top, fates) && |fates| == |code| && i < |code|
    requires forall j :: 0 <= j < |fates| ==> !fates[j].OutOfRange?
    ensures !Recognised(code[i])
  {
    hide Decode, EncB, IslandFor, IslandLength, Recognised;
    assert FateOk(code0[i], code[i], pool, a.code + i, a.pool, fates[i]);
    if fates[i].Moved? {
      DecodeB(a.pool + fates[i].start - (a.code + i));
      PlainQuiet(code[i]);
    }
  }
}
