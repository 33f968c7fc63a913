/** Address hooks (trampoline_patch_addresses of src/trampoline.c): every hook is validated against the
    original memory, then one branch word per hook is written, each to an island that holds the hook's
    target; a failed write rolls everything back. */
module Hooks {
  import opened Basics
  import opened Leb128
  import opened EhFrame
  import opened ByteMemory
  import opened HookCpu

  /** `target` is what loading the library and looking the symbol up yield. */
  datatype Hook = Hook(vmaddr: nat, expected: seq<Byte>, target: Option<nat>)

  /** A section of the executable __TEXT segment. */
  datatype Section = Section(addr: nat, size: nat, instructions: bool)

  const IslandSize: nat := 16
  const LdrX16: nat := 0x5800_0050
  const BrX16: nat := 0xd61f_0200

  function IslandBytes(target: nat): (s: seq<Byte>)
    ensures |s| == IslandSize
  {
    Le(LdrX16, 4) + Le(BrX16, 4) + Le(target, 8)
  }

  // ----- branches -----

  predicate InReach(offset: int) {
    -0x800_0000 <= offset < 0x800_0000 && offset % 4 == 0
  }

  /** The B instruction over this distance. */
  function BranchWord(offset: int): nat {
    0x1400_0000 + offset / 4 % 0x400_0000
  }

  predicate IsBranch(w: nat) {
    w / 0x400_0000 == 5
  }

  /** Where a B instruction at pc leads. */
  function BranchTarget(w: nat, pc: nat): int {
    var imm := w % 0x400_0000;
    pc + 4 * (if imm < 0x200_0000 then imm else imm - 0x400_0000)
  }

  lemma BranchReaches(offset: int, pc: nat)
    requires InReach(offset)
    ensures BranchWord(offset) < 0x1_0000_0000 && IsBranch(BranchWord(offset))
    ensures BranchTarget(BranchWord(offset), pc) == pc + offset
  {
    var q := offset / 4;
    assert -0x200_0000 <= q < 0x200_0000 && offset == 4 * q;
    LowBits(q);
  }

  /** The word is a B instruction over this distance. */
  predicate Spans(w: nat, offset: int) {
    w / 0x400_0000 == 5 && offset == 4 * Signed(w % 0x400_0000, 0x400_0000)
  }

  /** The distances accepted are exactly those that some B instruction spans. */
  lemma ReachExact(offset: int)
    ensures InReach(offset) <==> exists w :: Spans(w, offset)
  {
    if InReach(offset) {
      BranchReaches(offset, 0);
      assert Spans(BranchWord(offset), offset);
    }
  }

  lemma LowBits(q: int)
    requires -0x200_0000 <= q < 0x200_0000
    ensures q % 0x400_0000 == if q >= 0 then q else q + 0x400_0000
  {
  }

  /** A word that branches to an island's bytes leads to the target in it. */
  lemma BytesLead(mem: Memory, pc: nat, island: nat, target: nat)
    requires IsBranch(FromLe(Read(mem, pc, 4))) && BranchTarget(FromLe(Read(mem, pc, 4)), pc) == island
    requires Read(mem, island, IslandSize) == IslandBytes(target) && target < TWO64
    ensures LeadsTo(mem, pc, target)
  {
    hide Le, FromLe, LeadsTo;
    var s := IslandBytes(target);
    Split(mem, island, s, 0, 4);
    Split(mem, island, s, 4, 4);
    Split(mem, island, s, 8, 8);
    assert s[0..4] == Le(LdrX16, 4) && s[4..8] == Le(BrX16, 4) && s[8..16] == Le(target, 8);
    LeWords(LdrX16);
    LeWords(BrX16);
    LeWords(target);
    IslandLeads(mem, pc, FromLe(Read(mem, pc, 4)), island, target);
  }

  lemma Split(mem: Memory, a: nat, s: seq<Byte>, i: nat, n: nat)
    requires Read(mem, a, |s|) == s && i + n <= |s|
    ensures Read(mem, a + i, n) == s[i..i + n]
  {
    var r := Read(mem, a + i, n);
    forall k | 0 <= k < n ensures r[k] == s[i + k] {
      assert Read(mem, a, |s|)[i + k] == mem(a + (i + k));
    }
  }

  lemma TrampolineLeads(mem: Memory, runtime: nat, addr: nat, target: nat)
    requires InReach(addr - runtime) && target < TWO64 && (runtime + 4 <= addr || addr + 16 <= runtime)
    ensures LeadsTo(Put(Put(mem, Write(addr, IslandBytes(target))), Write(runtime, Le(BranchWord(addr - runtime), 4))), runtime, target)
  {
    hide InReach, BranchWord, BranchTarget, IsBranch, IslandBytes, Le, FromLe, LeadsTo;
    var a, b := Write(addr, IslandBytes(target)), Write(runtime, Le(BranchWord(addr - runtime), 4));
    var out := Put(Put(mem, a), b);
    assert Read(out, addr, IslandSize) == IslandBytes(target);
    assert Read(out, runtime, 4) == b.bytes;
    BranchReaches(addr - runtime, runtime);
    LeWords(BranchWord(addr - runtime));
    BytesLead(out, runtime, addr, target);
  }

  // ----- which function an address starts -----

  /** End of the first instruction section around the address. */
  function SectionEnd(v: nat, sections: seq<Section>): Option<nat> {
    if sections == [] then None else
      var s := sections[0];
      if s.instructions && s.addr <= v < s.addr + s.size < TWO64 then Some(s.addr + s.size)
      else SectionEnd(v, sections[1..])
  }

  /** A function ends at the next start or with its section; an address that is no start has no end. */
  function FunctionEnd(v: nat, starts: seq<nat>, sections: seq<Section>): Option<nat> {
    var end := SectionEnd(v, sections);
    if end.None? then None else EndAfter(v, starts, end.value)
  }

  function EndAfter(v: nat, starts: seq<nat>, end: nat): Option<nat> {
    if starts == [] then None
    else if starts[0] != v then EndAfter(v, starts[1..], end)
    else if |starts| > 1 && v < starts[1] < end then Some(starts[1]) else Some(end)
  }

  // ----- validation -----

  /** What the checks of one hook ask, of the memory before anything is written. */
  predicate Valid(mem: Memory, slide: nat, starts: seq<nat>, sections: seq<Section>, h: Hook) {
    var end := FunctionEnd(h.vmaddr, starts, sections);
    && end.Some? && h.vmaddr + |h.expected| <= end.value
    && h.vmaddr + slide < TWO64
    && Read(mem, h.vmaddr + slide, |h.expected|) == h.expected
    && h.target.Some? && h.target.value != 0
  }

  predicate AllValid(mem: Memory, slide: nat, starts: seq<nat>, sections: seq<Section>, hooks: seq<Hook>) {
    && (forall i :: 0 <= i < |hooks| ==> Valid(mem, slide, starts, sections, hooks[i]))
    && (forall i, j :: 0 <= j < i < |hooks| ==> hooks[j].vmaddr != hooks[i].vmaddr)
  }

  /** Address of the k-th island after `used`. */
  function IslandAt(pool: nat, used: nat, k: nat): nat {
    pool + used + k * IslandSize
  }

  predicate Reachable(pool: nat, used: nat, k: nat, runtime: nat) {
    InReach(IslandAt(pool, used, k) - runtime)
  }

  /** The check before the first write: room for all islands, and every branch in range. */
  predicate Prechecked(pool: nat, size: nat, used: nat, slide: nat, hooks: seq<Hook>) {
    && pool != 0 && used <= size && |hooks| <= (size - used) / IslandSize
    && forall k :: 0 <= k < |hooks| ==> Reachable(pool, used, k, hooks[k].vmaddr + slide)
  }

  // ----- the writes -----

  function Branch(pool: nat, used: nat, slide: nat, hooks: seq<Hook>, k: nat): (w: Write)
    requires k < |hooks|
    ensures w.at == hooks[k].vmaddr + slide && |w.bytes| == 4
  {
    var runtime := hooks[k].vmaddr + slide;
    Write(runtime, Le(BranchWord(IslandAt(pool, used, k) - runtime), 4))
  }

  function Island(pool: nat, used: nat, hooks: seq<Hook>, k: nat): (w: Write)
    requires k < |hooks|
    ensures w.at == IslandAt(pool, used, k) && |w.bytes| == IslandSize
  {
    Write(IslandAt(pool, used, k), IslandBytes(if hooks[k].target.Some? then hooks[k].target.value else 0))
  }

  /** What the first n hooks write, in order. */
  function Writes(pool: nat, used: nat, slide: nat, hooks: seq<Hook>, n: nat): (ws: seq<Write>)
    requires n <= |hooks|
    ensures |ws| == 2 * n
    ensures forall k :: 0 <= k < n ==> ws[2 * k] == Island(pool, used, hooks, k) && ws[2 * k + 1] == Branch(pool, used, slide, hooks, k)
  {
    if n == 0 then [] else
      Writes(pool, used, slide, hooks, n - 1) + [Island(pool, used, hooks, n - 1), Branch(pool, used, slide, hooks, n - 1)]
  }

  /** Whether the k-th trampoline can be written when the ones before it have been. */
  predicate CanWrite(pool: nat, size: nat, used: nat, slide: nat, hooks: seq<Hook>, k: nat)
    requires k < |hooks|
  {
    pool != 0 && used + (k + 1) * IslandSize <= size && Reachable(pool, used, k, hooks[k].vmaddr + slide)
  }

  /** Once the range check has passed no trampoline fails. */
  lemma PrecheckSuffices(pool: nat, size: nat, used: nat, slide: nat, hooks: seq<Hook>, k: nat)
    requires Prechecked(pool, size, used, slide, hooks) && k < |hooks|
    ensures CanWrite(pool, size, used, slide, hooks, k)
  {
    hide Reachable;
    assert |hooks| * IslandSize <= size - used;
    assert (k + 1) * IslandSize <= |hooks| * IslandSize;
  }

  // ----- the transaction -----

  class Patcher {
    const pool: nat
    const size: nat
    var used: nat
    var mem: Memory

    constructor (pool: nat, size: nat, used: nat, mem: Memory)
      ensures this.pool == pool && this.size == size && this.used == used && this.mem == mem
    {
      this.pool, this.size, this.used, this.mem := pool, size, used, mem;
    }

    /** 0 when the pool is missing or exhausted. */
    method AllocIsland(target: nat) returns (addr: nat)
      modifies this`used, this`mem
      ensures if pool == 0 || old(used) + IslandSize > size then addr == 0 && used == old(used) && mem == old(mem)
              else addr == pool + old(used) && used == old(used) + IslandSize && mem == Put(old(mem), Write(addr, IslandBytes(target)))
    {
      if pool == 0 || used + IslandSize > size {
        return 0;
      }
      addr := pool + used;
      mem := Put(mem, Write(addr, IslandBytes(target)));
      used := used + IslandSize;
    }

    method WriteTrampoline(runtime: nat, target: nat) returns (ok: bool)
      modifies this`used, this`mem
      ensures ok == (pool != 0 && old(used) + IslandSize <= size && InReach(pool + old(used) - runtime))
      ensures ok ==>
        && used == old(used) + IslandSize
        && mem == Put(Put(old(mem), Write(pool + old(used), IslandBytes(target))), Write(runtime, Le(BranchWord(pool + old(used) - runtime), 4)))
      ensures ok && target < TWO64 && (runtime + 4 <= pool + old(used) || pool + old(used) + 16 <= runtime) ==>
        LeadsTo(mem, runtime, target)
      ensures !ok ==> forall x: nat :: mem(x) == old(mem)(x) || pool + old(used) <= x < pool + size
    {
      hide InReach, BranchWord, IslandBytes, LeadsTo;
      var addr := AllocIsland(target);
      if addr == 0 {
        return false;
      }
      var offset := addr - runtime;
      if !InReach(offset) {
        return false;
      }
      if target < TWO64 && (runtime + 4 <= addr || addr + 16 <= runtime) {
        TrampolineLeads(old(mem), runtime, addr, target);
      }
      mem := Put(mem, Write(runtime, Le(BranchWord(offset), 4)));
      ok := true;
    }

    /** Writes until one fails; the count says how far it got. */
    method WriteAll(slide: nat, hooks: seq<Hook>) returns (patched: nat)
      requires forall k :: 0 <= k < |hooks| ==> hooks[k].target.Some?
      modifies this`used, this`mem
      ensures patched <= |hooks| && (patched == 0 || old(used) + patched * IslandSize <= size)
      ensures forall k :: 0 <= k < patched ==> CanWrite(pool, size, old(used), slide, hooks, k)
      ensures patched < |hooks| ==> !CanWrite(pool, size, old(used), slide, hooks, patched)
      ensures patched == |hooks| ==>
        && used == old(used) + patched * IslandSize
        && mem == PutAll(old(mem), Writes(pool, old(used), slide, hooks, patched))
      ensures forall x: nat :: mem(x) == PutAll(old(mem), Writes(pool, old(used), slide, hooks, patched))(x) || pool + old(used) <= x < pool + size
    {
      hide InReach, BranchWord, PutAll, Writes, IslandBytes;
      patched := 0;
      NoWrites(mem, pool, used, slide, hooks);
      while patched < |hooks|
        invariant patched <= |hooks| && used == old(used) + patched * IslandSize && (patched == 0 || used <= size)
        invariant forall k :: 0 <= k < patched ==> CanWrite(pool, size, old(used), slide, hooks, k)
        invariant mem == PutAll(old(mem), Writes(pool, old(used), slide, hooks, patched))
      {
        var ok := WriteTrampoline(hooks[patched].vmaddr + slide, hooks[patched].target.value);
        if !ok {
          return;
        }
        WritesStep(old(mem), pool, old(used), slide, hooks, patched);
        patched := patched + 1;
      }
    }

    /** Puts the original words back. */
    method Rollback(slide: nat, hooks: seq<Hook>, originals: seq<seq<Byte>>, patched: nat)
      requires patched <= |hooks| == |originals| && forall k :: 0 <= k < |hooks| ==> |originals[k]| == 4
      modifies this`mem
      ensures mem == PutAll(old(mem), Restores(slide, hooks, originals, patched))
    {
      hide PutAll;
      RestoreNone(mem, slide, hooks, originals);
      for i := 0 to patched
        invariant mem == PutAll(old(mem), Restores(slide, hooks, originals, i))
      {
        RestoreStep(old(mem), slide, hooks, originals, i);
        mem := Put(mem, Write(hooks[i].vmaddr + slide, originals[i]));
      }
    }

    /** The first pass: all checks, and the words to restore. */
    method Validate(slide: nat, starts: seq<nat>, sections: seq<Section>, hooks: seq<Hook>)
        returns (ok: bool, originals: seq<seq<Byte>>)
      ensures ok == AllValid(mem, slide, starts, sections, hooks)
      ensures ok ==> |originals| == |hooks| && forall k :: 0 <= k < |hooks| ==> originals[k] == Read(mem, hooks[k].vmaddr + slide, 4)
    {
      hide Valid;
      originals := [];
      for i := 0 to |hooks|
        invariant AllValid(mem, slide, starts, sections, hooks[..i]) && |originals| == i
        invariant forall k :: 0 <= k < i ==> originals[k] == Read(mem, hooks[k].vmaddr + slide, 4)
      {
        var unseen := NotSeen(hooks, i);
        if !unseen {
          return false, [];
        }
        var good := ValidateOne(slide, starts, sections, hooks[i]);
        if !good {
          return false, [];
        }
        originals := originals + [Read(mem, hooks[i].vmaddr + slide, 4)];
        assert hooks[..i + 1] == hooks[..i] + [hooks[i]];
      }
      assert hooks[..|hooks|] == hooks;
      ok := true;
    }

    method NotSeen(hooks: seq<Hook>, i: nat) returns (ok: bool)
      requires i < |hooks|
      ensures ok == forall j :: 0 <= j < i ==> hooks[j].vmaddr != hooks[i].vmaddr
    {
      for j := 0 to i
        invariant forall k :: 0 <= k < j ==> hooks[k].vmaddr != hooks[i].vmaddr
      {
        if hooks[j].vmaddr == hooks[i].vmaddr {
          return false;
        }
      }
      ok := true;
    }

    method ValidateOne(slide: nat, starts: seq<nat>, sections: seq<Section>, h: Hook) returns (ok: bool)
      ensures ok == Valid(mem, slide, starts, sections, h)
    {
      var end := FunctionEnd(h.vmaddr, starts, sections);
      if end.None? {
        return false;
      }
      if |h.expected| > end.value - h.vmaddr {
        return false;
      }
      if h.vmaddr > TWO64 - 1 - slide {
        return false;
      }
      if Read(mem, h.vmaddr + slide, |h.expected|) != h.expected {
        return false;
      }
      ok := h.target.Some? && h.target.value != 0;
    }

    method InRange(slide: nat, hooks: seq<Hook>) returns (ok: bool)
      ensures ok == Prechecked(pool, size, used, slide, hooks)
    {
      hide InReach;
      if pool == 0 || used > size || |hooks| > (size - used) / IslandSize {
        return false;
      }
      for k := 0 to |hooks|
        invariant forall j :: 0 <= j < k ==> Reachable(pool, used, j, hooks[j].vmaddr + slide)
      {
        if !InReach(pool + used + k * IslandSize - (hooks[k].vmaddr + slide)) {
          assert !Reachable(pool, used, k, hooks[k].vmaddr + slide);
          return false;
        }
      }
      ok := true;
    }

    /** The writes, all of them or, after a failure, none: then everything outside the unused part of the
        pool is as before, and so is the cursor. */
    method Commit(slide: nat, hooks: seq<Hook>, originals: seq<seq<Byte>>) returns (ok: bool)
      requires |originals| == |hooks| && forall k :: 0 <= k < |hooks| ==> hooks[k].target.Some?
      requires forall k :: 0 <= k < |hooks| ==> originals[k] == Read(mem, hooks[k].vmaddr + slide, 4)
      modifies this`used, this`mem
      ensures ok == forall k :: 0 <= k < |hooks| ==> CanWrite(pool, size, old(used), slide, hooks, k)
      ensures !ok ==> used == old(used) && forall x: nat :: mem(x) == old(mem)(x) || pool + used <= x < pool + size
      ensures ok ==>
        && used == old(used) + |hooks| * IslandSize
        && mem == PutAll(old(mem), Writes(pool, old(used), slide, hooks, |hooks|))
    {
      hide CanWrite, PutAll, Writes;
      var start := used;
      var patched := WriteAll(slide, hooks);
      if patched != |hooks| {
        ghost var broken := mem;
        Rollback(slide, hooks, originals, patched);
        used := start;
        Restored(old(mem), broken, pool, size, start, slide, hooks, originals, patched);
        return false;
      }
      ok := true;
    }

    /** The result is -1 exactly when a check fails or the text cannot be made writable; then everything
        outside the unused part of the pool is as before, and so is the cursor. Otherwise exactly the
        planned writes have been done. */
    method PatchAddresses(slide: nat, starts: seq<nat>, sections: seq<Section>, hooks: seq<Hook>, writable: bool)
        returns (r: int)
      modifies this`used, this`mem
      ensures r == if AllValid(old(mem), slide, starts, sections, hooks) && Prechecked(pool, size, old(used), slide, hooks) && writable
                   then |hooks| else -1
      ensures r == -1 ==> used == old(used) && mem == old(mem)
      ensures r != -1 ==>
        && used == old(used) + |hooks| * IslandSize
        && mem == PutAll(old(mem), Writes(pool, old(used), slide, hooks, |hooks|))
    {
      hide AllValid, Prechecked, CanWrite, PutAll, Writes;
      var ok, originals := Validate(slide, starts, sections, hooks);
      if !ok {
        return -1;
      }
      ok := InRange(slide, hooks);
      if !ok || !writable {
        return -1;
      }
      ValidTargets(mem, slide, starts, sections, hooks);
      forall k | 0 <= k < |hooks| ensures CanWrite(pool, size, used, slide, hooks, k) {
        PrecheckSuffices(pool, size, used, slide, hooks, k);
      }
      ok := Commit(slide, hooks, originals);
      r := if ok then |hooks| else -1;
    }
  }

  lemma ValidTargets(mem: Memory, slide: nat, starts: seq<nat>, sections: seq<Section>, hooks: seq<Hook>)
    requires AllValid(mem, slide, starts, sections, hooks)
    ensures forall k :: 0 <= k < |hooks| ==> hooks[k].target.Some?
  {
  }

  lemma NoWrites(mem: Memory, pool: nat, used: nat, slide: nat, hooks: seq<Hook>)
    ensures PutAll(mem, Writes(pool, used, slide, hooks, 0)) == mem
  {
  }

  lemma WritesStep(mem: Memory, pool: nat, used: nat, slide: nat, hooks: seq<Hook>, n: nat)
    requires n < |hooks|
    ensures PutAll(mem, Writes(pool, used, slide, hooks, n + 1)) ==
            Put(Put(PutAll(mem, Writes(pool, used, slide, hooks, n)), Island(pool, used, hooks, n)), Branch(pool, used, slide, hooks, n))
  {
    hide Put, Island, Branch;
    var a, b := Island(pool, used, hooks, n), Branch(pool, used, slide, hooks, n);
    var m := PutAll(mem, Writes(pool, used, slide, hooks, n));
    PutAllAdd(mem, Writes(pool, used, slide, hooks, n), [a, b]);
    assert Writes(pool, used, slide, hooks, n + 1) == Writes(pool, used, slide, hooks, n) + [a, b];
    assert [a, b][1..] == [b] && [b][1..] == [];
    assert PutAll(Put(m, a), [b]) == PutAll(Put(Put(m, a), b), []);
  }

  function Restores(slide: nat, hooks: seq<Hook>, originals: seq<seq<Byte>>, n: nat): (ws: seq<Write>)
    requires n <= |hooks| == |originals|
    ensures |ws| == n && forall k :: 0 <= k < n ==> ws[k] == Write(hooks[k].vmaddr + slide, originals[k])
  {
    seq(n, k requires 0 <= k < n => Write(hooks[k].vmaddr + slide, originals[k]))
  }

  lemma RestoreNone(mem: Memory, slide: nat, hooks: seq<Hook>, originals: seq<seq<Byte>>)
    requires |hooks| == |originals|
    ensures PutAll(mem, Restores(slide, hooks, originals, 0)) == mem
  {
  }

  lemma RestoreStep(mem: Memory, slide: nat, hooks: seq<Hook>, originals: seq<seq<Byte>>, i: nat)
    requires i < |hooks| == |originals|
    ensures PutAll(mem, Restores(slide, hooks, originals, i + 1)) ==
            Put(PutAll(mem, Restores(slide, hooks, originals, i)), Write(hooks[i].vmaddr + slide, originals[i]))
  {
    hide Put;
    var w := Write(hooks[i].vmaddr + slide, originals[i]);
    assert Restores(slide, hooks, originals, i + 1) == Restores(slide, hooks, originals, i) + [w];
    PutAllAdd(mem, Restores(slide, hooks, originals, i), [w]);
    assert [w][1..] == [];
  }

  /** Writing back bytes that were read from a memory makes it agree with that memory there. */
  lemma {:induction false} Rewritten(mem: Memory, from: Memory, ws: seq<Write>, x: nat)
    requires forall k :: 0 <= k < |ws| ==> ws[k].bytes == Read(from, ws[k].at, |ws[k].bytes|)
    requires (exists k :: 0 <= k < |ws| && In(x, ws[k])) || mem(x) == from(x)
    ensures PutAll(mem, ws)(x) == from(x)
    decreases |ws|
  {
    if ws != [] {
      if In(x, ws[0]) {
        assert Put(mem, ws[0])(x) == Read(from, ws[0].at, |ws[0].bytes|)[x - ws[0].at];
      } else if exists k :: 0 <= k < |ws| && In(x, ws[k]) {
        var k :| 0 <= k < |ws| && In(x, ws[k]);
        assert ws[1..][k - 1] == ws[k];
      }
      assert forall k :: 0 <= k < |ws[1..]| ==> ws[1..][k] == ws[k + 1];
      Rewritten(Put(mem, ws[0]), from, ws[1..], x);
    }
  }

  lemma Restored(before: Memory, broken: Memory, pool: nat, size: nat, used: nat, slide: nat, hooks: seq<Hook>,
                 originals: seq<seq<Byte>>, n: nat)
    requires n <= |hooks| == |originals| && (n == 0 || used + n * IslandSize <= size)
    requires forall k :: 0 <= k < |hooks| ==> originals[k] == Read(before, hooks[k].vmaddr + slide, 4)
    requires forall x: nat :: broken(x) == PutAll(before, Writes(pool, used, slide, hooks, n))(x) || pool + used <= x < pool + size
    ensures forall x: nat :: PutAll(broken, Restores(slide, hooks, originals, n))(x) == before(x) || pool + used <= x < pool + size
  {
    hide PutAll;
    var ws, rs := Writes(pool, used, slide, hooks, n), Restores(slide, hooks, originals, n);
    forall x: nat | !(pool + used <= x < pool + size) ensures PutAll(broken, rs)(x) == before(x) {
      if forall k :: 0 <= k < n ==> !In(x, rs[k]) {
        forall k | 0 <= k < |ws| ensures !In(x, ws[k]) {
          NotInWrite(pool, size, used, slide, hooks, originals, n, k, x);
        }
        PutAllOutside(before, ws, x);
      }
      Rewritten(broken, before, rs, x);
    }
  }

  lemma NotInWrite(pool: nat, size: nat, used: nat, slide: nat, hooks: seq<Hook>, originals: seq<seq<Byte>>, n: nat, k: nat, x: nat)
    requires n <= |hooks| == |originals| && k < 2 * n && used + n * IslandSize <= size
    requires !(pool + used <= x < pool + size)
    requires forall j :: 0 <= j < n ==> |originals[j]| == 4 && !In(x, Restores(slide, hooks, originals, n)[j])
    ensures !In(x, Writes(pool, used, slide, hooks, n)[k])
  {
    var j := k / 2;
    assert k == 2 * j || k == 2 * j + 1;
    if k == 2 * j {
      assert (j + 1) * IslandSize <= n * IslandSize;
    } else {
      assert !In(x, Restores(slide, hooks, originals, n)[j]);
    }
  }

  // ----- what a successful run leaves -----

  /** The hooked words and the unused part of the pool do not overlap. */
  ghost predicate PoolApart(pool: nat, size: nat, used: nat, slide: nat, hooks: seq<Hook>) {
    forall k :: 0 <= k < |hooks| ==>
      hooks[k].vmaddr + slide + 4 <= pool + used || pool + size <= hooks[k].vmaddr + slide
  }

  lemma BranchesApart(pool: nat, size: nat, used: nat, slide: nat, hooks: seq<Hook>, i: nat, j: nat)
    requires Prechecked(pool, size, used, slide, hooks) && i < |hooks| && j < |hooks|
    requires hooks[i].vmaddr != hooks[j].vmaddr
    ensures hooks[i].vmaddr + 4 <= hooks[j].vmaddr || hooks[j].vmaddr + 4 <= hooks[i].vmaddr
  {
    assert Reachable(pool, used, i, hooks[i].vmaddr + slide) && Reachable(pool, used, j, hooks[j].vmaddr + slide);
    var d := hooks[i].vmaddr - hooks[j].vmaddr;
    assert (IslandAt(pool, used, j) - (hooks[j].vmaddr + slide)) - (IslandAt(pool, used, i) - (hooks[i].vmaddr + slide)) ==
           d + IslandSize * (j - i);
    MultipleOf4(d, j - i);
  }

  lemma MultipleOf4(d: int, n: int)
    requires (d + 16 * n) % 4 == 0
    ensures d % 4 == 0
  {
  }

  lemma WritesDisjoint(pool: nat, size: nat, used: nat, slide: nat, hooks: seq<Hook>)
    requires Prechecked(pool, size, used, slide, hooks) && PoolApart(pool, size, used, slide, hooks)
    requires forall i, j :: 0 <= j < i < |hooks| ==> hooks[j].vmaddr != hooks[i].vmaddr
    ensures Disjoint(Writes(pool, used, slide, hooks, |hooks|))
  {
    hide Prechecked, Island, Branch, Clear, PoolApart;
    var ws := Writes(pool, used, slide, hooks, |hooks|);
    forall a, b | 0 <= a < b < |ws| ensures Clear(ws[a], ws[b]) {
      var i, j := a / 2, b / 2;
      PairClear(pool, size, used, slide, hooks, i, j);
      PairClear(pool, size, used, slide, hooks, j, i);
      assert a == 2 * i || a == 2 * i + 1;
      assert b == 2 * j || b == 2 * j + 1;
      assert i < j ==> hooks[i].vmaddr != hooks[j].vmaddr;
    }
  }

  lemma PairClear(pool: nat, size: nat, used: nat, slide: nat, hooks: seq<Hook>, i: nat, j: nat)
    requires Prechecked(pool, size, used, slide, hooks) && PoolApart(pool, size, used, slide, hooks)
    requires i < |hooks| && j < |hooks|
    ensures Clear(Island(pool, used, hooks, i), Branch(pool, used, slide, hooks, j))
    ensures Clear(Branch(pool, used, slide, hooks, j), Island(pool, used, hooks, i))
    ensures i < j ==> Clear(Island(pool, used, hooks, i), Island(pool, used, hooks, j))
    ensures hooks[i].vmaddr != hooks[j].vmaddr ==> Clear(Branch(pool, used, slide, hooks, i), Branch(pool, used, slide, hooks, j))
  {
    hide Prechecked, Island, Branch;
    IslandRoom(pool, size, used, slide, hooks, i);
    if i < j {
      assert (i + 1) * IslandSize <= j * IslandSize;
    }
    if hooks[i].vmaddr != hooks[j].vmaddr {
      BranchesApart(pool, size, used, slide, hooks, i, j);
    }
  }

  lemma IslandRoom(pool: nat, size: nat, used: nat, slide: nat, hooks: seq<Hook>, k: nat)
    requires Prechecked(pool, size, used, slide, hooks) && k < |hooks|
    ensures pool + used <= IslandAt(pool, used, k) && IslandAt(pool, used, k) + IslandSize <= pool + size
  {
    assert (k + 1) * IslandSize <= |hooks| * IslandSize;
  }

  /** After a successful run each hooked word is a branch to that hook's own island, the island loads and
      jumps to that hook's own target, and no other byte has changed. */
  lemma Hooked(mem: Memory, pool: nat, size: nat, used: nat, slide: nat, hooks: seq<Hook>)
    requires Prechecked(pool, size, used, slide, hooks) && PoolApart(pool, size, used, slide, hooks)
    requires forall i, j :: 0 <= j < i < |hooks| ==> hooks[j].vmaddr != hooks[i].vmaddr
    requires forall k :: 0 <= k < |hooks| ==> hooks[k].target.Some?
    ensures var out := PutAll(mem, Writes(pool, used, slide, hooks, |hooks|));
      && (forall k :: 0 <= k < |hooks| ==>
            var pc := hooks[k].vmaddr + slide;
            var w := FromLe(Read(out, pc, 4));
            && IsBranch(w) && BranchTarget(w, pc) == IslandAt(pool, used, k)
            && Read(out, IslandAt(pool, used, k), IslandSize) == IslandBytes(hooks[k].target.value))
      && (forall x: nat ::
            (forall k :: 0 <= k < |hooks| ==>
               !In(x, Island(pool, used, hooks, k)) && !In(x, Branch(pool, used, slide, hooks, k))) ==> out(x) == mem(x))
  {
    hide Prechecked, PutAll, IslandBytes, BranchWord, BranchTarget, IsBranch, InReach, Le, FromLe;
    var ws := Writes(pool, used, slide, hooks, |hooks|);
    var out := PutAll(mem, ws);
    WritesDisjoint(pool, size, used, slide, hooks);
    forall k | 0 <= k < |hooks|
      ensures
        var pc := hooks[k].vmaddr + slide;
        var w := FromLe(Read(out, pc, 4));
        && IsBranch(w) && BranchTarget(w, pc) == IslandAt(pool, used, k)
        && Read(out, IslandAt(pool, used, k), IslandSize) == IslandBytes(hooks[k].target.value)
    {
      HookedOne(mem, pool, size, used, slide, hooks, k);
    }
    forall x: nat |
      forall k :: 0 <= k < |hooks| ==> !In(x, Island(pool, used, hooks, k)) && !In(x, Branch(pool, used, slide, hooks, k))
      ensures out(x) == mem(x)
    {
      forall j | 0 <= j < |ws| ensures !In(x, ws[j]) {
        assert j == 2 * (j / 2) || j == 2 * (j / 2) + 1;
        assert !In(x, Island(pool, used, hooks, j / 2));
      }
      PutAllOutside(mem, ws, x);
    }
  }

  lemma HookedOne(mem: Memory, pool: nat, size: nat, used: nat, slide: nat, hooks: seq<Hook>, k: nat)
    requires Prechecked(pool, size, used, slide, hooks) && k < |hooks| && hooks[k].target.Some?
    requires Disjoint(Writes(pool, used, slide, hooks, |hooks|))
    ensures
      var out := PutAll(mem, Writes(pool, used, slide, hooks, |hooks|));
      var pc := hooks[k].vmaddr + slide;
      var w := FromLe(Read(out, pc, 4));
      && IsBranch(w) && BranchTarget(w, pc) == IslandAt(pool, used, k)
      && Read(out, IslandAt(pool, used, k), IslandSize) == IslandBytes(hooks[k].target.value)
  {
    hide PutAll, IslandBytes, BranchWord, BranchTarget, IsBranch, InReach, Le, FromLe, Disjoint;
    var ws := Writes(pool, used, slide, hooks, |hooks|);
    var pc := hooks[k].vmaddr + slide;
    assert Reachable(pool, used, k, pc);
    PutAllReads(mem, ws, 2 * k);
    PutAllReads(mem, ws, 2 * k + 1);
    BranchReaches(IslandAt(pool, used, k) - pc, pc);
    LeWords(BranchWord(IslandAt(pool, used, k) - pc));
  }

  /** From every hooked address three instructions lead to that hook's own target with only X16 changed;
      bytes other than the hooked words and as many islands as hooks are as they were. */
  lemma HooksLead(mem: Memory, pool: nat, size: nat, used: nat, slide: nat, hooks: seq<Hook>)
    requires Prechecked(pool, size, used, slide, hooks) && PoolApart(pool, size, used, slide, hooks)
    requires forall i, j :: 0 <= j < i < |hooks| ==> hooks[j].vmaddr != hooks[i].vmaddr
    requires forall k :: 0 <= k < |hooks| ==> hooks[k].target.Some? && hooks[k].target.value < TWO64
    ensures var out := PutAll(mem, Writes(pool, used, slide, hooks, |hooks|));
      && (forall k :: 0 <= k < |hooks| ==> LeadsTo(out, hooks[k].vmaddr + slide, hooks[k].target.value))
      && (forall x: nat ::
            (!(pool + used <= x < pool + used + 16 * |hooks|)
             && (forall k :: 0 <= k < |hooks| ==> !(hooks[k].vmaddr + slide <= x < hooks[k].vmaddr + slide + 4))) ==> out(x) == mem(x))
  {
    hide Prechecked, PoolApart, PutAll, IslandBytes, BranchTarget, IsBranch, LeadsTo, Writes, FromLe;
    Hooked(mem, pool, size, used, slide, hooks);
    var out := PutAll(mem, Writes(pool, used, slide, hooks, |hooks|));
    forall k | 0 <= k < |hooks| ensures LeadsTo(out, hooks[k].vmaddr + slide, hooks[k].target.value) {
      BytesLead(out, hooks[k].vmaddr + slide, IslandAt(pool, used, k), hooks[k].target.value);
    }
    forall x: nat |
      !(pool + used <= x < pool + used + 16 * |hooks|)
      && forall k :: 0 <= k < |hooks| ==> !(hooks[k].vmaddr + slide <= x < hooks[k].vmaddr + slide + 4)
      ensures out(x) == mem(x)
    {
      forall k | 0 <= k < |hooks| ensures !In(x, Island(pool, used, hooks, k)) && !In(x, Branch(pool, used, slide, hooks, k)) {
        assert (k + 1) * 16 <= |hooks| * 16;
      }
    }
  }

  // ----- where a function ends -----

  /** Section i is the first instruction section around the address. */
  ghost predicate FirstAround(v: nat, sections: seq<Section>, i: nat) {
    && i < |sections| && Around(v, sections[i])
    && forall j :: 0 <= j < i ==> !Around(v, sections[j])
  }

  predicate Around(v: nat, s: Section) {
    s.instructions && s.addr <= v < s.addr + s.size && s.addr + s.size < 0x1_0000_0000_0000_0000
  }

  lemma {:induction false} SectionEndIs(v: nat, sections: seq<Section>)
    ensures SectionEnd(v, sections).None? <==> forall j :: 0 <= j < |sections| ==> !Around(v, sections[j])
    ensures forall i: nat :: FirstAround(v, sections, i) ==> SectionEnd(v, sections) == Some(sections[i].addr + sections[i].size)
    decreases |sections|
  {
    if sections != [] {
      var rest := sections[1..];
      assert forall j :: 0 <= j < |rest| ==> rest[j] == sections[j + 1];
      SectionEndIs(v, rest);
      forall i: nat | FirstAround(v, sections, i) ensures SectionEnd(v, sections) == Some(sections[i].addr + sections[i].size) {
        if i > 0 {
          assert !Around(v, sections[0]);
          assert FirstAround(v, rest, i - 1);
        }
      }
      if !Around(v, sections[0]) && forall j :: 0 <= j < |rest| ==> !Around(v, rest[j]) {
        forall j | 0 <= j < |sections| ensures !Around(v, sections[j]) {
          if j > 0 { assert sections[j] == rest[j - 1]; }
        }
      }
    }
  }

  lemma {:induction false} EndAfterIs(v: nat, starts: seq<nat>, end: nat)
    ensures EndAfter(v, starts, end).None? <==> v !in starts
    ensures forall i :: 0 <= i < |starts| && starts[i] == v && (forall j :: 0 <= j < i ==> starts[j] != v) ==>
      EndAfter(v, starts, end) == Some(if i + 1 < |starts| && v < starts[i + 1] < end then starts[i + 1] else end)
    decreases |starts|
  {
    if starts != [] && starts[0] != v {
      var rest := starts[1..];
      EndAfterIs(v, rest, end);
      assert starts == [starts[0]] + rest;
      forall i | 0 <= i < |starts| && starts[i] == v && (forall j :: 0 <= j < i ==> starts[j] != v)
        ensures EndAfter(v, starts, end) == Some(if i + 1 < |starts| && v < starts[i + 1] < end then starts[i + 1] else end)
      {
        assert rest[i - 1] == v;
        assert forall j :: 0 <= j < i - 1 ==> rest[j] == starts[j + 1] && rest[j] != v;
      }
    }
  }

  /** An address starts a function exactly when it is a listed start in an instruction section; the function
      ends at the next start if that lies in the section, else with the section. */
  lemma FunctionEndIs(v: nat, starts: seq<nat>, sections: seq<Section>)
    ensures FunctionEnd(v, starts, sections).Some? <==>
      v in starts && exists j :: 0 <= j < |sections| && Around(v, sections[j])
    ensures forall i: nat, n: nat :: FirstAround(v, sections, i) && n < |starts| && starts[n] == v && v !in starts[..n] ==>
      var end := sections[i].addr + sections[i].size;
      FunctionEnd(v, starts, sections) == Some(if n + 1 < |starts| && v < starts[n + 1] < end then starts[n + 1] else end)
  {
    hide SectionEnd, EndAfter, Around;
    SectionEndIs(v, sections);
    if SectionEnd(v, sections).Some? {
      EndAfterIs(v, starts, SectionEnd(v, sections).value);
      forall i: nat, n: nat | FirstAround(v, sections, i) && n < |starts| && starts[n] == v && v !in starts[..n]
        ensures
          var end := sections[i].addr + sections[i].size;
          FunctionEnd(v, starts, sections) == Some(if n + 1 < |starts| && v < starts[n + 1] < end then starts[n + 1] else end)
      {
        assert forall j :: 0 <= j < n ==> starts[j] == starts[..n][j];
      }
    }
  }
}
