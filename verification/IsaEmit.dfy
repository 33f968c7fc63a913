/** Writing islands into the pool, word by word (emit_island and emit_bcax_island in
    src/isa_emul.c), and the patching pass over a code section. */
module IsaEmit {
  import opened Basics
  import opened A64Memory
  import opened A64
  import opened IsaEncode
  import opened LseValues
  import opened IsaEmul
  import opened IsaPatch

  /** p is p0 with the words `out` written at index start. */
  ghost predicate Written(p: seq<bv32>, p0: seq<bv32>, start: nat, out: seq<bv32>) {
    && |p| == |p0| && start + |out| <= |p0|
    && p[start..start + |out|] == out
    && p[..start] == p0[..start]
    && p[start + |out|..] == p0[start + |out|..]
  }

  lemma WrittenNone(p: seq<bv32>, start: nat)
    requires start <= |p|
    ensures Written(p, p, start, [])
  {
  }

  lemma WrittenOne(p: seq<bv32>, p0: seq<bv32>, start: nat, out: seq<bv32>, w: bv32)
    requires Written(p, p0, start, out) && start + |out| < |p|
    ensures Written(p[start + |out| := w], p0, start, out + [w])
  {
    var p' := p[start + |out| := w];
    assert p'[start..start + |out| + 1] == out + [w];
    assert p'[start + |out| + 1..] == p[start + |out|..][1..];
    assert p0[start + |out| + 1..] == p0[start + |out|..][1..];
  }

  /** One `island[n++] = w`. */
  method Put(pool: array<bv32>, start: nat, n: nat, w: bv32, ghost p0: seq<bv32>, ghost out: seq<bv32>)
      returns (n': nat, ghost out': seq<bv32>)
    requires Written(pool[..], p0, start, out) && n == |out| && start + n < pool.Length
    modifies pool
    ensures Written(pool[..], p0, start, out') && out' == out + [w] && n' == n + 1 == |out'|
  {
    WrittenOne(pool[..], p0, start, out, w);
    pool[start + n] := w;
    assert pool[..] == old(pool[..])[start + n := w];
    n', out' := n + 1, out + [w];
  }

  /** The switch over the operation, between load- and store-exclusive. */
  method EmitOp(d: Atomic, s1: RegNo, s2: RegNo, s3: RegNo, pool: array<bv32>, start: nat, n0: nat,
                ghost p0: seq<bv32>, ghost out0: seq<bv32>)
      returns (n: nat, ghost out: seq<bv32>)
    requires d.op != Cas && Scratches(s1, s2, s3) == ScratchesOf(d)
    requires Written(pool[..], p0, start, out0) && n0 == |out0| && start + n0 + 4 <= pool.Length
    modifies pool
    ensures Written(pool[..], p0, start, out) && out == out0 + OpWords(d) && n == |out|
  {
    hide ScratchesOf, Written, EncAdd, EncBic, EncEor, EncOrr, EncCmp, EncCsel, EncSxtb, EncSxth;
    var isX := d.size == Dword;
    n, out := n0, out0;
    match d.op {
      case LdAdd => n, out := Put(pool, start, n, EncAdd(isX, s2, s1, d.rs), p0, out);
      case LdClr => n, out := Put(pool, start, n, EncBic(isX, s2, s1, d.rs), p0, out);
      case LdEor => n, out := Put(pool, start, n, EncEor(isX, s2, s1, d.rs), p0, out);
      case LdSet => n, out := Put(pool, start, n, EncOrr(isX, s2, s1, d.rs), p0, out);
      case LdSmax => n, out := EmitSigned(d, s1, s2, s3, pool, start, n, p0, out);
      case LdSmin => n, out := EmitSigned(d, s1, s2, s3, pool, start, n, p0, out);
      case LdUmax =>
        n, out := Put(pool, start, n, EncCmp(isX, s1, d.rs), p0, out);
        n, out := Put(pool, start, n, EncCsel(isX, s2, d.rs, s1, COND_LO), p0, out);
      case LdUmin =>
        n, out := Put(pool, start, n, EncCmp(isX, s1, d.rs), p0, out);
        n, out := Put(pool, start, n, EncCsel(isX, s2, d.rs, s1, COND_HI), p0, out);
      case Swp => n, out := Put(pool, start, n, EncMov(isX, s2, d.rs), p0, out);
    }
  }

  method EmitSigned(d: Atomic, s1: RegNo, s2: RegNo, s3: RegNo, pool: array<bv32>, start: nat, n0: nat,
                    ghost p0: seq<bv32>, ghost out0: seq<bv32>)
      returns (n: nat, ghost out: seq<bv32>)
    requires Scratches(s1, s2, s3) == ScratchesOf(d)
    requires Written(pool[..], p0, start, out0) && n0 == |out0| && start + n0 + 4 <= pool.Length
    modifies pool
    ensures Written(pool[..], p0, start, out) && out == out0 + SignedWords(d) && n == |out|
  {
    hide ScratchesOf, Written, EncCmp, EncCsel, EncSxtb, EncSxth;
    var isX := d.size == Dword;
    n, out := n0, out0;
    if d.size == Byte || d.size == Half {
      n, out := Put(pool, start, n, if d.size == Byte then EncSxtb(s2, s1) else EncSxth(s2, s1), p0, out);
      n, out := Put(pool, start, n, if d.size == Byte then EncSxtb(s3, d.rs) else EncSxth(s3, d.rs), p0, out);
      n, out := Put(pool, start, n, EncCmp(false, s2, s3), p0, out);
    } else {
      n, out := Put(pool, start, n, EncCmp(isX, s1, d.rs), p0, out);
    }
    var cond := if d.op == LdSmax then COND_LT else COND_GT;
    n, out := Put(pool, start, n, EncCsel(isX, s2, d.rs, s1, cond), p0, out);
  }

  /** The branch from the last word of an island to the word after the patched one. */
  function ReturnOffset(site: int, poolAddr: int, start: nat, n: int): int {
    site + 1 - (poolAddr + start + n)
  }

  method EmitRmwSave(c: Scratches, pool: array<bv32>, start: nat, ghost p0: seq<bv32>)
      returns (n: nat, ghost out: seq<bv32>)
    requires pool[..] == p0 && start + 5 <= pool.Length
    modifies pool
    ensures Written(pool[..], p0, start, out) && out == RmwSaveWords(c) && n == |out|
  {
    hide Written, EncStrPre, EncMrsNzcv;
    n, out := 0, [];
    WrittenNone(p0, start);
    n, out := Put(pool, start, n, EncStrPre(c.s1), p0, out);
    n, out := Put(pool, start, n, EncStrPre(c.s2), p0, out);
    n, out := Put(pool, start, n, EncStrPre(c.s3), p0, out);
    n, out := Put(pool, start, n, EncMrsNzcv(c.s1), p0, out);
    n, out := Put(pool, start, n, EncStrPre(c.s1), p0, out);
  }

  /** Flags and scratch registers back, last pushed first, and the branch back. */
  method EmitRmwRestore(c: Scratches, pool: array<bv32>, start: nat, n0: nat, poolAddr: int, site: int,
                        ghost p0: seq<bv32>, ghost out0: seq<bv32>)
      returns (n: nat, ghost out: seq<bv32>)
    requires Written(pool[..], p0, start, out0) && n0 == |out0| && start + n0 + 6 <= pool.Length
    modifies pool
    ensures Written(pool[..], p0, start, out) && n == |out| == n0 + 6
    ensures out == out0 + RmwRestoreWords(c, ReturnOffset(site, poolAddr, start, n - 1))
  {
    hide Written, EncLdrPost, EncMsrNzcv, EncB;
    n, out := n0, out0;
    n, out := Put(pool, start, n, EncLdrPost(c.s1), p0, out);
    n, out := Put(pool, start, n, EncMsrNzcv(c.s1), p0, out);
    n, out := Put(pool, start, n, EncLdrPost(c.s3), p0, out);
    n, out := Put(pool, start, n, EncLdrPost(c.s2), p0, out);
    n, out := Put(pool, start, n, EncLdrPost(c.s1), p0, out);
    n, out := Put(pool, start, n, EncB(ReturnOffset(site, poolAddr, start, n)), p0, out);
  }

  method PickRmw(d: Atomic) returns (c: Scratches)
    ensures c == ScratchesOf(d)
  {
    hide Scratch;
    var used := {31, d.rs, d.rn};
    if d.rt != 31 {
      used := used + {d.rt};
    }
    assert used == InUse(d);
    var s1 := PickScratch(used);
    used := used + {s1};
    var s2 := PickScratch(used);
    used := used + {s2};
    assert used == InUse(d) + {s1, s2};
    var s3 := PickScratch(used);
    c := Scratches(s1, s2, s3);
  }

  method EmitRmwLoop(d: Atomic, c: Scratches, pool: array<bv32>, start: nat, n0: nat, ghost p0: seq<bv32>, ghost out0: seq<bv32>)
      returns (n: nat, ghost out: seq<bv32>)
    requires d.op != Cas && c == ScratchesOf(d)
    requires Written(pool[..], p0, start, out0) && n0 == |out0| && start + n0 + 7 <= pool.Length
    modifies pool
    ensures Written(pool[..], p0, start, out) && n == |out| == n0 + 3 + |OpWords(d)|
    ensures out == out0 + [EncLdxr(d.size, d.acquire, c.s1, d.rn)] + OpWords(d)
      + [EncStxr(d.size, d.release, c.s3, c.s2, d.rn), EncCbnzW(c.s3, -2 - |OpWords(d)|)]
  {
    hide ScratchesOf, Written, EncLdxr, EncStxr, EncCbnzW, OpWords;
    n, out := n0, out0;
    OpWordCount(d);
    var loopStart := n;
    n, out := Put(pool, start, n, EncLdxr(d.size, d.acquire, c.s1, d.rn), p0, out);
    n, out := EmitOp(d, c.s1, c.s2, c.s3, pool, start, n, p0, out);
    n, out := Put(pool, start, n, EncStxr(d.size, d.release, c.s3, c.s2, d.rn), p0, out);
    n, out := Put(pool, start, n, EncCbnzW(c.s3, loopStart - n), p0, out);
  }

  method EmitRmw(d: Atomic, pool: array<bv32>, start: nat, poolAddr: int, site: int) returns (n: nat)
    requires d.op != Cas && start + 24 <= pool.Length
    modifies pool
    ensures Written(pool[..], old(pool[..]), start, RmwWords(d, ReturnOffset(site, poolAddr, start, n - 1)))
    ensures n == |RmwWords(d, 0)| && start + n <= pool.Length && Ordered(LseInstr(d), pool[start..start + n])
  {
    hide ScratchesOf, Written, EncLdxr, EncStxr, EncCbnzW, EncOrr, OpWords, RmwSaveWords, RmwRestoreWords, Ordered;
    OpWordCount(d);
    RmwLength(d, 0);
    SaveLength(ScratchesOf(d));
    ghost var p0 := pool[..];
    var c := PickRmw(d);
    ghost var out;
    n, out := EmitRmwSave(c, pool, start, p0);
    n, out := EmitRmwLoop(d, c, pool, start, n, p0, out);
    if d.rt != 31 {
      n, out := Put(pool, start, n, EncMov(d.size == Dword, d.rt, c.s1), p0, out);
    }
    n, out := EmitRmwRestore(c, pool, start, n, poolAddr, site, p0, out);
    assert out == RmwWords(d, ReturnOffset(site, poolAddr, start, n - 1));
    WrittenOrdered(d, pool[..], p0, start, ReturnOffset(site, poolAddr, start, n - 1), out);
  }

  lemma WrittenOrdered(d: Atomic, p: seq<bv32>, p0: seq<bv32>, start: nat, back: int, out: seq<bv32>)
    requires Written(p, p0, start, out) && out == LseWords(d, back)
    ensures p[start..start + |out|] == out && Ordered(LseInstr(d), out)
  {
    hide LseWords, OrderedAt;
    LseOrdered(d, back);
  }

  lemma SaveLength(c: Scratches)
    ensures |RmwSaveWords(c)| == 5
  {
  }

  method PickCas(d: Atomic) returns (s1: RegNo, s2: RegNo)
    ensures s1 == ScratchesOf(d).s1 && s2 == ScratchesOf(d).s2
  {
    hide Scratch;
    var used := {31, d.rs, d.rt, d.rn};
    assert used == InUse(d);
    s1 := PickScratch(used);
    used := used + {s1};
    s2 := PickScratch(used);
  }

  method EmitCasSave(s1: RegNo, s2: RegNo, pool: array<bv32>, start: nat, ghost p0: seq<bv32>)
      returns (n: nat, ghost out: seq<bv32>)
    requires pool[..] == p0 && start + 4 <= pool.Length
    modifies pool
    ensures Written(pool[..], p0, start, out) && n == |out|
    ensures out == [EncStrPre(s1), EncStrPre(s2), EncMrsNzcv(s1), EncStrPre(s1)]
  {
    hide Written, EncStrPre, EncMrsNzcv;
    n, out := 0, [];
    WrittenNone(p0, start);
    n, out := Put(pool, start, n, EncStrPre(s1), p0, out);
    n, out := Put(pool, start, n, EncStrPre(s2), p0, out);
    n, out := Put(pool, start, n, EncMrsNzcv(s1), p0, out);
    n, out := Put(pool, start, n, EncStrPre(s1), p0, out);
  }

  method EmitCasLoop(d: Atomic, s1: RegNo, s2: RegNo, pool: array<bv32>, start: nat, n0: nat,
                     ghost p0: seq<bv32>, ghost out0: seq<bv32>)
      returns (n: nat, ghost out: seq<bv32>)
    requires s1 == ScratchesOf(d).s1 && s2 == ScratchesOf(d).s2
    requires Written(pool[..], p0, start, out0) && n0 == |out0| && start + n0 + 6 <= pool.Length
    modifies pool
    ensures Written(pool[..], p0, start, out) && out == out0 + CasLoopWords(d) && n == |out| == n0 + 6
  {
    hide ScratchesOf, Written, EncLdxr, EncStxr, EncCbnzW, EncCmp, EncBne;
    n, out := n0, out0;
    var loopStart := n;
    n, out := Put(pool, start, n, EncLdxr(d.size, d.acquire, s2, d.rn), p0, out);
    n, out := Put(pool, start, n, EncCmp(d.size == Dword, s2, d.rs), p0, out);
    n, out := Put(pool, start, n, EncBne(3), p0, out);
    n, out := Put(pool, start, n, EncStxr(d.size, d.release, s1, d.rt, d.rn), p0, out);
    n, out := Put(pool, start, n, EncCbnzW(s1, loopStart - n), p0, out);
    n, out := Put(pool, start, n, CLREX, p0, out);
  }

  method EmitCasRestore(s1: RegNo, s2: RegNo, pool: array<bv32>, start: nat, n0: nat, poolAddr: int, site: int,
                        ghost p0: seq<bv32>, ghost out0: seq<bv32>)
      returns (n: nat, ghost out: seq<bv32>)
    requires Written(pool[..], p0, start, out0) && n0 == |out0| && start + n0 + 5 <= pool.Length
    modifies pool
    ensures Written(pool[..], p0, start, out) && n == |out| == n0 + 5
    ensures out == out0 + [EncLdrPost(s1), EncMsrNzcv(s1), EncLdrPost(s2), EncLdrPost(s1),
                           EncB(ReturnOffset(site, poolAddr, start, n - 1))]
  {
    hide Written, EncLdrPost, EncMsrNzcv, EncB;
    n, out := n0, out0;
    n, out := Put(pool, start, n, EncLdrPost(s1), p0, out);
    n, out := Put(pool, start, n, EncMsrNzcv(s1), p0, out);
    n, out := Put(pool, start, n, EncLdrPost(s2), p0, out);
    n, out := Put(pool, start, n, EncLdrPost(s1), p0, out);
    n, out := Put(pool, start, n, EncB(ReturnOffset(site, poolAddr, start, n)), p0, out);
  }

  method EmitCas(d: Atomic, pool: array<bv32>, start: nat, poolAddr: int, site: int) returns (n: nat)
    requires d.op == Cas && start + 24 <= pool.Length
    modifies pool
    ensures Written(pool[..], old(pool[..]), start, CasWords(d, ReturnOffset(site, poolAddr, start, n - 1)))
    ensures n == |CasWords(d, 0)| && start + n <= pool.Length && Ordered(LseInstr(d), pool[start..start + n])
  {
    hide ScratchesOf, Written, EncStrPre, EncMrsNzcv, EncOrr, EncLdrPost, EncMsrNzcv, EncB, CasLoopWords;
    CasLength(d, 0);
    ghost var p0 := pool[..];
    var s1, s2 := PickCas(d);
    ghost var out;
    n, out := EmitCasSave(s1, s2, pool, start, p0);
    n, out := EmitCasLoop(d, s1, s2, pool, start, n, p0, out);
    if d.rs != 31 {
      n, out := Put(pool, start, n, EncMov(d.size == Dword, d.rs, s2), p0, out);
    }
    n, out := EmitCasRestore(s1, s2, pool, start, n, poolAddr, site, p0, out);
    assert out == CasWords(d, ReturnOffset(site, poolAddr, start, n - 1));
    WrittenOrdered(d, pool[..], p0, start, ReturnOffset(site, poolAddr, start, n - 1), out);
  }

  method PickVecTemp(used: set<int>) returns (t: RegNo)
    ensures t == VecScratch(used, 31)
  {
    var r := 31;
    while r >= 0
      invariant -1 <= r <= 31
      invariant VecScratch(used, 31) == VecScratch(used, r)
    {
      if r !in used {
        return r;
      }
      r := r - 1;
    }
    return 31;
  }

  method EmitBcax(b: BcaxRegs, pool: array<bv32>, start: nat, poolAddr: int, site: int) returns (n: nat)
    requires start + 5 <= pool.Length
    modifies pool
    ensures Written(pool[..], old(pool[..]), start, BcaxWords(b, ReturnOffset(site, poolAddr, start, n - 1)))
    ensures n == |BcaxWords(b, 0)|
  {
    hide Written, EncStrQPre, EncLdrQPost, EncVBic, EncVEor, EncB;
    ghost var p0 := pool[..];
    n := 0;
    ghost var out := [];
    WrittenNone(p0, start);
    if b.va == b.vd {
      n, out := Put(pool, start, n, EncVBic(b.vd, b.vm, b.vd), p0, out);
      n, out := Put(pool, start, n, EncVEor(b.vd, b.vn, b.vd), p0, out);
    } else {
      var t := PickVecTemp({b.vd, b.vn, b.vm, b.va});
      n, out := Put(pool, start, n, EncStrQPre(t), p0, out);
      n, out := Put(pool, start, n, EncVBic(t, b.vm, b.va), p0, out);
      n, out := Put(pool, start, n, EncVEor(b.vd, b.vn, t), p0, out);
      n, out := Put(pool, start, n, EncLdrQPost(t), p0, out);
    }
    n, out := Put(pool, start, n, EncB(ReturnOffset(site, poolAddr, start, n)), p0, out);
    assert out == BcaxWords(b, ReturnOffset(site, poolAddr, start, n - 1));
  }

  // ----- the pass over a code section -----

  /** The island of one recognised word. */
  method EmitFor(w: bv32, pool: array<bv32>, start: nat, poolAddr: int, site: int) returns (n: nat)
    requires Recognised(w) && start + Reserve(w) <= pool.Length
    modifies pool
    ensures n == IslandLength(w) && 3 <= n <= Reserve(w)
    ensures Written(pool[..], old(pool[..]), start, IslandFor(w, site, poolAddr + start))
  {
    hide Written, DecodeLse, DecodeBcax, RmwWords, CasWords, BcaxWords;
    IslandFits(w, site, poolAddr + start);
    match DecodeLse(w) {
      case Some(d) =>
        if d.op == Cas {
          n := EmitCas(d, pool, start, poolAddr, site);
        } else {
          n := EmitRmw(d, pool, start, poolAddr, site);
        }
      case None =>
        n := EmitBcax(DecodeBcax(w).value, pool, start, poolAddr, site);
    }
  }

  /** What became of a code word the pass has reached. */
  datatype Fate = Kept | OutOfRange(cursor: nat) | Moved(start: nat)

  datatype Addresses = Addresses(code: int, pool: int)

  /** Word w0 at address site has become w1: unchanged because nobody emulates it or its island would be
      out of branch range, or a branch to an island of its own. */
  ghost predicate FateOk(w0: bv32, w1: bv32, pool: seq<bv32>, site: int, poolAddr: int, f: Fate) {
    match f
    case Kept => !Recognised(w0) && w1 == w0
    case OutOfRange(cursor) => Recognised(w0) && w1 == w0 && !InBranchRange(poolAddr + cursor - site)
    case Moved(start) =>
      && Recognised(w0) && InBranchRange(poolAddr + start - site) && w1 == EncB(poolAddr + start - site)
      && start + IslandLength(w0) <= |pool|
      && pool[start..start + IslandLength(w0)] == IslandFor(w0, site, poolAddr + start)
  }

  /** The pass has reached the first |fates| words; the pool is used up to index `top`. */
  ghost predicate Passed(code0: seq<bv32>, code: seq<bv32>, pool0: seq<bv32>, pool: seq<bv32>, a: Addresses,
                         bottom: nat, top: nat, fates: seq<Fate>) {
    && |code| == |code0| && |fates| <= |code| && |pool| == |pool0| && bottom <= top <= |pool|
    && (forall i :: 0 <= i < |fates| ==> FateOk(code0[i], code[i], pool, a.code + i, a.pool, fates[i]))
    && (forall i :: |fates| <= i < |code| ==> code[i] == code0[i])
    && (forall i :: 0 <= i < |fates| && fates[i].Moved? ==>
          bottom <= fates[i].start && fates[i].start + IslandLength(code0[i]) <= top)
    && (forall i, j :: 0 <= i < j < |fates| && fates[i].Moved? && fates[j].Moved? ==>
          fates[i].start + IslandLength(code0[i]) <= fates[j].start)
    && pool[..bottom] == pool0[..bottom] && pool[top..] == pool0[top..]
  }

  /** Where the next island goes: after the islands so far, which lie one behind the other. */
  function Cursor(code0: seq<bv32>, bottom: nat, fates: seq<Fate>): nat
    requires |fates| <= |code0|
  {
    if fates == [] then bottom else
      var n := |fates| - 1;
      Cursor(code0, bottom, fates[..n]) + if fates[n].Moved? then IslandLength(code0[n]) else 0
  }

  ghost predicate Packed(code0: seq<bv32>, bottom: nat, top: nat, fates: seq<Fate>) {
    && |fates| <= |code0| && top == Cursor(code0, bottom, fates)
    && forall i :: 0 <= i < |fates| ==>
         && (fates[i].Moved? ==> fates[i].start == Cursor(code0, bottom, fates[..i]))
         && (fates[i].OutOfRange? ==> fates[i].cursor == Cursor(code0, bottom, fates[..i]))
  }

  lemma PackedNone(code0: seq<bv32>, bottom: nat)
    ensures Packed(code0, bottom, bottom, [])
  {
  }

  lemma PackedSnoc(code0: seq<bv32>, bottom: nat, top: nat, fates: seq<Fate>, f: Fate)
    requires Packed(code0, bottom, top, fates) && |fates| < |code0|
    requires (f.Moved? ==> f.start == top) && (f.OutOfRange? ==> f.cursor == top)
    ensures Packed(code0, bottom, top + (if f.Moved? then IslandLength(code0[|fates|]) else 0), fates + [f])
  {
    hide IslandLength;
    var fates' := fates + [f];
    assert fates'[..|fates|] == fates;
    assert forall i :: 0 <= i < |fates| ==> fates'[i] == fates[i] && fates'[..i] == fates[..i];
  }

  /** An LSE word's island from `start` on keeps its ordering. */
  ghost predicate KeepsOrder(w: bv32, pool: seq<bv32>, start: nat) {
    start + IslandLength(w) <= |pool| && Decode(w).Lse? && Ordered(Decode(w), pool[start..start + IslandLength(w)])
  }

  /** All LSE words that moved do. */
  ghost predicate AllOrdered(code0: seq<bv32>, pool: seq<bv32>, fates: seq<Fate>) {
    && |fates| <= |code0|
    && forall i :: 0 <= i < |fates| && fates[i].Moved? && Decode(code0[i]).Lse? ==> KeepsOrder(code0[i], pool, fates[i].start)
  }

  lemma FateOrdered(w: bv32, w1: bv32, pool: seq<bv32>, site: int, poolAddr: int, start: nat)
    requires FateOk(w, w1, pool, site, poolAddr, Moved(start)) && Decode(w).Lse?
    ensures KeepsOrder(w, pool, start)
  {
    hide Decode, Recognised, EncB, IslandLength, IslandFor, InBranchRange, OrderedAt;
    IslandOrdered(w, site, poolAddr + start);
  }

  lemma PassOrdered(code0: seq<bv32>, code: seq<bv32>, pool0: seq<bv32>, pool: seq<bv32>, a: Addresses,
                    bottom: nat, top: nat, fates: seq<Fate>)
    requires Passed(code0, code, pool0, pool, a, bottom, top, fates)
    ensures AllOrdered(code0, pool, fates)
  {
    hide Decode, IslandLength, KeepsOrder, FateOk;
    forall i | 0 <= i < |fates| && fates[i].Moved? && Decode(code0[i]).Lse? ensures KeepsOrder(code0[i], pool, fates[i].start) {
      FateOrdered(code0[i], code[i], pool, a.code + i, a.pool, fates[i].start);
    }
  }

  function MovedCount(fates: seq<Fate>): nat {
    if fates == [] then 0
    else MovedCount(fates[..|fates| - 1]) + if fates[|fates| - 1].Moved? then 1 else 0
  }

  lemma PassedKept(code0: seq<bv32>, code: seq<bv32>, pool0: seq<bv32>, pool: seq<bv32>, a: Addresses,
                   bottom: nat, top: nat, fates: seq<Fate>, f: Fate)
    requires Passed(code0, code, pool0, pool, a, bottom, top, fates) && |fates| < |code|
    requires !f.Moved? && FateOk(code0[|fates|], code[|fates|], pool, a.code + |fates|, a.pool, f)
    ensures Passed(code0, code, pool0, pool, a, bottom, top, fates + [f])
  {
    hide FateOk, IslandLength;
    var fates' := fates + [f];
    forall i | 0 <= i < |fates'| ensures FateOk(code0[i], code[i], pool, a.code + i, a.pool, fates'[i]) {
      if i < |fates| {
        assert fates'[i] == fates[i];
      }
    }
  }

  /** Writing above the islands written so far keeps them. */
  lemma FateKept(w0: bv32, w1: bv32, pool: seq<bv32>, pool': seq<bv32>, site: int, poolAddr: int, f: Fate, top: nat)
    requires FateOk(w0, w1, pool, site, poolAddr, f)
    requires |pool'| == |pool| && top <= |pool| && pool'[..top] == pool[..top]
    requires f.Moved? ==> f.start + IslandLength(w0) <= top
    ensures FateOk(w0, w1, pool', site, poolAddr, f)
  {
    hide Recognised, EncB, IslandLength, IslandFor;
    if f.Moved? {
      var e := f.start + IslandLength(w0);
      assert pool[f.start..e] == pool[..top][f.start..e];
      assert pool'[f.start..e] == pool'[..top][f.start..e];
    }
  }

  lemma PassedMoved(code0: seq<bv32>, code: seq<bv32>, pool0: seq<bv32>, pool: seq<bv32>, pool': seq<bv32>,
                    a: Addresses, bottom: nat, top: nat, fates: seq<Fate>)
    requires Passed(code0, code, pool0, pool, a, bottom, top, fates) && |fates| < |code|
    requires Recognised(code0[|fates|]) && InBranchRange(a.pool + top - (a.code + |fates|))
    requires |IslandFor(code0[|fates|], a.code + |fates|, a.pool + top)| == IslandLength(code0[|fates|])
    requires Written(pool', pool, top, IslandFor(code0[|fates|], a.code + |fates|, a.pool + top))
    ensures
      var i := |fates|;
      Passed(code0, code[i := EncB(a.pool + top - (a.code + i))], pool0, pool', a, bottom,
             top + IslandLength(code0[i]), fates + [Moved(top)])
  {
    hide Recognised, EncB, IslandLength, IslandFor, FateOk, InBranchRange;
    var k := |fates|;
    var w, n := EncB(a.pool + top - (a.code + k)), IslandLength(code0[k]);
    var code', fates' := code[k := w], fates + [Moved(top)];
    forall i | 0 <= i < |fates'| ensures FateOk(code0[i], code'[i], pool', a.code + i, a.pool, fates'[i]) {
      if i < k {
        assert fates'[i] == fates[i];
        FateKept(code0[i], code[i], pool, pool', a.code + i, a.pool, fates[i], top);
      } else {
        MovedOk(code0[k], w, pool', a.code + k, a.pool, top);
      }
    }
    forall i, j | 0 <= i < j < |fates'| && fates'[i].Moved? && fates'[j].Moved?
      ensures fates'[i].start + IslandLength(code0[i]) <= fates'[j].start
    {
      assert fates'[i] == fates[i];
    }
    assert pool'[..bottom] == pool0[..bottom] by {
      assert pool'[..bottom] == pool'[..top][..bottom];
      assert pool[..bottom] == pool[..top][..bottom];
    }
    assert pool'[top + n..] == pool0[top + n..] by {
      assert pool[top + n..] == pool[top..][n..];
      assert pool0[top + n..] == pool0[top..][n..];
    }
  }

  lemma MovedOk(w0: bv32, w1: bv32, pool: seq<bv32>, site: int, poolAddr: int, start: nat)
    requires Recognised(w0) && InBranchRange(poolAddr + start - site) && w1 == EncB(poolAddr + start - site)
    requires start + IslandLength(w0) <= |pool|
    requires pool[start..start + IslandLength(w0)] == IslandFor(w0, site, poolAddr + start)
    ensures FateOk(w0, w1, pool, site, poolAddr, Moved(start))
  {
    hide Recognised, EncB, IslandLength, IslandFor, InBranchRange;
  }

  /** Moves the next word to the next free place of the pool. */
  method MoveWord(code: array<bv32>, pool: array<bv32>, a: Addresses, top: nat, i: nat,
                  ghost code0: seq<bv32>, ghost pool0: seq<bv32>, ghost bottom: nat, ghost fates: seq<Fate>)
      returns (top': nat)
    requires code != pool && i == |fates| < code.Length
    requires Passed(code0, code[..], pool0, pool[..], a, bottom, top, fates)
    requires Recognised(code[i]) && top + Reserve(code[i]) <= pool.Length
    requires InBranchRange(a.pool + top - (a.code + i))
    modifies code, pool
    ensures Passed(code0, code[..], pool0, pool[..], a, bottom, top', fates + [Moved(top)])
    ensures top' == top + IslandLength(code0[i])
  {
    hide Recognised, EncB, IslandLength, IslandFor, InBranchRange, Written, Reserve, FateOk, EncB;
    var w := code[i];
    assert w == code0[i];
    ghost var codeBefore, poolBefore := code[..], pool[..];
    var n := EmitFor(w, pool, top, a.pool, a.code + i);
    IslandFits(w, a.code + i, a.pool + top);
    PassedMoved(code0, codeBefore, pool0, poolBefore, pool[..], a, bottom, top, fates);
    code[i] := EncB(a.pool + top - (a.code + i));
    assert code[..] == codeBefore[i := EncB(a.pool + top - (a.code + i))];
    top' := top + n;
  }

  /** isa_emul_patch: every recognised word, as long as the pool lasts, moves to the next free place of
      the pool, unless that is out of branch range. */
  method Patch(code: array<bv32>, pool: array<bv32>, a: Addresses, cursor: nat)
      returns (top: nat, patched: nat, ghost fates: seq<Fate>)
    requires code != pool && cursor <= pool.Length
    modifies code, pool
    ensures Passed(old(code[..]), code[..], old(pool[..]), pool[..], a, cursor, top, fates)
    ensures Packed(old(code[..]), cursor, top, fates)
    ensures AllOrdered(old(code[..]), pool[..], fates)
    ensures |fates| < code.Length ==>
              var w := code[|fates|];
              (Decode(w).Bcax? && top + 5 > pool.Length) || ((Decode(w).Lse? || SwpLookalike(w)) && top + 24 > pool.Length)
    ensures patched == MovedCount(fates)
  {
    hide Recognised, EncB, IslandLength, IslandFor, FateOk, InBranchRange, Reserve, Decode, SwpLookalike, AllOrdered, Packed;
    ghost var code0, pool0 := code[..], pool[..];
    top, patched, fates := cursor, 0, [];
    PackedNone(code0, cursor);
    for i := 0 to code.Length
      invariant |fates| == i
      invariant Passed(code0, code[..], pool0, pool[..], a, cursor, top, fates)
      invariant Packed(code0, cursor, top, fates)
      invariant patched == MovedCount(fates)
    {
      var w := code[i];
      if Recognised(w) {
        if top + Reserve(w) > pool.Length {
          ReserveIs(w);
          PassOrdered(code0, code[..], pool0, pool[..], a, cursor, top, fates);
          return;
        }
        var offset := a.pool + top - (a.code + i);
        if offset > 0x1FF_FFFF || offset < -0x200_0000 {
          RangeFails(w, pool[..], a.code + i, a.pool, top);
          PassedKept(code0, code[..], pool0, pool[..], a, cursor, top, fates, OutOfRange(top));
          PackedSnoc(code0, cursor, top, fates, OutOfRange(top));
          fates := fates + [OutOfRange(top)];
        } else {
          RangeHolds(offset);
          ghost var start := top;
          PackedSnoc(code0, cursor, top, fates, Moved(top));
          top := MoveWord(code, pool, a, top, i, code0, pool0, cursor, fates);
          fates := fates + [Moved(start)];
          patched := patched + 1;
        }
      } else {
        NotTaken(w, pool[..], a.code + i, a.pool);
        PassedKept(code0, code[..], pool0, pool[..], a, cursor, top, fates, Kept);
        PackedSnoc(code0, cursor, top, fates, Kept);
        fates := fates + [Kept];
      }
    }
    PassOrdered(code0, code[..], pool0, pool[..], a, cursor, top, fates);
  }

  lemma ReserveIs(w: bv32)
    requires Recognised(w)
    ensures (Decode(w).Bcax? && Reserve(w) == 5) || ((Decode(w).Lse? || SwpLookalike(w)) && Reserve(w) == 24)
  {
    hide Decode, DecodeLse, DecodeBcax, SwpLookalike;
    DecodeLseAgrees(w);
    DecodeBcaxAgrees(w);
  }

  lemma RangeFails(w: bv32, pool: seq<bv32>, site: int, poolAddr: int, top: nat)
    requires Recognised(w) && !(-0x200_0000 <= poolAddr + top - site <= 0x1FF_FFFF)
    ensures FateOk(w, w, pool, site, poolAddr, OutOfRange(top))
  {
  }

  lemma RangeHolds(offset: int)
    requires -0x200_0000 <= offset <= 0x1FF_FFFF
    ensures InBranchRange(offset)
  {
  }

  lemma NotTaken(w: bv32, pool: seq<bv32>, site: int, poolAddr: int)
    requires !Recognised(w)
    ensures FateOk(w, w, pool, site, poolAddr, Kept)
  {
  }
}
