/** Two cores that agree but for some dead bytes of memory: executing the same instruction on both keeps
    them so, as long as it does not read dead bytes; what it writes comes back to life. */
module DeadBytes {
  import opened BitFields
  import opened A64Memory
  import opened A64
  import opened StackFrame
  import opened Interleaving

  ghost predicate AgreeBut(m: Memory, m': Memory, dead: iset<int>) {
    forall b: int :: b !in dead ==> At(m, b) == At(m', b)
  }

  /** Everything but memory is the same. */
  ghost predicate Alike(o: State, p: State) {
    SameCore(o, p) && o.monitor == p.monitor
  }

  ghost predicate Alive(a: int, n: int, dead: iset<int>) {
    forall b: int :: Within(b, a, n) ==> b !in dead
  }

  // ----- what an instruction reads and writes -----

  datatype Span = Span(at: int, size: int)

  function Reads(i: Instr, s: State): Span {
    match i
    case LdrPost(_, rn, _) => Span(Base(s, rn), 8)
    case LdrQPost(_, rn, _) => Span(Base(s, rn), 16)
    case LoadEx(size, _, _, rn) => Span(Base(s, rn), Bytes(size))
    case LoadAcquire(size, _, _, rn) => Span(Base(s, rn), Bytes(size))
    case Lse(_, size, _, _, _, _, rn) => Span(Base(s, rn), Bytes(size))
    case _ => Span(0, 0)
  }

  /** An atomic writes what it has read, so it revives nothing. */
  function Writes(i: Instr, s: State): Span {
    match i
    case StrPre(_, rn, imm) => Span(Wrap(Base(s, rn) + imm), 8)
    case StrQPre(_, rn, imm) => Span(Wrap(Base(s, rn) + imm), 16)
    case StoreEx(size, _, _, _, rn) =>
      if s.monitor == Exclusive(Base(s, rn), size) then Span(Base(s, rn), Bytes(size)) else Span(0, 0)
    case _ => Span(0, 0)
  }

  ghost function Revived(i: Instr, s: State, dead: iset<int>): iset<int> {
    iset b: int | b in dead && !Within(b, Writes(i, s).at, Writes(i, s).size)
  }

  // ----- memory -----

  lemma LoadAlike(m: Memory, m': Memory, a: int, size: Size, dead: iset<int>)
    requires AgreeBut(m, m', dead) && Alive(a, Bytes(size), dead)
    ensures Load(m, a, size) == Load(m', a, size)
  {
    hide Load, At, Within;
    LoadSame(m, m', a, size);
  }

  lemma InSpan(a: int, i: int, n: int)
    requires 0 <= i < n <= 16
    ensures Within(a + i, a, n)
  {
  }

  lemma LoadVecAlike(m: Memory, m': Memory, a: int, dead: iset<int>)
    requires AgreeBut(m, m', dead) && Alive(a, 16, dead)
    ensures LoadVec(m, a) == LoadVec(m', a)
  {
    hide At, Within;
    var v, v' := LoadVec(m, a), LoadVec(m', a);
    forall i | 0 <= i < 16 ensures v[i] == v'[i] {
      assert Within(a + i, a, 16) by { InSpan(a, i, 16); }
    }
  }

  lemma StoreAlike(m: Memory, m': Memory, a: int, size: Size, v: int, dead: iset<int>)
    requires AgreeBut(m, m', dead)
    ensures AgreeBut(Store(m, a, size, v), Store(m', a, size, v), dead)
    ensures AgreeBut(Store(m, a, size, v), Store(m', a, size, v), iset b: int | b in dead && !Within(b, a, Bytes(size)))
  {
    hide Store, At, Within;
    forall b: int | b !in dead ensures At(Store(m, a, size, v), b) == At(Store(m', a, size, v), b) {
      StoreAgree(m, m', a, size, v, b);
    }
    forall b: int | Within(b, a, Bytes(size)) ensures At(Store(m, a, size, v), b) == At(Store(m', a, size, v), b) {
      StoreCovers(m, m', a, size, v, b);
    }
  }

  /** A store decides the bytes it covers. */
  lemma StoreCovers(m: Memory, m': Memory, a: int, size: Size, v: int, b: int)
    requires Within(b, a, Bytes(size))
    ensures At(Store(m, a, size, v), b) == At(Store(m', a, size, v), b)
  {
    hide Store2, Store4, Store8, Put, At;
    match size
    case Byte => PutCovers(m, m', a, Bits8(v), b);
    case Half => Store2Covers(m, m', a, v, b);
    case Word => Store4Covers(m, m', a, v, b);
    case Dword => Store8Covers(m, m', a, v, b);
  }

  lemma PutCovers(m: Memory, m': Memory, a: int, v: bv8, b: int)
    requires Within(b, a, 1)
    ensures At(Put(m, a, v), b) == At(Put(m', a, v), b)
  {
    SameAddress(b, a);
  }

  lemma SameAddress(b: int, a: int)
    requires Wrap(b - a) == 0
    ensures Wrap(b) == Wrap(a)
  {
    assert b == a + TWO64 * ((b - a) / TWO64);
  }

  /** The first k of n bytes, or the rest. */
  lemma SplitSpan(b: int, a: int, k: int, n: int)
    requires 0 < k < n <= 16 && Within(b, a, n)
    ensures Within(b, a, k) || Within(b, a + k, n - k)
  {
    if !Within(b, a, k) {
      var q := (b - a) / TWO64;
      assert b - a == TWO64 * q + Wrap(b - a);
      assert b - (a + k) == TWO64 * q + (Wrap(b - a) - k);
    }
  }

  lemma Store2Covers(m: Memory, m': Memory, a: int, v: int, b: int)
    requires Within(b, a, 2)
    ensures At(Store2(m, a, v), b) == At(Store2(m', a, v), b)
  {
    hide Put, At, Within;
    SplitSpan(b, a, 1, 2);
    if Within(b, a + 1, 1) {
      PutCovers(Store1(m, a, v), Store1(m', a, v), a + 1, Bits8(v / TWO8), b);
    } else {
      PutCovers(m, m', a, Bits8(v), b);
      PutAgree(Store1(m, a, v), Store1(m', a, v), a + 1, Bits8(v / TWO8), b);
    }
  }

  lemma Store4Covers(m: Memory, m': Memory, a: int, v: int, b: int)
    requires Within(b, a, 4)
    ensures At(Store4(m, a, v), b) == At(Store4(m', a, v), b)
  {
    hide Store2, At, Within;
    SplitSpan(b, a, 2, 4);
    if Within(b, a + 2, 2) {
      Store2Covers(Store2(m, a, v), Store2(m', a, v), a + 2, v / TWO16, b);
    } else {
      Store2Covers(m, m', a, v, b);
      Store2Agree(Store2(m, a, v), Store2(m', a, v), a + 2, v / TWO16, b);
    }
  }

  lemma Store8Covers(m: Memory, m': Memory, a: int, v: int, b: int)
    requires Within(b, a, 8)
    ensures At(Store8(m, a, v), b) == At(Store8(m', a, v), b)
  {
    hide Store4, At, Within;
    SplitSpan(b, a, 4, 8);
    if Within(b, a + 4, 4) {
      Store4Covers(Store4(m, a, v), Store4(m', a, v), a + 4, v / TWO32, b);
    } else {
      Store4Covers(m, m', a, v, b);
      Store4Agree(Store4(m, a, v), Store4(m', a, v), a + 4, v / TWO32, b);
    }
  }

  lemma {:induction false} StoreVecAlike(m: Memory, m': Memory, a: int, bytes: seq<bv8>, dead: iset<int>)
    requires AgreeBut(m, m', dead) && |bytes| <= 16
    ensures AgreeBut(StoreVec(m, a, bytes), StoreVec(m', a, bytes), dead)
    decreases |bytes|
  {
    hide At, Put;
    if bytes != [] {
      forall b: int | b !in dead ensures At(Put(m, a, bytes[0]), b) == At(Put(m', a, bytes[0]), b) {
        PutAgree(m, m', a, bytes[0], b);
      }
      StoreVecAlike(Put(m, a, bytes[0]), Put(m', a, bytes[0]), a + 1, bytes[1..], dead);
    }
  }

  lemma {:induction false} StoreVecCovers(m: Memory, m': Memory, a: int, bytes: seq<bv8>, dead: iset<int>)
    requires AgreeBut(m, m', dead) && |bytes| <= 16
    ensures AgreeBut(StoreVec(m, a, bytes), StoreVec(m', a, bytes), iset b: int | b in dead && !Within(b, a, |bytes|))
    decreases |bytes|
  {
    hide At, Put, Within;
    if bytes == [] {
      NothingWithin(a);
    } else {
      var m1, m1', rest := Put(m, a, bytes[0]), Put(m', a, bytes[0]), bytes[1..];
      var dead1 := iset b: int | b in dead && !Within(b, a, 1);
      forall b: int | b !in dead1 ensures At(m1, b) == At(m1', b) {
        if Within(b, a, 1) {
          PutCovers(m, m', a, bytes[0], b);
        } else {
          PutAgree(m, m', a, bytes[0], b);
        }
      }
      StoreVecCovers(m1, m1', a + 1, rest, dead1);
      var left := iset b: int | b in dead1 && !Within(b, a + 1, |rest|);
      forall b: int | b in left ensures b in dead && !Within(b, a, |bytes|) {
        if Within(b, a, |bytes|) && |rest| > 0 { SplitSpan(b, a, 1, |bytes|); }
      }
      LessDead(StoreVec(m1, a + 1, rest), StoreVec(m1', a + 1, rest), left, iset b: int | b in dead && !Within(b, a, |bytes|));
    }
  }

  lemma LessDead(m: Memory, m': Memory, dead: iset<int>, more: iset<int>)
    requires AgreeBut(m, m', dead) && dead <= more
    ensures AgreeBut(m, m', more)
  {
    hide At;
  }

  lemma NothingWithin(a: int)
    ensures forall b: int :: !Within(b, a, 0)
  {
  }

  // ----- registers -----

  lemma SetXReads(s: State, r: int, v: U64)
    ensures forall k :: X(SetX(s, r, v), k) == if r != ZR && k == r then v else X(s, k)
    ensures forall k :: Q(SetX(s, r, v), k) == Q(s, k)
  {
    SameQ(SetX(s, r, v), s);
  }

  lemma SetQReads(s: State, r: int, v: Vec)
    ensures forall k :: Q(SetQ(s, r, v), k) == if k == r then v else Q(s, k)
    ensures forall k :: X(SetQ(s, r, v), k) == X(s, k)
  {
    SameX(SetQ(s, r, v), s);
  }

  /** Changes of anything but registers. */
  lemma FieldsAlike(o: State, p: State, m: Memory, m': Memory, f: Flags, mon: Monitor, n: int)
    requires Alike(o, p)
    ensures Alike(Advance(o.(mem := m, flags := f, monitor := mon), n), Advance(p.(mem := m', flags := f, monitor := mon), n))
  {
    hide X, Q;
    var o1, p1 := Advance(o.(mem := m, flags := f, monitor := mon), n), Advance(p.(mem := m', flags := f, monitor := mon), n);
    SameX(o, o1);
    SameX(p, p1);
    SameQ(o, o1);
    SameQ(p, p1);
  }

  lemma SetXAlike(o: State, p: State, r: int, v: U64)
    requires Alike(o, p)
    ensures Alike(SetX(o, r, v), SetX(p, r, v))
  {
    SetXReads(o, r, v);
    SetXReads(p, r, v);
    hide X, Q;
  }

  lemma SetQAlike(o: State, p: State, r: int, v: Vec)
    requires Alike(o, p)
    ensures Alike(SetQ(o, r, v), SetQ(p, r, v))
  {
    SetQReads(o, r, v);
    SetQReads(p, r, v);
    hide X, Q;
  }

  lemma SetBaseAlike(o: State, p: State, r: int, v: U64)
    requires Alike(o, p)
    ensures Alike(SetBase(o, r, v), SetBase(p, r, v))
  {
    if r == ZR {
      hide X, Q;
      SameX(o, SetBase(o, r, v));
      SameX(p, SetBase(p, r, v));
      SameQ(o, SetBase(o, r, v));
      SameQ(p, SetBase(p, r, v));
    } else {
      SetXAlike(o, p, r, v);
    }
  }

  /** One general register and anything but registers change. */
  lemma PutAlike(o: State, p: State, m: Memory, m': Memory, f: Flags, mon: Monitor, n: int, r: int, v: U64)
    requires Alike(o, p)
    ensures Alike(Advance(SetX(o.(mem := m, flags := f, monitor := mon), r, v), n),
                  Advance(SetX(p.(mem := m', flags := f, monitor := mon), r, v), n))
  {
    hide Alike;
    FieldsAlike(o, p, m, m', f, mon, n);
    SetXAlike(Advance(o.(mem := m, flags := f, monitor := mon), n), Advance(p.(mem := m', flags := f, monitor := mon), n), r, v);
  }

  // ----- one instruction -----

  lemma SameFields(o: State, p: State)
    requires Alike(o, p)
    ensures (forall r :: X(o, r) == X(p, r)) && (forall r :: Base(o, r) == Base(p, r)) && (forall r :: Q(o, r) == Q(p, r))
    ensures o.sp == p.sp && o.flags == p.flags && o.pc == p.pc && o.monitor == p.monitor
  {
  }

  predicate Stores(i: Instr) {
    i.StrPre? || i.StrQPre? || i.StoreEx? || i.Lse?
  }

  predicate Loads(i: Instr) {
    i.LdrPost? || i.LdrQPost? || i.LoadEx? || i.LoadAcquire?
  }

  /** The same instruction keeps two such states alike, and memory the same but for the bytes that stay
      dead. */
  lemma StepAlike(i: Instr, o: State, p: State, dead: iset<int>)
    requires Alike(o, p) && AgreeBut(o.mem, p.mem, dead) && Alive(Reads(i, p).at, Reads(i, p).size, dead)
    ensures Alike(Exec(i, o), Exec(i, p))
    ensures AgreeBut(Exec(i, o).mem, Exec(i, p).mem, Revived(i, p, dead))
  {
    hide Alike, AgreeBut, Exec, Alive, Reads, Revived;
    if Stores(i) {
      StoringAlike(i, o, p, dead);
    } else if Loads(i) {
      LoadingAlike(i, o, p, dead);
    } else {
      QuietAlike(i, o, p, dead);
    }
  }

  lemma NothingRevived(i: Instr, p: State, dead: iset<int>)
    requires Writes(i, p).size == 0
    ensures Revived(i, p, dead) == dead
  {
    hide Writes;
    assert forall b: int :: !Within(b, Writes(i, p).at, 0) by { NothingWithin(Writes(i, p).at); }
  }

  lemma RevivedIs(i: Instr, p: State, dead: iset<int>, a: int, n: int)
    requires Writes(i, p) == Span(a, n)
    ensures Revived(i, p, dead) == iset b: int | b in dead && !Within(b, a, n)
  {
    hide Writes, Within;
  }

  /** The instructions that set a general register and perhaps flags. */
  predicate Computes(i: Instr) {
    i.MrsNzcv? || i.AddReg? || i.LogicReg? || i.Subs? || i.Csel? || i.Sxt?
  }

  lemma QuietAlike(i: Instr, o: State, p: State, dead: iset<int>)
    requires Alike(o, p) && AgreeBut(o.mem, p.mem, dead) && !Stores(i) && !Loads(i)
    ensures Alike(Exec(i, o), Exec(i, p)) && AgreeBut(Exec(i, o).mem, Exec(i, p).mem, Revived(i, p, dead))
  {
    hide Exec, AgreeBut, Alike, Revived;
    NothingRevived(i, p, dead);
    if Computes(i) {
      ComputeAlike(i, o, p);
    } else {
      PlainAlike(i, o, p);
    }
  }

  lemma ComputeAlike(i: Instr, o: State, p: State)
    requires Alike(o, p) && Computes(i)
    ensures Alike(Exec(i, o), Exec(i, p)) && Exec(i, o).mem == o.mem && Exec(i, p).mem == p.mem
  {
    hide Logical, CompareFlags, Holds, FlagsWord, SignExtended, Alike, X, Q, SetX, SetQ, Wrap;
    SameFields(o, p);
    SetXMem(o);
    SetXMem(p);
    var m, m', f, mon := o.mem, p.mem, p.flags, p.monitor;
    match i
    case MrsNzcv(rt) => PutAlike(o, p, m, m', f, mon, 1, rt, FlagsWord(f));
    case AddReg(is64, rd, rn, rm) => PutAlike(o, p, m, m', f, mon, 1, rd, Wrap((X(p, rn) + X(p, rm)) % Width(is64)));
    case LogicReg(op, is64, rd, rn, rm) =>
      PutAlike(o, p, m, m', f, mon, 1, rd, Wrap(Logical(op, X(p, rn), X(p, rm), Width(is64))));
    case Subs(_, _, _, _) => SubsAlike(i, o, p);
    case Csel(is64, rd, rn, rm, cond) =>
      PutAlike(o, p, m, m', f, mon, 1, rd, Wrap((if Holds(cond, f) then X(p, rn) else X(p, rm)) % Width(is64)));
    case Sxt(from, rd, rn) =>
      if from.Byte? || from.Half? { PutAlike(o, p, m, m', f, mon, 1, rd, Wrap(SignExtended(from, X(p, rn)))); }
  }

  lemma SubsAlike(i: Instr, o: State, p: State)
    requires Alike(o, p) && i.Subs?
    ensures Alike(Exec(i, o), Exec(i, p)) && Exec(i, o).mem == o.mem && Exec(i, p).mem == p.mem
  {
    hide CompareFlags, Alike, X, Q, SetX;
    SameFields(o, p);
    var r := Width(i.is64);
    var a, b := X(p, i.rn) % r, X(p, i.rm) % r;
    var f := CompareFlags(r, a, b);
    SetXMem(o.(flags := f));
    SetXMem(p.(flags := f));
    PutAlike(o, p, o.mem, p.mem, f, p.monitor, 1, i.rd, Wrap((a - b) % r));
  }

  /** Flag moves, branches and vector instructions. */
  lemma PlainAlike(i: Instr, o: State, p: State)
    requires Alike(o, p) && !Computes(i) && !Loads(i) && !Stores(i)
    ensures Alike(Exec(i, o), Exec(i, p)) && Exec(i, o).mem == o.mem && Exec(i, p).mem == p.mem
  {
    hide Holds, WordFlags, VecBic, VecEor, Alike, X, Q, SetX, SetQ;
    SameFields(o, p);
    SetXMem(o);
    SetXMem(p);
    var m, m', f, mon := o.mem, p.mem, p.flags, p.monitor;
    match i
    case MsrNzcv(rt) => FieldsAlike(o, p, m, m', WordFlags(X(p, rt)), mon, 1);
    case Clrex => FieldsAlike(o, p, m, m', f, Open, 1);
    case BranchIf(cond, offset) => FieldsAlike(o, p, m, m', f, mon, if Holds(cond, f) then offset else 1);
    case Cbnz(rt, offset) => FieldsAlike(o, p, m, m', f, mon, if X(p, rt) % TWO32 != 0 then offset else 1);
    case Branch(offset) => FieldsAlike(o, p, m, m', f, mon, offset);
    case VBic(vd, vn, vm) => PutQAlike(o, p, vd, VecBic(Q(p, vn), Q(p, vm)));
    case VEor(vd, vn, vm) => PutQAlike(o, p, vd, VecEor(Q(p, vn), Q(p, vm)));
    case Bcax(vd, vn, vm, va) => PutQAlike(o, p, vd, VecEor(Q(p, vn), VecBic(Q(p, vm), Q(p, va))));
    case Unmodelled(_) =>
  }

  lemma SetXMem(s: State)
    ensures forall r: int, v: U64 :: SetX(s, r, v).mem == s.mem
    ensures forall r: int, v: Vec :: SetQ(s, r, v).mem == s.mem
  {
  }

  lemma PutQAlike(o: State, p: State, r: int, v: Vec)
    requires Alike(o, p)
    ensures Alike(Advance(SetQ(o, r, v), 1), Advance(SetQ(p, r, v), 1))
  {
    hide Alike;
    SetQAlike(o, p, r, v);
    var o1, p1 := SetQ(o, r, v), SetQ(p, r, v);
    FieldsAlike(o1, p1, o1.mem, p1.mem, p.flags, p.monitor, 1);
    SameFields(o, p);
  }

  lemma LoadingAlike(i: Instr, o: State, p: State, dead: iset<int>)
    requires Alike(o, p) && AgreeBut(o.mem, p.mem, dead) && Loads(i) && Alive(Reads(i, p).at, Reads(i, p).size, dead)
    ensures Alike(Exec(i, o), Exec(i, p)) && AgreeBut(Exec(i, o).mem, Exec(i, p).mem, Revived(i, p, dead))
  {
    hide Load, LoadVec, AgreeBut, Alive, Alike, X, Q, SetX, SetQ, SetBase, Base, Revived;
    SameFields(o, p);
    NothingRevived(i, p, dead);
    match i
    case LdrPost(rt, rn, imm) =>
      LoadAlike(o.mem, p.mem, Base(p, rn), Dword, dead);
      PopAlike(o, p, rn, Wrap(Base(p, rn) + imm), rt, Wrap(Load(p.mem, Base(p, rn), Dword)));
    case LdrQPost(vt, rn, imm) =>
      LoadVecAlike(o.mem, p.mem, Base(p, rn), dead);
      PopQAlike(o, p, rn, Wrap(Base(p, rn) + imm), vt, LoadVec(p.mem, Base(p, rn)));
    case LoadEx(size, _, rt, rn) =>
      LoadAlike(o.mem, p.mem, Base(p, rn), size, dead);
      var mon := Exclusive(Base(p, rn), size);
      SetXMem(o.(monitor := mon));
      SetXMem(p.(monitor := mon));
      PutAlike(o, p, o.mem, p.mem, p.flags, mon, 1, rt, Wrap(Load(p.mem, Base(p, rn), size)));
    case LoadAcquire(size, _, rt, rn) =>
      LoadAlike(o.mem, p.mem, Base(p, rn), size, dead);
      SetXMem(o);
      SetXMem(p);
      PutAlike(o, p, o.mem, p.mem, p.flags, p.monitor, 1, rt, Wrap(Load(p.mem, Base(p, rn), size)));
  }

  /** Base and destination of a post-indexed load. */
  lemma PopAlike(o: State, p: State, rn: int, a: U64, rt: int, v: U64)
    requires Alike(o, p)
    ensures var o1, p1 := Advance(SetX(SetBase(o, rn, a), rt, v), 1), Advance(SetX(SetBase(p, rn, a), rt, v), 1);
      Alike(o1, p1) && o1.mem == o.mem && p1.mem == p.mem
  {
    var o1, p1 := SetBase(o, rn, a), SetBase(p, rn, a);
    SetBaseAlike(o, p, rn, a);
    SameFields(o1, p1);
    PutAlike(o1, p1, o1.mem, p1.mem, p1.flags, p1.monitor, 1, rt, v);
    hide Alike;
  }

  lemma PopQAlike(o: State, p: State, rn: int, a: U64, vt: int, v: Vec)
    requires Alike(o, p)
    ensures var o1, p1 := Advance(SetQ(SetBase(o, rn, a), vt, v), 1), Advance(SetQ(SetBase(p, rn, a), vt, v), 1);
      Alike(o1, p1) && o1.mem == o.mem && p1.mem == p.mem
  {
    SetBaseAlike(o, p, rn, a);
    PutQAlike(SetBase(o, rn, a), SetBase(p, rn, a), vt, v);
    hide Alike;
  }

  /** A store with the base updated. */
  lemma PushAlike(o: State, p: State, rn: int, a: U64, m: Memory, m': Memory)
    requires Alike(o, p)
    ensures var o1, p1 := Advance(SetBase(o.(mem := m), rn, a), 1), Advance(SetBase(p.(mem := m'), rn, a), 1);
      Alike(o1, p1) && o1.mem == m && p1.mem == m'
  {
    SameFields(o, p);
    FieldsAlike(o, p, m, m', p.flags, p.monitor, 1);
    SetBaseAlike(Advance(o.(mem := m), 1), Advance(p.(mem := m'), 1), rn, a);
    hide Alike;
  }

  lemma StoringAlike(i: Instr, o: State, p: State, dead: iset<int>)
    requires Alike(o, p) && AgreeBut(o.mem, p.mem, dead) && Stores(i) && Alive(Reads(i, p).at, Reads(i, p).size, dead)
    ensures Alike(Exec(i, o), Exec(i, p)) && AgreeBut(Exec(i, o).mem, Exec(i, p).mem, Revived(i, p, dead))
  {
    hide Store, StoreVec, Load, AgreeBut, Rmw, Alive, Alike, X, Q, Base, SetBase, SetX, Revived, Within;
    SameFields(o, p);
    match i
    case StrPre(rt, rn, imm) =>
      var a := Wrap(Base(p, rn) + imm);
      StoreAlike(o.mem, p.mem, a, Dword, X(p, rt), dead);
      RevivedIs(i, p, dead, a, Bytes(Dword));
      PushAlike(o, p, rn, a, Store(o.mem, a, Dword, X(p, rt)), Store(p.mem, a, Dword, X(p, rt)));
    case StrQPre(vt, rn, imm) =>
      var a := Wrap(Base(p, rn) + imm);
      StoreVecCovers(o.mem, p.mem, a, Q(p, vt), dead);
      RevivedIs(i, p, dead, a, 16);
      PushAlike(o, p, rn, a, StoreVec(o.mem, a, Q(p, vt)), StoreVec(p.mem, a, Q(p, vt)));
    case StoreEx(_, _, _, _, _) => StoreExAlike(i, o, p, dead);
    case Lse(_, _, _, _, _, _, _) => LseAlike(i, o, p, dead);
  }

  lemma StoreExAlike(i: Instr, o: State, p: State, dead: iset<int>)
    requires Alike(o, p) && AgreeBut(o.mem, p.mem, dead) && i.StoreEx?
    ensures Alike(Exec(i, o), Exec(i, p)) && AgreeBut(Exec(i, o).mem, Exec(i, p).mem, Revived(i, p, dead))
  {
    hide Store, AgreeBut, Alike, X, Q, Base, SetX, Revived, Within;
    SameFields(o, p);
    var a, v := Base(p, i.rn), X(p, i.rt);
    var m, m' := Store(o.mem, a, i.size, v), Store(p.mem, a, i.size, v);
    if p.monitor == Exclusive(a, i.size) {
      StoreAlike(o.mem, p.mem, a, i.size, v, dead);
      RevivedIs(i, p, dead, a, Bytes(i.size));
      SetXMem(o.(monitor := Open, mem := m));
      SetXMem(p.(monitor := Open, mem := m'));
      PutAlike(o, p, m, m', p.flags, Open, 1, i.rs, 0);
    } else {
      NothingRevived(i, p, dead);
      SetXMem(o.(monitor := Open));
      SetXMem(p.(monitor := Open));
      PutAlike(o, p, o.mem, p.mem, p.flags, Open, 1, i.rs, 1);
    }
  }

  lemma LseAlike(i: Instr, o: State, p: State, dead: iset<int>)
    requires Alike(o, p) && AgreeBut(o.mem, p.mem, dead) && i.Lse? && Alive(Base(p, i.rn), Bytes(i.size), dead)
    ensures Alike(Exec(i, o), Exec(i, p)) && AgreeBut(Exec(i, o).mem, Exec(i, p).mem, Revived(i, p, dead))
  {
    hide Store, Load, AgreeBut, Rmw, Alive, Alike, X, Q, Base, SetX;
    SameFields(o, p);
    var a := Base(p, i.rn);
    LoadAlike(o.mem, p.mem, a, i.size, dead);
    var was := Load(p.mem, a, i.size);
    StoreAlike(o.mem, p.mem, a, i.size, X(p, i.rt), dead);
    StoreAlike(o.mem, p.mem, a, i.size, Rmw(i.lse, i.size, was, X(p, i.rs)), dead);
    NothingRevived(i, p, dead);
    var m, m' := LseMemory(i, o), LseMemory(i, p);
    SetXMem(o.(mem := m));
    SetXMem(p.(mem := m'));
    PutAlike(o, p, m, m', p.flags, p.monitor, 1, LseDest(i), was % TWO64);
  }
}
