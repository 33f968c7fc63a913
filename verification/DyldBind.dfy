/** Bind opcode streams: the interpreter of src/resolver.c, the listing decoder of
    tools/sword3_audit.py, and the flat list of binds both stand for. */
module DyldBind {
  import opened Basics
  import opened Leb128
  import opened DyldRebase

  /** One pass's variables. */
  datatype State = State(seg: nat, off: nat, ordinal: int, symbol: seq<Byte>, flags: nat, addend: int)

  const Start: State := State(0, 0, 0, [], 0, 0)

  /** The audit starts the weak stream with ordinal -3, the resolver every stream with 0. */
  function AuditStart(weak: bool): State {
    Start.(ordinal := if weak then -3 else 0)
  }

  /** One bind: where, and what to. */
  datatype Bind = Bind(place: Place, ordinal: int, symbol: seq<Byte>, flags: nat, addend: int)

  /** An addend carries its bytes, since the two readers take them differently. */
  datatype BindOp =
    | EndMark
    | Ordinal(n: nat)
    | Special(imm: nat)
    | Symbol(imm: nat, name: seq<Byte>)
    | Kind(imm: nat)
    | Addend(digits: seq<Byte>)
    | Position(index: nat, offset: nat)
    | Move(delta: nat)
    | One(delta: nat)
    | Many(count: nat, skip: nat)

  // ----- reading opcodes -----

  predicate GoodS(s: seq<Byte>) {
    Terminated(s) && Len(s) <= 10
  }

  function ReadBind(s: seq<Byte>): Option<(BindOp, nat)>
    requires s != []
  {
    var t, imm := s[1..], s[0] % 0x10;
    var n := Len(t);
    match s[0] / 0x10
    case 0 => Some((EndMark, 1))
    case 1 => Some((Ordinal(imm), 1))
    case 2 => if GoodU(t) && U(t) < 0x8000_0000 then Some((Ordinal(U(t)), 1 + n)) else None
    case 3 => Some((Special(imm), 1))
    case 4 => if StrLen(t) < |t| then Some((Symbol(imm, t[..StrLen(t)]), 2 + StrLen(t))) else None
    case 5 => Some((Kind(imm), 1))
    case 6 => if GoodS(t) then Some((Addend(t[..n]), 1 + n)) else None
    case 7 => if GoodU(t) then Some((Position(imm, U(t)), 1 + n)) else None
    case 8 => if GoodU(t) then Some((Move(U(t)), 1 + n)) else None
    case 9 => Some((One(0), 1))
    case 10 => if GoodU(t) then Some((One(U(t)), 1 + n)) else None
    case 11 => Some((One(imm * 8), 1))
    case 12 =>
      if GoodU(t) && GoodU(t[n..]) then Some((Many(U(t), U(t[n..])), 1 + n + Len(t[n..]))) else None
    case _ => None
  }

  lemma ReadBindSize(s: seq<Byte>)
    requires s != [] && ReadBind(s).Some?
    ensures 1 <= ReadBind(s).value.1 <= |s|
  {
    hide U, Terminated;
  }

  function ReadBinds(s: seq<Byte>): Option<seq<BindOp>>
    decreases |s|
  {
    if s == [] then Some([]) else
      var op := ReadBind(s);
      if op.None? then None else
        ReadBindSize(s);
        var rest := ReadBinds(s[op.value.1..]);
        if rest.None? then None else Some([op.value.0] + rest.value)
  }

  // ----- the flat list -----

  datatype Reader = Resolver | Audit

  /** The resolver takes a nonzero special ordinal for negative, whatever its top bit. */
  function SpecialOrdinal(r: Reader, imm: nat): int {
    match r
    case Resolver => if imm == 0 then 0 else imm - 0x10
    case Audit => if imm >= 8 then imm - 0x10 else imm
  }

  function AddendOf(r: Reader, digits: seq<Byte>): int {
    match r
    case Resolver => Signed64(S(digits))
    case Audit => if PySleb(digits).Some? then PySleb(digits).value else 0
  }

  function At(st: State, off: nat): Bind {
    Bind(Place(st.seg, off % TWO64), st.ordinal, st.symbol, st.flags, st.addend)
  }

  function Series(st: State, n: nat, step: nat): (b: seq<Bind>)
    ensures |b| == n
  {
    seq(n, i requires 0 <= i < n => At(st, st.off + i * step))
  }

  function Binds(op: BindOp, st: State): seq<Bind> {
    match op
    case One(_) => [At(st, st.off)]
    case Many(n, skip) => Series(st, n, skip + 8)
    case _ => []
  }

  function After(r: Reader, op: BindOp, st: State): State {
    match op
    case EndMark => st
    case Ordinal(n) => st.(ordinal := n)
    case Special(imm) => st.(ordinal := SpecialOrdinal(r, imm))
    case Symbol(imm, name) => st.(flags := imm, symbol := name)
    case Kind(_) => st
    case Addend(digits) => st.(addend := AddendOf(r, digits))
    case Position(index, offset) => st.(seg := index, off := offset % TWO64)
    case Move(delta) => st.(off := (st.off + delta) % TWO64)
    case One(delta) => st.(off := (st.off + delta + 8) % TWO64)
    case Many(n, skip) => st.(off := (st.off + n * (skip + 8)) % TWO64)
  }

  function List(r: Reader, ops: seq<BindOp>, st: State): seq<Bind>
    decreases |ops|
  {
    if ops == [] then [] else Binds(ops[0], st) + List(r, ops[1..], After(r, ops[0], st))
  }

  /** The resolver stops at an end mark, except in the lazy stream where end marks separate entries. */
  function Heard(ops: seq<BindOp>, lazy: bool): seq<BindOp> {
    if ops == [] || (ops[0].EndMark? && !lazy) then [] else [ops[0]] + Heard(ops[1..], lazy)
  }

  // ----- the interpreter of src/resolver.c -----

  /** Binds in segments that exist; the others are passed over. */
  function Known(binds: seq<Bind>, nsegs: nat): seq<Bind> {
    if binds == [] then [] else
      (if binds[0].place.segment < nsegs then [binds[0]] else []) + Known(binds[1..], nsegs)
  }

  lemma {:induction false} KnownAdd(a: seq<Bind>, b: seq<Bind>, nsegs: nat)
    ensures Known(a + b, nsegs) == Known(a, nsegs) + Known(b, nsegs)
    decreases |a|
  {
    if a == [] {
      assert a + b == b;
    } else {
      assert (a + b)[1..] == a[1..] + b;
      KnownAdd(a[1..], b, nsegs);
    }
  }

  class Binder {
    const nsegs: nat
    var st: State
    var binds: seq<Bind>

    constructor (nsegs: nat)
      ensures this.nsegs == nsegs && st == Start && binds == []
    {
      this.nsegs, st, binds := nsegs, Start, [];
    }

    /** What is done with one bind, resolving the symbol and writing the slot, is recorded here. */
    method DoBind()
      requires st.off < TWO64
      modifies this`binds
      ensures binds == old(binds) + Known([At(st, st.off)], nsegs)
    {
      SmallMod64(st.off);
      KnownOne(At(st, st.off), nsegs);
      if st.seg < nsegs {
        binds := binds + [Bind(Place(st.seg, st.off), st.ordinal, st.symbol, st.flags, st.addend)];
      } else {
        assert binds + [] == binds;
      }
    }

    method Repeat(count: nat, skip: nat)
      requires st.off < TWO64
      modifies this`binds, this`st
      ensures binds == old(binds) + Known(Series(old(st), count, skip + 8), nsegs)
      ensures st == old(st).(off := (old(st).off + count * (skip + 8)) % TWO64)
    {
      hide Known;
      KnownNone(Series(st, 0, skip + 8), nsegs);
      SmallMod64(st.off);
      for i := 0 to count
        invariant st == old(st).(off := (old(st).off + i * (skip + 8)) % TWO64)
        invariant binds == old(binds) + Known(Series(old(st), i, skip + 8), nsegs)
      {
        SeriesSnoc(old(st), i, skip + 8);
        KnownAdd(Series(old(st), i, skip + 8), [At(old(st), old(st).off + i * (skip + 8))], nsegs);
        SmallMod64(st.off);
        DoBind();
        StepMod(old(st).off, i, skip + 8);
        st := st.(off := (st.off + skip + 8) % TWO64);
      }
    }

    /** An opcode without binds. */
    method StepState(data: seq<Byte>, p: nat) returns (next: nat)
      requires p < |data| && st.off < TWO64 && data[p] / 0x10 <= 8
      modifies this`st
      ensures p < next <= |data| && st.off < TWO64
      ensures ReadBind(data[p..]).Some? ==>
        var (op, n) := ReadBind(data[p..]).value;
        && next == p + n && Binds(op, old(st)) == [] && st == After(Resolver, op, old(st))
    {
      hide U, S, Len, Terminated, Signed64, StrLen;
      var opcode: nat, imm: nat := data[p] / 0x10, data[p] % 0x10;
      next := p + 1;
      assert data[p..][1..] == data[next..];
      if opcode == 1 {
        st := st.(ordinal := imm);
      } else if opcode == 3 {
        st := st.(ordinal := if imm == 0 then 0 else imm - 0x10);
      } else if opcode == 4 {
        next := StepSymbol(data, next, imm);
      } else if opcode == 6 {
        next := StepAddend(data, next);
      } else if opcode == 2 || opcode == 7 || opcode == 8 {
        next := StepNumber(data, next, opcode, imm);
      }
    }

    method StepSymbol(data: seq<Byte>, p: nat, imm: nat) returns (next: nat)
      requires p <= |data|
      modifies this`st
      ensures p <= next <= |data| && st.off == old(st).off
      ensures var t := data[p..];
        StrLen(t) < |t| ==> next == p + StrLen(t) + 1 && st == After(Resolver, Symbol(imm, t[..StrLen(t)]), old(st))
    {
      var end := FindZero(data, p);
      assert data[p..][..end - p] == data[p..end];
      st := st.(flags := imm, symbol := data[p..end]);
      next := if end < |data| then end + 1 else end;
    }

    method StepAddend(data: seq<Byte>, p: nat) returns (next: nat)
      requires p <= |data|
      modifies this`st
      ensures p <= next <= |data| && st.off == old(st).off
      ensures var t := data[p..];
        GoodS(t) ==> next == p + Len(t) && st == After(Resolver, Addend(t[..Len(t)]), old(st))
    {
      hide U, S, Len, Terminated, Signed64;
      assert data[p..|data|] == data[p..];
      ghost var t := data[p..];
      if GoodS(t) { PrefixS(t); }
      var a;
      a, next := ReadSleb(data, p, |data|);
      st := st.(addend := a);
    }

    method StepNumber(data: seq<Byte>, p: nat, opcode: nat, imm: nat) returns (next: nat)
      requires p <= |data| && (opcode == 2 || opcode == 7 || opcode == 8) && st.off < TWO64
      modifies this`st
      ensures p <= next <= |data| && st.off < TWO64
      ensures var t := data[p..];
        GoodU(t) ==>
          && next == p + Len(t)
          && st == After(Resolver, if opcode == 2 then Ordinal(U(t)) else if opcode == 7 then Position(imm, U(t)) else Move(U(t)), old(st))
    {
      hide U, Len, Terminated;
      assert data[p..|data|] == data[p..];
      var v;
      v, next := ReadUleb(data, p, |data|);
      SmallMod64(v);
      ModSmallIf(U(data[p..]));
      if opcode == 2 {
        st := st.(ordinal := v);
      } else if opcode == 7 {
        st := st.(seg := imm, off := v);
      } else {
        st := st.(off := (st.off + v) % TWO64);
      }
    }

    /** An opcode with binds. */
    method StepBind(data: seq<Byte>, p: nat) returns (next: nat)
      requires p < |data| && st.off < TWO64 && 9 <= data[p] / 0x10 <= 12
      modifies this`st, this`binds
      ensures p < next <= |data| && st.off < TWO64
      ensures ReadBind(data[p..]).Some? ==>
        var (op, n) := ReadBind(data[p..]).value;
        && next == p + n && binds == old(binds) + Known(Binds(op, old(st)), nsegs) && st == After(Resolver, op, old(st))
    {
      hide U, Len, Terminated, Known, Series;
      var opcode: nat, imm: nat := data[p] / 0x10, data[p] % 0x10;
      next := p + 1;
      assert data[p..][1..] == data[next..] == data[next..|data|];
      if opcode == 12 {
        next := StepMany(data, next);
      } else if opcode == 10 {
        next := StepOne(data, next);
      } else {
        DoBind();
        st := st.(off := (st.off + (if opcode == 11 then imm * 8 else 0) + 8) % TWO64);
      }
    }

    method StepOne(data: seq<Byte>, p: nat) returns (next: nat)
      requires p <= |data| && st.off < TWO64
      modifies this`st, this`binds
      ensures p <= next <= |data| && st.off < TWO64
      ensures var t := data[p..];
        GoodU(t) ==>
          && next == p + Len(t) && binds == old(binds) + Known(Binds(One(U(t)), old(st)), nsegs)
          && st == After(Resolver, One(U(t)), old(st))
    {
      hide U, Len, Terminated, Known;
      assert data[p..|data|] == data[p..];
      DoBind();
      var v;
      v, next := ReadUleb(data, p, |data|);
      ModSmallIf(U(data[p..]));
      st := st.(off := (st.off + v + 8) % TWO64);
    }

    method StepMany(data: seq<Byte>, p: nat) returns (next: nat)
      requires p <= |data| && st.off < TWO64
      modifies this`st, this`binds
      ensures p <= next <= |data| && st.off < TWO64
      ensures var t := data[p..]; var u := t[Len(t)..];
        && next == p + Len(t) + Len(u)
        && (U(t) < TWO64 && U(u) < TWO64 ==>
              && binds == old(binds) + Known(Binds(Many(U(t), U(u)), old(st)), nsegs)
              && st == After(Resolver, Many(U(t), U(u)), old(st)))
    {
      hide U, Len, Terminated, Known, Series;
      assert data[p..|data|] == data[p..];
      var v, skip;
      v, next := ReadUleb(data, p, |data|);
      assert data[p..][Len(data[p..])..] == data[next..|data|];
      skip, next := ReadUleb(data, next, |data|);
      Repeat(v, skip);
    }

    /** One stream: exactly the binds of the flat list are done, in order. */
    method Run(data: seq<Byte>, lazy: bool) returns (ok: bool)
      requires st == Start && binds == []
      modifies this`st, this`binds
      ensures ReadBinds(data).Some? ==>
        ok && binds == Known(List(Resolver, Heard(ReadBinds(data).value, lazy), Start), nsegs)
    {
      hide ReadBinds, ReadBind, List, Heard, Known, Binds, After;
      var p: nat, done := 0, false;
      ok := true;
      ghost var good := ReadBinds(data).Some?;
      ghost var all := if good then Known(List(Resolver, Heard(ReadBinds(data).value, lazy), Start), nsegs) else [];
      assert data[0..] == data;
      while p < |data| && !done
        invariant p <= |data| && st.off < TWO64
        invariant good && !done ==>
          && ReadBinds(data[p..]).Some?
          && all == binds + Known(List(Resolver, Heard(ReadBinds(data[p..]).value, lazy), st), nsegs)
        invariant good && done ==> all == binds
        decreases |data| - p
      {
        if good {
          FirstBind(data, p, st, lazy, nsegs, binds);
        }
        if data[p] / 0x10 == 0 {
          done := !lazy;
          p := p + 1;
        } else if data[p] / 0x10 <= 8 {
          KnownNone([], nsegs);
          assert binds + [] == binds;
          p := StepState(data, p);
        } else if data[p] / 0x10 <= 12 {
          p := StepBind(data, p);
        } else {
          return false;
        }
      }
      if good && !done {
        LastBind(data[p..], st, lazy, nsegs);
        assert binds + [] == binds;
      }
    }
  }

  // ----- the decoder of tools/sword3_audit.py -----

  /** Every bind must lie in a segment that exists. */
  predicate Placed(binds: seq<Bind>, segs: seq<Segment>) {
    forall k :: 0 <= k < |binds| ==> Locate(binds[k].place, segs).Some?
  }

  class Auditor {
    const segs: seq<Segment>
    var st: State
    var binds: seq<Bind>

    constructor (segs: seq<Segment>, weak: bool)
      ensures this.segs == segs && st == AuditStart(weak) && binds == []
    {
      this.segs, st, binds := segs, AuditStart(weak), [];
    }

    method Emit() returns (ok: bool)
      modifies this`binds, this`st
      ensures old(st).off < TWO64 ==>
        && ok == Placed([At(old(st), old(st).off)], segs)
        && (ok ==> binds == old(binds) + [At(old(st), old(st).off)] && st == old(st).(off := (old(st).off + 8) % TWO64))
    {
      ModSmallIf(st.off);
      ghost var here := [At(st, st.off)];
      assert Placed(here, segs) <==> Locate(here[0].place, segs).Some?;
      ok := st.seg < |segs| && st.off <= segs[st.seg].vmsize;
      if ok {
        binds := binds + [Bind(Place(st.seg, st.off), st.ordinal, st.symbol, st.flags, st.addend)];
        st := st.(off := (st.off + 8) % TWO64);
      }
    }

    method Repeat(count: nat, skip: nat) returns (ok: bool)
      modifies this`binds, this`st
      ensures old(st).off < TWO64 ==>
        var l := Series(old(st), count, skip + 8);
        && ok == Placed(l, segs)
        && (ok ==> binds == old(binds) + l && st == old(st).(off := (old(st).off + count * (skip + 8)) % TWO64))
    {
      hide Placed, Series, At;
      var step := skip + 8;
      ModSmallIf(st.off);
      SeriesPlaced(st, 0, count, step, segs);
      for i := 0 to count
        invariant old(st).off < TWO64 ==>
          && st == old(st).(off := (old(st).off + i * step) % TWO64)
          && Placed(Series(old(st), i, step), segs)
          && binds == old(binds) + Series(old(st), i, step)
      {
        ghost var x := old(st).off + i * step;
        SeriesSnoc(old(st), i, step);
        SeriesPlaced(old(st), i + 1, count, step, segs);
        PlacedSnoc(Series(old(st), i, step), At(old(st), x), segs);
        AtMod(old(st), x);
        SkipMod(old(st).off, i, skip);
        ok := Emit();
        if !ok {
          return;
        }
        st := st.(off := (st.off + skip) % TWO64);
      }
      ok := true;
    }

    /** An opcode without binds. */
    method StepState(data: seq<Byte>, p: nat) returns (next: nat, ok: bool)
      requires p < |data| && data[p] / 0x10 <= 8
      modifies this`st
      ensures p < next <= |data|
      ensures ReadBind(data[p..]).Some? && old(st).off < TWO64 ==>
        var (op, n) := ReadBind(data[p..]).value;
        && ok && next == p + n && Binds(op, old(st)) == [] && st == After(Audit, op, old(st))
    {
      hide U, S, Len, Terminated, StrLen;
      var opcode: nat, imm: nat := data[p] / 0x10, data[p] % 0x10;
      next, ok := p + 1, true;
      assert data[p..][1..] == data[next..];
      ghost var t := data[next..];
      if opcode == 1 {
        st := st.(ordinal := imm);
      } else if opcode == 3 {
        st := st.(ordinal := if imm >= 8 then imm - 0x10 else imm);
      } else if opcode == 4 {
        var end := FindZero(data, next);
        if end == |data| {
          return next, false;
        }
        assert t[..end - next] == data[next..end];
        st := st.(flags := imm, symbol := data[next..end]);
        next := end + 1;
      } else if opcode == 6 {
        if GoodS(t) { PrefixS(t); }
        var a;
        a, next := PyReadSleb(data, next);
        ok := a.Some?;
        if ok {
          st := st.(addend := a.value);
        }
      } else if opcode == 2 || opcode == 7 || opcode == 8 {
        next, ok := StepNumber(data, next, opcode, imm);
      }
    }

    method StepNumber(data: seq<Byte>, p: nat, opcode: nat, imm: nat) returns (next: nat, ok: bool)
      requires p <= |data| && (opcode == 2 || opcode == 7 || opcode == 8)
      modifies this`st
      ensures p <= next <= |data|
      ensures var t := data[p..];
        GoodU(t) ==>
          && ok && next == p + Len(t)
          && st == After(Audit, if opcode == 2 then Ordinal(U(t)) else if opcode == 7 then Position(imm, U(t)) else Move(U(t)), old(st))
    {
      hide U, Len, Terminated;
      var v;
      v, next := PyReadUleb(data, p);
      ok := v.Some?;
      if ok {
        ModSmallIf(v.value);
        if opcode == 2 {
          st := st.(ordinal := v.value);
        } else if opcode == 7 {
          st := st.(seg := imm, off := v.value);
        } else {
          st := st.(off := (st.off + v.value) % TWO64);
        }
      }
    }

    /** An opcode with binds. */
    method StepBind(data: seq<Byte>, p: nat) returns (next: nat, ok: bool)
      requires p < |data| && 9 <= data[p] / 0x10 <= 12
      modifies this`st, this`binds
      ensures p < next <= |data|
      ensures ReadBind(data[p..]).Some? && old(st).off < TWO64 ==>
        var (op, n) := ReadBind(data[p..]).value;
        && ok == Placed(Binds(op, old(st)), segs)
        && (ok ==> next == p + n && binds == old(binds) + Binds(op, old(st)) && st == After(Audit, op, old(st)))
    {
      hide U, Len, Terminated, Series, Placed;
      var opcode: nat, imm: nat := data[p] / 0x10, data[p] % 0x10;
      next := p + 1;
      assert data[p..][1..] == data[next..];
      if opcode == 12 {
        next, ok := StepMany(data, next);
      } else {
        ok := Emit();
        if !ok {
          return;
        }
        var delta := 0;
        if opcode == 10 {
          var v;
          v, next := PyReadUleb(data, next);
          if v.None? {
            return next, false;
          }
          delta := v.value;
        } else if opcode == 11 {
          delta := imm * 8;
        }
        ModAdd(old(st).off + 8, delta);
        st := st.(off := (st.off + delta) % TWO64);
      }
    }

    method StepMany(data: seq<Byte>, p: nat) returns (next: nat, ok: bool)
      requires p <= |data|
      modifies this`st, this`binds
      ensures p <= next <= |data|
      ensures var t := data[p..]; var u := t[Len(t)..];
        GoodU(t) && GoodU(u) && old(st).off < TWO64 ==>
          var op := Many(U(t), U(u));
          && ok == Placed(Binds(op, old(st)), segs)
          && (ok ==> next == p + Len(t) + Len(u) && binds == old(binds) + Binds(op, old(st)) && st == After(Audit, op, old(st)))
    {
      hide U, Len, Terminated, Series, Placed;
      var v, skip;
      v, next := PyReadUleb(data, p);
      if v.None? {
        return next, false;
      }
      assert data[p..][Len(data[p..])..] == data[next..];
      skip, next := PyReadUleb(data, next);
      if skip.None? {
        return next, false;
      }
      ok := Repeat(v.value, skip.value);
    }

    /** One stream: the whole list, end marks passed over, or an error when some bind has no place. */
    method Run(data: seq<Byte>) returns (ok: bool)
      requires st.off == 0 && binds == []
      modifies this`st, this`binds
      ensures ReadBinds(data).Some? ==>
        var l := List(Audit, ReadBinds(data).value, old(st));
        ok == Placed(l, segs) && (ok ==> binds == l)
    {
      hide ReadBinds, ReadBind, List, Binds, After, Placed;
      var p: nat := 0;
      ghost var good := ReadBinds(data).Some?;
      ghost var all := if good then List(Audit, ReadBinds(data).value, st) else [];
      assert data[0..] == data;
      PlacedNone(segs);
      while p < |data|
        invariant p <= |data| && (good ==> st.off < TWO64)
        invariant good ==>
          && ReadBinds(data[p..]).Some? && Placed(binds, segs)
          && all == binds + List(Audit, ReadBinds(data[p..]).value, st)
        decreases |data| - p
      {
        if good {
          FirstAudited(data, p, st, segs, binds);
        }
        var next;
        ghost var was := st;
        if data[p] / 0x10 <= 8 {
          next, ok := StepState(data, p);
          assert binds + [] == binds;
        } else if data[p] / 0x10 <= 12 {
          next, ok := StepBind(data, p);
        } else {
          return false;
        }
        if !ok {
          return;
        }
        if good {
          OffSmall(ReadBind(data[p..]).value.0, was);
        }
        p := next;
      }
      ok := true;
      if good {
        NoneAudited(data[p..], st);
        assert binds + [] == binds;
      }
    }
  }

  lemma AtMod(st: State, x: nat)
    ensures At(st.(off := x % TWO64), x % TWO64) == At(st, x)
  {
    ModSmallIf(x % TWO64);
  }

  lemma SkipMod(off: nat, i: nat, skip: nat)
    ensures ((((off + i * (skip + 8)) % TWO64) + 8) % TWO64 + skip) % TWO64 == (off + (i + 1) * (skip + 8)) % TWO64
  {
    StepMod(off, i, skip + 8);
    ModAdd((off + i * (skip + 8)) % TWO64 + 8, skip);
  }

  lemma PlacedSnoc(a: seq<Bind>, b: Bind, segs: seq<Segment>)
    ensures Placed(a + [b], segs) <==> Placed(a, segs) && Placed([b], segs)
  {
    if Placed(a + [b], segs) {
      forall k | 0 <= k < |a| ensures Locate(a[k].place, segs).Some? {
        assert (a + [b])[k] == a[k];
      }
      assert (a + [b])[|a|] == b;
    }
    if Placed(a, segs) && Placed([b], segs) {
      assert [b][0] == b;
    }
  }

  /** A longer series is placed only if a shorter one is; the empty one is. */
  lemma SeriesPlaced(st: State, i: nat, count: nat, step: nat, segs: seq<Segment>)
    requires i <= count
    ensures i == 0 ==> Placed(Series(st, i, step), segs) && Series(st, i, step) == []
    ensures Placed(Series(st, count, step), segs) ==> Placed(Series(st, i, step), segs)
  {
    if Placed(Series(st, count, step), segs) {
      forall k | 0 <= k < i ensures Locate(Series(st, i, step)[k].place, segs).Some? {
        assert Series(st, i, step)[k] == Series(st, count, step)[k];
      }
    }
  }

  lemma PlacedNone(segs: seq<Segment>)
    ensures Placed([], segs)
  {
  }

  lemma OffSmall(op: BindOp, st: State)
    requires st.off < TWO64
    ensures After(Audit, op, st).off < TWO64
  {
  }

  lemma NoneAudited(s: seq<Byte>, st: State)
    requires s == []
    ensures ReadBinds(s) == Some([]) && List(Audit, [], st) == []
  {
  }

  lemma FirstAudited(data: seq<Byte>, p: nat, st: State, segs: seq<Segment>, before: seq<Bind>)
    requires p < |data| && ReadBinds(data[p..]).Some? && Placed(before, segs)
    ensures ReadBind(data[p..]).Some? && data[p] / 0x10 <= 12
    ensures var (op, n) := ReadBind(data[p..]).value;
      var now, whole := Binds(op, st), List(Audit, ReadBinds(data[p..]).value, st);
      && p + n <= |data| && ReadBinds(data[p + n..]).Some?
      && before + whole == before + now + List(Audit, ReadBinds(data[p + n..]).value, After(Audit, op, st))
      && (Placed(now, segs) ==> Placed(before + now, segs))
      && (!Placed(now, segs) ==> !Placed(before + whole, segs))
  {
    hide After, Binds, U, Len, Terminated, S, StrLen;
    var (op, n) := ReadBind(data[p..]).value;
    ReadBindSize(data[p..]);
    assert data[p..][n..] == data[p + n..];
    var ops, rest := ReadBinds(data[p..]).value, ReadBinds(data[p + n..]).value;
    assert ops == [op] + rest && ops[1..] == rest;
    var now, tail := Binds(op, st), List(Audit, rest, After(Audit, op, st));
    assert List(Audit, ops, st) == now + tail;
    assert before + (now + tail) == before + now + tail;
    if !Placed(now, segs) {
      var k :| 0 <= k < |now| && Locate(now[k].place, segs).None?;
      assert (before + (now + tail))[|before| + k] == now[k];
    }
  }

  // ----- the two against each other -----

  /** What a bind says apart from its library and its addend. */
  function Where(binds: seq<Bind>): (r: seq<(Place, seq<Byte>, nat)>)
    ensures |r| == |binds|
  {
    seq(|binds|, k requires 0 <= k < |binds| => (binds[k].place, binds[k].symbol, binds[k].flags))
  }

  predicate SameSpot(a: State, b: State) {
    a.seg == b.seg && a.off == b.off && a.symbol == b.symbol && a.flags == b.flags
  }

  lemma SpotStep(op: BindOp, a: State, b: State)
    requires SameSpot(a, b)
    ensures Where(Binds(op, a)) == Where(Binds(op, b)) && SameSpot(After(Resolver, op, a), After(Audit, op, b))
  {
  }

  lemma WhereAdd(a: seq<Bind>, b: seq<Bind>)
    ensures Where(a + b) == Where(a) + Where(b)
  {
  }

  /** Both lists of one stream have the same places, symbols and flags. */
  lemma {:induction false} SameWhere(ops: seq<BindOp>, a: State, b: State)
    requires SameSpot(a, b)
    ensures Where(List(Resolver, ops, a)) == Where(List(Audit, ops, b))
    decreases |ops|
  {
    hide Where, Binds, After, SameSpot;
    if ops != [] {
      SpotStep(ops[0], a, b);
      WhereAdd(Binds(ops[0], a), List(Resolver, ops[1..], After(Resolver, ops[0], a)));
      WhereAdd(Binds(ops[0], b), List(Audit, ops[1..], After(Audit, ops[0], b)));
      SameWhere(ops[1..], After(Resolver, ops[0], a), After(Audit, ops[0], b));
    }
  }

  /** Whether an operation binds anything. */
  predicate Names(op: BindOp) {
    op.One? || (op.Many? && op.count > 0)
  }

  predicate Quiet(ops: seq<BindOp>) {
    forall k :: 0 <= k < |ops| ==> !Names(ops[k])
  }

  lemma BindsNamed(op: BindOp, st: State)
    ensures Binds(op, st) == [] <==> !Names(op)
  {
  }

  lemma {:induction false} ListQuiet(ops: seq<BindOp>, st: State)
    ensures List(Audit, ops, st) == [] <==> Quiet(ops)
    decreases |ops|
  {
    hide Binds, After, Names;
    if ops != [] {
      BindsNamed(ops[0], st);
      ListQuiet(ops[1..], After(Audit, ops[0], st));
      assert Quiet(ops) <==> !Names(ops[0]) && Quiet(ops[1..]) by {
        assert forall k :: 0 < k < |ops| ==> ops[k] == ops[1..][k - 1];
      }
    }
  }

  /** The operations heard come first, and name everything exactly when the rest name nothing. */
  lemma {:induction false} HeardFirst(ops: seq<BindOp>, lazy: bool, st: State)
    ensures |Heard(ops, lazy)| <= |ops| && (lazy ==> Heard(ops, lazy) == ops)
    ensures List(Audit, Heard(ops, lazy), st) <= List(Audit, ops, st)
    ensures |List(Audit, Heard(ops, lazy), st)| == |List(Audit, ops, st)| <==> Quiet(ops[|Heard(ops, lazy)|..])
    decreases |ops|
  {
    hide Binds, After, Names, Quiet;
    if ops == [] || (ops[0].EndMark? && !lazy) {
      ListQuiet(ops, st);
      assert ops[0..] == ops;
    } else {
      HeardFirst(ops[1..], lazy, After(Audit, ops[0], st));
      assert ([ops[0]] + Heard(ops[1..], lazy))[1..] == Heard(ops[1..], lazy);
      assert ops[1..][|Heard(ops[1..], lazy)|..] == ops[|Heard(ops, lazy)|..];
    }
  }

  /** The operations the two readers take the same way. */
  predicate Agreed(op: BindOp) {
    match op
    case Special(imm) => imm == 0 || imm >= 8
    case Addend(d) => Len(d) < 10 || 0 <= S(d) < TWO63
    case _ => true
  }

  lemma {:induction false} SignedRange(s: seq<Byte>)
    requires s != []
    ensures Len(s) > 0 && -0x40 * Power(Len(s) - 1) <= S(s) < 0x40 * Power(Len(s) - 1)
    decreases |s|
  {
    if s[0] >= 0x80 && |s| > 1 {
      SignedRange(s[1..]);
    } else {
      assert Power(0) == 1;
    }
  }

  /** Exactly these: a special ordinal from 1 to 7 is negative only to the resolver, and an addend in ten
      bytes that is negative or does not fit comes out differently. */
  lemma AgreedExactly(op: BindOp, st: State)
    requires op.Special? ==> op.imm < 0x10
    requires op.Addend? ==> GoodS(op.digits)
    ensures After(Resolver, op, st) == After(Audit, op, st) <==> Agreed(op)
  {
    if op.Addend? {
      AddendAgrees(op.digits);
    }
  }

  lemma AddendAgrees(d: seq<Byte>)
    requires GoodS(d)
    ensures AddendOf(Resolver, d) == AddendOf(Audit, d) <==> Len(d) < 10 || 0 <= S(d) < TWO63
  {
    SignedRange(d);
    assert Power(8) == 0x100_0000_0000_0000 && Power(9) == TWO63 && Power(10) == TWO70;
    if Len(d) < 10 {
      PowerGrows(Len(d) - 1, 8);
    } else {
      SignedDigits(d);
      UnsignedDigits(d);
    }
  }

  lemma {:induction false} PowerGrows(m: nat, n: nat)
    requires m <= n
    ensures Power(m) <= Power(n)
    decreases n
  {
    if m < n {
      PowerGrows(m, n - 1);
    }
  }

  /** The operations a reader can produce. */
  predicate WellRead(op: BindOp) {
    (op.Special? ==> op.imm < 0x10) && (op.Addend? ==> GoodS(op.digits))
  }

  lemma ReadWell(s: seq<Byte>)
    requires s != [] && ReadBind(s).Some?
    ensures WellRead(ReadBind(s).value.0)
  {
    hide U, S, StrLen;
    if s[0] / 0x10 == 6 && GoodS(s[1..]) {
      PrefixS(s[1..]);
    }
  }

  lemma {:induction false} AllWellRead(s: seq<Byte>)
    requires ReadBinds(s).Some?
    ensures forall k :: 0 <= k < |ReadBinds(s).value| ==> WellRead(ReadBinds(s).value[k])
    decreases |s|
  {
    hide ReadBind, WellRead;
    if s != [] {
      ReadWell(s);
      ReadBindSize(s);
      AllWellRead(s[ReadBind(s).value.1..]);
    }
  }

  /** The library in force after an operation is the same to both readers if it was before, or was set
      anew, and not by a special ordinal from 1 to 7. */
  predicate LibraryAlike(op: BindOp, before: bool) {
    if op.Ordinal? then true else if op.Special? then Agreed(op) else before
  }

  predicate AddendAlike(op: BindOp, before: bool) {
    if op.Addend? then Agreed(op) else before
  }

  /** Whenever something is bound, the library and the addend in force are such. */
  predicate Alike(ops: seq<BindOp>, library: bool, addend: bool)
    decreases |ops|
  {
    ops == [] ||
    ((Names(ops[0]) ==> library && addend)
    && Alike(ops[1..], LibraryAlike(ops[0], library), AddendAlike(ops[0], addend)))
  }

  lemma AlikeStep(op: BindOp, a: State, b: State)
    requires WellRead(op) && SameSpot(a, b)
    ensures var x, y := After(Resolver, op, a), After(Audit, op, b);
      && SameSpot(x, y)
      && (x.ordinal == y.ordinal <==> LibraryAlike(op, a.ordinal == b.ordinal))
      && (x.addend == y.addend <==> AddendAlike(op, a.addend == b.addend))
    ensures Binds(op, a) == Binds(op, b) <==> (Names(op) ==> a.ordinal == b.ordinal && a.addend == b.addend)
  {
    hide Terminated, S, Len, PySleb;
    AgreedExactly(op, a);
    if Names(op) {
      assert Binds(op, a)[0] == At(a, a.off + 0) && Binds(op, b)[0] == At(b, b.off + 0);
    }
  }

  /** The lists of one stream are equal exactly then. */
  lemma {:induction false} ListsAlike(ops: seq<BindOp>, a: State, b: State)
    requires SameSpot(a, b) && forall k :: 0 <= k < |ops| ==> WellRead(ops[k])
    ensures List(Resolver, ops, a) == List(Audit, ops, b) <==> Alike(ops, a.ordinal == b.ordinal, a.addend == b.addend)
    decreases |ops|
  {
    hide WellRead, After, Binds, Names, LibraryAlike, AddendAlike, SameSpot;
    if ops != [] {
      AlikeStep(ops[0], a, b);
      BindsSize(ops[0], a, b);
      var x, y := After(Resolver, ops[0], a), After(Audit, ops[0], b);
      ListsAlike(ops[1..], x, y);
      FrontEqual(Binds(ops[0], a), List(Resolver, ops[1..], x), Binds(ops[0], b), List(Audit, ops[1..], y));
    }
  }

  lemma BindsSize(op: BindOp, a: State, b: State)
    ensures |Binds(op, a)| == |Binds(op, b)|
  {
  }

  lemma FrontEqual(a: seq<Bind>, c: seq<Bind>, b: seq<Bind>, d: seq<Bind>)
    requires |a| == |b|
    ensures a + c == b + d <==> a == b && c == d
  {
    if a + c == b + d {
      assert a == (a + c)[..|a|] && b == (b + d)[..|b|];
      assert c == (a + c)[|a|..] && d == (b + d)[|b|..];
    }
  }

  lemma {:induction false} AllKnown(binds: seq<Bind>, segs: seq<Segment>)
    requires Placed(binds, segs)
    ensures Known(binds, |segs|) == binds
    decreases |binds|
  {
    if binds != [] {
      AllKnown(binds[1..], segs);
    }
  }

  /** On every well-formed stream the audit accepts, the resolver does a prefix of the listed binds: the
      same places, symbols and flags in the same order. It does all of them exactly when the stream is
      the lazy one or no operation from the first end mark on binds anything. Library and addend are
      the same too exactly when those in force at each bind are taken alike, where a weak stream starts
      with different libraries. */
  lemma BindsAgree(s: seq<Byte>, segs: seq<Segment>, lazy: bool, weak: bool)
    requires ReadBinds(s).Some? && Placed(List(Audit, ReadBinds(s).value, AuditStart(weak)), segs)
    ensures var ops := ReadBinds(s).value;
      var done := Known(List(Resolver, Heard(ops, lazy), Start), |segs|);
      var listed := List(Audit, ops, AuditStart(weak));
      && |Heard(ops, false)| <= |ops| && |done| <= |listed|
      && Where(done) == Where(listed[..|done|])
      && (|done| == |listed| <==> lazy || Quiet(ops[|Heard(ops, false)|..]))
      && (done == listed[..|done|] <==> Alike(Heard(ops, lazy), !weak, true))
  {
    hide List, ReadBinds, ReadBind, Heard, Known, Alike, Where, Quiet, Placed, WellRead;
    var ops := ReadBinds(s).value;
    var start := AuditStart(weak);
    var heard := Heard(ops, lazy);
    var listed, mine, front := List(Audit, ops, start), List(Resolver, heard, Start), List(Audit, heard, start);
    HeardFirst(ops, lazy, start);
    HeardFirst(ops, false, start);
    SameWhere(heard, Start, start);
    FrontKnown(mine, front, listed, segs);
    assert listed[..|front|] == front;
    AllWellRead(s);
    HeardWell(ops, lazy);
    ListsAlike(heard, Start, start);
    if lazy {
      assert mine == List(Resolver, ops, Start);
    }
  }

  lemma {:induction false} HeardWell(ops: seq<BindOp>, lazy: bool)
    requires forall k :: 0 <= k < |ops| ==> WellRead(ops[k])
    ensures forall k :: 0 <= k < |Heard(ops, lazy)| ==> WellRead(Heard(ops, lazy)[k])
    decreases |ops|
  {
    hide WellRead;
    if ops != [] {
      HeardWell(ops[1..], lazy);
    }
  }

  lemma FrontKnown(mine: seq<Bind>, front: seq<Bind>, listed: seq<Bind>, segs: seq<Segment>)
    requires Where(mine) == Where(front) && front <= listed && Placed(listed, segs)
    ensures |mine| == |front| && Known(mine, |segs|) == mine
  {
    hide Known;
    assert |Where(mine)| == |Where(front)|;
    forall k | 0 <= k < |mine| ensures Locate(mine[k].place, segs).Some? {
      assert mine[k].place == Where(mine)[k].0 == Where(front)[k].0;
      assert front[k] == listed[k];
    }
    AllKnown(mine, segs);
  }

  /** `strlen`, stopping at the end of the data. */
  method FindZero(data: seq<Byte>, p: nat) returns (end: nat)
    requires p <= |data|
    ensures p <= end <= |data| && end == p + StrLen(data[p..])
  {
    end := p;
    while end < |data| && data[end] != 0
      invariant p <= end <= |data| && p + StrLen(data[p..]) == end + StrLen(data[end..])
    {
      assert data[end..][1..] == data[end + 1..];
      end := end + 1;
    }
  }

  lemma KnownOne(b: Bind, nsegs: nat)
    ensures Known([b], nsegs) == if b.place.segment < nsegs then [b] else []
  {
    assert [b][1..] == [];
  }

  lemma KnownNone(b: seq<Bind>, nsegs: nat)
    requires b == []
    ensures Known(b, nsegs) == []
  {
  }

  lemma SeriesSnoc(st: State, n: nat, step: nat)
    ensures Series(st, n + 1, step) == Series(st, n, step) + [At(st, st.off + n * step)]
  {
  }

  /** A signed number is read the same from the bytes it takes alone. */
  lemma {:induction false} PrefixS(s: seq<Byte>)
    requires Terminated(s)
    ensures S(s[..Len(s)]) == S(s) && Len(s[..Len(s)]) == Len(s) && Terminated(s[..Len(s)]) && U(s[..Len(s)]) == U(s)
    decreases |s|
  {
    if s[0] >= 0x80 {
      var t := s[1..];
      assert t[Len(t) - 1] == s[Len(s) - 1];
      PrefixS(t);
      assert s[..Len(s)][1..] == t[..Len(t)];
    }
  }

  lemma FirstBind(data: seq<Byte>, p: nat, st: State, lazy: bool, nsegs: nat, before: seq<Bind>)
    requires p < |data| && ReadBinds(data[p..]).Some?
    ensures ReadBind(data[p..]).Some? && data[p] / 0x10 <= 12
    ensures var (op, n) := ReadBind(data[p..]).value;
      var whole := Known(List(Resolver, Heard(ReadBinds(data[p..]).value, lazy), st), nsegs);
      && (data[p] / 0x10 == 0 <==> op.EndMark?)
      && p + n <= |data| && ReadBinds(data[p + n..]).Some?
      && var rest := Known(List(Resolver, Heard(ReadBinds(data[p + n..]).value, lazy), After(Resolver, op, st)), nsegs);
      && (if op.EndMark? && !lazy then before + whole == before
          else before + whole == before + Known(Binds(op, st), nsegs) + rest)
      && (op.EndMark? ==> n == 1 && After(Resolver, op, st) == st && before + Known(Binds(op, st), nsegs) == before)
  {
    hide After, Known, U, Len, Terminated, S, StrLen;
    var (op, n) := ReadBind(data[p..]).value;
    ReadBindSize(data[p..]);
    assert data[p..][n..] == data[p + n..];
    var ops, rest := ReadBinds(data[p..]).value, ReadBinds(data[p + n..]).value;
    assert ops == [op] + rest && ops[1..] == rest;
    KnownNone([], nsegs);
    assert before + [] == before;
    EndState(op, st);
    if !(op.EndMark? && !lazy) {
      var tail := List(Resolver, Heard(rest, lazy), After(Resolver, op, st));
      assert Heard(ops, lazy) == [op] + Heard(rest, lazy);
      assert ([op] + Heard(rest, lazy))[1..] == Heard(rest, lazy);
      assert List(Resolver, Heard(ops, lazy), st) == Binds(op, st) + tail;
      KnownAdd(Binds(op, st), tail, nsegs);
      assert before + (Known(Binds(op, st), nsegs) + Known(tail, nsegs)) == before + Known(Binds(op, st), nsegs) + Known(tail, nsegs);
    }
  }

  lemma EndState(op: BindOp, st: State)
    ensures op.EndMark? ==> After(Resolver, op, st) == st
  {
  }

  lemma LastBind(s: seq<Byte>, st: State, lazy: bool, nsegs: nat)
    requires s == []
    ensures ReadBinds(s) == Some([]) && Known(List(Resolver, Heard([], lazy), st), nsegs) == []
  {
  }
}
