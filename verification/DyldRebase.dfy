/** Rebase opcode streams: the run-length interpreter of src/resolver.c, which adds the slide to words in
    memory, the listing decoder of tools/sword3_audit.py, and the flat list both stand for. */
module DyldRebase {
  import opened Basics
  import opened Leb128
  import opened ByteMemory
  import EhFrame

  datatype Segment = Segment(vmaddr: nat, vmsize: nat)

  datatype Op =
    | Done
    | SetType(kind: nat)
    | SetSegment(index: nat, offset: nat)
    | AddAddr(delta: nat)
    | Times(count: nat)
    | OnceAdd(delta: nat)
    | TimesSkip(count: nat, skip: nat)

  // ----- reading opcodes -----

  /** A number of at most ten bytes that fits 64 bits. */
  predicate GoodU(s: seq<Byte>) {
    Terminated(s) && Len(s) <= 10 && U(s) < TWO64
  }

  /** The operation at the front of s and the bytes it takes. */
  function ReadOp(s: seq<Byte>): Option<(Op, nat)>
    requires s != []
  {
    var t, imm := s[1..], s[0] % 0x10;
    var n := Len(t);
    match s[0] / 0x10
    case 0 => Some((Done, 1))
    case 1 => Some((SetType(imm), 1))
    case 2 => if GoodU(t) then Some((SetSegment(imm, U(t)), 1 + n)) else None
    case 3 => if GoodU(t) then Some((AddAddr(U(t)), 1 + n)) else None
    case 4 => Some((AddAddr(imm * 8), 1))
    case 5 => Some((Times(imm), 1))
    case 6 => if GoodU(t) then Some((Times(U(t)), 1 + n)) else None
    case 7 => if GoodU(t) then Some((OnceAdd(U(t)), 1 + n)) else None
    case 8 =>
      if GoodU(t) && GoodU(t[n..]) then Some((TimesSkip(U(t), U(t[n..])), 1 + n + Len(t[n..]))) else None
    case _ => None
  }

  lemma ReadOpSize(s: seq<Byte>)
    requires s != [] && ReadOp(s).Some?
    ensures 1 <= ReadOp(s).value.1 <= |s|
  {
  }

  /** A well-formed stream, read to the end of its data. */
  function ReadOps(s: seq<Byte>): Option<seq<Op>>
    decreases |s|
  {
    if s == [] then Some([]) else
      var op := ReadOp(s);
      if op.None? then None else
        ReadOpSize(s);
        var rest := ReadOps(s[op.value.1..]);
        if rest.None? then None else Some([op.value.0] + rest.value)
  }

  // ----- the flat list -----

  datatype Place = Place(segment: nat, offset: nat)

  /** n places, a fixed step apart. */
  function Row(seg: nat, off: nat, n: nat, step: nat): (r: seq<Place>)
    ensures |r| == n
  {
    seq(n, i requires 0 <= i < n => Place(seg, (off + i * step) % TWO64))
  }

  function Places(op: Op, seg: nat, off: nat): seq<Place> {
    match op
    case Times(n) => Row(seg, off, n, 8)
    case OnceAdd(_) => [Place(seg, off % TWO64)]
    case TimesSkip(n, skip) => Row(seg, off, n, skip + 8)
    case _ => []
  }

  function SegmentAfter(op: Op, seg: nat): nat {
    if op.SetSegment? then op.index else seg
  }

  function OffsetAfter(op: Op, off: nat): nat {
    match op
    case SetSegment(_, offset) => offset % TWO64
    case AddAddr(delta) => (off + delta) % TWO64
    case Times(n) => (off + n * 8) % TWO64
    case OnceAdd(delta) => (off + delta + 8) % TWO64
    case TimesSkip(n, skip) => (off + n * (skip + 8)) % TWO64
    case _ => off
  }

  /** Everything a stream names, in order and with multiplicity. */
  function Flat(ops: seq<Op>, seg: nat, off: nat): seq<Place> {
    if ops == [] then [] else Places(ops[0], seg, off) + Flat(ops[1..], SegmentAfter(ops[0], seg), OffsetAfter(ops[0], off))
  }

  /** The operations before the first end mark. */
  function UpToDone(ops: seq<Op>): seq<Op> {
    if ops == [] || ops[0].Done? then [] else [ops[0]] + UpToDone(ops[1..])
  }

  // ----- memory -----

  /** The 64-bit word at a. */
  function Load(mem: Memory, a: nat): nat {
    EhFrame.FromLe(Read(mem, a, 8))
  }

  function Store(mem: Memory, a: nat, v: nat): Memory {
    Put(mem, Write(a, EhFrame.Le(v, 8)))
  }

  lemma LoadStore(mem: Memory, a: nat, v: nat)
    requires v < TWO64
    ensures Load(Store(mem, a, v), a) == v
  {
    hide EhFrame.Le, EhFrame.FromLe;
    assert Read(Store(mem, a, v), a, 8) == EhFrame.Le(v, 8);
    EhFrame.LeWords(v);
  }

  lemma LoadElsewhere(mem: Memory, a: nat, v: nat, b: nat)
    requires a + 8 <= b || b + 8 <= a
    ensures Load(Store(mem, a, v), b) == Load(mem, b)
  {
    hide EhFrame.Le, EhFrame.FromLe;
    assert Read(Store(mem, a, v), b, 8) == Read(mem, b, 8);
  }

  /** `*loc += slide` */
  function Slide(mem: Memory, a: nat, slide: nat): Memory {
    Store(mem, a, (Load(mem, a) + slide) % TWO64)
  }

  function SlideAll(mem: Memory, addrs: seq<nat>, slide: nat): Memory {
    if addrs == [] then mem else SlideAll(Slide(mem, addrs[0], slide), addrs[1..], slide)
  }

  /** Run-time addresses of the places in known segments. */
  function Targets(places: seq<Place>, segs: seq<Segment>, slide: nat): seq<nat> {
    if places == [] then [] else
      var p := places[0];
      (if p.segment < |segs| then [(segs[p.segment].vmaddr + slide + p.offset) % TWO64] else [])
      + Targets(places[1..], segs, slide)
  }

  lemma {:induction false} TargetsAdd(a: seq<Place>, b: seq<Place>, segs: seq<Segment>, slide: nat)
    ensures Targets(a + b, segs, slide) == Targets(a, segs, slide) + Targets(b, segs, slide)
    decreases |a|
  {
    if a == [] {
      assert a + b == b;
    } else {
      assert (a + b)[1..] == a[1..] + b;
      TargetsAdd(a[1..], b, segs, slide);
    }
  }

  lemma {:induction false} SlideAllAdd(mem: Memory, a: seq<nat>, b: seq<nat>, slide: nat)
    ensures SlideAll(mem, a + b, slide) == SlideAll(SlideAll(mem, a, slide), b, slide)
    decreases |a|
  {
    if a == [] {
      assert a + b == b;
    } else {
      assert (a + b)[1..] == a[1..] + b;
      SlideAllAdd(Slide(mem, a[0], slide), a[1..], b, slide);
    }
  }

  // ----- the interpreter of src/resolver.c -----

  class Rebaser {
    const segs: seq<Segment>
    const slide: nat
    var mem: Memory
    var applied: nat
    var seg: nat
    var off: nat

    constructor (segs: seq<Segment>, slide: nat, mem: Memory)
      ensures this.segs == segs && this.slide == slide && this.mem == mem
      ensures applied == 0 && seg == 0 && off == 0
    {
      this.segs, this.slide, this.mem := segs, slide, mem;
      applied, seg, off := 0, 0, 0;
    }

    /** A segment that does not exist is passed over. */
    method Touch()
      modifies this`mem, this`applied
      ensures var t := Targets([Place(seg, off)], segs, slide);
        mem == SlideAll(old(mem), t, slide) && applied == old(applied) + |t|
    {
      if seg < |segs| {
        var a := (segs[seg].vmaddr + slide + off) % TWO64;
        mem := Slide(mem, a, slide);
        applied := applied + 1;
        assert Targets([Place(seg, off)], segs, slide) == [a];
        assert SlideAll(old(mem), [a], slide) == SlideAll(Slide(old(mem), a, slide), [], slide);
      }
    }

    method Repeat(count: nat, step: nat)
      requires off < TWO64
      modifies this`mem, this`applied, this`off
      ensures var t := Targets(Row(seg, old(off), count, step), segs, slide);
        mem == SlideAll(old(mem), t, slide) && applied == old(applied) + |t|
      ensures off == (old(off) + count * step) % TWO64
    {
      hide Targets, SlideAll;
      RowNone(seg, off, step, segs, slide, mem);
      for i := 0 to count
        invariant off == (old(off) + i * step) % TWO64
        invariant mem == SlideAll(old(mem), Targets(Row(seg, old(off), i, step), segs, slide), slide)
        invariant applied == old(applied) + |Targets(Row(seg, old(off), i, step), segs, slide)|
      {
        RowSnoc(seg, old(off), i, step);
        TargetsAdd(Row(seg, old(off), i, step), [Place(seg, off)], segs, slide);
        SlideAllAdd(old(mem), Targets(Row(seg, old(off), i, step), segs, slide), Targets([Place(seg, off)], segs, slide), slide);
        Touch();
        StepMod(old(off), i, step);
        off := (off + step) % TWO64;
      }
    }

    /** The run of a counted opcode whose operands start at p. */
    method RunTimes(data: seq<Byte>, p: nat) returns (next: nat)
      requires p <= |data| && off < TWO64
      modifies this`mem, this`applied, this`off
      ensures p <= next <= |data| && off < TWO64 && next == p + Len(data[p..])
      ensures U(data[p..]) < TWO64 ==>
        var t := Targets(Places(Times(U(data[p..])), seg, old(off)), segs, slide);
        && mem == SlideAll(old(mem), t, slide) && applied == old(applied) + |t|
        && off == OffsetAfter(Times(U(data[p..])), old(off))
    {
      hide U, Len, Row, Targets, SlideAll;
      assert data[p..|data|] == data[p..];
      var v;
      v, next := ReadUleb(data, p, |data|);
      Repeat(v, 8);
    }

    method RunOnce(data: seq<Byte>, p: nat) returns (next: nat)
      requires p <= |data| && off < TWO64
      modifies this`mem, this`applied, this`off
      ensures p <= next <= |data| && off < TWO64 && next == p + Len(data[p..])
      ensures U(data[p..]) < TWO64 ==>
        var t := Targets(Places(OnceAdd(U(data[p..])), seg, old(off)), segs, slide);
        && mem == SlideAll(old(mem), t, slide) && applied == old(applied) + |t|
        && off == OffsetAfter(OnceAdd(U(data[p..])), old(off))
    {
      hide U, Len, Targets, SlideAll;
      assert data[p..|data|] == data[p..];
      SmallMod64(off);
      Touch();
      var v;
      v, next := ReadUleb(data, p, |data|);
      off := (off + v + 8) % TWO64;
    }

    method RunSkip(data: seq<Byte>, p: nat) returns (next: nat)
      requires p <= |data| && off < TWO64
      modifies this`mem, this`applied, this`off
      ensures p <= next <= |data| && off < TWO64
      ensures var t := data[p..]; var u := t[Len(t)..];
        && next == p + Len(t) + Len(u)
        && (U(t) < TWO64 && U(u) < TWO64 ==>
              var a := Targets(Places(TimesSkip(U(t), U(u)), seg, old(off)), segs, slide);
              && mem == SlideAll(old(mem), a, slide) && applied == old(applied) + |a|
              && off == OffsetAfter(TimesSkip(U(t), U(u)), old(off)))
    {
      hide U, Len, Row, Targets, SlideAll;
      assert data[p..|data|] == data[p..];
      var v, skip;
      v, next := ReadUleb(data, p, |data|);
      assert data[p..][Len(data[p..])..] == data[next..|data|];
      skip, next := ReadUleb(data, next, |data|);
      Repeat(v, skip + 8);
    }

    /** One opcode. */
    method Step(data: seq<Byte>, p: nat) returns (next: nat, stop: bool, ok: bool)
      requires p < |data| && off < TWO64
      modifies this`mem, this`applied, this`seg, this`off
      ensures p < next <= |data| && off < TWO64
      ensures ReadOp(data[p..]).Some? ==>
        var (op, n) := ReadOp(data[p..]).value;
        var t := Targets(Places(op, old(seg), old(off)), segs, slide);
        && ok && next == p + n && stop == op.Done?
        && mem == SlideAll(old(mem), t, slide) && applied == old(applied) + |t|
        && seg == SegmentAfter(op, old(seg)) && off == OffsetAfter(op, old(off))
    {
      hide ReadOp, Targets, SlideAll, Places, OffsetAfter, SegmentAfter;
      stop, ok := data[p] / 0x10 == 0, data[p] / 0x10 <= 8;
      StopIsDone(data[p..]);
      if data[p] / 0x10 < 5 {
        next := StepState(data, p);
      } else if ok {
        next := StepEmit(data, p);
      } else {
        next := p + 1;
      }
    }

    /** The opcodes that only set or move the position. */
    method StepState(data: seq<Byte>, p: nat) returns (next: nat)
      requires p < |data| && off < TWO64 && data[p] / 0x10 < 5
      modifies this`seg, this`off
      ensures p < next <= |data| && off < TWO64
      ensures ReadOp(data[p..]).Some? ==>
        var (op, n) := ReadOp(data[p..]).value;
        && next == p + n && Targets(Places(op, old(seg), old(off)), segs, slide) == [] && SlideAll(mem, [], slide) == mem
        && seg == SegmentAfter(op, old(seg)) && off == OffsetAfter(op, old(off))
    {
      hide U, Len, Terminated, Row, Targets, SlideAll;
      var imm := data[p] % 0x10;
      next := p + 1;
      assert data[p..][1..] == data[p + 1..] == data[p + 1..|data|];
      SlideNothing(mem, segs, slide);
      if data[p] / 0x10 == 2 {
        seg := imm;
        off, next := ReadUleb(data, next, |data|);
        SmallMod64(off);
      } else if data[p] / 0x10 == 3 {
        var v;
        v, next := ReadUleb(data, next, |data|);
        off := (off + v) % TWO64;
      } else if data[p] / 0x10 == 4 {
        off := (off + imm * 8) % TWO64;
      }
    }

    /** The opcodes that touch memory. */
    method StepEmit(data: seq<Byte>, p: nat) returns (next: nat)
      requires p < |data| && off < TWO64 && 5 <= data[p] / 0x10 <= 8
      modifies this`mem, this`applied, this`off
      ensures p < next <= |data| && off < TWO64
      ensures ReadOp(data[p..]).Some? ==>
        var (op, n) := ReadOp(data[p..]).value;
        var t := Targets(Places(op, seg, old(off)), segs, slide);
        && next == p + n && seg == SegmentAfter(op, seg)
        && mem == SlideAll(old(mem), t, slide) && applied == old(applied) + |t|
        && off == OffsetAfter(op, old(off))
    {
      hide U, Len, Terminated, Row, Targets, SlideAll;
      var opcode := data[p] / 0x10;
      next := p + 1;
      assert data[p..][1..] == data[p + 1..];
      if opcode == 5 {
        Repeat(data[p] % 0x10, 8);
      } else if opcode == 6 {
        next := RunTimes(data, next);
      } else if opcode == 7 {
        next := RunOnce(data, next);
      } else {
        next := RunSkip(data, next);
      }
    }

    /** The whole stream: what the flat list before the first end mark names is slid, each as often as it
        is named, and nothing else happens. */
    method Run(data: seq<Byte>) returns (ok: bool)
      requires seg == 0 && off == 0 && applied == 0
      modifies this`mem, this`applied, this`seg, this`off
      ensures ReadOps(data).Some? ==>
        var t := Targets(Flat(UpToDone(ReadOps(data).value), 0, 0), segs, slide);
        ok && mem == SlideAll(old(mem), t, slide) && applied == |t|
    {
      hide ReadOps, ReadOp, Flat, UpToDone, Targets, SlideAll;
      var p: nat, done := 0, false;
      ok := true;
      ghost var good := ReadOps(data).Some?;
      ghost var all := if good then Targets(Flat(UpToDone(ReadOps(data).value), 0, 0), segs, slide) else [];
      assert data[0..] == data;
      while p < |data| && !done
        invariant p <= |data| && off < TWO64
        invariant good && !done ==>
          && ReadOps(data[p..]).Some?
          && var rest := Targets(Flat(UpToDone(ReadOps(data[p..]).value), seg, off), segs, slide);
             SlideAll(mem, rest, slide) == SlideAll(old(mem), all, slide) && applied + |rest| == |all|
        invariant good && done ==> mem == SlideAll(old(mem), all, slide) && applied == |all|
        decreases |data| - p
      {
        if good {
          FirstOp(data, p, seg, off, segs, slide, mem);
        }
        var next, stop, fine := Step(data, p);
        if !fine {
          return false;
        }
        p, done := next, stop;
      }
      if good && !done {
        LastOp(data, p, seg, off, segs, slide, mem);
      }
    }
  }

  lemma StopIsDone(s: seq<Byte>)
    requires s != []
    ensures ReadOp(s).Some? ==> s[0] / 0x10 <= 8 && (s[0] / 0x10 == 0 <==> ReadOp(s).value.0.Done?)
  {
    hide U, Len, Terminated;
  }

  lemma SmallMod64(v: nat)
    requires v < TWO64
    ensures v % TWO64 == v
  {
  }

  lemma SlideNothing(mem: Memory, segs: seq<Segment>, slide: nat)
    ensures Targets([], segs, slide) == [] && SlideAll(mem, [], slide) == mem
  {
  }

  lemma FirstOp(data: seq<Byte>, p: nat, seg: nat, off: nat, segs: seq<Segment>, slide: nat, mem: Memory)
    requires p < |data| && ReadOps(data[p..]).Some?
    ensures ReadOp(data[p..]).Some?
    ensures var (op, n) := ReadOp(data[p..]).value;
      var now := Targets(Places(op, seg, off), segs, slide);
      var whole := Targets(Flat(UpToDone(ReadOps(data[p..]).value), seg, off), segs, slide);
      && p + n <= |data| && ReadOps(data[p + n..]).Some?
      && var rest := Targets(Flat(UpToDone(ReadOps(data[p + n..]).value), SegmentAfter(op, seg), OffsetAfter(op, off)), segs, slide);
      if op.Done? then now == [] && whole == [] && SlideAll(mem, [], slide) == mem
      else |whole| == |now| + |rest| && SlideAll(mem, whole, slide) == SlideAll(SlideAll(mem, now, slide), rest, slide)
  {
    hide ReadOp, Places, SegmentAfter, OffsetAfter, Targets;
    var (op, n) := ReadOp(data[p..]).value;
    ReadOpSize(data[p..]);
    assert data[p..][n..] == data[p + n..];
    var ops, rest := ReadOps(data[p..]).value, ReadOps(data[p + n..]).value;
    assert ops == [op] + rest && ops[1..] == rest;
    SlideNothing(mem, segs, slide);
    DoneNothing(op, seg, off);
    if !op.Done? {
      var tail := Flat(UpToDone(rest), SegmentAfter(op, seg), OffsetAfter(op, off));
      assert UpToDone(ops) == [op] + UpToDone(rest);
      assert ([op] + UpToDone(rest))[1..] == UpToDone(rest);
      assert Flat(UpToDone(ops), seg, off) == Places(op, seg, off) + tail;
      TargetsAdd(Places(op, seg, off), tail, segs, slide);
      SlideAllAdd(mem, Targets(Places(op, seg, off), segs, slide), Targets(tail, segs, slide), slide);
    }
  }

  lemma DoneNothing(op: Op, seg: nat, off: nat)
    ensures op.Done? ==> Places(op, seg, off) == []
  {
  }

  lemma LastOp(data: seq<Byte>, p: nat, seg: nat, off: nat, segs: seq<Segment>, slide: nat, mem: Memory)
    requires p == |data|
    ensures ReadOps(data[p..]) == Some([])
    ensures Targets(Flat(UpToDone([]), seg, off), segs, slide) == [] && SlideAll(mem, [], slide) == mem
  {
  }

  lemma RowNone(seg: nat, off: nat, step: nat, segs: seq<Segment>, slide: nat, mem: Memory)
    ensures SlideAll(mem, Targets(Row(seg, off, 0, step), segs, slide), slide) == mem
    ensures Targets(Row(seg, off, 0, step), segs, slide) == []
  {
  }

  lemma RowSnoc(seg: nat, off: nat, n: nat, step: nat)
    ensures Row(seg, off, n + 1, step) == Row(seg, off, n, step) + [Place(seg, (off + n * step) % TWO64)]
  {
  }

  lemma StepMod(off: nat, i: nat, step: nat)
    ensures ((off + i * step) % TWO64 + step) % TWO64 == (off + (i + 1) * step) % TWO64
  {
    ModAdd(off + i * step, step);
    assert off + i * step + step == off + (i + 1) * step;
  }

  // ----- what the interpreter leaves in memory -----

  predicate FarApart(addrs: seq<nat>) {
    forall j, k :: 0 <= j < k < |addrs| ==> addrs[j] + 8 <= addrs[k] || addrs[k] + 8 <= addrs[j]
  }

  /** When the words do not overlap each gets the slide once, and every other byte keeps its value. */
  lemma {:induction false} SlideAllWords(mem: Memory, addrs: seq<nat>, slide: nat)
    requires FarApart(addrs)
    ensures forall k :: 0 <= k < |addrs| ==> Load(SlideAll(mem, addrs, slide), addrs[k]) == (Load(mem, addrs[k]) + slide) % TWO64
    ensures forall x: nat :: (forall k :: 0 <= k < |addrs| ==> !(addrs[k] <= x < addrs[k] + 8)) ==> SlideAll(mem, addrs, slide)(x) == mem(x)
    decreases |addrs|
  {
    hide Load, Store;
    if addrs != [] {
      var a, rest, mem1 := addrs[0], addrs[1..], Slide(mem, addrs[0], slide);
      SlideAllWords(mem1, rest, slide);
      var out := SlideAll(mem1, rest, slide);
      forall x: nat | forall k :: 0 <= k < |addrs| ==> !(addrs[k] <= x < addrs[k] + 8) ensures out(x) == mem(x) {
        SlideByte(mem, a, slide, x);
        assert !(addrs[0] <= x < addrs[0] + 8);
        forall k | 0 <= k < |rest| ensures !(rest[k] <= x < rest[k] + 8) {
          assert rest[k] == addrs[k + 1];
        }
      }
      forall k | 0 <= k < |addrs| ensures Load(out, addrs[k]) == (Load(mem, addrs[k]) + slide) % TWO64 {
        if k == 0 {
          forall j | 0 <= j < |rest| ensures rest[j] + 8 <= a || a + 8 <= rest[j] {
            assert rest[j] == addrs[j + 1];
          }
          WordKept(mem1, rest, slide, a);
          LoadStore(mem, a, (Load(mem, a) + slide) % TWO64);
        } else {
          assert rest[k - 1] == addrs[k];
          LoadElsewhere(mem, a, (Load(mem, a) + slide) % TWO64, addrs[k]);
        }
      }
    }
  }

  lemma SlideByte(mem: Memory, a: nat, slide: nat, x: nat)
    ensures !(a <= x < a + 8) ==> Slide(mem, a, slide)(x) == mem(x)
  {
  }

  lemma {:induction false} WordKept(mem: Memory, addrs: seq<nat>, slide: nat, b: nat)
    requires forall k :: 0 <= k < |addrs| ==> addrs[k] + 8 <= b || b + 8 <= addrs[k]
    ensures Load(SlideAll(mem, addrs, slide), b) == Load(mem, b)
    decreases |addrs|
  {
    hide Load, Store;
    if addrs != [] {
      LoadElsewhere(mem, addrs[0], (Load(mem, addrs[0]) + slide) % TWO64, b);
      WordKept(Slide(mem, addrs[0], slide), addrs[1..], slide, b);
    }
  }

  // ----- the decoder of tools/sword3_audit.py -----

  /** A place must lie in a segment that exists, at most at its end. */
  function Locate(p: Place, segs: seq<Segment>): Option<nat> {
    if p.segment < |segs| && p.offset <= segs[p.segment].vmsize then Some(segs[p.segment].vmaddr + p.offset) else None
  }

  function Listing(places: seq<Place>, segs: seq<Segment>): Option<seq<nat>> {
    if places == [] then Some([]) else
      var a, rest := Locate(places[0], segs), Listing(places[1..], segs);
      if a.None? || rest.None? then None else Some([a.value] + rest.value)
  }

  lemma {:induction false} ListingAdd(a: seq<Place>, b: seq<Place>, segs: seq<Segment>)
    ensures Listing(a + b, segs) ==
      if Listing(a, segs).None? || Listing(b, segs).None? then None
      else Some(Listing(a, segs).value + Listing(b, segs).value)
    decreases |a|
  {
    if a == [] {
      assert a + b == b;
      if Listing(b, segs).Some? {
        assert [] + Listing(b, segs).value == Listing(b, segs).value;
      }
    } else {
      assert (a + b)[1..] == a[1..] + b;
      ListingAdd(a[1..], b, segs);
      if Listing(a, segs).Some? && Listing(b, segs).Some? {
        var x := Locate(a[0], segs).value;
        assert [x] + Listing(a[1..], segs).value + Listing(b, segs).value ==
               [x] + (Listing(a[1..], segs).value + Listing(b, segs).value);
      }
    }
  }

  class Lister {
    const segs: seq<Segment>
    var events: seq<nat>
    var seg: nat
    var off: nat

    constructor (segs: seq<Segment>)
      ensures this.segs == segs && events == [] && seg == 0 && off == 0
    {
      this.segs, events, seg, off := segs, [], 0, 0;
    }

    /** One event; the position moves on by a pointer. */
    method Emit() returns (ok: bool)
      modifies this`events, this`off
      ensures var a := Locate(Place(seg, old(off)), segs);
        && ok == a.Some? && events == old(events) + (if ok then [a.value] else [])
        && (ok ==> off == (old(off) + 8) % TWO64)
    {
      ok := seg < |segs| && off <= segs[seg].vmsize;
      if ok {
        events := events + [segs[seg].vmaddr + off];
        off := (off + 8) % TWO64;
      }
    }

    method Repeat(count: nat, skip: nat) returns (ok: bool)
      modifies this`events, this`off
      ensures old(off) < TWO64 ==>
        var l := Listing(Row(seg, old(off), count, skip + 8), segs);
        && ok == l.Some?
        && (ok ==> events == old(events) + l.value && off == (old(off) + count * (skip + 8)) % TWO64)
    {
      hide Listing;
      ListingNone(Row(seg, off, 0, skip + 8), segs);
      ModSmallIf(off);
      for i := 0 to count
        invariant old(off) < TWO64 ==>
          && off == (old(off) + i * (skip + 8)) % TWO64
          && Listing(Row(seg, old(off), i, skip + 8), segs).Some?
          && events == old(events) + Listing(Row(seg, old(off), i, skip + 8), segs).value
      {
        RowSnoc(seg, old(off), i, skip + 8);
        ListingAdd(Row(seg, old(off), i, skip + 8), [Place(seg, off)], segs);
        ListingOne(Place(seg, off), segs);
        ok := Emit();
        if !ok {
          RowPrefix(seg, old(off), i + 1, count, skip + 8);
          ListingAdd(Row(seg, old(off), i + 1, skip + 8), Row(seg, old(off), count, skip + 8)[i + 1..], segs);
          return;
        }
        StepMod(old(off), i, skip + 8);
        ModAdd((old(off) + i * (skip + 8)) % TWO64 + 8, skip);
        off := (off + skip) % TWO64;
      }
      ok := true;
    }

    method SetPosition(data: seq<Byte>, p: nat) returns (next: nat, ok: bool)
      requires p <= |data|
      modifies this`off
      ensures p <= next <= |data|
      ensures GoodU(data[p..]) ==> ok && next == p + Len(data[p..]) && off == U(data[p..])
    {
      hide U, Len, Terminated;
      var v;
      v, next := PyReadUleb(data, p);
      ok := v.Some?;
      if ok {
        off := v.value;
      }
    }

    method Advance(data: seq<Byte>, p: nat) returns (next: nat, ok: bool)
      requires p <= |data|
      modifies this`off
      ensures p <= next <= |data|
      ensures GoodU(data[p..]) ==> ok && next == p + Len(data[p..]) && off == (old(off) + U(data[p..])) % TWO64
    {
      hide U, Len, Terminated;
      var v;
      v, next := PyReadUleb(data, p);
      ok := v.Some?;
      if ok {
        off := (off + v.value) % TWO64;
      }
    }

    /** An opcode that only sets or moves the position. */
    method StepState(data: seq<Byte>, p: nat) returns (next: nat, ok: bool)
      requires p < |data| && data[p] / 0x10 < 5
      modifies this`seg, this`off
      ensures p < next <= |data|
      ensures ReadOp(data[p..]).Some? && old(off) < TWO64 ==>
        var (op, n) := ReadOp(data[p..]).value;
        && ok && next == p + n && Places(op, old(seg), old(off)) == []
        && seg == SegmentAfter(op, old(seg)) && off == OffsetAfter(op, old(off))
    {
      hide U, Len, Terminated, Row;
      next, ok := p + 1, true;
      assert data[p..][1..] == data[p + 1..];
      if data[p] / 0x10 == 2 {
        seg := data[p] % 0x10;
        next, ok := SetPosition(data, next);
        ModSmallIf(off);
      } else if data[p] / 0x10 == 3 {
        next, ok := Advance(data, next);
      } else if data[p] / 0x10 == 4 {
        off := (off + data[p] % 0x10 * 8) % TWO64;
      }
    }

    /** An opcode that lists places. */
    method StepEmit(data: seq<Byte>, p: nat) returns (next: nat, ok: bool)
      requires p < |data| && 5 <= data[p] / 0x10 <= 8
      modifies this`events, this`off
      ensures p < next <= |data|
      ensures ReadOp(data[p..]).Some? && old(off) < TWO64 ==>
        var (op, n) := ReadOp(data[p..]).value;
        var l := Listing(Places(op, seg, old(off)), segs);
        && ok == l.Some? && seg == SegmentAfter(op, seg)
        && (ok ==> next == p + n && events == old(events) + l.value && off == OffsetAfter(op, old(off)))
    {
      hide U, Len, Terminated, Row, Listing;
      var opcode := data[p] / 0x10;
      next := p + 1;
      assert data[p..][1..] == data[p + 1..];
      if opcode == 5 {
        ok := Repeat(data[p] % 0x10, 0);
      } else if opcode == 6 {
        var v;
        v, next := PyReadUleb(data, next);
        if v.None? {
          return next, false;
        }
        ok := Repeat(v.value, 0);
      } else if opcode == 7 {
        next, ok := RunOnce(data, next);
      } else {
        next, ok := RunSkip(data, next);
      }
    }

    method RunOnce(data: seq<Byte>, p: nat) returns (next: nat, ok: bool)
      requires p <= |data|
      modifies this`events, this`off
      ensures p <= next <= |data|
      ensures GoodU(data[p..]) && old(off) < TWO64 ==>
        var op := OnceAdd(U(data[p..]));
        var l := Listing(Places(op, seg, old(off)), segs);
        && ok == l.Some?
        && (ok ==> next == p + Len(data[p..]) && events == old(events) + l.value && off == OffsetAfter(op, old(off)))
    {
      hide U, Len, Terminated, Listing, GoodU;
      next := p;
      ModSmallIf(off);
      ListingOne(Place(seg, off), segs);
      ok := Emit();
      if ok {
        ModAdd(off, U(data[p..]));
        ModAdd(old(off) + 8, U(data[p..]));
        next, ok := Advance(data, p);
      }
    }

    method RunSkip(data: seq<Byte>, p: nat) returns (next: nat, ok: bool)
      requires p <= |data|
      modifies this`events, this`off
      ensures p <= next <= |data|
      ensures GoodU(data[p..]) && GoodU(data[p..][Len(data[p..])..]) && old(off) < TWO64 ==>
        var u := data[p..][Len(data[p..])..];
        var op := TimesSkip(U(data[p..]), U(u));
        var l := Listing(Places(op, seg, old(off)), segs);
        && ok == l.Some?
        && (ok ==> next == p + Len(data[p..]) + Len(u) && events == old(events) + l.value && off == OffsetAfter(op, old(off)))
    {
      hide U, Len, Terminated, Listing, Row;
      var v, skip;
      v, next := PyReadUleb(data, p);
      if v.None? {
        return next, false;
      }
      assert data[p..][Len(data[p..])..] == data[next..];
      skip, next := PyReadUleb(data, next);
      if skip.None? {
        return next, false;
      }
      ok := Repeat(v.value, skip.value);
    }

    /** The whole stream; an end mark is passed over. */
    method Run(data: seq<Byte>) returns (r: Option<seq<nat>>)
      requires seg == 0 && off == 0 && events == []
      modifies this
      ensures ReadOps(data).Some? ==> r == Listing(Flat(ReadOps(data).value, 0, 0), segs)
    {
      hide ReadOps, ReadOp, Flat, Listing, Places, SegmentAfter, OffsetAfter;
      var p: nat := 0;
      ghost var good := ReadOps(data).Some?;
      assert data[0..] == data;
      JoinNone(if good then Listing(Flat(ReadOps(data).value, 0, 0), segs) else None);
      while p < |data|
        invariant p <= |data| && (good ==> off < TWO64)
        invariant good ==>
          && ReadOps(data[p..]).Some?
          && Listing(Flat(ReadOps(data).value, 0, 0), segs) ==
             Join(events, Listing(Flat(ReadOps(data[p..]).value, seg, off), segs))
        decreases |data| - p
      {
        if good {
          FirstListed(data, p, seg, off, segs, events);
        }
        ListingNone([], segs);
        var next, ok;
        ghost var was, at := events, off;
        if data[p] / 0x10 < 5 {
          next, ok := StepState(data, p);
        } else if data[p] / 0x10 <= 8 {
          next, ok := StepEmit(data, p);
        } else {
          next, ok := p, false;
          if good { StopIsDone(data[p..]); }
        }
        if !ok {
          return None;
        }
        if good {
          OffsetSmall(ReadOp(data[p..]).value.0, at);
          assert was + [] == was;
        }
        p := next;
      }
      if good {
        NoneListed(data[p..], seg, off, segs);
      }
      assert events + [] == events;
      r := Some(events);
    }
  }

  function Join(a: seq<nat>, r: Option<seq<nat>>): Option<seq<nat>> {
    if r.None? then None else Some(a + r.value)
  }

  lemma JoinNone(r: Option<seq<nat>>)
    ensures Join([], r) == r
  {
    if r.Some? {
      assert [] + r.value == r.value;
    }
  }

  lemma ModSmallIf(v: nat)
    ensures v < TWO64 ==> v % TWO64 == v
  {
  }

  lemma OffsetSmall(op: Op, off: nat)
    requires off < TWO64
    ensures OffsetAfter(op, off) < TWO64
  {
  }

  lemma NoneListed(s: seq<Byte>, seg: nat, off: nat, segs: seq<Segment>)
    requires s == []
    ensures ReadOps(s) == Some([]) && Listing(Flat([], seg, off), segs) == Some([])
  {
  }

  lemma FirstListed(data: seq<Byte>, p: nat, seg: nat, off: nat, segs: seq<Segment>, events: seq<nat>)
    requires p < |data| && ReadOps(data[p..]).Some?
    ensures ReadOp(data[p..]).Some?
    ensures var (op, n) := ReadOp(data[p..]).value;
      var now := Listing(Places(op, seg, off), segs);
      var whole := Listing(Flat(ReadOps(data[p..]).value, seg, off), segs);
      && p + n <= |data| && ReadOps(data[p + n..]).Some?
      && var rest := Listing(Flat(ReadOps(data[p + n..]).value, SegmentAfter(op, seg), OffsetAfter(op, off)), segs);
         Join(events, whole) == if now.None? then None else Join(events + now.value, rest)
  {
    hide ReadOp, Places, SegmentAfter, OffsetAfter, Listing;
    var (op, n) := ReadOp(data[p..]).value;
    ReadOpSize(data[p..]);
    assert data[p..][n..] == data[p + n..];
    var ops, rest := ReadOps(data[p..]).value, ReadOps(data[p + n..]).value;
    assert ops == [op] + rest && ops[1..] == rest;
    var tail := Flat(rest, SegmentAfter(op, seg), OffsetAfter(op, off));
    assert Flat(ops, seg, off) == Places(op, seg, off) + tail;
    ListingAdd(Places(op, seg, off), tail, segs);
    var now, later := Listing(Places(op, seg, off), segs), Listing(tail, segs);
    if now.Some? && later.Some? {
      assert events + (now.value + later.value) == events + now.value + later.value;
    }
  }

  lemma ListingNone(places: seq<Place>, segs: seq<Segment>)
    requires places == []
    ensures Listing(places, segs) == Some([])
  {
  }

  lemma ListingOne(p: Place, segs: seq<Segment>)
    ensures Listing([p], segs) == if Locate(p, segs).Some? then Some([Locate(p, segs).value]) else None
  {
    assert [p][1..] == [] && Listing([p][1..], segs) == Some([]);
    if Locate(p, segs).Some? {
      assert [Locate(p, segs).value] + [] == [Locate(p, segs).value];
    }
  }

  lemma RowPrefix(seg: nat, off: nat, n: nat, m: nat, step: nat)
    requires n <= m
    ensures Row(seg, off, m, step) == Row(seg, off, n, step) + Row(seg, off, m, step)[n..]
  {
  }

  // ----- the two against each other -----

  function Shift(addrs: seq<nat>, slide: nat): (r: seq<nat>)
    ensures |r| == |addrs| && forall k :: 0 <= k < |r| ==> r[k] == (addrs[k] + slide) % TWO64
  {
    seq(|addrs|, k requires 0 <= k < |addrs| => (addrs[k] + slide) % TWO64)
  }

  /** Where the decoder accepts a list, the interpreter touches exactly its addresses, slid. */
  lemma {:induction false} TargetsListed(places: seq<Place>, segs: seq<Segment>, slide: nat)
    requires Listing(places, segs).Some?
    ensures Targets(places, segs, slide) == Shift(Listing(places, segs).value, slide)
    decreases |places|
  {
    if places != [] {
      TargetsListed(places[1..], segs, slide);
    }
  }

  /** Whether an operation names a place at all. */
  predicate Names(op: Op) {
    op.OnceAdd? || (op.Times? && op.count > 0) || (op.TimesSkip? && op.count > 0)
  }

  predicate Quiet(ops: seq<Op>) {
    forall k :: 0 <= k < |ops| ==> !Names(ops[k])
  }

  lemma PlacesNamed(op: Op, seg: nat, off: nat)
    ensures Places(op, seg, off) == [] <==> !Names(op)
  {
  }

  lemma {:induction false} FlatQuiet(ops: seq<Op>, seg: nat, off: nat)
    ensures Flat(ops, seg, off) == [] <==> Quiet(ops)
    decreases |ops|
  {
    hide Places, SegmentAfter, OffsetAfter, Names;
    if ops != [] {
      PlacesNamed(ops[0], seg, off);
      FlatQuiet(ops[1..], SegmentAfter(ops[0], seg), OffsetAfter(ops[0], off));
      assert Quiet(ops) <==> !Names(ops[0]) && Quiet(ops[1..]) by {
        assert forall k :: 0 < k < |ops| ==> ops[k] == ops[1..][k - 1];
      }
    }
  }

  /** The places before the first end mark come first; they are all of them exactly when nothing later
      names a place. */
  lemma {:induction false} FlatUpToDone(ops: seq<Op>, seg: nat, off: nat)
    ensures Flat(UpToDone(ops), seg, off) <= Flat(ops, seg, off)
    ensures |UpToDone(ops)| <= |ops|
    ensures |Flat(UpToDone(ops), seg, off)| == |Flat(ops, seg, off)| <==> Quiet(ops[|UpToDone(ops)|..])
    decreases |ops|
  {
    hide Places, SegmentAfter, OffsetAfter, Names, Quiet;
    if ops == [] || ops[0].Done? {
      FlatQuiet(ops, seg, off);
      assert ops[0..] == ops;
    } else {
      FlatUpToDone(ops[1..], SegmentAfter(ops[0], seg), OffsetAfter(ops[0], off));
      assert ([ops[0]] + UpToDone(ops[1..]))[1..] == UpToDone(ops[1..]);
      assert ops[1..][|UpToDone(ops[1..])|..] == ops[|UpToDone(ops)|..];
    }
  }

  /** On every well-formed stream the decoder accepts, the interpreter slides a prefix of the listed
      addresses, in order and with multiplicity. Only the interpreter stops at an end mark, so it slides
      all of them exactly when no operation from the first end mark on names a place: no repeat with a
      positive count and no single rebase. */
  lemma RebasesAgree(s: seq<Byte>, segs: seq<Segment>, slide: nat)
    requires ReadOps(s).Some? && Listing(Flat(ReadOps(s).value, 0, 0), segs).Some?
    ensures var ops := ReadOps(s).value;
      var list := Listing(Flat(ops, 0, 0), segs).value;
      var t := Targets(Flat(UpToDone(ops), 0, 0), segs, slide);
      && |t| <= |list| && t == Shift(list[..|t|], slide)
      && |UpToDone(ops)| <= |ops|
      && (t == Shift(list, slide) <==> Quiet(ops[|UpToDone(ops)|..]))
  {
    hide ReadOps, Flat, UpToDone, Targets, Listing, Quiet;
    var ops := ReadOps(s).value;
    var all, some := Flat(ops, 0, 0), Flat(UpToDone(ops), 0, 0);
    FlatUpToDone(ops, 0, 0);
    var rest := all[|some|..];
    assert all == some + rest;
    ListingAdd(some, rest, segs);
    TargetsListed(some, segs, slide);
    ListingSize(some, segs);
    ListingSize(all, segs);
    var list := Listing(all, segs).value;
    assert list[..|some|] == Listing(some, segs).value;
    assert |some| == |all| ==> list[..|some|] == list;
  }

  lemma {:induction false} ListingSize(places: seq<Place>, segs: seq<Segment>)
    ensures Listing(places, segs).Some? ==> |Listing(places, segs).value| == |places|
    decreases |places|
  {
    if places != [] {
      ListingSize(places[1..], segs);
    }
  }
}
