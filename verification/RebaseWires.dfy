/** Rebase streams as a linker writes them (REBASE_OPCODE_* of mach-o/loader.h), and what they say in
    single steps: seek, move, touch a pointer. Both readers of the streams do what they say. */
module RebaseWires {
  import opened Basics
  import opened Leb128
  import opened DyldRebase

  datatype Wire =
    | End
    | TypeImm(kind: nat)
    | SegmentUleb(index: nat, offset: nat)
    | AddUleb(delta: nat)
    | AddImmScaled(imm: nat)
    | TimesImm(imm: nat)
    | TimesUleb(count: nat)
    | OnceAddUleb(delta: nat)
    | TimesSkippingUleb(count: nat, skip: nat)

  predicate Imm(n: nat) {
    n < 0x10
  }

  predicate Wide(n: nat) {
    n < 0x1_0000_0000_0000_0000
  }

  predicate Proper(w: Wire) {
    match w
    case End => true
    case TypeImm(kind) => Imm(kind)
    case SegmentUleb(index, offset) => Imm(index) && Wide(offset)
    case AddUleb(delta) => Wide(delta)
    case AddImmScaled(imm) => Imm(imm)
    case TimesImm(imm) => Imm(imm)
    case TimesUleb(count) => Wide(count)
    case OnceAddUleb(delta) => Wide(delta)
    case TimesSkippingUleb(count, skip) => Wide(count) && Wide(skip)
  }

  function Bytes(w: Wire): (s: seq<Byte>)
    requires Proper(w)
    ensures |s| > 0
  {
    match w
    case End => [0x00]
    case TypeImm(kind) => [0x10 + kind]
    case SegmentUleb(index, offset) => [0x20 + index] + PutU(offset)
    case AddUleb(delta) => [0x30] + PutU(delta)
    case AddImmScaled(imm) => [0x40 + imm]
    case TimesImm(imm) => [0x50 + imm]
    case TimesUleb(count) => [0x60] + PutU(count)
    case OnceAddUleb(delta) => [0x70] + PutU(delta)
    case TimesSkippingUleb(count, skip) => [0x80] + (PutU(count) + PutU(skip))
  }

  predicate AllProper(ws: seq<Wire>) {
    forall k :: 0 <= k < |ws| ==> Proper(ws[k])
  }

  function AllBytes(ws: seq<Wire>): seq<Byte>
    requires AllProper(ws)
  {
    if ws == [] then [] else Bytes(ws[0]) + AllBytes(ws[1..])
  }

  // ----- single steps -----

  datatype Step = Seek(segment: nat, offset: nat) | Move(delta: nat) | Touch

  function Repeated(n: nat, steps: seq<Step>): seq<Step> {
    if n == 0 then [] else steps + Repeated(n - 1, steps)
  }

  /** A pointer has eight bytes. */
  function StepsOf(w: Wire): seq<Step> {
    match w
    case End => []
    case TypeImm(_) => []
    case SegmentUleb(index, offset) => [Seek(index, offset)]
    case AddUleb(delta) => [Move(delta)]
    case AddImmScaled(imm) => Repeated(imm, [Move(8)])
    case TimesImm(imm) => Repeated(imm, [Touch, Move(8)])
    case TimesUleb(count) => Repeated(count, [Touch, Move(8)])
    case OnceAddUleb(delta) => [Touch, Move(8), Move(delta)]
    case TimesSkippingUleb(count, skip) => Repeated(count, [Touch, Move(8), Move(skip)])
  }

  function AllSteps(ws: seq<Wire>): seq<Step> {
    if ws == [] then [] else StepsOf(ws[0]) + AllSteps(ws[1..])
  }

  function UpToEnd(ws: seq<Wire>): seq<Wire> {
    if ws == [] || ws[0].End? then [] else [ws[0]] + UpToEnd(ws[1..])
  }

  /** Where the position is after some steps; offsets wrap at 2^64. */
  function Moved(steps: seq<Step>, at: Place): Place
    decreases |steps|
  {
    if steps == [] then at else
      match steps[0]
      case Seek(segment, offset) => Moved(steps[1..], Place(segment, offset))
      case Move(delta) => Moved(steps[1..], Place(at.segment, (at.offset + delta) % 0x1_0000_0000_0000_0000))
      case Touch => Moved(steps[1..], at)
  }

  function Touched(steps: seq<Step>, at: Place): seq<Place>
    decreases |steps|
  {
    if steps == [] then [] else
      (if steps[0].Touch? then [at] else []) + Touched(steps[1..], Moved(steps[..1], at))
  }

  /** The words that steps touch in memory, for segments that exist. */
  function Cells(steps: seq<Step>, at: Place, segs: seq<Segment>, slide: nat): seq<nat>
    decreases |steps|
  {
    if steps == [] then [] else
      (if steps[0].Touch? && at.segment < |segs|
       then [(segs[at.segment].vmaddr + at.offset + slide) % 0x1_0000_0000_0000_0000] else [])
      + Cells(steps[1..], Moved(steps[..1], at), segs, slide)
  }

  /** Every word touched is at an address of a segment, or one past it. */
  predicate Inside(steps: seq<Step>, at: Place, segs: seq<Segment>)
    decreases |steps|
  {
    steps == [] ||
    ((steps[0].Touch? ==> at.segment < |segs| && at.offset <= segs[at.segment].vmsize)
    && Inside(steps[1..], Moved(steps[..1], at), segs))
  }

  /** The unslid addresses of the words. */
  function Addresses(steps: seq<Step>, at: Place, segs: seq<Segment>): seq<nat>
    requires Inside(steps, at, segs)
    decreases |steps|
  {
    if steps == [] then [] else
      (if steps[0].Touch? then [segs[at.segment].vmaddr + at.offset] else [])
      + Addresses(steps[1..], Moved(steps[..1], at), segs)
  }

  // ----- one operation -----

  lemma GoodNumber(v: nat, rest: seq<Byte>)
    requires Wide(v)
    ensures GoodU(PutU(v) + rest) && U(PutU(v) + rest) == v && Len(PutU(v) + rest) == |PutU(v)|
    ensures (PutU(v) + rest)[|PutU(v)|..] == rest
  {
    UnsignedRoundTrip(v, rest);
    UnsignedReaders(v, rest);
  }

  function Decoded(w: Wire): Op {
    match w
    case End => Done
    case TypeImm(kind) => SetType(kind)
    case SegmentUleb(index, offset) => SetSegment(index, offset)
    case AddUleb(delta) => AddAddr(delta)
    case AddImmScaled(imm) => AddAddr(imm * 8)
    case TimesImm(imm) => Times(imm)
    case TimesUleb(count) => Times(count)
    case OnceAddUleb(delta) => OnceAdd(delta)
    case TimesSkippingUleb(count, skip) => TimesSkip(count, skip)
  }

  lemma NumberAfter(b: Byte, v: nat, rest: seq<Byte>)
    requires Wide(v)
    ensures var s := [b] + PutU(v) + rest;
      && s[0] == b && GoodU(s[1..]) && U(s[1..]) == v && Len(s[1..]) == |PutU(v)| && s[1..][|PutU(v)|..] == rest
  {
    hide U, Len, PutU, GoodU;
    GoodNumber(v, rest);
    assert ([b] + PutU(v) + rest)[1..] == PutU(v) + rest;
  }

  lemma TwoAfter(b: Byte, v: nat, w: nat, rest: seq<Byte>)
    requires Wide(v) && Wide(w)
    ensures var s := [b] + (PutU(v) + PutU(w)) + rest;
      && s[0] == b && GoodU(s[1..]) && U(s[1..]) == v && Len(s[1..]) == |PutU(v)|
      && var t := s[1..][|PutU(v)|..]; GoodU(t) && U(t) == w && Len(t) == |PutU(w)|
  {
    hide U, Len, PutU, GoodU;
    NumberAfter(b, v, PutU(w) + rest);
    GoodNumber(w, rest);
    Regroup4([b], PutU(v), PutU(w), rest);
  }

  lemma Regroup4(a: seq<Byte>, b: seq<Byte>, c: seq<Byte>, d: seq<Byte>)
    ensures a + (b + c) + d == a + b + (c + d)
  {
  }

  lemma WireRead(w: Wire, rest: seq<Byte>)
    requires Proper(w)
    ensures ReadOp(Bytes(w) + rest) == Some((Decoded(w), |Bytes(w)|))
  {
    hide U, Len, PutU, GoodU;
    match w {
      case SegmentUleb(index, offset) => NumberAfter(0x20 + index, offset, rest);
      case AddUleb(delta) => NumberAfter(0x30, delta, rest);
      case TimesUleb(count) => NumberAfter(0x60, count, rest);
      case OnceAddUleb(delta) => NumberAfter(0x70, delta, rest);
      case TimesSkippingUleb(count, skip) => TwoAfter(0x80, count, skip, rest);
      case _ => ImmRead(w, rest);
    }
  }

  lemma ImmRead(w: Wire, rest: seq<Byte>)
    requires Proper(w) && (w.End? || w.TypeImm? || w.AddImmScaled? || w.TimesImm?)
    ensures ReadOp(Bytes(w) + rest) == Some((Decoded(w), |Bytes(w)|))
  {
    hide U, Len, PutU, GoodU;
  }

  /** Adding a step's front and its rest. */
  lemma {:induction false} StepsAdd(a: seq<Step>, b: seq<Step>, at: Place)
    ensures Moved(a + b, at) == Moved(b, Moved(a, at))
    ensures Touched(a + b, at) == Touched(a, at) + Touched(b, Moved(a, at))
    decreases |a|
  {
    if a == [] {
      assert a + b == b;
    } else {
      assert (a + b)[1..] == a[1..] + b && (a + b)[..1] == a[..1];
      StepsAdd(a[1..], b, Moved(a[..1], at));
      MovedFirst(a, at);
      MovedFirst(a + b, at);
    }
  }

  lemma {:induction false} MovedFirst(a: seq<Step>, at: Place)
    requires a != []
    ensures Moved(a, at) == Moved(a[1..], Moved(a[..1], at))
  {
    assert a[..1][1..] == [];
  }

  lemma {:induction false} RepeatedMove(n: nat, d: nat, at: Place)
    requires Wide(at.offset)
    ensures Touched(Repeated(n, [Move(d)]), at) == []
    ensures Moved(Repeated(n, [Move(d)]), at) == Place(at.segment, (at.offset + n * d) % TWO64)
    decreases n
  {
    hide Moved, Touched;
    if n == 0 {
      NoSteps(at);
      SmallMod64(at.offset);
    } else {
      var next := Place(at.segment, (at.offset + d) % TWO64);
      OneMove(d, at);
      StepsAdd([Move(d)], Repeated(n - 1, [Move(d)]), at);
      RepeatedMove(n - 1, d, next);
      NextOffset(at.offset, d, n - 1);
    }
  }

  lemma {:induction false} NoSteps(at: Place)
    ensures Moved([], at) == at && Touched([], at) == []
  {
  }

  lemma {:induction false} OneMove(d: nat, at: Place)
    ensures Moved([Move(d)], at) == Place(at.segment, (at.offset + d) % TWO64) && Touched([Move(d)], at) == []
  {
    assert [Move(d)][1..] == [] && [Move(d)][..1] == [Move(d)];
  }

  lemma {:induction false} OneTouch(at: Place)
    ensures Moved([Touch], at) == at && Touched([Touch], at) == [at]
  {
    assert [Touch][1..] == [] && [Touch][..1] == [Touch];
  }

  lemma NextOffset(off: nat, step: nat, i: nat)
    ensures ((off + step) % TWO64 + i * step) % TWO64 == (off + (i + 1) * step) % TWO64
  {
    ModAdd(off + step, i * step);
    assert off + step + i * step == off + (i + 1) * step;
  }

  /** A touch and the moves behind it, n times, is a row. */
  lemma {:induction false} RepeatedTouch(n: nat, moves: seq<Step>, d: nat, at: Place)
    requires Wide(at.offset) && Advances(moves, d)
    ensures Touched(Repeated(n, [Touch] + moves), at) == Row(at.segment, at.offset, n, d)
    ensures Moved(Repeated(n, [Touch] + moves), at) == Place(at.segment, (at.offset + n * d) % TWO64)
    decreases n
  {
    hide Moved, Touched, Row, Advances;
    RowFront(at.segment, at.offset, n, d);
    if n == 0 {
      NoSteps(at);
      SmallMod64(at.offset);
    } else {
      var next := Place(at.segment, (at.offset + d) % TWO64);
      TouchThen(moves, d, at);
      StepsAdd([Touch] + moves, Repeated(n - 1, [Touch] + moves), at);
      RepeatedTouch(n - 1, moves, d, next);
      NextOffset(at.offset, d, n - 1);
    }
  }

  /** Steps that only move on by d. */
  ghost predicate Advances(moves: seq<Step>, d: nat) {
    forall p: Place :: Touched(moves, p) == [] && Moved(moves, p) == Place(p.segment, (p.offset + d) % TWO64)
  }

  lemma {:induction false} TouchThen(moves: seq<Step>, d: nat, at: Place)
    requires Advances(moves, d)
    ensures Touched([Touch] + moves, at) == [at]
    ensures Moved([Touch] + moves, at) == Place(at.segment, (at.offset + d) % TWO64)
  {
    hide Moved, Touched;
    OneTouch(at);
    StepsAdd([Touch], moves, at);
    assert Touched(moves, at) == [];
  }

  lemma RowFront(seg: nat, off: nat, n: nat, step: nat)
    requires Wide(off)
    ensures n == 0 ==> Row(seg, off, n, step) == []
    ensures n > 0 ==> Row(seg, off, n, step) == [Place(seg, off)] + Row(seg, (off + step) % TWO64, n - 1, step)
  {
    if n > 0 {
      SmallMod64(off);
      forall i | 1 <= i < n ensures (off + i * step) % TWO64 == ((off + step) % TWO64 + (i - 1) * step) % TWO64 {
        NextOffset(off, step, i - 1);
      }
    }
  }

  lemma {:induction false} PointerMoves()
    ensures Advances([Move(8)], 8)
  {
    hide Moved, Touched;
    forall p: Place ensures Touched([Move(8)], p) == [] && Moved([Move(8)], p) == Place(p.segment, (p.offset + 8) % TWO64) {
      OneMove(8, p);
    }
  }

  lemma {:induction false} TwoMoves(skip: nat, p: Place)
    ensures Touched([Move(8), Move(skip)], p) == []
    ensures Moved([Move(8), Move(skip)], p) == Place(p.segment, (p.offset + (skip + 8)) % TWO64)
  {
    hide Moved, Touched;
    assert [Move(8), Move(skip)] == [Move(8)] + [Move(skip)];
    StepsAdd([Move(8)], [Move(skip)], p);
    OneMove(8, p);
    OneMove(skip, Place(p.segment, (p.offset + 8) % TWO64));
    ModAdd(p.offset + 8, skip);
  }

  lemma {:induction false} SkipMoves(skip: nat)
    ensures Advances([Move(8), Move(skip)], skip + 8)
  {
    hide Moved, Touched;
    forall p: Place ensures
      && Touched([Move(8), Move(skip)], p) == []
      && Moved([Move(8), Move(skip)], p) == Place(p.segment, (p.offset + (skip + 8)) % TWO64)
    {
      TwoMoves(skip, p);
    }
  }

  lemma {:induction false} OnceMoves(delta: nat, at: Place)
    requires Wide(at.offset)
    ensures Touched([Touch, Move(8), Move(delta)], at) == [at]
    ensures Moved([Touch, Move(8), Move(delta)], at) == Place(at.segment, (at.offset + (delta + 8)) % TWO64)
  {
    hide Moved, Touched;
    assert [Touch, Move(8), Move(delta)] == [Touch] + [Move(8), Move(delta)];
    StepsAdd([Touch], [Move(8), Move(delta)], at);
    OneTouch(at);
    TwoMoves(delta, at);
  }

  /** What an operation does is what its steps do. */
  ghost predicate Means(w: Wire, at: Place) {
    var end := Moved(StepsOf(w), at);
    && Places(Decoded(w), at.segment, at.offset) == Touched(StepsOf(w), at)
    && SegmentAfter(Decoded(w), at.segment) == end.segment
    && OffsetAfter(Decoded(w), at.offset) == end.offset && Wide(end.offset)
  }

  lemma {:induction false} WireMeans(w: Wire, at: Place)
    requires Proper(w) && Wide(at.offset)
    ensures Means(w, at)
  {
    if w.TimesImm? || w.TimesUleb? || w.OnceAddUleb? || w.TimesSkippingUleb? {
      TouchingMeans(w, at);
    } else {
      MovingMeans(w, at);
    }
    hide *;
  }

  lemma {:induction false} MovingMeans(w: Wire, at: Place)
    requires Proper(w) && Wide(at.offset)
    requires w.End? || w.TypeImm? || w.SegmentUleb? || w.AddUleb? || w.AddImmScaled?
    ensures Means(w, at)
  {
    hide Moved, Touched, Row, Repeated;
    match w {
      case SegmentUleb(index, offset) => OneSeek(index, offset, at);
      case AddUleb(delta) => OneMove(delta, at);
      case AddImmScaled(imm) => RepeatedMove(imm, 8, at);
      case _ =>
        NoSteps(at);
    }
  }

  lemma {:induction false} TouchingMeans(w: Wire, at: Place)
    requires Proper(w) && Wide(at.offset)
    requires w.TimesImm? || w.TimesUleb? || w.OnceAddUleb? || w.TimesSkippingUleb?
    ensures Means(w, at)
  {
    hide Moved, Touched, Row, Repeated;
    match w {
      case TimesImm(imm) => TouchRow(imm, at);
      case TimesUleb(count) => TouchRow(count, at);
      case OnceAddUleb(delta) =>
        SmallMod64(at.offset);
        OnceMoves(delta, at);
      case TimesSkippingUleb(count, skip) => SkipRow(count, skip, at);
    }
  }

  lemma {:induction false} TouchRow(n: nat, at: Place)
    requires Wide(at.offset)
    ensures Touched(Repeated(n, [Touch, Move(8)]), at) == Row(at.segment, at.offset, n, 8)
    ensures Moved(Repeated(n, [Touch, Move(8)]), at) == Place(at.segment, (at.offset + n * 8) % TWO64)
  {
    hide Moved, Touched, Row, Repeated, Advances;
    PointerMoves();
    assert [Touch, Move(8)] == [Touch] + [Move(8)];
    RepeatedTouch(n, [Move(8)], 8, at);
  }

  lemma {:induction false} SkipRow(n: nat, skip: nat, at: Place)
    requires Wide(at.offset)
    ensures Touched(Repeated(n, [Touch, Move(8), Move(skip)]), at) == Row(at.segment, at.offset, n, skip + 8)
    ensures Moved(Repeated(n, [Touch, Move(8), Move(skip)]), at) == Place(at.segment, (at.offset + n * (skip + 8)) % TWO64)
  {
    hide Moved, Touched, Row, Repeated, Advances;
    SkipMoves(skip);
    assert [Touch, Move(8), Move(skip)] == [Touch] + [Move(8), Move(skip)];
    RepeatedTouch(n, [Move(8), Move(skip)], skip + 8, at);
  }

  lemma {:induction false} OneSeek(index: nat, offset: nat, at: Place)
    requires Wide(offset)
    ensures Moved([Seek(index, offset)], at) == Place(index, offset) && Touched([Seek(index, offset)], at) == []
    ensures offset % TWO64 == offset
  {
    assert [Seek(index, offset)][1..] == [] && [Seek(index, offset)][..1] == [Seek(index, offset)];
    SmallMod64(offset);
  }

  // ----- whole streams -----

  function AllDecoded(ws: seq<Wire>): (ops: seq<Op>)
    ensures |ops| == |ws|
  {
    if ws == [] then [] else [Decoded(ws[0])] + AllDecoded(ws[1..])
  }

  lemma {:induction false} StreamRead(ws: seq<Wire>)
    requires AllProper(ws)
    ensures ReadOps(AllBytes(ws)) == Some(AllDecoded(ws))
    decreases |ws|
  {
    hide ReadOp, Bytes, Decoded;
    if ws != [] {
      var b, rest := Bytes(ws[0]), AllBytes(ws[1..]);
      WireRead(ws[0], rest);
      StreamRead(ws[1..]);
      assert (b + rest)[|b|..] == rest;
    }
  }

  lemma {:induction false} StreamMeans(ws: seq<Wire>, at: Place)
    requires AllProper(ws) && Wide(at.offset)
    ensures Flat(AllDecoded(ws), at.segment, at.offset) == Touched(AllSteps(ws), at)
    ensures AllProper(UpToEnd(ws)) && UpToDone(AllDecoded(ws)) == AllDecoded(UpToEnd(ws))
    decreases |ws|
  {
    hide Places, SegmentAfter, OffsetAfter, Moved, Touched, StepsOf;
    NoSteps(at);
    if ws != [] {
      WireMeans(ws[0], at);
      StepsAdd(StepsOf(ws[0]), AllSteps(ws[1..]), at);
      StreamMeans(ws[1..], Moved(StepsOf(ws[0]), at));
      assert ([Decoded(ws[0])] + AllDecoded(ws[1..]))[1..] == AllDecoded(ws[1..]);
      assert Decoded(ws[0]).Done? <==> ws[0].End?;
    }
  }

  lemma {:induction false} CellsOf(steps: seq<Step>, at: Place, segs: seq<Segment>, slide: nat)
    ensures Targets(Touched(steps, at), segs, slide) == Cells(steps, at, segs, slide)
    decreases |steps|
  {
    hide Moved;
    if steps != [] {
      var next := Moved(steps[..1], at);
      CellsOf(steps[1..], next, segs, slide);
      if steps[0].Touch? {
        StillThere(steps, at);
        TargetsAdd([at], Touched(steps[1..], at), segs, slide);
        TargetOne(at, segs, slide);
      } else {
        assert [] + Touched(steps[1..], next) == Touched(steps[1..], next);
      }
    }
  }

  lemma {:induction false} TargetOne(at: Place, segs: seq<Segment>, slide: nat)
    ensures Targets([at], segs, slide) ==
      if at.segment < |segs| then [(segs[at.segment].vmaddr + at.offset + slide) % TWO64] else []
  {
    assert [at][1..] == [];
  }

  lemma {:induction false} StillThere(steps: seq<Step>, at: Place)
    requires steps != [] && steps[0].Touch?
    ensures Moved(steps[..1], at) == at
  {
    assert steps[..1] == [Touch];
    OneTouch(at);
  }

  lemma {:induction false} AddressesOf(steps: seq<Step>, at: Place, segs: seq<Segment>)
    ensures Listing(Touched(steps, at), segs) == if Inside(steps, at, segs) then Some(Addresses(steps, at, segs)) else None
    decreases |steps|
  {
    hide Moved;
    if steps != [] {
      var next := Moved(steps[..1], at);
      AddressesOf(steps[1..], next, segs);
      if steps[0].Touch? {
        StillThere(steps, at);
        ListingAdd([at], Touched(steps[1..], at), segs);
        ListingOne(at, segs);
      } else {
        assert [] + Touched(steps[1..], next) == Touched(steps[1..], next);
        if Inside(steps[1..], next, segs) {
          assert [] + Addresses(steps[1..], next, segs) == Addresses(steps[1..], next, segs);
        }
      }
    }
  }

  /** On a stream of any operations, the words the interpreter slides are those that the steps before the
      first end mark touch, and the decoder lists the addresses of all, or fails exactly when one lies
      outside its segment. */
  lemma RebaseStream(ws: seq<Wire>, segs: seq<Segment>, slide: nat)
    requires AllProper(ws)
    ensures ReadOps(AllBytes(ws)).Some?
    ensures var ops := ReadOps(AllBytes(ws)).value;
      && Targets(Flat(UpToDone(ops), 0, 0), segs, slide) == Cells(AllSteps(UpToEnd(ws)), Place(0, 0), segs, slide)
      && Listing(Flat(ops, 0, 0), segs) ==
           (if Inside(AllSteps(ws), Place(0, 0), segs) then Some(Addresses(AllSteps(ws), Place(0, 0), segs)) else None)
  {
    hide ReadOps, Targets, Flat, Listing, AllBytes, AllSteps, UpToEnd, UpToDone, AllProper, Inside, Addresses, Cells, Touched;
    StreamRead(ws);
    StreamMeans(ws, Place(0, 0));
    StreamMeans(UpToEnd(ws), Place(0, 0));
    CellsOf(AllSteps(UpToEnd(ws)), Place(0, 0), segs, slide);
    AddressesOf(AllSteps(ws), Place(0, 0), segs);
  }
}
