/** Bind streams as a linker writes them (BIND_OPCODE_* of mach-o/loader.h), and what they say in single
    steps: seek, move, name a library, a symbol or an addend, bind a pointer. Both readers of the streams
    do what they say. */
module BindWires {
  import opened Basics
  import opened Leb128
  import opened DyldRebase
  import opened DyldBind
  import opened RebaseWires

  datatype BindWire =
    | Finish
    | OrdinalImm(imm: nat)
    | OrdinalUleb(ordinal: nat)
    | SpecialImm(imm: nat)
    | SymbolImm(imm: nat, name: seq<Byte>)
    | KindImm(imm: nat)
    | AddendSleb(addend: int)
    | PositionUleb(index: nat, offset: nat)
    | AdvanceUleb(delta: nat)
    | DoBind
    | DoBindAddUleb(delta: nat)
    | DoBindAddImmScaled(imm: nat)
    | DoBindTimesSkippingUleb(count: nat, skip: nat)

  predicate ProperBind(w: BindWire) {
    match w
    case Finish => true
    case OrdinalImm(imm) => Imm(imm)
    case OrdinalUleb(ordinal) => ordinal < 0x8000_0000
    case SpecialImm(imm) => Imm(imm)
    case SymbolImm(imm, name) => Imm(imm) && forall k :: 0 <= k < |name| ==> name[k] != 0
    case KindImm(imm) => Imm(imm)
    case AddendSleb(addend) => -0x8000_0000_0000_0000 <= addend < 0x8000_0000_0000_0000
    case PositionUleb(index, offset) => Imm(index) && Wide(offset)
    case AdvanceUleb(delta) => Wide(delta)
    case DoBind => true
    case DoBindAddUleb(delta) => Wide(delta)
    case DoBindAddImmScaled(imm) => Imm(imm)
    case DoBindTimesSkippingUleb(count, skip) => Wide(count) && Wide(skip)
  }

  function BindBytes(w: BindWire): (s: seq<Byte>)
    requires ProperBind(w)
    ensures |s| > 0
  {
    match w
    case Finish => [0x00]
    case OrdinalImm(imm) => [0x10 + imm]
    case OrdinalUleb(ordinal) => [0x20] + PutU(ordinal)
    case SpecialImm(imm) => [0x30 + imm]
    case SymbolImm(imm, name) => [0x40 + imm] + (name + [0])
    case KindImm(imm) => [0x50 + imm]
    case AddendSleb(addend) => [0x60] + PutS(addend)
    case PositionUleb(index, offset) => [0x70 + index] + PutU(offset)
    case AdvanceUleb(delta) => [0x80] + PutU(delta)
    case DoBind => [0x90]
    case DoBindAddUleb(delta) => [0xa0] + PutU(delta)
    case DoBindAddImmScaled(imm) => [0xb0 + imm]
    case DoBindTimesSkippingUleb(count, skip) => [0xc0] + (PutU(count) + PutU(skip))
  }

  predicate AllProperBinds(ws: seq<BindWire>) {
    forall k :: 0 <= k < |ws| ==> ProperBind(ws[k])
  }

  function AllBindBytes(ws: seq<BindWire>): seq<Byte>
    requires AllProperBinds(ws)
  {
    if ws == [] then [] else BindBytes(ws[0]) + AllBindBytes(ws[1..])
  }

  // ----- single steps -----

  datatype BindStep =
    | SeekTo(segment: nat, offset: nat)
    | MoveBy(delta: nat)
    | Library(ordinal: int)
    | Name(flags: nat, symbol: seq<Byte>)
    | Plus(addend: int)
    | BindHere

  function Times(n: nat, steps: seq<BindStep>): seq<BindStep> {
    if n == 0 then [] else steps + Times(n - 1, steps)
  }

  /** The readers differ in two operations: which special ordinals are negative, and addends below -2^62. */
  function BindSteps(r: Reader, w: BindWire): seq<BindStep> {
    match w
    case Finish => []
    case OrdinalImm(imm) => [Library(imm)]
    case OrdinalUleb(ordinal) => [Library(ordinal)]
    case SpecialImm(imm) => [Library(if imm >= (if r == Audit then 8 else 1) then imm - 0x10 else imm)]
    case SymbolImm(imm, name) => [Name(imm, name)]
    case KindImm(_) => []
    case AddendSleb(addend) =>
      [Plus(if r == Audit && addend < -0x4000_0000_0000_0000 then addend + 0x40_0000_0000_0000_0000 else addend)]
    case PositionUleb(index, offset) => [SeekTo(index, offset)]
    case AdvanceUleb(delta) => [MoveBy(delta)]
    case DoBind => [BindHere, MoveBy(8)]
    case DoBindAddUleb(delta) => [BindHere, MoveBy(8), MoveBy(delta)]
    case DoBindAddImmScaled(imm) => [BindHere, MoveBy(8), MoveBy(8 * imm)]
    case DoBindTimesSkippingUleb(count, skip) => Times(count, [BindHere, MoveBy(8), MoveBy(skip)])
  }

  function AllBindSteps(r: Reader, ws: seq<BindWire>): seq<BindStep> {
    if ws == [] then [] else BindSteps(r, ws[0]) + AllBindSteps(r, ws[1..])
  }

  /** The lazy stream goes on behind an end mark. */
  function UpToFinish(ws: seq<BindWire>, lazy: bool): seq<BindWire> {
    if ws == [] || (ws[0].Finish? && !lazy) then [] else [ws[0]] + UpToFinish(ws[1..], lazy)
  }

  function StepTo(step: BindStep, st: State): State {
    match step
    case SeekTo(segment, offset) => st.(seg := segment, off := offset)
    case MoveBy(delta) => st.(off := (st.off + delta) % 0x1_0000_0000_0000_0000)
    case Library(ordinal) => st.(ordinal := ordinal)
    case Name(flags, symbol) => st.(flags := flags, symbol := symbol)
    case Plus(addend) => st.(addend := addend)
    case BindHere => st
  }

  function RunTo(steps: seq<BindStep>, st: State): State
    decreases |steps|
  {
    if steps == [] then st else RunTo(steps[1..], StepTo(steps[0], st))
  }

  /** Everything bound, with what is in force there. */
  function Bound(steps: seq<BindStep>, st: State): seq<Bind>
    decreases |steps|
  {
    if steps == [] then [] else
      (if steps[0].BindHere? then [Bind(Place(st.seg, st.off), st.ordinal, st.symbol, st.flags, st.addend)] else [])
      + Bound(steps[1..], StepTo(steps[0], st))
  }

  /** The same, in the first nsegs segments only. */
  function BoundIn(steps: seq<BindStep>, st: State, nsegs: nat): seq<Bind>
    decreases |steps|
  {
    if steps == [] then [] else
      (if steps[0].BindHere? && st.seg < nsegs
       then [Bind(Place(st.seg, st.off), st.ordinal, st.symbol, st.flags, st.addend)] else [])
      + BoundIn(steps[1..], StepTo(steps[0], st), nsegs)
  }

  /** Every pointer bound lies in a segment that exists, at most at its end. */
  predicate BoundInside(steps: seq<BindStep>, st: State, segs: seq<Segment>)
    decreases |steps|
  {
    steps == [] ||
    ((steps[0].BindHere? ==> st.seg < |segs| && st.off <= segs[st.seg].vmsize)
    && BoundInside(steps[1..], StepTo(steps[0], st), segs))
  }

  // ----- one operation -----

  function DecodedBind(w: BindWire): BindOp
    requires ProperBind(w)
  {
    match w
    case Finish => EndMark
    case OrdinalImm(imm) => Ordinal(imm)
    case OrdinalUleb(ordinal) => Ordinal(ordinal)
    case SpecialImm(imm) => Special(imm)
    case SymbolImm(imm, name) => Symbol(imm, name)
    case KindImm(imm) => Kind(imm)
    case AddendSleb(addend) => Addend(PutS(addend))
    case PositionUleb(index, offset) => Position(index, offset)
    case AdvanceUleb(delta) => DyldBind.Move(delta)
    case DoBind => One(0)
    case DoBindAddUleb(delta) => One(delta)
    case DoBindAddImmScaled(imm) => One(imm * 8)
    case DoBindTimesSkippingUleb(count, skip) => Many(count, skip)
  }

  lemma BindRead(w: BindWire, rest: seq<Byte>)
    requires ProperBind(w)
    ensures ReadBind(BindBytes(w) + rest) == Some((DecodedBind(w), |BindBytes(w)|))
  {
    hide ReadBind;
    if w.SymbolImm? {
      SymbolRead(w.imm, w.name, rest);
    } else if w.AddendSleb? {
      AddendRead(w.addend, rest);
    } else if w.OrdinalUleb? || w.PositionUleb? || w.AdvanceUleb? || w.DoBindAddUleb? || w.DoBindTimesSkippingUleb? {
      NumbersRead(w, rest);
    } else {
      ShortRead(w, rest);
    }
  }

  lemma ShortRead(w: BindWire, rest: seq<Byte>)
    requires ProperBind(w)
    requires w.Finish? || w.OrdinalImm? || w.SpecialImm? || w.KindImm? || w.DoBind? || w.DoBindAddImmScaled?
    ensures ReadBind(BindBytes(w) + rest) == Some((DecodedBind(w), |BindBytes(w)|))
  {
    hide U, Len, PutU, GoodU, GoodS, PutS, StrLen;
  }

  lemma NumbersRead(w: BindWire, rest: seq<Byte>)
    requires ProperBind(w)
    requires w.OrdinalUleb? || w.PositionUleb? || w.AdvanceUleb? || w.DoBindAddUleb? || w.DoBindTimesSkippingUleb?
    ensures ReadBind(BindBytes(w) + rest) == Some((DecodedBind(w), |BindBytes(w)|))
  {
    hide U, Len, PutU, GoodU, GoodS, PutS, StrLen;
    match w {
      case OrdinalUleb(ordinal) => NumberAfter(0x20, ordinal, rest);
      case PositionUleb(index, offset) => NumberAfter(0x70 + index, offset, rest);
      case AdvanceUleb(delta) => NumberAfter(0x80, delta, rest);
      case DoBindAddUleb(delta) => NumberAfter(0xa0, delta, rest);
      case DoBindTimesSkippingUleb(count, skip) => TwoAfter(0xc0, count, skip, rest);
    }
  }

  lemma SymbolRead(imm: nat, name: seq<Byte>, rest: seq<Byte>)
    requires Imm(imm) && forall k :: 0 <= k < |name| ==> name[k] != 0
    ensures ReadBind([0x40 + imm] + (name + [0]) + rest) == Some((Symbol(imm, name), |name| + 2))
  {
    hide U, Len, GoodU, GoodS, StrLen;
    var s := [0x40 + imm] + (name + [0]) + rest;
    assert s[1..] == name + ([0] + rest);
    NameEnds(name, rest);
  }

  lemma {:induction false} NameEnds(name: seq<Byte>, rest: seq<Byte>)
    requires forall k :: 0 <= k < |name| ==> name[k] != 0
    ensures var t := name + ([0] + rest); StrLen(t) == |name| < |t| && t[..|name|] == name
    decreases |name|
  {
    if name != [] {
      NameEnds(name[1..], rest);
      assert (name + ([0] + rest))[1..] == name[1..] + ([0] + rest);
    }
  }

  lemma AddendRead(v: int, rest: seq<Byte>)
    requires ProperBind(AddendSleb(v))
    ensures ReadBind([0x60] + PutS(v) + rest) == Some((Addend(PutS(v)), |PutS(v)| + 1))
  {
    hide U, S, Len, PutS, GoodU, StrLen, Terminated, Signed64, PySleb;
    var s, t := [0x60] + PutS(v) + rest, PutS(v) + rest;
    assert s[1..] == t;
    SignedRoundTrip(v, rest);
    PutSTerminated(v, rest);
    SignedReaders(v, rest);
    assert t[..|PutS(v)|] == PutS(v);
  }

  /** Both readings of an addend. */
  lemma AddendValues(v: int)
    requires ProperBind(AddendSleb(v))
    ensures AddendOf(Resolver, PutS(v)) == v
    ensures AddendOf(Audit, PutS(v)) == if v < -TWO62 then v + TWO70 else v
  {
    hide S, PutS, PySleb, Signed64;
    SignedReaders(v, []);
    assert PutS(v) + [] == PutS(v);
  }

  // ----- steps -----

  lemma {:induction false} RunAdd(a: seq<BindStep>, b: seq<BindStep>, st: State)
    ensures RunTo(a + b, st) == RunTo(b, RunTo(a, st))
    ensures Bound(a + b, st) == Bound(a, st) + Bound(b, RunTo(a, st))
    decreases |a|
  {
    hide StepTo;
    if a == [] {
      assert a + b == b;
    } else {
      assert (a + b)[1..] == a[1..] + b;
      RunAdd(a[1..], b, StepTo(a[0], st));
    }
  }

  lemma {:induction false} RunOne(step: BindStep, st: State)
    ensures RunTo([step], st) == StepTo(step, st)
    ensures Bound([step], st) == if step.BindHere? then [Bind(Place(st.seg, st.off), st.ordinal, st.symbol, st.flags, st.addend)] else []
  {
    hide StepTo;
    assert [step][1..] == [];
  }

  lemma {:induction false} RunNone(st: State)
    ensures RunTo([], st) == st && Bound([], st) == []
  {
  }

  /** A bind, a pointer's width and d more. */
  lemma {:induction false} BindThen(d: nat, st: State)
    requires Wide(st.off)
    ensures var steps := [BindHere, MoveBy(8), MoveBy(d)];
      Bound(steps, st) == [At(st, st.off)] && RunTo(steps, st) == st.(off := (st.off + (d + 8)) % TWO64)
  {
    hide RunTo, Bound;
    var next := st.(off := (st.off + 8) % TWO64);
    assert [BindHere, MoveBy(8), MoveBy(d)] == [BindHere] + ([MoveBy(8)] + [MoveBy(d)]);
    RunOne(BindHere, st);
    RunOne(MoveBy(8), st);
    RunOne(MoveBy(d), next);
    RunAdd([MoveBy(8)], [MoveBy(d)], st);
    RunAdd([BindHere], [MoveBy(8)] + [MoveBy(d)], st);
    ModAdd(st.off + 8, d);
    SmallMod64(st.off);
  }

  lemma {:induction false} BindAlone(st: State)
    requires Wide(st.off)
    ensures Bound([BindHere, MoveBy(8)], st) == [At(st, st.off)]
    ensures RunTo([BindHere, MoveBy(8)], st) == st.(off := (st.off + 8) % TWO64)
  {
    hide RunTo, Bound;
    assert [BindHere, MoveBy(8)] == [BindHere] + [MoveBy(8)];
    RunOne(BindHere, st);
    RunOne(MoveBy(8), st);
    RunAdd([BindHere], [MoveBy(8)], st);
    SmallMod64(st.off);
  }

  lemma {:induction false} BindSeries(n: nat, d: nat, st: State)
    requires Wide(st.off)
    ensures var steps := Times(n, [BindHere, MoveBy(8), MoveBy(d)]);
      && Bound(steps, st) == Series(st, n, d + 8)
      && RunTo(steps, st) == st.(off := (st.off + n * (d + 8)) % TWO64)
    decreases n
  {
    hide RunTo, Bound, Series;
    SeriesFront(st, n, d + 8);
    if n == 0 {
      RunNone(st);
      SmallMod64(st.off);
    } else {
      var one, next := [BindHere, MoveBy(8), MoveBy(d)], st.(off := (st.off + (d + 8)) % TWO64);
      BindThen(d, st);
      RunAdd(one, Times(n - 1, one), st);
      BindSeries(n - 1, d, next);
      NextOffset(st.off, d + 8, n - 1);
    }
  }

  lemma {:induction false} SeriesFront(st: State, n: nat, step: nat)
    requires Wide(st.off)
    ensures n == 0 ==> Series(st, n, step) == []
    ensures n > 0 ==> Series(st, n, step) == [At(st, st.off)] + Series(st.(off := (st.off + step) % TWO64), n - 1, step)
  {
    hide At;
    if n > 0 {
      var next := st.(off := (st.off + step) % TWO64);
      var a, b := Series(st, n, step), [At(st, st.off)] + Series(next, n - 1, step);
      assert a[0] == At(st, st.off + 0 * step) == At(st, st.off);
      forall i | 1 <= i < n ensures a[i] == b[i] {
        LaterAt(st, step, i - 1);
        assert b[i] == Series(next, n - 1, step)[i - 1];
      }
      assert a == b;
    }
  }

  lemma {:induction false} LaterAt(st: State, step: nat, i: nat)
    ensures var next := st.(off := (st.off + step) % TWO64); At(next, next.off + i * step) == At(st, st.off + (i + 1) * step)
  {
    NextOffset(st.off, step, i);
  }

  /** What an operation does is what its steps do. */
  ghost predicate BindMeans(r: Reader, w: BindWire, st: State)
    requires ProperBind(w)
  {
    && Binds(DecodedBind(w), st) == Bound(BindSteps(r, w), st)
    && After(r, DecodedBind(w), st) == RunTo(BindSteps(r, w), st)
    && Wide(RunTo(BindSteps(r, w), st).off)
  }

  lemma {:induction false} BindWireMeans(r: Reader, w: BindWire, st: State)
    requires ProperBind(w) && Wide(st.off)
    ensures BindMeans(r, w, st)
  {
    if w.DoBind? || w.DoBindAddUleb? || w.DoBindAddImmScaled? || w.DoBindTimesSkippingUleb? {
      BindingMeans(r, w, st);
    } else {
      SettingMeans(r, w, st);
    }
    hide *;
  }

  lemma {:induction false} BindingMeans(r: Reader, w: BindWire, st: State)
    requires ProperBind(w) && Wide(st.off)
    requires w.DoBind? || w.DoBindAddUleb? || w.DoBindAddImmScaled? || w.DoBindTimesSkippingUleb?
    ensures BindMeans(r, w, st)
  {
    hide RunTo, Bound, Series, At, Times;
    match w {
      case DoBind => BindAlone(st);
      case DoBindAddUleb(delta) => BindThen(delta, st);
      case DoBindAddImmScaled(imm) => BindThen(8 * imm, st);
      case DoBindTimesSkippingUleb(count, skip) => BindSeries(count, skip, st);
    }
  }

  lemma {:induction false} SettingMeans(r: Reader, w: BindWire, st: State)
    requires ProperBind(w) && Wide(st.off)
    requires !(w.DoBind? || w.DoBindAddUleb? || w.DoBindAddImmScaled? || w.DoBindTimesSkippingUleb?)
    ensures BindMeans(r, w, st)
  {
    hide RunTo, Bound, AddendOf, PutS;
    var steps := BindSteps(r, w);
    RunNone(st);
    if w.PositionUleb? {
      SmallMod64(w.offset);
    } else if w.AddendSleb? {
      AddendValues(w.addend);
    }
    if steps != [] {
      assert steps == [steps[0]];
      RunOne(steps[0], st);
    }
  }

  // ----- whole streams -----

  function AllDecodedBinds(ws: seq<BindWire>): seq<BindOp>
    requires AllProperBinds(ws)
  {
    if ws == [] then [] else [DecodedBind(ws[0])] + AllDecodedBinds(ws[1..])
  }

  lemma {:induction false} BindStreamRead(ws: seq<BindWire>)
    requires AllProperBinds(ws)
    ensures ReadBinds(AllBindBytes(ws)) == Some(AllDecodedBinds(ws))
    decreases |ws|
  {
    hide ReadBind, BindBytes, DecodedBind, ProperBind;
    if ws != [] {
      var b, rest := BindBytes(ws[0]), AllBindBytes(ws[1..]);
      BindRead(ws[0], rest);
      BindStreamRead(ws[1..]);
      assert (b + rest)[|b|..] == rest;
    }
  }

  lemma {:induction false} BindStreamMeans(r: Reader, ws: seq<BindWire>, st: State)
    requires AllProperBinds(ws) && Wide(st.off)
    ensures List(r, AllDecodedBinds(ws), st) == Bound(AllBindSteps(r, ws), st)
    decreases |ws|
  {
    hide Binds, After, RunTo, Bound, BindSteps, DecodedBind, ProperBind;
    RunNone(st);
    if ws != [] {
      BindWireMeans(r, ws[0], st);
      RunAdd(BindSteps(r, ws[0]), AllBindSteps(r, ws[1..]), st);
      BindStreamMeans(r, ws[1..], RunTo(BindSteps(r, ws[0]), st));
      assert ([DecodedBind(ws[0])] + AllDecodedBinds(ws[1..]))[1..] == AllDecodedBinds(ws[1..]);
    }
  }

  lemma {:induction false} HeardWires(ws: seq<BindWire>, lazy: bool)
    requires AllProperBinds(ws)
    ensures AllProperBinds(UpToFinish(ws, lazy)) && Heard(AllDecodedBinds(ws), lazy) == AllDecodedBinds(UpToFinish(ws, lazy))
    decreases |ws|
  {
    hide ProperBind;
    if ws != [] {
      HeardWires(ws[1..], lazy);
      assert ([DecodedBind(ws[0])] + AllDecodedBinds(ws[1..]))[1..] == AllDecodedBinds(ws[1..]);
      assert DecodedBind(ws[0]).EndMark? <==> ws[0].Finish?;
    }
  }

  lemma {:induction false} KnownBound(steps: seq<BindStep>, st: State, nsegs: nat)
    ensures Known(Bound(steps, st), nsegs) == BoundIn(steps, st, nsegs)
    decreases |steps|
  {
    hide StepTo;
    if steps != [] {
      var next := StepTo(steps[0], st);
      KnownBound(steps[1..], next, nsegs);
      if steps[0].BindHere? {
        var b := Bind(Place(st.seg, st.off), st.ordinal, st.symbol, st.flags, st.addend);
        KnownAdd([b], Bound(steps[1..], next), nsegs);
        KnownOne(b, nsegs);
      } else {
        assert [] + Bound(steps[1..], next) == Bound(steps[1..], next);
      }
    }
  }

  lemma {:induction false} PlacedBound(steps: seq<BindStep>, st: State, segs: seq<Segment>)
    ensures Placed(Bound(steps, st), segs) <==> BoundInside(steps, st, segs)
    decreases |steps|
  {
    hide StepTo, Placed;
    if steps == [] {
      PlacedNone(segs);
    } else {
      var next := StepTo(steps[0], st);
      PlacedBound(steps[1..], next, segs);
      if steps[0].BindHere? {
        PlacedFirst(Bind(Place(st.seg, st.off), st.ordinal, st.symbol, st.flags, st.addend), Bound(steps[1..], next), segs);
      } else {
        assert [] + Bound(steps[1..], next) == Bound(steps[1..], next);
      }
    }
  }

  lemma {:induction false} PlacedNone(segs: seq<Segment>)
    ensures Placed([], segs)
  {
  }

  lemma {:induction false} PlacedFirst(b: Bind, rest: seq<Bind>, segs: seq<Segment>)
    ensures Placed([b] + rest, segs) <==>
      b.place.segment < |segs| && b.place.offset <= segs[b.place.segment].vmsize && Placed(rest, segs)
  {
    if Placed([b] + rest, segs) {
      assert ([b] + rest)[0] == b;
      forall k | 0 <= k < |rest| ensures Locate(rest[k].place, segs).Some? {
        assert ([b] + rest)[k + 1] == rest[k];
      }
    }
  }

  /** On a stream of any operations, the resolver does the binds of the steps before the first end mark,
      or of all of them in the lazy stream, in the segments that exist; the audit lists the binds of all
      steps, and accepts the stream exactly when each lies in its segment. */
  lemma BindStream(ws: seq<BindWire>, segs: seq<Segment>, lazy: bool, weak: bool)
    requires AllProperBinds(ws)
    ensures ReadBinds(AllBindBytes(ws)).Some?
    ensures var ops := ReadBinds(AllBindBytes(ws)).value;
      var first := State(0, 0, 0, [], 0, 0);
      var audit := State(0, 0, if weak then -3 else 0, [], 0, 0);
      && Known(List(Resolver, Heard(ops, lazy), Start), |segs|)
         == BoundIn(AllBindSteps(Resolver, UpToFinish(ws, lazy)), first, |segs|)
      && List(Audit, ops, AuditStart(weak)) == Bound(AllBindSteps(Audit, ws), audit)
      && (Placed(List(Audit, ops, AuditStart(weak)), segs) <==> BoundInside(AllBindSteps(Audit, ws), audit, segs))
  {
    hide ReadBinds, List, Heard, Known, Bound, BoundIn, BoundInside, Placed, AllBindSteps, UpToFinish, AllProperBinds;
    BindStreamRead(ws);
    HeardWires(ws, lazy);
    BindStreamMeans(Resolver, UpToFinish(ws, lazy), Start);
    BindStreamMeans(Audit, ws, AuditStart(weak));
    KnownBound(AllBindSteps(Resolver, UpToFinish(ws, lazy)), Start, |segs|);
    PlacedBound(AllBindSteps(Audit, ws), AuditStart(weak), segs);
  }
}
