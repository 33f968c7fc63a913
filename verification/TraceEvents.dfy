/** The events of the allocation tracer (src/heaptrack_trace.c) as functions of its state, and what the
    record stream then says about the heap and the mapped bytes. */
module TraceEvents {
  import opened TraceLog
  import opened Regions
  import opened TraceSpec

  function Put(v: View, r: Rec): View {
    v.(out := v.out + [r])
  }

  /** The innermost frame is the tracer's own. */
  function Captured(frames: seq<nat>): seq<nat> {
    if |frames| > 1 then frames[1..] else frames
  }

  function PtrInsert(v: View, p: nat, a: nat): View {
    v.(ptrs := v.ptrs[p := a], lost := if p in v.ptrs then v.lost + multiset{v.ptrs[p]} else v.lost)
  }

  /** Every 1024th allocation is followed by a time stamp. */
  function Tick(v: View): View {
    var n := v.allocs + 1;
    if n % 1024 == 0 then Put(v.(allocs := n), Clock) else v.(allocs := n)
  }

  function Alloc(v: View, p: nat, size: nat, frames: seq<nat>, hints: seq<Hint>): View {
    var (v1, t) := Build(v, Captured(frames), hints);
    var (v2, a) := InternInfo(v1, size, t);
    Put(Tick(PtrInsert(v2, p, a)), Plus(a))
  }

  function Free(v: View, p: nat): View {
    if p in v.ptrs then Put(v.(ptrs := v.ptrs - {p}), Minus(v.ptrs[p])) else v
  }

  function AddRegion(v: View, addr: nat, len: nat, trace: nat): View {
    var (v1, a) := InternInfo(v, len, trace);
    Put(v1.(regions := v1.regions + [Region(addr, len, a, trace)]), Plus(a))
  }

  function Mmap(v: View, p: nat, len: nat, tag: string, frames: seq<nat>, hints: seq<Hint>): View {
    var (v1, t) := Build(v, Captured(frames), hints);
    var (v2, ip, addr) := InternTag(v1, tag);
    var (v3, leaf) := InternTrace(v2, ip, addr, t);
    Put(AddRegion(v3, p, len, leaf), Clock)
  }

  /** One overlapping region is retired and its surviving head and tail are put back. */
  function CutAt(v: View, i: nat, us: nat, ue: nat): View
    requires i < |v.regions|
  {
    var r := v.regions[i];
    var v1 := Put(v.(regions := SwapRemove(v.regions, i)), Minus(r.info));
    var v2 := if r.addr < us then AddRegion(v1, r.addr, us - r.addr, r.trace) else v1;
    if r.addr + r.len > ue then AddRegion(v2, ue, r.addr + r.len - ue, r.trace) else v2
  }

  /** The scan from region i on; the second result says whether anything was hit. */
  function Scan(v: View, i: nat, us: nat, ue: nat, hit: bool): (View, bool)
    requires i <= |v.regions| && us < ue
    decreases Overlaps(v.regions[i..], us, ue), |v.regions| - i
  {
    if i == |v.regions| then (v, hit)
    else if !Overlap(v.regions[i], us, ue) then
      assert v.regions[i..][1..] == v.regions[i + 1..];
      Scan(v, i + 1, us, ue, hit)
    else
      CutAtShape(v, i, us, ue);
      Scan(CutAt(v, i, us, ue), i, us, ue, true)
  }

  /** A cut puts back survivors as Cut says, and there is one overlap fewer to find. */
  lemma CutAtShape(v: View, i: nat, us: nat, ue: nat)
    requires i < |v.regions| && us < ue && Overlap(v.regions[i], us, ue)
    ensures exists h, t :: CutAt(v, i, us, ue).regions == Cut(v.regions, i, us, ue, h, t)
    ensures i <= |CutAt(v, i, us, ue).regions|
    ensures Overlaps(CutAt(v, i, us, ue).regions[i..], us, ue) < Overlaps(v.regions[i..], us, ue)
  {
    hide InternInfo, Overlaps;
    var r := v.regions[i];
    var v1 := Put(v.(regions := SwapRemove(v.regions, i)), Minus(r.info));
    var h, t := 0, 0;
    var v2 := v1;
    if r.addr < us {
      h := InternInfo(v1, us - r.addr, r.trace).1;
      v2 := AddRegion(v1, r.addr, us - r.addr, r.trace);
      InfoRegions(v1, us - r.addr, r.trace);
    }
    if r.addr + r.len > ue {
      t := InternInfo(v2, r.addr + r.len - ue, r.trace).1;
      InfoRegions(v2, r.addr + r.len - ue, r.trace);
    }
    assert CutAt(v, i, us, ue).regions == Cut(v.regions, i, us, ue, h, t);
    CutMeasure(v.regions, i, us, ue, h, t);
  }

  lemma InfoRegions(v: View, size: nat, trace: nat)
    ensures InternInfo(v, size, trace).0.regions == v.regions
  {
  }

  function Munmap(v: View, us: nat, len: nat): View
    requires len > 0
  {
    var (v1, hit) := Scan(v, 0, us, us + len, false);
    if hit then Put(v1, Clock) else v1
  }

  // ----- the invariant -----

  /** Definitions are only added; pointers, tags and losses stay. */
  ghost predicate Later(v: View, v': View) {
    && WellFormed(v.out) && WellFormed(v'.out)
    && Ips(v.out) <= Ips(v'.out) && Nodes(v.out) <= Nodes(v'.out) && Infos(v.out) <= Infos(v'.out)
  }

  lemma CountUp(ptrs: map<nat, nat>, p: nat, a: nat)
    requires p !in ptrs
    ensures Holders(ptrs[p := a], a) == Holders(ptrs, a) + {p}
    ensures |Holders(ptrs[p := a], a)| == |Holders(ptrs, a)| + 1
    ensures forall b :: b != a ==> Holders(ptrs[p := a], b) == Holders(ptrs, b)
  {
  }

  lemma CountDown(ptrs: map<nat, nat>, p: nat)
    requires p in ptrs
    ensures Holders(ptrs - {p}, ptrs[p]) == Holders(ptrs, ptrs[p]) - {p}
    ensures |Holders(ptrs - {p}, ptrs[p])| + 1 == |Holders(ptrs, ptrs[p])|
    ensures forall b :: b != ptrs[p] ==> Holders(ptrs - {p}, b) == Holders(ptrs, b)
  {
    assert p in Holders(ptrs, ptrs[p]);
    assert Holders(ptrs, ptrs[p]) == Holders(ptrs - {p}, ptrs[p]) + {p};
  }

  /** One record that defines nothing leaves the interning tables in agreement. */
  lemma PutInterned(v: View, r: Rec, u: View)
    requires Interned(v) && (r.Plus? || r.Minus? || r.Clock?) && Refers(v.out, r)
    requires u.strs == v.strs && u.ips == v.ips && u.traces == v.traces && u.infos == v.infos && u.tags == v.tags
    requires u.out == v.out + [r]
    ensures Interned(u) && Infos(u.out) == Infos(v.out) && Nodes(u.out) == Nodes(v.out) && Ips(u.out) == Ips(v.out)
    ensures Strs(u.out) == Strs(v.out) && Outstanding(u.out) == Balance(Outstanding(v.out), r)
  {
    hide Indexes, NodesOk, IpsOk, TagsOk, Strs, Ips, Nodes, Infos, Outstanding, WellFormed, Refers;
    Emit(v.out, r);
  }

  /** Insertion adds one holder of a; an overwritten pointer gives up its info to the losses. */
  lemma InsertCounts(v: View, p: nat, a: nat, b: nat)
    ensures var u := PtrInsert(v, p, a);
      |Holders(u.ptrs, b)| + u.lost[b] == |Holders(v.ptrs, b)| + v.lost[b] + (if a == b then 1 else 0)
    ensures PtrInsert(v, p, a).lost == v.lost <==> p !in v.ptrs
  {
    hide Holders;
    var ptrs: map<nat, nat> := v.ptrs;
    if p in ptrs {
      var less: map<nat, nat> := ptrs - {p};
      CountDown(ptrs, p);
      CountUp(less, p, a);
      assert less[p := a] == ptrs[p := a];
      assert (v.lost + multiset{ptrs[p]})[ptrs[p]] == v.lost[ptrs[p]] + 1;
    } else {
      CountUp(ptrs, p, a);
    }
  }

  lemma PtrInsertKeeps(v: View, p: nat, a: nat, u: View)
    requires Interned(v) && Live(v) && a < |Infos(v.out)|
    requires u == Put(PtrInsert(v, p, a), Plus(a))
    ensures Interned(u) && Live(u) && Later(v, u) && u.regions == v.regions
  {
    hide Indexes, NodesOk, IpsOk, TagsOk, RegionsOk, Strs, Ips, Nodes, Infos, Outstanding, WellFormed, Holders, Bag;
    PutInterned(v, Plus(a), u);
    forall b: nat ensures Outstanding(u.out)[b] == |Holders(u.ptrs, b)| + Bag(u.regions)[b] + u.lost[b] {
      InsertCounts(v, p, a, b);
      assert Outstanding(u.out)[b] == Outstanding(v.out)[b] + if a == b then 1 else 0;
    }
  }

  lemma FreeKeeps(v: View, p: nat)
    requires Inv(v)
    ensures Inv(Free(v, p)) && Later(v, Free(v, p))
  {
    hide Indexes, NodesOk, IpsOk, TagsOk, RegionsOk, Strs, Ips, Nodes, Infos, Outstanding, WellFormed, Holders, Bag, Apart;
    if p in v.ptrs {
      CountDown(v.ptrs, p);
      assert Outstanding(v.out)[v.ptrs[p]] > 0;
      PutInterned(v, Minus(v.ptrs[p]), Free(v, p));
    }
  }

  lemma AddRegionKeeps(v: View, addr: nat, len: nat, trace: nat)
    requires Interned(v) && Live(v) && trace <= |Nodes(v.out)|
    ensures var u := AddRegion(v, addr, len, trace);
      && Interned(u) && Live(u) && Later(v, u) && u.ptrs == v.ptrs && u.tags == v.tags && u.lost == v.lost
      && |u.regions| == |v.regions| + 1 && u.regions[..|v.regions|] == v.regions
      && u.regions[|v.regions|].(info := 0) == Region(addr, len, 0, trace)
      && Nodes(u.out) == Nodes(v.out)
  {
    hide Indexes, NodesOk, IpsOk, TagsOk, Strs, Ips, Nodes, Infos, Outstanding, WellFormed, Holders, Bag, InternInfo;
    InternInfoKeeps(v, len, trace);
    InternInfoFrame(v, len, trace);
    var (v1, a) := InternInfo(v, len, trace);
    GrowsLive(v, v1);
    PutInterned(v1, Plus(a), AddRegion(v, addr, len, trace));
    BagAdd(v1.regions, Region(addr, len, a, trace));
  }

  lemma InternInfoFrame(v: View, size: nat, trace: nat)
    ensures var v1 := InternInfo(v, size, trace).0; v1 == v.(infos := v1.infos, out := v1.out)
  {
  }

  lemma RetireKeeps(v: View, i: nat)
    requires Interned(v) && Live(v) && i < |v.regions|
    ensures var u := Put(v.(regions := SwapRemove(v.regions, i)), Minus(v.regions[i].info));
      && Interned(u) && Live(u) && Later(v, u) && Nodes(u.out) == Nodes(v.out)
  {
    hide Indexes, NodesOk, IpsOk, TagsOk, Strs, Ips, Nodes, Infos, Outstanding, WellFormed, Holders, Bag;
    var r, u := v.regions[i], Put(v.(regions := SwapRemove(v.regions, i)), Minus(v.regions[i].info));
    SwapRemoveBag(v.regions, i);
    assert Outstanding(v.out)[r.info] > 0;
    PutInterned(v, Minus(r.info), u);
  }

  lemma RegionTrace(v: View, i: nat)
    requires Interned(v) && Live(v) && i < |v.regions|
    ensures v.regions[i].trace <= |Nodes(v.out)|
  {
    InfoTrace(v.out, v.regions[i].info);
  }

  lemma CutAtKeeps(v: View, i: nat, us: nat, ue: nat)
    requires Inv(v) && i < |v.regions| && us < ue && Overlap(v.regions[i], us, ue)
    ensures var u := CutAt(v, i, us, ue);
      Inv(u) && Later(v, u) && u.ptrs == v.ptrs && u.tags == v.tags && u.lost == v.lost
  {
    hide Interned, Live, Apart, AddRegion, SwapRemove, Strs, Ips, Nodes, Infos, WellFormed;
    var r := v.regions[i];
    RegionTrace(v, i);
    RetireKeeps(v, i);
    var v1 := Put(v.(regions := SwapRemove(v.regions, i)), Minus(r.info));
    var v2 := v1;
    if r.addr < us {
      AddRegionKeeps(v1, r.addr, us - r.addr, r.trace);
      v2 := AddRegion(v1, r.addr, us - r.addr, r.trace);
    }
    if r.addr + r.len > ue {
      AddRegionKeeps(v2, ue, r.addr + r.len - ue, r.trace);
    }
    CutAtShape(v, i, us, ue);
    var h, t :| CutAt(v, i, us, ue).regions == Cut(v.regions, i, us, ue, h, t);
    CutApart(v.regions, i, us, ue, h, t);
  }
}
