/** Whole runs of the allocation tracer (src/heaptrack_trace.c) against what actually happened: a map
    from live pointers to size and call stack, and a map from mapped bytes to call stack. */
module TraceRuns {
  import opened TraceLog
  import opened Regions
  import opened TraceSpec
  import opened TraceEvents

  // ----- single events -----

  /** After a scan the tracked bytes are the old ones minus the range, under the same stacks, and it
      reports a hit exactly when some region overlapped. */
  lemma {:induction false} ScanExact(v: View, i: nat, us: nat, ue: nat, hit: bool)
    requires Inv(v) && us < ue && i <= |v.regions|
    requires forall k :: 0 <= k < i ==> !Overlap(v.regions[k], us, ue)
    ensures var (u, h) := Scan(v, i, us, ue, hit);
      && Inv(u) && Later(v, u) && u.ptrs == v.ptrs && u.tags == v.tags && u.lost == v.lost
      && (forall x: nat, t: nat :: Tracked(u.regions, x, t) <==> Tracked(v.regions, x, t) && !(us <= x < ue))
      && h == (hit || exists k :: i <= k < |v.regions| && Overlap(v.regions[k], us, ue))
    decreases Overlaps(v.regions[i..], us, ue), |v.regions| - i
  {
    hide Inv, CutAt, WellFormed, Strs, Ips, Nodes, Infos, Tracked;
    LaterSelf(v);
    if i == |v.regions| {
      forall x: nat, t: nat ensures Tracked(v.regions, x, t) ==> !(us <= x < ue) {
        NoneLeft(v, us, ue, x, t);
      }
    } else if !Overlap(v.regions[i], us, ue) {
      assert v.regions[i..][1..] == v.regions[i + 1..];
      ScanExact(v, i + 1, us, ue, hit);
    } else {
      CutAtShape(v, i, us, ue);
      CutAtKeeps(v, i, us, ue);
      CutStep(v, i, us, ue);
      ScanExact(CutAt(v, i, us, ue), i, us, ue, true);
    }
  }

  lemma LaterSelf(v: View)
    requires Inv(v)
    ensures Later(v, v)
  {
  }

  lemma NoneLeft(v: View, us: nat, ue: nat, x: nat, t: nat)
    requires Inv(v) && us < ue
    requires forall k :: 0 <= k < |v.regions| ==> !Overlap(v.regions[k], us, ue)
    ensures Tracked(v.regions, x, t) ==> !(us <= x < ue)
  {
  }

  lemma CutStep(v: View, i: nat, us: nat, ue: nat)
    requires Inv(v) && us < ue && i < |v.regions| && Overlap(v.regions[i], us, ue)
    ensures var c := CutAt(v, i, us, ue).regions;
      && (forall x: nat, t: nat :: !(us <= x < ue) ==> (Tracked(c, x, t) <==> Tracked(v.regions, x, t)))
      && |c| >= i && forall k :: 0 <= k < i ==> c[k] == v.regions[k]
  {
    hide CutAt, Cut, Tracked, Overlap;
    CutAtShape(v, i, us, ue);
    var h, t :| CutAt(v, i, us, ue).regions == Cut(v.regions, i, us, ue, h, t);
    CutFront(v.regions, i, us, ue, h, t);
    forall x: nat, tr: nat | !(us <= x < ue)
      ensures Tracked(CutAt(v, i, us, ue).regions, x, tr) <==> Tracked(v.regions, x, tr)
    {
      CutCovers(v.regions, i, us, ue, h, t, x, tr);
    }
  }

  lemma CutFront(regs: seq<Region>, i: nat, us: nat, ue: nat, h: nat, t: nat)
    requires i < |regs|
    ensures i <= |Cut(regs, i, us, ue, h, t)|
    ensures forall k :: 0 <= k < i ==> Cut(regs, i, us, ue, h, t)[k] == regs[k]
  {
  }

  lemma PutClock(v: View)
    requires Inv(v)
    ensures Inv(Put(v, Clock)) && Later(v, Put(v, Clock))
  {
    hide Indexes, NodesOk, IpsOk, TagsOk, RegionsOk, Strs, Ips, Nodes, Infos, Outstanding, WellFormed, Holders, Bag, Apart;
    PutInterned(v, Clock, Put(v, Clock));
  }

  /** Unmapping is exact set subtraction, byte by byte, and keeps every stack. */
  lemma MunmapExact(v: View, us: nat, len: nat)
    requires Inv(v) && len > 0
    ensures var u := Munmap(v, us, len);
      && Inv(u) && Later(v, u) && u.ptrs == v.ptrs && u.tags == v.tags && u.lost == v.lost
      && (forall x: nat, t: nat :: Tracked(u.regions, x, t) <==> Tracked(v.regions, x, t) && !(us <= x < us + len))
      && ((forall k :: 0 <= k < |v.regions| ==> !Overlap(v.regions[k], us, us + len)) ==> u == v)
  {
    hide Inv, Tracked, Scan, WellFormed, Strs, Ips, Nodes, Infos;
    ScanExact(v, 0, us, us + len, false);
    PutClock(Scan(v, 0, us, us + len, false).0);
    if forall k :: 0 <= k < |v.regions| ==> !Overlap(v.regions[k], us, us + len) {
      ScanNothing(v, 0, us, us + len);
    }
  }

  lemma {:induction false} ScanNothing(v: View, i: nat, us: nat, ue: nat)
    requires us < ue && i <= |v.regions|
    requires forall k :: 0 <= k < |v.regions| ==> !Overlap(v.regions[k], us, ue)
    ensures Scan(v, i, us, ue, false) == (v, false)
    decreases |v.regions| - i
  {
    if i < |v.regions| {
      ScanNothing(v, i + 1, us, ue);
    }
  }

  lemma {:induction false} BuildFrame(v: View, frames: seq<nat>, hints: seq<Hint>)
    ensures Build(v, frames, hints).0.tags == v.tags
  {
    hide Strs, Ips, Nodes;
    if frames != [] {
      BuildFrame(v, frames[1..], hints);
    }
  }

  lemma GrowsLater(v: View, v': View)
    requires Interned(v) && Interned(v') && Grows(v, v')
    ensures Later(v, v')
  {
  }

  lemma MeaningLater(v: View, v': View, a: nat)
    requires Later(v, v') && a < |Infos(v.out)|
    ensures Meaning(v'.out, a) == Meaning(v.out, a)
  {
    hide Strs, Ips, Nodes, Infos, WellFormed, Walk;
    LogTree(v.out);
    LogTree(v'.out);
    InfoTrace(v.out, a);
    WalkStable(Ips(v.out), Nodes(v.out), Ips(v'.out), Nodes(v'.out), Infos(v.out)[a].1);
  }

  /** An allocation is recorded with its size and its frames less the tracer's own, and an info is lost
      exactly when the pointer was still live. */
  lemma AllocRecords(v: View, p: nat, size: nat, frames: seq<nat>, hints: seq<Hint>)
    requires Inv(v)
    ensures var u := Alloc(v, p, size, frames, hints);
      && Inv(u) && Later(v, u) && u.regions == v.regions && u.tags == v.tags && p in u.ptrs
      && u.ptrs == v.ptrs[p := u.ptrs[p]] && Meaning(u.out, u.ptrs[p]) == (size, Captured(frames))
      && u.out[|u.out| - 1] == Plus(u.ptrs[p])
      && (u.lost == v.lost <==> p !in v.ptrs)
  {
    hide Interned, Live, Apart, Strs, Ips, Nodes, Infos, WellFormed, Walk, Build, InternInfo, Outstanding;
    BuildStack(v, Captured(frames), hints);
    BuildFrame(v, Captured(frames), hints);
    var (v1, t) := Build(v, Captured(frames), hints);
    GrowsLater(v, v1);
    GrowsLive(v, v1);
    InternInfoKeeps(v1, size, t);
    InternInfoFrame(v1, size, t);
    var (v2, a) := InternInfo(v1, size, t);
    GrowsLater(v1, v2);
    GrowsLive(v1, v2);
    InfoMeans(v1, v2, a, size, t);
    TickKeeps(v2, p, a);
    MeaningLater(v2, Put(Tick(PtrInsert(v2, p, a)), Plus(a)), a);
    InsertCounts(v2, p, a, a);
  }

  lemma InfoMeans(v1: View, v2: View, a: nat, size: nat, t: nat)
    requires Interned(v1) && Interned(v2) && t <= |Nodes(v1.out)|
    requires Nodes(v2.out) == Nodes(v1.out) && Ips(v2.out) == Ips(v1.out)
    requires a < |Infos(v2.out)| && Infos(v2.out)[a] == (size, t)
    ensures Meaning(v2.out, a) == (size, Stack(v1, t))
  {
  }

  lemma TickKeeps(v: View, p: nat, a: nat)
    requires Inv(v) && a < |Infos(v.out)|
    ensures var u := Put(Tick(PtrInsert(v, p, a)), Plus(a)); Inv(u) && Later(v, u)
  {
    hide Indexes, NodesOk, IpsOk, TagsOk, RegionsOk, Strs, Ips, Nodes, Infos, Outstanding, WellFormed, Holders, Bag, Apart, PtrInsert;
    var c := Put(v, Clock);
    PutClock(v);
    PutInterned(v, Clock, c);
    PtrInsertKeeps(v, p, a, Put(PtrInsert(v, p, a), Plus(a)));
    PtrInsertKeeps(c, p, a, Put(PtrInsert(c, p, a), Plus(a)));
    TickShape(v, p, a);
    var n := v.allocs + 1;
    SameButCount(Put(PtrInsert(v, p, a), Plus(a)), n);
    SameButCount(Put(PtrInsert(c, p, a), Plus(a)), n);
  }

  lemma TickShape(v: View, p: nat, a: nat)
    ensures Put(Tick(PtrInsert(v, p, a)), Plus(a)) ==
      Put(PtrInsert(if (v.allocs + 1) % 1024 == 0 then Put(v, Clock) else v, p, a), Plus(a)).(allocs := v.allocs + 1)
  {
  }

  lemma SameButCount(v: View, n: nat)
    requires Interned(v) && Live(v)
    ensures Interned(v.(allocs := n)) && Live(v.(allocs := n))
  {
    hide Indexes, NodesOk, IpsOk, TagsOk, RegionsOk, Strs, Ips, Nodes, Infos, Outstanding, WellFormed, Holders, Bag, Apart;
  }
}
