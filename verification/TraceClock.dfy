/** When the stream is stamped with the time (src/heaptrack_trace.c): after every 1024th allocation, and
    with every change of the mapped bytes. */
module TraceClock {
  import opened TraceLog
  import opened Regions
  import opened TraceSpec
  import opened TraceEvents
  import opened TraceRuns
  import opened TraceRefine

  function Clocks(out: Log): nat {
    if out == [] then 0 else Clocks(out[..|out| - 1]) + if out[|out| - 1].Clock? then 1 else 0
  }

  /** n stamps more, and so many allocations counted. */
  ghost predicate Stamped(v: View, u: View, n: nat, allocs: nat) {
    Clocks(u.out) == Clocks(v.out) + n && u.allocs == v.allocs + allocs
  }

  lemma PutStamps(v: View, r: Rec)
    ensures Stamped(v, Put(v, r), if r.Clock? then 1 else 0, 0)
  {
    assert (v.out + [r])[..|v.out|] == v.out;
  }

  lemma StrStamps(v: View, s: string)
    ensures Stamped(v, InternStr(v, s).0, 0, 0)
  {
    PutStamps(v, Str(Text(s)));
    hide Clocks, Strs;
  }

  lemma NamesStamps(v: View, image: string, fn: string)
    ensures Stamped(v, InternNames(v, image, fn).0, 0, 0)
  {
    hide Clocks, InternStr;
    StrStamps(v, image);
    var v1 := InternStr(v, image).0;
    StrStamps(v1, fn);
    StrStamps(InternStr(v1, fn).0, "??");
  }

  lemma IpStamps(v: View, a: nat, hints: seq<Hint>)
    ensures Stamped(v, InternIp(v, a, hints).0, 0, 0)
  {
    hide Clocks, InternNames, FindHint, Ips;
    if a !in v.ips {
      var n, h := |Ips(v.out)| + 1, FindHint(hints, a);
      var w := v.(ips := v.ips[a := n]);
      NamesStamps(w, h.image, h.fn);
      var (u, m, f, l) := InternNames(w, h.image, h.fn);
      PutStamps(u, Ip(a, m, f, l));
    }
  }

  lemma TagStamps(v: View, text: string)
    ensures Stamped(v, InternTag(v, text).0, 0, 0)
  {
    hide Clocks, InternNames, Ips, TagText, FindTag;
    if FindTag(v.tags, text) == |v.tags| {
      NamesStamps(v, "<mmap>", TagText(v.tags, text));
      var (u, m, f, l) := InternNames(v, "<mmap>", TagText(v.tags, text));
      PutStamps(u, Ip(TagBase + |v.tags| + 1, m, f, l));
    }
  }

  lemma TraceStamps(v: View, ip: nat, addr: nat, parent: nat)
    ensures Stamped(v, InternTrace(v, ip, addr, parent).0, 0, 0)
  {
    PutStamps(v, Node(ip, parent));
    hide Clocks, Nodes;
  }

  lemma InfoStamps(v: View, size: nat, trace: nat)
    ensures Stamped(v, InternInfo(v, size, trace).0, 0, 0)
  {
    PutStamps(v, Info(size, trace));
    hide Clocks, Infos;
  }

  lemma {:induction false} BuildStamps(v: View, frames: seq<nat>, hints: seq<Hint>)
    ensures Stamped(v, Build(v, frames, hints).0, 0, 0)
  {
    hide Clocks, InternIp, InternTrace;
    if frames != [] {
      BuildStamps(v, frames[1..], hints);
      var (v1, parent) := Build(v, frames[1..], hints);
      IpStamps(v1, frames[0], hints);
      var (v2, ip) := InternIp(v1, frames[0], hints);
      TraceStamps(v2, ip, frames[0], parent);
    }
  }

  lemma AddRegionStamps(v: View, addr: nat, len: nat, trace: nat)
    ensures Stamped(v, AddRegion(v, addr, len, trace), 0, 0)
  {
    hide Clocks, InternInfo;
    InfoStamps(v, len, trace);
    var (v1, a) := InternInfo(v, len, trace);
    PutStamps(v1.(regions := v1.regions + [Region(addr, len, a, trace)]), Plus(a));
  }

  lemma CutStamps(v: View, i: nat, us: nat, ue: nat)
    requires i < |v.regions|
    ensures Stamped(v, CutAt(v, i, us, ue), 0, 0)
  {
    hide Clocks, AddRegion, SwapRemove;
    var r := v.regions[i];
    var v0 := v.(regions := SwapRemove(v.regions, i));
    PutStamps(v0, Minus(r.info));
    var v1 := Put(v0, Minus(r.info));
    var v2 := v1;
    if r.addr < us {
      AddRegionStamps(v1, r.addr, us - r.addr, r.trace);
      v2 := AddRegion(v1, r.addr, us - r.addr, r.trace);
    }
    if r.addr + r.len > ue {
      AddRegionStamps(v2, ue, r.addr + r.len - ue, r.trace);
    }
  }

  lemma {:induction false} ScanStamps(v: View, i: nat, us: nat, ue: nat, hit: bool)
    requires i <= |v.regions| && us < ue
    ensures Stamped(v, Scan(v, i, us, ue, hit).0, 0, 0)
    decreases Overlaps(v.regions[i..], us, ue), |v.regions| - i
  {
    hide Clocks, CutAt;
    if i < |v.regions| {
      if !Overlap(v.regions[i], us, ue) {
        assert v.regions[i..][1..] == v.regions[i + 1..];
        ScanStamps(v, i + 1, us, ue, hit);
      } else {
        CutAtShape(v, i, us, ue);
        CutStamps(v, i, us, ue);
        ScanStamps(CutAt(v, i, us, ue), i, us, ue, true);
      }
    }
  }

  /** Unmapping stamps exactly when it took a mapped byte away. */
  lemma MunmapStamps(v: View, us: nat, len: nat)
    requires Inv(v) && len > 0
    ensures Stamped(v, Munmap(v, us, len),
                    if exists k :: 0 <= k < |v.regions| && Overlap(v.regions[k], us, us + len) then 1 else 0, 0)
  {
    hide Clocks, Inv, Overlap, Tracked, WellFormed;
    ScanStamps(v, 0, us, us + len, false);
    ScanExact(v, 0, us, us + len, false);
    PutStamps(Scan(v, 0, us, us + len, false).0, Clock);
    hide Scan;
  }

  lemma OverlapMapped(v: View, mapped: map<nat, seq<nat>>, us: nat, ue: nat)
    requires Inv(v) && MappedOk(v, mapped) && us < ue
    ensures (exists k :: 0 <= k < |v.regions| && Overlap(v.regions[k], us, ue)) <==> (exists x :: us <= x < ue && x in mapped)
  {
    hide Interned, Live, Stack, Nodes;
    if k :| 0 <= k < |v.regions| && Overlap(v.regions[k], us, ue) {
      var r := v.regions[k];
      var x := if r.addr < us then us else r.addr;
      assert Covers(r, x) && Tracked(v.regions, x, r.trace);
    }
    if x :| us <= x < ue && x in mapped {
      var t: nat :| Tracked(v.regions, x, t);
      var k :| 0 <= k < |v.regions| && Covers(v.regions[k], x) && v.regions[k].trace == t;
      assert Overlap(v.regions[k], us, ue);
    }
  }

  lemma AllocStamps(v: View, p: nat, size: nat, frames: seq<nat>, hints: seq<Hint>)
    ensures Stamped(v, Alloc(v, p, size, frames, hints), if (v.allocs + 1) % 1024 == 0 then 1 else 0, 1)
  {
    hide Clocks, Build, InternInfo;
    BuildStamps(v, Captured(frames), hints);
    var (v1, t) := Build(v, Captured(frames), hints);
    InfoStamps(v1, size, t);
    var (v2, a) := InternInfo(v1, size, t);
    var v3 := PtrInsert(v2, p, a).(allocs := v2.allocs + 1);
    PutStamps(v3, Clock);
    PutStamps(Tick(PtrInsert(v2, p, a)), Plus(a));
  }

  lemma MmapStamps(v: View, p: nat, len: nat, tag: string, frames: seq<nat>, hints: seq<Hint>)
    ensures Stamped(v, Mmap(v, p, len, tag, frames, hints), 1, 0)
  {
    hide Clocks, Build, InternTag, InternTrace, AddRegion;
    BuildStamps(v, Captured(frames), hints);
    var (v1, t) := Build(v, Captured(frames), hints);
    TagStamps(v1, tag);
    var (v2, ip, addr) := InternTag(v1, tag);
    TraceStamps(v2, ip, addr, t);
    var (v3, leaf) := InternTrace(v2, ip, addr, t);
    AddRegionStamps(v3, p, len, leaf);
    PutStamps(AddRegion(v3, p, len, leaf), Clock);
  }

  lemma FreeStamps(v: View, p: nat)
    ensures Stamped(v, Free(v, p), 0, 0)
  {
    hide Clocks;
    if p in v.ptrs {
      PutStamps(v.(ptrs := v.ptrs - {p}), Minus(v.ptrs[p]));
    }
  }

  // ----- runs -----

  predicate Allocates(e: Event) {
    (e.DoAlloc? || e.DoRealloc?) && e.ptr != 0
  }

  /** Whether the event takes away a byte that is mapped. */
  ghost predicate Removes(w: World, e: Event) {
    match e
    case DoMunmap(p, len) => p != 0 && exists x :: p <= x < p + len && x in w.mapped
    case DoMmap(p, len, _, fixed, _, _, _) =>
      fixed && p != 0 && p != 0xffff_ffff_ffff_ffff && exists x :: p <= x < p + len && x in w.mapped
    case _ => false
  }

  function Allocated(es: seq<Event>): nat {
    if es == [] then 0 else Allocated(es[..|es| - 1]) + if Allocates(es[|es| - 1]) then 1 else 0
  }

  /** Changes of the mapped bytes, a fixed mapping over others being two. */
  ghost function Changes(es: seq<Event>): nat {
    if es == [] then 0 else
      var e := es[|es| - 1];
      Changes(es[..|es| - 1]) + (if Removes(Happened(es[..|es| - 1]), e) then 1 else 0) + (if Maps(e) then 1 else 0)
  }

  lemma RemovalStamps(v: View, w: World, p: nat, len: nat)
    requires Refines(v, w) && len > 0
    ensures Stamped(v, Munmap(v, p, len), if exists x :: p <= x < p + len && x in w.mapped then 1 else 0, 0)
  {
    hide Inv, Clocks, Munmap, MappedOk, HeapOk, TraceNames.NamesOk;
    MunmapStamps(v, p, len);
    OverlapMapped(v, w.mapped, p, p + len);
  }

  lemma EventStamps(v: View, w: World, e: Event)
    requires Refines(v, w)
    ensures Stamped(v, Apply(v, e),
      (if Allocates(e) && (v.allocs + 1) % 1024 == 0 then 1 else 0) + (if Removes(w, e) then 1 else 0) + (if Maps(e) then 1 else 0),
      if Allocates(e) then 1 else 0)
  {
    hide Refines, Clocks, Munmap, Mmap, Alloc, Free;
    match e
    case DoAlloc(p, size, frames, hints) => AllocStamps(v, p, size, frames, hints);
    case DoFree(p) => FreeStamps(v, p);
    case DoRealloc(q, p, size, frames, hints) =>
      FreeStamps(v, q);
      AllocStamps(if q == 0 then v else Free(v, q), p, size, frames, hints);
    case DoMmap(p, len, tracked, fixed, tag, frames, hints) =>
      if len > 0 {
        RemovalStamps(v, w, p, len);
        MmapStamps(if fixed then Munmap(v, p, len) else v, p, len, tag, frames, hints);
      }
    case DoMunmap(p, len) => if len > 0 { RemovalStamps(v, w, p, len); }
  }

  /** Over every run there is one stamp for every 1024 allocations and one for every change of the mapped
      bytes, and no other. */
  lemma {:induction false} ClocksExact(es: seq<Event>)
    requires LegalRun(es)
    ensures Run(es).allocs == Allocated(es)
    ensures Clocks(Run(es).out) == Allocated(es) / 1024 + Changes(es)
  {
    hide Apply, Happened, Legal, Clocks, Allocates, Removes, Maps;
    if es == [] {
      NoClocks();
    } else {
      var before, e := es[..|es| - 1], es[|es| - 1];
      ClocksExact(before);
      RunRefines(before);
      hide Refines;
      EventStamps(Run(before), Happened(before), e);
    }
  }

  lemma NoClocks()
    ensures Clocks([]) == 0
  {
  }
}
