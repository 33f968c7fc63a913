/** The tracer refines what actually happened: every run of allocation events leaves tables and a record
    stream from which the live pointers, the mapped bytes, and all their call stacks can be read off. */
module TraceRefine {
  import opened TraceLog
  import opened Regions
  import opened TraceSpec
  import opened TraceEvents
  import opened TraceRuns
  import opened TraceNames

  const MapFailed: nat := 0xffff_ffff_ffff_ffff

  /** Calls of the public hooks. A mapping that is not tracked is file backed; a fixed one replaces
      whatever was there. */
  datatype Event =
    | DoAlloc(ptr: nat, size: nat, frames: seq<nat>, hints: seq<Hint>)
    | DoFree(ptr: nat)
    | DoRealloc(before: nat, ptr: nat, size: nat, frames: seq<nat>, hints: seq<Hint>)
    | DoMmap(ptr: nat, len: nat, tracked: bool, fixed: bool, tag: string, frames: seq<nat>, hints: seq<Hint>)
    | DoMunmap(ptr: nat, len: nat)

  function Apply(v: View, e: Event): View {
    match e
    case DoAlloc(p, size, frames, hints) => if p == 0 then v else Alloc(v, p, size, frames, hints)
    case DoFree(p) => if p == 0 then v else Free(v, p)
    case DoRealloc(q, p, size, frames, hints) => Realloc(v, q, p, size, frames, hints)
    case DoMmap(p, len, tracked, fixed, tag, frames, hints) => Map(v, p, len, tracked, fixed, tag, frames, hints)
    case DoMunmap(p, len) => if p == 0 || len == 0 then v else Munmap(v, p, len)
  }

  /** A failed reallocation leaves the old block alone; otherwise it is a free and an allocation. */
  function Realloc(v: View, q: nat, p: nat, size: nat, frames: seq<nat>, hints: seq<Hint>): View {
    if p == 0 && size != 0 then v else
      var v1 := if q == 0 then v else Free(v, q);
      if p == 0 then v1 else Alloc(v1, p, size, frames, hints)
  }

  function Map(v: View, p: nat, len: nat, tracked: bool, fixed: bool, tag: string, frames: seq<nat>, hints: seq<Hint>): View {
    if p == 0 || p == MapFailed || len == 0 then v else
      var v1 := if fixed then Munmap(v, p, len) else v;
      if tracked then Mmap(v1, p, len, tag, frames, hints) else v1
  }

  // ----- what actually happened -----

  /** Live blocks with size and stack, mapped bytes with their stack, tags met, and addresses met with the
      hints they came with. */
  datatype World = World(heap: map<nat, (nat, seq<nat>)>, mapped: map<nat, seq<nat>>, tags: seq<string>,
                         seen: map<nat, seq<Hint>>)

  const Nothing: World := World(map[], map[], [], map[])

  /** A capture meets the addresses of its frames. */
  function Met(w: World, frames: seq<nat>, hints: seq<Hint>): World {
    w.(seen := NotedAll(w.seen, Captured(frames), hints))
  }

  function TagIndex(tags: seq<string>, tag: string): (j: nat)
    ensures j <= |tags|
  {
    if tags == [] || tags[0] == tag then 0 else 1 + TagIndex(tags[1..], tag)
  }

  /** Tags are numbered by first appearance; the 32nd becomes the catch-all. */
  function TagsAfter(tags: seq<string>, tag: string): seq<string> {
    if TagIndex(tags, tag) < |tags| then tags
    else tags + [if |tags| == TagMax - 1 then "mmap(other)" else tag]
  }

  /** A mapping's leaf frame is a made-up address that stands for its tag. */
  function MapStack(tags: seq<string>, tag: string, frames: seq<nat>): seq<nat> {
    [TagBase + TagIndex(tags, tag) + 1] + Captured(frames)
  }

  function Without(mapped: map<nat, seq<nat>>, us: nat, ue: nat): map<nat, seq<nat>> {
    map x | x in mapped && !(us <= x < ue) :: mapped[x]
  }

  function With(mapped: map<nat, seq<nat>>, us: nat, ue: nat, stack: seq<nat>): map<nat, seq<nat>> {
    mapped + map x: nat | us <= x < ue && Within(us, x, ue) :: stack
  }

  predicate Within(us: nat, x: nat, ue: nat) {
    us <= x < ue
  }

  function Happen(w: World, e: Event): World {
    match e
    case DoAlloc(p, size, frames, hints) =>
      if p == 0 then w else Met(w, frames, hints).(heap := w.heap[p := (size, Captured(frames))])
    case DoFree(p) => if p == 0 then w else w.(heap := w.heap - {p})
    case DoRealloc(q, p, size, frames, hints) =>
      if p == 0 && size != 0 then w
      else if p == 0 then (if q == 0 then w else w.(heap := w.heap - {q}))
      else Met(w, frames, hints).(heap := (if q == 0 then w.heap else w.heap - {q})[p := (size, Captured(frames))])
    case DoMmap(p, len, tracked, fixed, tag, frames, hints) =>
      if p == 0 || p == MapFailed || len == 0 then w else
        var m := if fixed then Without(w.mapped, p, p + len) else w.mapped;
        if tracked then
          Met(w, frames, hints).(mapped := With(m, p, p + len, MapStack(w.tags, tag, frames)), tags := TagsAfter(w.tags, tag))
        else w.(mapped := m)
    case DoMunmap(p, len) => if p == 0 || len == 0 then w else w.(mapped := Without(w.mapped, p, p + len))
  }

  /** Whether an event records a mapping. */
  predicate Maps(e: Event) {
    e.DoMmap? && e.tracked && e.ptr != 0 && e.ptr != MapFailed && e.len > 0
  }

  /** What the kernel promises: a new mapping is nowhere already mapped, unless it is fixed. */
  ghost predicate Promised(w: World, e: Event) {
    Maps(e) ==> e.fixed || forall x :: e.ptr <= x < e.ptr + e.len ==> x !in w.mapped
  }

  /** And the mapping's tag is looked for and entered inside the tag table. */
  ghost predicate Legal(w: World, e: Event) {
    Promised(w, e) && (Maps(e) ==> TagIndex(w.tags, e.tag) < TagMax)
  }

  // ----- refinement -----

  ghost predicate HeapOk(v: View, heap: map<nat, (nat, seq<nat>)>)
    requires WellFormed(v.out)
  {
    && v.ptrs.Keys == heap.Keys
    && forall p :: p in v.ptrs ==> v.ptrs[p] < |Infos(v.out)| && Meaning(v.out, v.ptrs[p]) == heap[p]
  }

  ghost predicate MappedOk(v: View, mapped: map<nat, seq<nat>>)
    requires WellFormed(v.out)
  {
    && (forall x: nat, t: nat :: Tracked(v.regions, x, t) ==>
          t <= |Nodes(v.out)| && x in mapped && mapped[x] == Stack(v, t))
    && (forall x :: x in mapped ==> exists t: nat :: Tracked(v.regions, x, t))
  }

  ghost predicate TagsMatch(tags: seq<Tag>, names: seq<string>) {
    && |tags| == |names| <= TagMax
    && forall j :: 0 <= j < |tags| ==> tags[j].text == names[j] && tags[j].addr == TagBase + j + 1
  }

  ghost predicate Refines(v: View, w: World) {
    Inv(v) && HeapOk(v, w.heap) && MappedOk(v, w.mapped) && TagsMatch(v.tags, w.tags) && NamesOk(v, w.seen)
  }

  lemma HeapLater(v: View, v': View, heap: map<nat, (nat, seq<nat>)>)
    requires Later(v, v') && HeapOk(v, heap) && v'.ptrs == v.ptrs
    ensures HeapOk(v', heap)
  {
    hide Infos, Meaning, WellFormed;
    forall p | p in v.ptrs ensures v'.ptrs[p] < |Infos(v'.out)| && Meaning(v'.out, v'.ptrs[p]) == heap[p] {
      PrefixInfos(v, v');
      MeaningLater(v, v', v.ptrs[p]);
    }
  }

  lemma PrefixInfos(v: View, v': View)
    requires Later(v, v')
    ensures |Infos(v.out)| <= |Infos(v'.out)| && |Nodes(v.out)| <= |Nodes(v'.out)|
  {
  }

  lemma MappedLater(v: View, v': View, mapped: map<nat, seq<nat>>)
    requires Later(v, v') && MappedOk(v, mapped) && v'.regions == v.regions
    ensures MappedOk(v', mapped)
  {
    hide Nodes, Ips, WellFormed, Stack, Tracked;
    PrefixInfos(v, v');
    forall x: nat, t: nat | Tracked(v.regions, x, t)
      ensures t <= |Nodes(v'.out)| && x in mapped && mapped[x] == Stack(v', t)
    {
      StackStable(v, v', t);
    }
  }

  lemma AllocRefines(v: View, w: World, p: nat, size: nat, frames: seq<nat>, hints: seq<Hint>)
    requires Refines(v, w)
    ensures Refines(Alloc(v, p, size, frames, hints), Met(w, frames, hints).(heap := w.heap[p := (size, Captured(frames))]))
  {
    hide Inv, Alloc, Meaning, Infos, Nodes, WellFormed, MappedOk, NamesOk;
    InvInterned(v);
    AllocNames(v, w.seen, p, size, frames, hints);
    AllocRecords(v, p, size, frames, hints);
    var u := Alloc(v, p, size, frames, hints);
    MappedLater(v, u, w.mapped);
    PrefixInfos(v, u);
    PtrInfos(u);
    forall q | q in v.ptrs ensures Meaning(u.out, v.ptrs[q]) == w.heap[q] {
      MeaningLater(v, u, v.ptrs[q]);
    }
  }

  lemma PtrInfos(v: View)
    requires Inv(v)
    ensures WellFormed(v.out) && forall p :: p in v.ptrs ==> v.ptrs[p] < |Infos(v.out)|
  {
  }

  lemma FreeRefines(v: View, w: World, p: nat)
    requires Refines(v, w)
    ensures Refines(Free(v, p), w.(heap := w.heap - {p}))
  {
    hide Inv, Meaning, Infos, Nodes, WellFormed, MappedOk, NamesOk, SameNames;
    FreeSame(v, p);
    NamesKept(v, Free(v, p), w.seen);
    FreeKeeps(v, p);
    var u := Free(v, p);
    MappedLater(v, u, w.mapped);
    PrefixInfos(v, u);
    assert u.ptrs == v.ptrs - {p};
    forall q | q in u.ptrs ensures Meaning(u.out, v.ptrs[q]) == w.heap[q] {
      MeaningLater(v, u, v.ptrs[q]);
    }
  }

  lemma MunmapRefines(v: View, w: World, us: nat, len: nat)
    requires Refines(v, w) && len > 0
    ensures Refines(Munmap(v, us, len), w.(mapped := Without(w.mapped, us, us + len)))
  {
    hide Inv, Munmap, Infos, Nodes, WellFormed, HeapOk, Stack, Tracked, NamesOk, SameNames;
    MunmapSame(v, us, len);
    NamesKept(v, Munmap(v, us, len), w.seen);
    MunmapExact(v, us, len);
    var u := Munmap(v, us, len);
    HeapLater(v, u, w.heap);
    PrefixInfos(v, u);
    forall x: nat, t: nat | Tracked(u.regions, x, t) ensures Stack(u, t) == w.mapped[x] {
      StackStable(v, u, t);
    }
  }

  // ----- new mappings -----

  lemma {:induction false} FindTagIndex(tags: seq<Tag>, names: seq<string>, tag: string)
    requires |tags| == |names| && forall j :: 0 <= j < |tags| ==> tags[j].text == names[j]
    ensures FindTag(tags, tag) == TagIndex(names, tag)
  {
    if tags != [] {
      FindTagIndex(tags[1..], names[1..], tag);
    }
  }

  lemma InternTagMatches(v: View, names: seq<string>, tag: string)
    requires Interned(v) && TagsMatch(v.tags, names) && TagIndex(names, tag) < TagMax
    ensures var (u, ip, addr) := InternTag(v, tag);
      TagsMatch(u.tags, TagsAfter(names, tag)) && addr == TagBase + TagIndex(names, tag) + 1
  {
    hide InternNames, Strs, Ips, Nodes, Infos, NodesOk, IpsOk, TagsOk, Indexes, WellFormed;
    FindTagIndex(v.tags, names, tag);
    InternNamesKeeps(v, "<mmap>", TagText(v.tags, tag));
  }

  /** A new mapping adds one region under a stack that ends in its tag. */
  lemma MmapRecords(v: View, names: seq<string>, p: nat, len: nat, tag: string, frames: seq<nat>, hints: seq<Hint>)
    requires Inv(v) && TagsMatch(v.tags, names) && TagIndex(names, tag) < TagMax
    requires len > 0 && forall k :: 0 <= k < |v.regions| ==> !Overlap(v.regions[k], p, p + len)
    ensures var u := Mmap(v, p, len, tag, frames, hints);
      && Inv(u) && Later(v, u) && u.ptrs == v.ptrs && u.lost == v.lost && TagsMatch(u.tags, TagsAfter(names, tag))
      && |u.regions| == |v.regions| + 1 && u.regions[..|v.regions|] == v.regions
      && var r := u.regions[|v.regions|];
         r.addr == p && r.len == len && r.trace <= |Nodes(u.out)| && Stack(u, r.trace) == MapStack(names, tag, frames)
  {
    hide Interned, Live, Apart, Strs, Ips, Nodes, Infos, WellFormed, Build, InternTag, InternTrace, AddRegion, TagsMatch, Outstanding, Walk, FindTag, TagIndex, TagsAfter;
    BuildStack(v, Captured(frames), hints);
    BuildFrame(v, Captured(frames), hints);
    var (v1, t) := Build(v, Captured(frames), hints);
    GrowsLater(v, v1);
    GrowsLive(v, v1);
    InternTagKeeps(v1, tag);
    InternTagMatches(v1, names, tag);
    var (v2, ip, addr) := InternTag(v1, tag);
    GrowsLater(v1, v2);
    GrowsLive(v1, v2);
    StackStable(v1, v2, t);
    InternTraceKeeps(v2, ip, addr, t);
    InternTraceFrame(v2, ip, addr, t);
    var (v3, leaf) := InternTrace(v2, ip, addr, t);
    GrowsLater(v2, v3);
    GrowsLive(v2, v3);
    AddRegionKeeps(v3, p, len, leaf);
    var v4 := AddRegion(v3, p, len, leaf);
    StackStable(v3, v4, leaf);
    ApartAdd(v.regions, v4.regions);
    PutClock(v4);
    StackStable(v4, Put(v4, Clock), leaf);
    LeafStack(v2, v3, addr, t, leaf);
  }

  lemma LeafStack(v2: View, v3: View, addr: nat, t: nat, leaf: nat)
    requires Interned(v2) && Interned(v3) && t <= |Nodes(v2.out)| && leaf <= |Nodes(v3.out)|
    requires Walk(Ips(v3.out), Nodes(v3.out), leaf) == [addr] + Walk(Ips(v2.out), Nodes(v2.out), t)
    ensures Stack(v3, leaf) == [addr] + Stack(v2, t)
  {
  }

  lemma InternTraceFrame(v: View, ip: nat, addr: nat, parent: nat)
    ensures InternTrace(v, ip, addr, parent).0.tags == v.tags
  {
  }

  lemma ApartAdd(regs: seq<Region>, more: seq<Region>)
    requires Apart(regs) && |more| == |regs| + 1 && more[..|regs|] == regs && more[|regs|].len > 0
    requires forall k :: 0 <= k < |regs| ==> !Overlap(regs[k], more[|regs|].addr, more[|regs|].addr + more[|regs|].len)
    ensures Apart(more)
  {
    forall k | 0 <= k < |regs| ensures more[k] == regs[k] {
      assert more[..|regs|][k] == more[k];
    }
  }

  /** If no mapped byte is in the range then no region overlaps it. */
  lemma RangeFree(v: View, w: World, p: nat, len: nat)
    requires Refines(v, w) && len > 0 && forall x :: p <= x < p + len ==> x !in w.mapped
    ensures forall k :: 0 <= k < |v.regions| ==> !Overlap(v.regions[k], p, p + len)
  {
    hide Interned, Live, HeapOk, TagsMatch, Stack, Nodes;
    forall k | 0 <= k < |v.regions| ensures !Overlap(v.regions[k], p, p + len) {
      var r := v.regions[k];
      var x := if r.addr < p then p else r.addr;
      assert Covers(r, x) ==> Tracked(v.regions, x, r.trace);
    }
  }

  lemma MmapRefines(v: View, w: World, p: nat, len: nat, tag: string, frames: seq<nat>, hints: seq<Hint>)
    requires Refines(v, w) && len > 0 && (forall x :: p <= x < p + len ==> x !in w.mapped)
    requires TagIndex(w.tags, tag) < TagMax
    ensures Refines(Mmap(v, p, len, tag, frames, hints), Met(w, frames, hints).(
      mapped := With(w.mapped, p, p + len, MapStack(w.tags, tag, frames)), tags := TagsAfter(w.tags, tag)))
  {
    hide Inv, Mmap, MapStack, TagsAfter, TagIndex, TagsMatch, Infos, Nodes, HeapOk, WellFormed, Stack, Tracked, NamesOk, MappedOk,
      With, NotedAll;
    InvInterned(v);
    MmapNames(v, w.seen, p, len, tag, frames, hints);
    RangeFree(v, w, p, len);
    MmapRecords(v, w.tags, p, len, tag, frames, hints);
    var u := Mmap(v, p, len, tag, frames, hints);
    HeapLater(v, u, w.heap);
    PrefixInfos(v, u);
    StacksLater(v, u, w.mapped);
    MappedAdd(v, u, w.mapped, MapStack(w.tags, tag, frames));
  }

  lemma StacksLater(v: View, u: View, mapped: map<nat, seq<nat>>)
    requires Later(v, u) && MappedOk(v, mapped)
    ensures |Nodes(v.out)| <= |Nodes(u.out)|
    ensures forall x: nat, t: nat :: Tracked(v.regions, x, t) ==> t <= |Nodes(u.out)| && x in mapped && Stack(u, t) == mapped[x]
  {
    hide Infos, Nodes, WellFormed, Stack, Tracked;
    PrefixInfos(v, u);
    forall x: nat, t: nat | Tracked(v.regions, x, t) ensures t <= |Nodes(u.out)| && x in mapped && Stack(u, t) == mapped[x] {
      StackStable(v, u, t);
    }
  }

  lemma MappedAdd(v: View, u: View, mapped: map<nat, seq<nat>>, stack: seq<nat>)
    requires WellFormed(u.out) && WellFormed(v.out) && MappedOk(v, mapped) && |Nodes(v.out)| <= |Nodes(u.out)|
    requires |u.regions| == |v.regions| + 1 && u.regions[..|v.regions|] == v.regions
    requires var r := u.regions[|v.regions|];
      && r.trace <= |Nodes(u.out)| && Stack(u, r.trace) == stack
      && forall x :: r.addr <= x < r.addr + r.len ==> x !in mapped
    requires forall x: nat, t: nat :: Tracked(v.regions, x, t) ==> t <= |Nodes(u.out)| && x in mapped && Stack(u, t) == mapped[x]
    ensures var r := u.regions[|v.regions|]; MappedOk(u, With(mapped, r.addr, r.addr + r.len, stack))
  {
    hide Nodes, WellFormed, Stack, Tracked;
    TrackedAdd(v.regions, u.regions);
    var r := u.regions[|v.regions|];
    var m := With(mapped, r.addr, r.addr + r.len, stack);
    forall x | x in m ensures exists t: nat :: Tracked(u.regions, x, t) {
      if x in mapped {
        var t: nat :| Tracked(v.regions, x, t);
        assert Tracked(u.regions, x, t);
      } else {
        assert Tracked(u.regions, x, r.trace);
      }
    }
  }

  lemma TrackedAdd(regs: seq<Region>, more: seq<Region>)
    requires |more| == |regs| + 1 && more[..|regs|] == regs
    ensures forall x: nat, t: nat :: Tracked(more, x, t) <==>
      Tracked(regs, x, t) || (Covers(more[|regs|], x) && t == more[|regs|].trace)
  {
    forall k | 0 <= k < |regs| ensures more[k] == regs[k] {
      assert more[..|regs|][k] == more[k];
    }
    forall x: nat, t: nat | Tracked(regs, x, t) ensures Tracked(more, x, t) {
      var k :| 0 <= k < |regs| && Covers(regs[k], x) && regs[k].trace == t;
      assert more[k] == regs[k];
    }
  }

  // ----- runs -----

  /** Every event keeps the tracer and the world in step. */
  lemma EventRefines(v: View, w: World, e: Event)
    requires Refines(v, w) && Legal(w, e)
    ensures Refines(Apply(v, e), Happen(w, e))
  {
    hide Refines, Munmap, Mmap, Alloc, Free, TagsAfter, MapStack, TagIndex, NotedAll;
    match e
    case DoAlloc(p, size, frames, hints) => AllocRefines(v, w, p, size, frames, hints);
    case DoFree(p) => FreeRefines(v, w, p);
    case DoRealloc(q, p, size, frames, hints) =>
      FreeRefines(v, w, q);
      var v1 := if q == 0 then v else Free(v, q);
      var w1 := if q == 0 then w else w.(heap := w.heap - {q});
      AllocRefines(v1, w1, p, size, frames, hints);
    case DoMmap(p, len, tracked, fixed, tag, frames, hints) =>
      if p != 0 && p != MapFailed && len > 0 {
        MunmapRefines(v, w, p, len);
        var w1 := if fixed then w.(mapped := Without(w.mapped, p, p + len)) else w;
        var v1 := if fixed then Munmap(v, p, len) else v;
        if tracked {
          MmapRefines(v1, w1, p, len, tag, frames, hints);
        }
      }
    case DoMunmap(p, len) => if len > 0 { MunmapRefines(v, w, p, len); }
  }

  function Run(es: seq<Event>): View {
    if es == [] then Empty else Apply(Run(es[..|es| - 1]), es[|es| - 1])
  }

  function Happened(es: seq<Event>): World {
    if es == [] then Nothing else Happen(Happened(es[..|es| - 1]), es[|es| - 1])
  }

  ghost predicate LegalRun(es: seq<Event>) {
    es == [] || (LegalRun(es[..|es| - 1]) && Legal(Happened(es[..|es| - 1]), es[|es| - 1]))
  }

  /** For every run, any hash functions and any table sizes: the pointer table is the live heap, the
      regions are the mapped bytes, every stack reads back exactly, the stream is well formed, and what
      is outstanding in it is what is live plus what was lost. */
  lemma {:induction false} RunRefines(es: seq<Event>)
    requires LegalRun(es)
    ensures Refines(Run(es), Happened(es))
  {
    if es == [] {
      EmptyInv();
    } else {
      RunRefines(es[..|es| - 1]);
      EventRefines(Run(es[..|es| - 1]), Happened(es[..|es| - 1]), es[|es| - 1]);
    }
  }

  // ----- losses, sharing and the tag table -----

  /** No event hands out a pointer that is still live. */
  ghost predicate NoReuse(es: seq<Event>) {
    es == [] || (NoReuse(es[..|es| - 1]) && !Reuses(Happened(es[..|es| - 1]), es[|es| - 1]))
  }

  predicate Reuses(w: World, e: Event) {
    match e
    case DoAlloc(p, _, _, _) => p != 0 && p in w.heap
    case DoRealloc(q, p, _, _, _) => p != 0 && p in w.heap && p != q
    case _ => false
  }

  lemma EventLoss(v: View, w: World, e: Event)
    requires Inv(v) && v.ptrs.Keys == w.heap.Keys
    ensures v.lost <= Apply(v, e).lost
    ensures Apply(v, e).lost == v.lost <==> !Reuses(w, e)
  {
    hide Inv, WellFormed, Ips, Nodes, Infos, Munmap, Mmap, Alloc, Free;
    match e
    case DoAlloc(p, size, frames, hints) =>
      AllocLoss(v, p, size, frames, hints);
    case DoFree(p) =>
      FreeLoss(v, p);
    case DoRealloc(q, p, size, frames, hints) =>
      FreeKeeps(v, q);
      FreeLoss(v, q);
      AllocLoss(v, p, size, frames, hints);
      AllocLoss(Free(v, q), p, size, frames, hints);
    case DoMmap(p, len, tracked, fixed, tag, frames, hints) =>
      if len > 0 {
        MunmapExact(v, p, len);
        MmapLoss(v, p, len, tag, frames, hints);
        MmapLoss(Munmap(v, p, len), p, len, tag, frames, hints);
      }
    case DoMunmap(p, len) =>
      if len > 0 { MunmapExact(v, p, len); }
  }

  lemma AllocLoss(v: View, p: nat, size: nat, frames: seq<nat>, hints: seq<Hint>)
    requires Inv(v)
    ensures var u := Alloc(v, p, size, frames, hints); v.lost <= u.lost && (u.lost == v.lost <==> p !in v.ptrs)
  {
    hide Inv, Build, InternInfo, Strs, Ips, Nodes, Infos, WellFormed, Meaning;
    AllocRecords(v, p, size, frames, hints);
    InvInterned(v);
    BuildStack(v, Captured(frames), hints);
    var (v1, t) := Build(v, Captured(frames), hints);
    InternInfoFrame(v1, size, t);
  }

  lemma InvInterned(v: View)
    requires Inv(v)
    ensures Interned(v)
  {
  }

  lemma FreeLoss(v: View, p: nat)
    ensures Free(v, p).lost == v.lost && Free(v, p).ptrs.Keys == v.ptrs.Keys - {p}
  {
  }

  lemma MmapLoss(v: View, p: nat, len: nat, tag: string, frames: seq<nat>, hints: seq<Hint>)
    requires Inv(v)
    ensures Mmap(v, p, len, tag, frames, hints).lost == v.lost
  {
    hide Interned, Live, Apart, Strs, Ips, Nodes, Infos, WellFormed, Build, InternTag, InternTrace, InternInfo, Outstanding, Walk;
    BuildStack(v, Captured(frames), hints);
    var (v1, t) := Build(v, Captured(frames), hints);
    InternTagKeeps(v1, tag);
    var (v2, ip, addr) := InternTag(v1, tag);
    InternTraceKeeps(v2, ip, addr, t);
    var (v3, leaf) := InternTrace(v2, ip, addr, t);
    InternInfoFrame(v3, len, leaf);
  }

  /** The accounting is exact, outstanding being live, precisely in the runs without reuse. */
  lemma {:induction false} LossExact(es: seq<Event>)
    requires LegalRun(es)
    ensures Run(es).lost == multiset{} <==> NoReuse(es)
  {
    if es != [] {
      var before := es[..|es| - 1];
      LossExact(before);
      RunRefines(before);
      EventLoss(Run(before), Happened(before), es[|es| - 1]);
    }
  }

  /** Equal size and equal stack means one shared info record, and only then. */
  lemma SharedExactly(v: View, a: nat, b: nat)
    requires Inv(v) && a < |Infos(v.out)| && b < |Infos(v.out)|
    ensures Meaning(v.out, a) == Meaning(v.out, b) <==> a == b
  {
    var I, N, A := Ips(v.out), Nodes(v.out), Infos(v.out);
    InfoTrace(v.out, a);
    InfoTrace(v.out, b);
    LogTree(v.out);
    forall i, j | 0 <= i < |N| && 0 <= j < |N| && I[N[i].0 - 1] == I[N[j].0 - 1] && N[i].1 == N[j].1 ensures i == j {
      assert Calls(I, N)[i] == Calls(I, N)[j];
    }
    WalkUnique(I, N, A[a].1, A[b].1);
  }

  // ----- the tag table -----

  /** The different tags, in order of first appearance. */
  function Distinct(ts: seq<string>): seq<string> {
    if ts == [] then [] else
      var d, t := Distinct(ts[..|ts| - 1]), ts[|ts| - 1];
      if t in d then d else d + [t]
  }

  /** Once a tag outside the first 31 different ones has appeared, only those 31 and the catch-all do. */
  predicate Settled(ts: seq<string>) {
    forall k :: 0 <= k < |ts| && |Distinct(ts[..k])| >= TagMax ==>
      ts[k] in Distinct(ts[..k])[..TagMax - 1] || ts[k] == "mmap(other)"
  }

  /** The table after a sequence of tags. */
  function TagNames(ts: seq<string>): seq<string> {
    if ts == [] then [] else TagsAfter(TagNames(ts[..|ts| - 1]), ts[|ts| - 1])
  }

  /** Every tag is found at, or asks for, a slot of the table. */
  predicate InTable(ts: seq<string>) {
    forall k :: 0 <= k < |ts| ==> TagIndex(TagNames(ts[..k]), ts[k]) < TagMax
  }

  lemma {:induction false} IndexMeans(tags: seq<string>, tag: string)
    ensures TagIndex(tags, tag) < |tags| <==> tag in tags
    ensures TagIndex(tags, tag) < |tags| ==> tags[TagIndex(tags, tag)] == tag
    ensures forall j :: 0 <= j < TagIndex(tags, tag) ==> tags[j] != tag
  {
    if tags != [] && tags[0] != tag {
      IndexMeans(tags[1..], tag);
      assert tags == [tags[0]] + tags[1..];
    }
  }

  /** What the table holds: the tags seen, or the first 31 and the catch-all. */
  ghost predicate Holds(names: seq<string>, d: seq<string>) {
    if |d| < TagMax then names == d
    else |names| == TagMax && names[..TagMax - 1] == d[..TagMax - 1] && names[TagMax - 1] == "mmap(other)"
  }

  /** The table stays within its 32 slots in exactly the settled sequences. */
  lemma {:induction false} TableExactly(ts: seq<string>)
    ensures InTable(ts) <==> Settled(ts)
    ensures InTable(ts) ==> Holds(TagNames(ts), Distinct(ts))
  {
    hide Settled, InTable, Holds, TagsAfter, TagIndex;
    if ts == [] {
      NoTags();
    } else {
      var before, t := ts[..|ts| - 1], ts[|ts| - 1];
      assert ts == before + [t];
      TableExactly(before);
      TableSnoc(before, t);
      SettledSnoc(before, t);
      if InTable(before) {
        HoldsStep(TagNames(before), Distinct(before), t);
      }
    }
  }

  lemma NoTags()
    ensures InTable([]) && Settled([]) && Holds(TagNames([]), Distinct([]))
  {
  }

  lemma SettledSnoc(ts: seq<string>, t: string)
    ensures Settled(ts + [t]) <==>
      Settled(ts) && (|Distinct(ts)| >= TagMax ==> t in Distinct(ts)[..TagMax - 1] || t == "mmap(other)")
  {
    hide Distinct;
    var all := ts + [t];
    assert forall k :: 0 <= k < |ts| ==> all[..k] == ts[..k] && all[k] == ts[k];
    assert all[..|ts|] == ts && all[|ts|] == t;
  }

  lemma HoldsStep(names: seq<string>, d: seq<string>, t: string)
    requires Holds(names, d)
    ensures TagIndex(names, t) < TagMax <==> (|d| >= TagMax ==> t in d[..TagMax - 1] || t == "mmap(other)")
    ensures TagIndex(names, t) < TagMax ==> Holds(TagsAfter(names, t), if t in d then d else d + [t])
  {
    hide TagIndex;
    IndexMeans(names, t);
    if |d| >= TagMax {
      assert names == names[..TagMax - 1] + [names[TagMax - 1]];
    }
  }

  /** The tags a run enters. */
  function Tagged(es: seq<Event>): seq<string> {
    if es == [] then [] else
      var e := es[|es| - 1];
      Tagged(es[..|es| - 1]) + if Maps(e) then [e.tag] else []
  }

  ghost predicate PromisedRun(es: seq<Event>) {
    es == [] || (PromisedRun(es[..|es| - 1]) && Promised(Happened(es[..|es| - 1]), es[|es| - 1]))
  }

  lemma {:induction false} TaggedNames(es: seq<Event>)
    ensures Happened(es).tags == TagNames(Tagged(es))
  {
    hide TagsAfter, TagIndex;
    if es != [] {
      var before, e := es[..|es| - 1], es[|es| - 1];
      TaggedNames(before);
      if Maps(e) {
        assert (Tagged(before) + [e.tag])[..|Tagged(before)|] == Tagged(before);
      } else {
        assert Tagged(before) + [] == Tagged(before);
        UntaggedSame(Happened(before), e);
      }
    }
  }

  lemma UntaggedSame(w: World, e: Event)
    requires !Maps(e)
    ensures Happen(w, e).tags == w.tags
  {
  }

  /** Whether a run stays within the tag table can be told from its tags alone. */
  lemma {:induction false} LegalExactly(es: seq<Event>)
    ensures LegalRun(es) <==> PromisedRun(es) && Settled(Tagged(es))
  {
    hide Happen, TagIndex, TagNames, Promised, Settled, Distinct;
    TableExactly(Tagged(es));
    if es != [] {
      var before, e := es[..|es| - 1], es[|es| - 1];
      LegalExactly(before);
      TableExactly(Tagged(before));
      TaggedNames(before);
      if Maps(e) {
        TableSnoc(Tagged(before), e.tag);
      } else {
        assert Tagged(before) + [] == Tagged(before);
      }
    }
  }

  lemma TableSnoc(ts: seq<string>, t: string)
    ensures InTable(ts + [t]) <==> InTable(ts) && TagIndex(TagNames(ts), t) < TagMax
  {
    hide TagIndex, TagNames;
    var all := ts + [t];
    assert forall k :: 0 <= k < |ts| ==> all[..k] == ts[..k] && all[k] == ts[k];
    assert all[..|ts|] == ts && all[|ts|] == t;
  }

  function SomeTag(n: nat): string {
    "mmap(" + seq(n, _ => 'x')
  }

  /** 32 mappings with different tags, and one more with the last of them. */
  function Overflowing(): seq<Event> {
    seq(TagMax + 1, k requires 0 <= k <= TagMax =>
      DoMmap(0x1000, 0x1000, true, true, SomeTag(if k == TagMax then TagMax - 1 else k), [], []))
  }

  lemma {:induction false} OverflowingTags(n: nat)
    requires n <= TagMax + 1
    ensures |Tagged(Overflowing()[..n])| == n && PromisedRun(Overflowing()[..n])
    ensures forall k :: 0 <= k < n ==> Tagged(Overflowing()[..n])[k] == SomeTag(if k == TagMax then TagMax - 1 else k)
  {
    hide SomeTag;
    if n > 0 {
      OverflowingTags(n - 1);
      assert Overflowing()[..n][..n - 1] == Overflowing()[..n - 1];
    }
  }

  lemma {:induction false} AllDistinct(ts: seq<string>)
    requires |ts| <= TagMax && forall k :: 0 <= k < |ts| ==> ts[k] == SomeTag(k)
    ensures Distinct(ts) == ts
  {
    if ts != [] {
      var before := ts[..|ts| - 1];
      AllDistinct(before);
      forall k | 0 <= k < |before| ensures before[k] != ts[|ts| - 1] {
        assert |SomeTag(k)| == 5 + k && |SomeTag(|ts| - 1)| == 5 + |ts| - 1;
      }
      assert before + [ts[|ts| - 1]] == ts;
    }
  }

  /** That happens: all is well up to the 32nd mapping, and the 33rd asks for slot 32 of 32, for the
      catch-all has taken the place of a tag that is now looked for again. */
  lemma OverflowReached()
    ensures var es := Overflowing();
      && |es| == TagMax + 1 && PromisedRun(es) && LegalRun(es[..TagMax]) && !LegalRun(es)
      && TagIndex(Happened(es[..TagMax]).tags, es[TagMax].tag) == TagMax
  {
    hide SomeTag, Overflowing, Happened, PromisedRun, LegalRun, Tagged, Settled;
    var es := Overflowing();
    OverflowingTags(TagMax);
    OverflowingTags(TagMax + 1);
    OverflowingLast();
    assert es[..TagMax + 1] == es;
    var ts := Tagged(es[..TagMax]);
    AllDistinct(ts);
    ShortSettled(ts);
    LegalExactly(es[..TagMax]);
    LegalExactly(es);
    TaggedNames(es[..TagMax]);
    TableExactly(ts);
    LongUnsettled(Tagged(es), ts);
    IndexMeans(TagNames(ts), SomeTag(TagMax - 1));
    NotCatchAll(TagMax - 1);
    assert TagNames(ts) == TagNames(ts)[..TagMax - 1] + ["mmap(other)"];
    AllDifferent(ts);
  }

  lemma OverflowingLast()
    ensures |Overflowing()| == TagMax + 1 && Overflowing()[TagMax].DoMmap? && Overflowing()[TagMax].tag == SomeTag(TagMax - 1)
  {
  }

  lemma NotCatchAll(n: nat)
    requires n > 6
    ensures SomeTag(n) != "mmap(other)"
  {
    assert |SomeTag(n)| == 5 + n;
  }

  lemma AllDifferent(ts: seq<string>)
    requires |ts| == TagMax && forall k :: 0 <= k < |ts| ==> ts[k] == SomeTag(k)
    ensures SomeTag(TagMax - 1) !in ts[..TagMax - 1]
  {
    forall k | 0 <= k < TagMax - 1 ensures ts[k] != SomeTag(TagMax - 1) {
      assert |SomeTag(k)| == 5 + k && |SomeTag(TagMax - 1)| == 5 + TagMax - 1;
    }
  }

  lemma {:induction false} DistinctShort(ts: seq<string>)
    ensures |Distinct(ts)| <= |ts|
  {
    if ts != [] {
      DistinctShort(ts[..|ts| - 1]);
    }
  }

  lemma ShortSettled(ts: seq<string>)
    requires |ts| <= TagMax
    ensures Settled(ts)
  {
    hide Distinct;
    forall k | 0 <= k < |ts| ensures |Distinct(ts[..k])| < TagMax {
      DistinctShort(ts[..k]);
    }
  }

  lemma LongUnsettled(all: seq<string>, ts: seq<string>)
    requires |ts| == TagMax && Distinct(ts) == ts && |all| == TagMax + 1
    requires forall k :: 0 <= k < TagMax ==> ts[k] == SomeTag(k) && all[k] == SomeTag(k)
    requires all[TagMax] == SomeTag(TagMax - 1)
    ensures !Settled(all)
  {
    hide Distinct, SomeTag;
    assert all[..TagMax] == ts;
    AllDifferent(ts);
    NotCatchAll(TagMax - 1);
  }
}
