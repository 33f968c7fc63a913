/** The allocation tracer of src/heaptrack_trace.c as an object: five hash tables, the tag and region
    lists, the index counters and the record stream, all updated in place. Every method is proved to do
    to the abstract state what the function of the same name says. The lock makes the calls atomic. */
module Tracer {
  import opened Basics
  import opened OpenTable
  import opened HashTable
  import opened TraceLog
  import Regions
  import TraceSpec
  import TraceEvents
  import TraceRuns
  import TraceRefine

  type Hint = TraceSpec.Hint
  type Tag = TraceSpec.Tag
  type Region = Regions.Region

  /** The tables of a tracer share nothing, not even with the tracer itself. */
  ghost predicate Apart(me: object, strs: Table<string>, ips: Table<nat>, traces: Table<(nat, nat)>,
                        infos: Table<(nat, nat)>, ptrs: Table<nat>)
    reads strs, ips, traces, infos, ptrs
  {
    && me !in strs.Repr && me !in ips.Repr && me !in traces.Repr && me !in infos.Repr && me !in ptrs.Repr
    && strs.Repr !! ips.Repr && strs.Repr !! traces.Repr && strs.Repr !! infos.Repr && strs.Repr !! ptrs.Repr
    && ips.Repr !! traces.Repr && ips.Repr !! infos.Repr && ips.Repr !! ptrs.Repr
    && traces.Repr !! infos.Repr && traces.Repr !! ptrs.Repr && infos.Repr !! ptrs.Repr
    && strs in strs.Repr && ips in ips.Repr && traces in traces.Repr && infos in infos.Repr && ptrs in ptrs.Repr
  }

  ghost predicate Sound(strs: Table<string>, ips: Table<nat>, traces: Table<(nat, nat)>,
                        infos: Table<(nat, nat)>, ptrs: Table<nat>)
    reads strs, ips, traces, infos, ptrs, strs.Repr, ips.Repr, traces.Repr, infos.Repr, ptrs.Repr
  {
    strs.Valid() && ips.Valid() && traces.Valid() && infos.Valid() && ptrs.Valid()
  }

  class Tracer {
    const strs: Table<string>
    const ips: Table<nat>
    const traces: Table<(nat, nat)>
    const infos: Table<(nat, nat)>
    const ptrs: Table<nat>
    var strNext: nat
    var ipNext: nat
    var traceNext: nat
    var infoNext: nat
    var tags: seq<Tag>
    var regions: seq<Region>
    var allocs: nat
    var out: Log
    ghost var lost: multiset<nat>

    ghost predicate Valid()
      reads this, strs, ips, traces, infos, ptrs, strs.Repr, ips.Repr, traces.Repr, infos.Repr, ptrs.Repr
    {
      && Apart(this, strs, ips, traces, infos, ptrs)
      && Sound(strs, ips, traces, infos, ptrs)
      && strNext == |Strs(out)| + 1
    }

    /** Between operations every counter is the index of the next record of its kind. */
    ghost predicate Counted()
      reads this
    {
      ipNext == |Ips(out)| + 1 && traceNext == |Nodes(out)| + 1 && infoNext == |Infos(out)|
    }

    ghost function V(): TraceSpec.View
      reads this, strs, ips, traces, infos, ptrs
    {
      TraceSpec.View(strs.m, ips.m, traces.m, infos.m, ptrs.m, tags, regions, allocs, out, lost)
    }

    constructor (strHash: Hash<string>, ptrHash: Hash<nat>, traceHash: Hash<(nat, nat)>, infoHash: Hash<(nat, nat)>)
      ensures Valid() && Counted() && V() == TraceSpec.Empty
      ensures fresh(strs.Repr + ips.Repr + traces.Repr + infos.Repr + ptrs.Repr)
    {
      hide Table.Valid;
      strs := new Table(strHash, 1024);
      ips := new Table(ptrHash, 4096);
      traces := new Table(traceHash, 4096);
      infos := new Table(infoHash, 4096);
      ptrs := new Table(ptrHash, 65536);
      strNext, ipNext, traceNext, infoNext := 1, 1, 1, 0;
      tags, regions, allocs, out, lost := [], [], 0, [], multiset{};
    }

    /** One record goes out. */
    method Emit(r: Rec)
      requires Valid() && !r.Str?
      modifies this`out
      ensures Valid() && V() == TraceEvents.Put(old(V()), r)
      ensures Ips(out) == if r.Ip? then Ips(old(out)) + [r.addr] else Ips(old(out))
      ensures Nodes(out) == if r.Node? then Nodes(old(out)) + [(r.ip, r.parent)] else Nodes(old(out))
      ensures Infos(out) == if r.Info? then Infos(old(out)) + [(r.size, r.trace)] else Infos(old(out))
    {
      hide Sound, Strs, Ips, Nodes, Infos;
      TraceLog.Emit(out, r);
      out := out + [r];
    }

    method InternString(s: string) returns (i: nat)
      requires Valid()
      modifies this`out, this`strNext, strs.Repr
      ensures Valid() && fresh(strs.Repr - old(strs.Repr))
      ensures (V(), i) == TraceSpec.InternStr(old(V()), s)
      ensures Ips(out) == Ips(old(out)) && Nodes(out) == Nodes(old(out)) && Infos(out) == Infos(old(out))
    {
      hide Table.Valid, Strs, Ips, Nodes, Infos, Outstanding, WellFormed;
      var t := if s == "" then "??" else s;
      var index, added := strs.Intern(t, strNext);
      if added {
        TraceLog.Emit(out, Str(t));
        strNext := strNext + 1;
        out := out + [Str(t)];
      }
      i := index;
    }

    method InternNames(image: string, fn: string) returns (m: nat, f: nat, l: nat)
      requires Valid()
      modifies this`out, this`strNext, strs.Repr
      ensures Valid() && fresh(strs.Repr - old(strs.Repr))
      ensures (V(), m, f, l) == TraceSpec.InternNames(old(V()), image, fn)
      ensures Ips(out) == Ips(old(out)) && Nodes(out) == Nodes(old(out)) && Infos(out) == Infos(old(out))
    {
      hide Valid, TraceSpec.InternStr, Strs, Ips, Nodes, Infos;
      m := InternString(image);
      f := InternString(fn);
      l := InternString("??");
    }

    method Hinted(hints: seq<Hint>, a: nat) returns (h: Hint)
      ensures h == TraceSpec.FindHint(hints, a)
    {
      h := TraceSpec.Hint(a, "??", "??");
      for j := 0 to |hints|
        invariant TraceSpec.FindHint(hints, a) == TraceSpec.FindHint(hints[j..], a)
      {
        if hints[j].addr == a {
          return hints[j];
        }
      }
    }

    /** A new key takes the next index; its record is still to be written. */
    method IpIndex(k: nat) returns (index: nat, added: bool)
      requires Valid() && Counted()
      modifies this`ipNext, ips.Repr
      ensures Valid() && fresh(ips.Repr - old(ips.Repr)) && added == (k !in old(ips.m))
      ensures V() == if added then old(V()).(ips := old(V()).ips[k := old(ipNext)]) else old(V())
      ensures ipNext == (if added then old(ipNext) + 1 else old(ipNext)) && index == (if added then old(ipNext) else old(ips.m)[k])
    {
      hide Table.Valid, Strs, Ips, Nodes, Infos;
      index, added := ips.Intern(k, ipNext);
      if added {
        ipNext := ipNext + 1;
      }
    }

    method TraceIndex(k: (nat, nat)) returns (index: nat, added: bool)
      requires Valid() && Counted()
      modifies this`traceNext, traces.Repr
      ensures Valid() && fresh(traces.Repr - old(traces.Repr)) && added == (k !in old(traces.m))
      ensures V() == if added then old(V()).(traces := old(V()).traces[k := old(traceNext)]) else old(V())
      ensures traceNext == (if added then old(traceNext) + 1 else old(traceNext)) && index == (if added then old(traceNext) else old(traces.m)[k])
    {
      hide Table.Valid, Strs, Ips, Nodes, Infos;
      index, added := traces.Intern(k, traceNext);
      if added {
        traceNext := traceNext + 1;
      }
    }

    method InfoIndex(k: (nat, nat)) returns (index: nat, added: bool)
      requires Valid() && Counted()
      modifies this`infoNext, infos.Repr
      ensures Valid() && fresh(infos.Repr - old(infos.Repr)) && added == (k !in old(infos.m))
      ensures V() == if added then old(V()).(infos := old(V()).infos[k := old(infoNext)]) else old(V())
      ensures infoNext == (if added then old(infoNext) + 1 else old(infoNext)) && index == (if added then old(infoNext) else old(infos.m)[k])
    {
      hide Table.Valid, Strs, Ips, Nodes, Infos;
      index, added := infos.Intern(k, infoNext);
      if added {
        infoNext := infoNext + 1;
      }
    }

    /** The index is taken before the names are interned, the record written after. */
    method InternIp(a: nat, hints: seq<Hint>) returns (i: nat)
      requires Valid() && Counted()
      modifies this`out, this`strNext, this`ipNext, strs.Repr, ips.Repr
      ensures Valid() && Counted() && fresh(strs.Repr - old(strs.Repr)) && fresh(ips.Repr - old(ips.Repr))
      ensures (V(), i) == TraceSpec.InternIp(old(V()), a, hints)
    {
      hide Sound, TraceSpec.InternNames, TraceSpec.FindHint, Strs, Ips, Nodes, Infos;
      var index, added := IpIndex(a);
      if added {
        var h := Hinted(hints, a);
        var m, f, l := InternNames(h.image, h.fn);
        Emit(Ip(a, m, f, l));
      }
      i := index;
    }

    method InternTrace(ip: nat, addr: nat, parent: nat) returns (t: nat)
      requires Valid() && Counted()
      modifies this`out, this`traceNext, traces.Repr
      ensures Valid() && Counted() && fresh(traces.Repr - old(traces.Repr))
      ensures (V(), t) == TraceSpec.InternTrace(old(V()), ip, addr, parent)
    {
      hide Sound, Strs, Ips, Nodes, Infos;
      var index, added := TraceIndex((addr, parent));
      if added {
        Emit(Node(ip, parent));
      }
      t := index;
    }

    method InternAllocInfo(size: nat, trace: nat) returns (a: nat)
      requires Valid() && Counted()
      modifies this`out, this`infoNext, infos.Repr
      ensures Valid() && Counted() && fresh(infos.Repr - old(infos.Repr))
      ensures (V(), a) == TraceSpec.InternInfo(old(V()), size, trace)
    {
      hide Sound, Strs, Ips, Nodes, Infos;
      var index, added := InfoIndex((size, trace));
      if added {
        Emit(Info(size, trace));
      }
      a := index;
    }

    /** The program's tag list has a fixed number of slots; the one here grows, and tells whether the
        slot is still inside. */
    method InternTagIp(tag: string) returns (ip: nat, addr: nat, inside: bool)
      requires Valid() && Counted()
      modifies this`out, this`strNext, this`ipNext, this`tags, strs.Repr
      ensures Valid() && Counted() && fresh(strs.Repr - old(strs.Repr))
      ensures (V(), ip, addr) == TraceSpec.InternTag(old(V()), tag)
      ensures inside == (TraceSpec.FindTag(old(tags), tag) < TraceSpec.TagMax)
    {
      hide Sound, TraceSpec.InternNames, Strs, Ips, Nodes, Infos, TraceSpec.FindTag;
      var j := TagSlot(tag);
      inside := j < TraceSpec.TagMax;
      if j < |tags| {
        return tags[j].ip, tags[j].addr, inside;
      }
      var slot := |tags|;
      var t := if slot == TraceSpec.TagMax - 1 then "mmap(other)" else tag;
      addr := TraceSpec.TagBase + slot + 1;
      var m, f, l := InternNames("<mmap>", t);
      ip := ipNext;
      ipNext := ipNext + 1;
      Emit(Ip(addr, m, f, l));
      tags := tags + [TraceSpec.Tag(t, ip, addr)];
    }

    method TagSlot(tag: string) returns (j: nat)
      ensures j == TraceSpec.FindTag(tags, tag)
    {
      j := 0;
      while j < |tags|
        invariant j <= |tags| && TraceSpec.FindTag(tags, tag) == j + TraceSpec.FindTag(tags[j..], tag)
      {
        if tags[j].text == tag {
          return;
        }
        j := j + 1;
      }
    }

    /** Outermost frame first; the skipped innermost ones are the tracer's own. */
    method BuildTree(frames: seq<nat>, hints: seq<Hint>) returns (t: nat)
      requires Valid() && Counted()
      modifies this`out, this`strNext, this`ipNext, this`traceNext, strs.Repr, ips.Repr, traces.Repr
      ensures Valid() && Counted()
      ensures fresh(strs.Repr - old(strs.Repr)) && fresh(ips.Repr - old(ips.Repr)) && fresh(traces.Repr - old(traces.Repr))
      ensures (V(), t) == TraceSpec.Build(old(V()), TraceEvents.Captured(frames), hints)
    {
      hide Sound, Strs, Ips, Nodes, Infos, TraceSpec.InternIp, TraceSpec.InternTrace;
      var skip := if |frames| > 1 then 1 else 0;
      t := 0;
      var i := |frames| - 1;
      while i >= skip
        invariant skip - 1 <= i < |frames| && Valid() && Counted()
        invariant fresh(strs.Repr - old(strs.Repr)) && fresh(ips.Repr - old(ips.Repr)) && fresh(traces.Repr - old(traces.Repr))
        invariant (V(), t) == TraceSpec.Build(old(V()), frames[i + 1..], hints)
      {
        assert frames[i..][1..] == frames[i + 1..];
        var ip := InternIp(frames[i], hints);
        t := InternTrace(ip, frames[i], t);
        i := i - 1;
      }
      assert frames[i + 1..] == TraceEvents.Captured(frames);
    }

    /** The tables take no memory but new memory. */
    twostate predicate OnlyFresh()
      reads this, strs, ips, traces, infos, ptrs
    {
      && fresh(strs.Repr - old(strs.Repr)) && fresh(ips.Repr - old(ips.Repr)) && fresh(traces.Repr - old(traces.Repr))
      && fresh(infos.Repr - old(infos.Repr)) && fresh(ptrs.Repr - old(ptrs.Repr))
    }

    method PtrMapInsert(p: nat, a: nat)
      requires Valid()
      modifies this`lost, ptrs.Repr
      ensures Valid() && fresh(ptrs.Repr - old(ptrs.Repr))
      ensures V() == TraceEvents.PtrInsert(old(V()), p, a)
    {
      hide Table.Valid, ProbeEnds;
      lost := if p in ptrs.m then lost + multiset{ptrs.m[p]} else lost;
      ghost var q := ptrs.Insert(p, a);
    }

    method PtrMapRemove(p: nat) returns (r: Option<nat>)
      requires Valid()
      modifies ptrs.Repr
      ensures Valid() && ptrs.Repr == old(ptrs.Repr)
      ensures V() == old(V()).(ptrs := old(V()).ptrs - {p})
      ensures r == if p in old(V()).ptrs then Some(old(V()).ptrs[p]) else None
    {
      hide Table.Valid;
      r := ptrs.Remove(p);
    }

    method DoAlloc(p: nat, size: nat, frames: seq<nat>, hints: seq<Hint>)
      requires Valid() && Counted()
      modifies this, strs.Repr, ips.Repr, traces.Repr, infos.Repr, ptrs.Repr
      ensures Valid() && Counted() && OnlyFresh()
      ensures V() == TraceEvents.Alloc(old(V()), p, size, frames, hints)
    {
      hide Sound, Strs, Ips, Nodes, Infos, TraceSpec.Build, TraceSpec.InternInfo, TraceEvents.PtrInsert, TraceEvents.Tick;
      var t := BuildTree(frames, hints);
      var a := InternAllocInfo(size, t);
      PtrMapInsert(p, a);
      CountAlloc();
      Emit(Plus(a));
    }

    method CountAlloc()
      requires Valid() && Counted()
      modifies this`allocs, this`out
      ensures Valid() && Counted() && V() == TraceEvents.Tick(old(V()))
    {
      hide Sound, Strs, Ips, Nodes, Infos;
      allocs := allocs + 1;
      if allocs % 1024 == 0 {
        Emit(Clock);
      }
    }

    method DoFree(p: nat)
      requires Valid() && Counted()
      modifies this`out, ptrs.Repr
      ensures Valid() && Counted() && ptrs.Repr == old(ptrs.Repr)
      ensures V() == TraceEvents.Free(old(V()), p)
    {
      hide Sound, Strs, Ips, Nodes, Infos;
      var r := PtrMapRemove(p);
      if r.None? {
        assert V().ptrs == old(V()).ptrs;
        return;
      }
      Emit(Minus(r.value));
    }

    method RegionAdd(addr: nat, len: nat, trace: nat)
      requires Valid() && Counted()
      modifies this`out, this`infoNext, this`regions, infos.Repr
      ensures Valid() && Counted() && fresh(infos.Repr - old(infos.Repr))
      ensures V() == TraceEvents.AddRegion(old(V()), addr, len, trace)
    {
      hide Sound, Strs, Ips, Nodes, Infos, TraceSpec.InternInfo;
      var a := InternAllocInfo(len, trace);
      regions := regions + [Regions.Region(addr, len, a, trace)];
      Emit(Plus(a));
    }

    method DoMmap(p: nat, len: nat, tag: string, frames: seq<nat>, hints: seq<Hint>) returns (inside: bool)
      requires Valid() && Counted()
      modifies this, strs.Repr, ips.Repr, traces.Repr, infos.Repr
      ensures Valid() && Counted() && OnlyFresh()
      ensures V() == TraceEvents.Mmap(old(V()), p, len, tag, frames, hints)
      ensures inside == (TraceSpec.FindTag(old(tags), tag) < TraceSpec.TagMax)
    {
      hide Sound, Strs, Ips, Nodes, Infos, TraceSpec.Build, TraceSpec.InternTag, TraceSpec.InternTrace, TraceEvents.AddRegion, TraceSpec.FindTag;
      TraceRuns.BuildFrame(V(), TraceEvents.Captured(frames), hints);
      var t := BuildTree(frames, hints);
      var ip, addr;
      ip, addr, inside := InternTagIp(tag);
      var leaf := InternTrace(ip, addr, t);
      RegionAdd(p, len, leaf);
      Emit(Clock);
    }

    /** The element swapped in is examined next; what is appended never overlaps the range. */
    method DoMunmap(us: nat, len: nat)
      requires Valid() && Counted() && len > 0
      modifies this`out, this`infoNext, this`regions, infos.Repr
      ensures Valid() && Counted() && fresh(infos.Repr - old(infos.Repr))
      ensures V() == TraceEvents.Munmap(old(V()), us, len)
    {
      hide Sound, Strs, Ips, Nodes, Infos, TraceEvents.CutAt;
      var ue := us + len;
      var hit := false;
      var i := 0;
      while i < |regions|
        invariant i <= |regions| && Valid() && Counted() && fresh(infos.Repr - old(infos.Repr))
        invariant TraceEvents.Scan(V(), i, us, ue, hit) == TraceEvents.Scan(old(V()), 0, us, ue, false)
        decreases Regions.Overlaps(regions[i..], us, ue), |regions| - i
      {
        var r := regions[i];
        if r.addr + r.len <= us || r.addr >= ue {
          assert regions[i..][1..] == regions[i + 1..];
          i := i + 1;
        } else {
          TraceEvents.CutAtShape(V(), i, us, ue);
          hit := true;
          CutRegion(i, us, ue);
        }
      }
      if hit {
        Emit(Clock);
      }
    }

    /** Region i is retired; what sticks out of the range on either side is put back at the same node. */
    method CutRegion(i: nat, us: nat, ue: nat)
      requires Valid() && Counted() && i < |regions|
      modifies this`out, this`infoNext, this`regions, infos.Repr
      ensures Valid() && Counted() && fresh(infos.Repr - old(infos.Repr))
      ensures V() == TraceEvents.CutAt(old(V()), i, us, ue)
    {
      hide Sound, Strs, Ips, Nodes, Infos, TraceEvents.AddRegion;
      var r := regions[i];
      Emit(Minus(r.info));
      regions := regions[i := regions[|regions| - 1]][..|regions| - 1];
      if r.addr < us {
        RegionAdd(r.addr, us - r.addr, r.trace);
      }
      if r.addr + r.len > ue {
        RegionAdd(ue, r.addr + r.len - ue, r.trace);
      }
    }

    // ----- the public hooks -----

    method OnAlloc(p: nat, size: nat, frames: seq<nat>, hints: seq<Hint>)
      requires Valid() && Counted()
      modifies this, strs.Repr, ips.Repr, traces.Repr, infos.Repr, ptrs.Repr
      ensures Valid() && Counted() && OnlyFresh()
      ensures V() == TraceRefine.Apply(old(V()), TraceRefine.DoAlloc(p, size, frames, hints))
    {
      hide Sound, Strs, Ips, Nodes, Infos, TraceEvents.Alloc;
      if p == 0 {
        return;
      }
      DoAlloc(p, size, frames, hints);
    }

    method OnFree(p: nat)
      requires Valid() && Counted()
      modifies this`out, ptrs.Repr
      ensures Valid() && Counted() && ptrs.Repr == old(ptrs.Repr)
      ensures V() == TraceRefine.Apply(old(V()), TraceRefine.DoFree(p))
    {
      hide Sound, Strs, Ips, Nodes, Infos, TraceEvents.Free;
      if p == 0 {
        return;
      }
      DoFree(p);
    }

    method OnRealloc(before: nat, p: nat, size: nat, frames: seq<nat>, hints: seq<Hint>)
      requires Valid() && Counted()
      modifies this, strs.Repr, ips.Repr, traces.Repr, infos.Repr, ptrs.Repr
      ensures Valid() && Counted() && OnlyFresh()
      ensures V() == TraceRefine.Apply(old(V()), TraceRefine.DoRealloc(before, p, size, frames, hints))
    {
      hide Sound, Strs, Ips, Nodes, Infos, TraceEvents.Alloc, TraceEvents.Free;
      if p == 0 && size != 0 {
        return;
      }
      if before != 0 {
        DoFree(before);
      }
      if p != 0 {
        DoAlloc(p, size, frames, hints);
      }
    }

    method OnMmap(p: nat, len: nat, tracked: bool, fixed: bool, tag: string, frames: seq<nat>, hints: seq<Hint>)
      returns (inside: bool)
      requires Valid() && Counted()
      modifies this, strs.Repr, ips.Repr, traces.Repr, infos.Repr
      ensures Valid() && Counted() && OnlyFresh()
      ensures V() == TraceRefine.Apply(old(V()), TraceRefine.DoMmap(p, len, tracked, fixed, tag, frames, hints))
      ensures inside == (TraceRefine.Maps(TraceRefine.DoMmap(p, len, tracked, fixed, tag, frames, hints)) ==>
                           TraceSpec.FindTag(old(tags), tag) < TraceSpec.TagMax)
    {
      hide Sound, Strs, Ips, Nodes, Infos, TraceEvents.Mmap, TraceEvents.Munmap, TraceSpec.FindTag;
      inside := true;
      if p == 0 || p == TraceRefine.MapFailed || len == 0 {
        return;
      }
      if !tracked && !fixed {
        return;
      }
      if fixed {
        DoMunmap(p, len);
      }
      if tracked {
        inside := DoMmap(p, len, tag, frames, hints);
      }
    }

    method OnMunmap(p: nat, len: nat)
      requires Valid() && Counted()
      modifies this`out, this`infoNext, this`regions, infos.Repr
      ensures Valid() && Counted() && fresh(infos.Repr - old(infos.Repr))
      ensures V() == TraceRefine.Apply(old(V()), TraceRefine.DoMunmap(p, len))
    {
      hide Sound, Strs, Ips, Nodes, Infos, TraceEvents.Munmap;
      if p == 0 || len == 0 {
        return;
      }
      DoMunmap(p, len);
    }
  }
}
