/** The bytes a reader of the trace adds up are the bytes in use: what the live blocks were asked for, one
    for each mapped byte, and what was lost to reused pointers. */
module TraceBytes {
  import opened TraceLog
  import opened Regions
  import opened TraceSpec
  import opened TraceEvents
  import opened TraceRuns
  import opened TraceRefine

  /** Sizes of the first n infos, each as often as it is in the bag. */
  function Weigh(infos: seq<(nat, nat)>, bag: multiset<nat>, n: nat): nat
    requires n <= |infos|
  {
    if n == 0 then 0 else Weigh(infos, bag, n - 1) + infos[n - 1].0 * bag[n - 1]
  }

  /** The bytes a reader believes to be in use. */
  function OutstandingBytes(out: Log): nat {
    Weigh(Infos(out), Outstanding(out), |Infos(out)|)
  }

  function LostBytes(v: View): nat {
    Weigh(Infos(v.out), v.lost, |Infos(v.out)|)
  }

  /** The bytes the live blocks were asked for. */
  ghost function HeapBytes(heap: map<nat, (nat, seq<nat>)>): nat {
    if heap == map[] then 0 else
      var p :| p in heap;
      heap[p].0 + HeapBytes(heap - {p})
  }

  function RegionBytes(regs: seq<Region>): nat {
    if regs == [] then 0 else RegionBytes(regs[..|regs| - 1]) + regs[|regs| - 1].len
  }

  // ----- regions -----

  lemma {:induction false} WeighOne(infos: seq<(nat, nat)>, bag: multiset<nat>, a: nat, n: nat)
    requires n <= |infos| && a < |infos|
    ensures Weigh(infos, bag + multiset{a}, n) == Weigh(infos, bag, n) + if a < n then infos[a].0 else 0
    decreases n
  {
    if n > 0 {
      WeighOne(infos, bag, a, n - 1);
      if a == n - 1 {
        assert (bag + multiset{a})[a] == bag[a] + 1;
        OneMore(infos[a].0, bag[a]);
      }
    }
  }

  lemma OneMore(x: nat, k: nat)
    ensures x * (k + 1) == x * k + x
  {
  }

  lemma {:induction false} WeighNone(infos: seq<(nat, nat)>, n: nat)
    requires n <= |infos|
    ensures Weigh(infos, multiset{}, n) == 0
    decreases n
  {
    if n > 0 {
      WeighNone(infos, n - 1);
    }
  }

  lemma {:induction false} WeighRegions(infos: seq<(nat, nat)>, regs: seq<Region>)
    requires RegionsOk(regs, infos)
    ensures Weigh(infos, Bag(regs), |infos|) == RegionBytes(regs)
  {
    if regs == [] {
      assert Bag(regs) == multiset{};
      WeighNone(infos, |infos|);
    } else {
      var most, last := regs[..|regs| - 1], regs[|regs| - 1];
      WeighRegions(infos, most);
      assert InfosOf(regs) == InfosOf(most) + [last.info];
      WeighOne(infos, Bag(most), last.info, |infos|);
    }
  }

  /** The bytes regions cover. */
  function Covered(regs: seq<Region>): set<nat> {
    if regs == [] then {} else Covered(regs[..|regs| - 1]) + Stretch(regs[|regs| - 1].addr, regs[|regs| - 1].len)
  }

  function Stretch(a: nat, n: nat): (s: set<nat>)
    ensures |s| == n && forall x: nat :: x in s <==> a <= x < a + n
  {
    if n == 0 then {} else Stretch(a, n - 1) + {a + n - 1}
  }

  lemma CoversStretch(r: Region, x: nat)
    ensures Covers(r, x) <==> x in Stretch(r.addr, r.len)
  {
  }

  lemma {:induction false} CoveredMeans(regs: seq<Region>, x: nat)
    ensures x in Covered(regs) <==> exists k :: 0 <= k < |regs| && Covers(regs[k], x)
  {
    hide Stretch, Covers;
    if regs != [] {
      var most, last := regs[..|regs| - 1], regs[|regs| - 1];
      CoveredMeans(most, x);
      CoversStretch(last, x);
      if k :| 0 <= k < |regs| && Covers(regs[k], x) {
        assert k < |most| ==> most[k] == regs[k];
      }
      if j :| 0 <= j < |most| && Covers(most[j], x) {
        assert regs[j] == most[j];
      }
    }
  }

  lemma {:induction false} CoveredSize(regs: seq<Region>)
    requires Apart(regs)
    ensures |Covered(regs)| == RegionBytes(regs)
  {
    if regs != [] {
      var most, last := regs[..|regs| - 1], regs[|regs| - 1];
      CoveredSize(most);
      forall x | x in Covered(most) ensures x !in Stretch(last.addr, last.len) {
        CoveredMeans(most, x);
        var k :| 0 <= k < |most| && Covers(most[k], x);
        assert most[k] == regs[k];
      }
    }
  }

  /** Apart regions cover as many bytes as are mapped. */
  lemma MappedBytes(v: View, mapped: map<nat, seq<nat>>)
    requires Inv(v) && MappedOk(v, mapped)
    ensures RegionBytes(v.regions) == |mapped.Keys|
  {
    hide Interned, Live, Stack, Nodes;
    CoveredSize(v.regions);
    forall x: nat ensures x in Covered(v.regions) <==> x in mapped {
      CoveredMeans(v.regions, x);
      if x in mapped {
        var t: nat :| Tracked(v.regions, x, t);
      }
      if x in Covered(v.regions) {
        var k :| 0 <= k < |v.regions| && Covers(v.regions[k], x);
        assert Tracked(v.regions, x, v.regions[k].trace);
      }
    }
    assert Covered(v.regions) == mapped.Keys;
  }

  // ----- pointers -----

  ghost function WeighPtrs(infos: seq<(nat, nat)>, ptrs: map<nat, nat>, n: nat): nat
    requires n <= |infos|
  {
    if n == 0 then 0 else WeighPtrs(infos, ptrs, n - 1) + infos[n - 1].0 * |Holders(ptrs, n - 1)|
  }

  lemma {:induction false} WeighLess(infos: seq<(nat, nat)>, ptrs: map<nat, nat>, p: nat, n: nat)
    requires n <= |infos| && p in ptrs && ptrs[p] < |infos|
    ensures WeighPtrs(infos, ptrs, n) == WeighPtrs(infos, ptrs - {p}, n) + if ptrs[p] < n then infos[ptrs[p]].0 else 0
    decreases n
  {
    if n > 0 {
      WeighLess(infos, ptrs, p, n - 1);
      if ptrs[p] == n - 1 {
        assert Holders(ptrs, n - 1) == Holders(ptrs - {p}, n - 1) + {p};
        OneMore(infos[n - 1].0, |Holders(ptrs - {p}, n - 1)|);
      } else {
        assert Holders(ptrs, n - 1) == Holders(ptrs - {p}, n - 1);
      }
    }
  }

  lemma {:induction false} WeighNoPtrs(infos: seq<(nat, nat)>, ptrs: map<nat, nat>, n: nat)
    requires n <= |infos| && ptrs == map[]
    ensures WeighPtrs(infos, ptrs, n) == 0
    decreases n
  {
    if n > 0 {
      WeighNoPtrs(infos, ptrs, n - 1);
      assert Holders(ptrs, n - 1) == {};
    }
  }

  /** The pointer table's infos weigh what the heap's blocks were asked for. */
  lemma {:induction false} PtrBytes(infos: seq<(nat, nat)>, ptrs: map<nat, nat>, heap: map<nat, (nat, seq<nat>)>)
    requires ptrs.Keys == heap.Keys && forall p :: p in ptrs ==> ptrs[p] < |infos| && infos[ptrs[p]].0 == heap[p].0
    ensures WeighPtrs(infos, ptrs, |infos|) == HeapBytes(heap)
    decreases |heap|
  {
    if heap == map[] {
      WeighNoPtrs(infos, ptrs, |infos|);
    } else {
      var p :| p in heap && HeapBytes(heap) == heap[p].0 + HeapBytes(heap - {p});
      WeighLess(infos, ptrs, p, |infos|);
      PtrBytes(infos, ptrs - {p}, heap - {p});
    }
  }

  // ----- all together -----

  lemma {:induction false} WeighSplit(infos: seq<(nat, nat)>, all: multiset<nat>, ptrs: map<nat, nat>, b: multiset<nat>, c: multiset<nat>, n: nat)
    requires n <= |infos| && forall a: nat :: all[a] == |Holders(ptrs, a)| + b[a] + c[a]
    ensures Weigh(infos, all, n) == WeighPtrs(infos, ptrs, n) + Weigh(infos, b, n) + Weigh(infos, c, n)
    decreases n
  {
    hide Holders;
    if n > 0 {
      WeighSplit(infos, all, ptrs, b, c, n - 1);
      ThreeParts(infos[n - 1].0, |Holders(ptrs, n - 1)|, b[n - 1], c[n - 1]);
    }
  }

  lemma ThreeParts(x: nat, a: nat, b: nat, c: nat)
    ensures x * (a + b + c) == x * a + x * b + x * c
  {
  }

  lemma StateBytes(v: View, w: World)
    requires Refines(v, w)
    ensures OutstandingBytes(v.out) == HeapBytes(w.heap) + |w.mapped.Keys| + LostBytes(v)
  {
    hide Interned, Infos, Nodes, Outstanding, Weigh, WeighPtrs, HeapBytes, RegionBytes, Holders, Bag, Apart, TagsMatch, WellFormed;
    var infos := Infos(v.out);
    WeighSplit(infos, Outstanding(v.out), v.ptrs, Bag(v.regions), v.lost, |infos|);
    WeighRegions(infos, v.regions);
    MappedBytes(v, w.mapped);
    PtrInfos(v);
    HeapSizes(v, w.heap);
    PtrBytes(infos, v.ptrs, w.heap);
  }

  lemma HeapSizes(v: View, heap: map<nat, (nat, seq<nat>)>)
    requires WellFormed(v.out) && HeapOk(v, heap)
    ensures forall p :: p in v.ptrs ==> v.ptrs[p] < |Infos(v.out)| && Infos(v.out)[v.ptrs[p]].0 == heap[p].0
  {
    hide WellFormed, Infos, Nodes;
  }

  /** Over every legal run the outstanding bytes are the live blocks', the mapped and the lost ones. */
  lemma BytesExact(es: seq<Event>)
    requires LegalRun(es)
    ensures OutstandingBytes(Run(es).out) == HeapBytes(Happened(es).heap) + |Happened(es).mapped.Keys| + LostBytes(Run(es))
    ensures NoReuse(es) ==> LostBytes(Run(es)) == 0
  {
    hide Refines, LegalRun, NoReuse, OutstandingBytes, Run, Happened;
    RunRefines(es);
    StateBytes(Run(es), Happened(es));
    LossExact(es);
    WeighNone(Infos(Run(es).out), |Infos(Run(es).out)|);
  }
}
