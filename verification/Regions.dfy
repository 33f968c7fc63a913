/** Tracked mappings and the cut that a partial unmap makes in them (src/heaptrack_trace.c). */
module Regions {

  datatype Region = Region(addr: nat, len: nat, info: nat, trace: nat)

  predicate Covers(r: Region, x: nat) {
    r.addr <= x < r.addr + r.len
  }

  predicate Overlap(r: Region, us: nat, ue: nat) {
    !(r.addr + r.len <= us || r.addr >= ue)
  }

  /** Byte x is tracked under tree node t. */
  predicate Tracked(regs: seq<Region>, x: nat, t: nat) {
    exists k :: 0 <= k < |regs| && Covers(regs[k], x) && regs[k].trace == t
  }

  /** Regions are nonempty and pairwise disjoint. */
  predicate Apart(regs: seq<Region>) {
    && (forall k :: 0 <= k < |regs| ==> regs[k].len > 0)
    && forall j, k :: 0 <= j < k < |regs| ==> !Overlap(regs[j], regs[k].addr, regs[k].addr + regs[k].len)
  }

  function Bag(regs: seq<Region>): multiset<nat> {
    multiset(InfosOf(regs))
  }

  function InfosOf(regs: seq<Region>): (s: seq<nat>)
    ensures |s| == |regs|
  {
    seq(|regs|, k requires 0 <= k < |regs| => regs[k].info)
  }

  function Overlaps(regs: seq<Region>, us: nat, ue: nat): nat {
    if regs == [] then 0 else (if Overlap(regs[0], us, ue) then 1 else 0) + Overlaps(regs[1..], us, ue)
  }

  /** The last region takes the place of region i. */
  function SwapRemove(regs: seq<Region>, i: nat): seq<Region>
    requires i < |regs|
  {
    regs[i := regs[|regs| - 1]][..|regs| - 1]
  }

  /** What survives of region r, in the order it is put back, under the infos h and t. */
  function Survivors(r: Region, us: nat, ue: nat, h: nat, t: nat): seq<Region> {
    (if r.addr < us then [Region(r.addr, us - r.addr, h, r.trace)] else [])
    + (if r.addr + r.len > ue then [Region(ue, r.addr + r.len - ue, t, r.trace)] else [])
  }

  function Cut(regs: seq<Region>, i: nat, us: nat, ue: nat, h: nat, t: nat): seq<Region>
    requires i < |regs|
  {
    SwapRemove(regs, i) + Survivors(regs[i], us, ue, h, t)
  }

  // ----- the measure -----

  lemma {:induction false} OverlapsAdd(a: seq<Region>, b: seq<Region>, us: nat, ue: nat)
    ensures Overlaps(a + b, us, ue) == Overlaps(a, us, ue) + Overlaps(b, us, ue)
  {
    if a == [] {
      assert a + b == b;
    } else {
      assert (a + b)[1..] == a[1..] + b;
      OverlapsAdd(a[1..], b, us, ue);
    }
  }

  lemma OverlapsOne(r: Region, us: nat, ue: nat)
    ensures Overlaps([r], us, ue) == if Overlap(r, us, ue) then 1 else 0
  {
  }

  lemma SurvivorsClear(r: Region, us: nat, ue: nat, h: nat, t: nat)
    requires us < ue
    ensures Overlaps(Survivors(r, us, ue, h, t), us, ue) == 0
  {
    var head := if r.addr < us then [Region(r.addr, us - r.addr, h, r.trace)] else [];
    var tail := if r.addr + r.len > ue then [Region(ue, r.addr + r.len - ue, t, r.trace)] else [];
    OverlapsAdd(head, tail, us, ue);
  }

  /** A cut leaves one region fewer to cut among those still to be examined. */
  lemma CutMeasure(regs: seq<Region>, i: nat, us: nat, ue: nat, h: nat, t: nat)
    requires i < |regs| && us < ue && Overlap(regs[i], us, ue)
    ensures Overlaps(Cut(regs, i, us, ue, h, t)[i..], us, ue) < Overlaps(regs[i..], us, ue)
  {
    var n, sv := |regs|, Survivors(regs[i], us, ue, h, t);
    SurvivorsClear(regs[i], us, ue, h, t);
    OverlapsOne(regs[i], us, ue);
    if i == n - 1 {
      assert Cut(regs, i, us, ue, h, t)[i..] == sv;
      assert regs[i..] == [regs[i]];
    } else {
      var mid, last := regs[i + 1..n - 1], regs[n - 1];
      assert Cut(regs, i, us, ue, h, t)[i..] == [last] + mid + sv;
      assert regs[i..] == [regs[i]] + mid + [last];
      OverlapsAdd([last] + mid, sv, us, ue);
      OverlapsAdd([last], mid, us, ue);
      OverlapsAdd([regs[i]] + mid, [last], us, ue);
      OverlapsAdd([regs[i]], mid, us, ue);
    }
  }

  // ----- what a cut keeps -----

  /** Outside the unmapped range a cut changes no byte. */
  lemma CutCovers(regs: seq<Region>, i: nat, us: nat, ue: nat, h: nat, t: nat, x: nat, tr: nat)
    requires i < |regs| && !(us <= x < ue) && us < ue && Overlap(regs[i], us, ue)
    ensures Tracked(Cut(regs, i, us, ue, h, t), x, tr) <==> Tracked(regs, x, tr)
  {
    var cut, rest, sv, n := Cut(regs, i, us, ue, h, t), SwapRemove(regs, i), Survivors(regs[i], us, ue, h, t), |regs|;
    if Tracked(regs, x, tr) {
      var k :| 0 <= k < n && Covers(regs[k], x) && regs[k].trace == tr;
      if k != i {
        var k' := if k == n - 1 then i else k;
        assert cut[k'] == regs[k];
      } else if x < us {
        assert Covers(cut[n - 1], x);
      } else {
        assert Covers(cut[|cut| - 1], x);
      }
    }
    if Tracked(cut, x, tr) {
      var k :| 0 <= k < |cut| && Covers(cut[k], x) && cut[k].trace == tr;
      if k < n - 1 {
        var k' := if k == i then n - 1 else k;
        assert cut[k] == regs[k'];
      } else {
        assert cut[k] == sv[k - (n - 1)];
        assert Covers(regs[i], x);
      }
    }
  }

  lemma CutApart(regs: seq<Region>, i: nat, us: nat, ue: nat, h: nat, t: nat)
    requires i < |regs| && us < ue && Apart(regs) && Overlap(regs[i], us, ue)
    ensures Apart(Cut(regs, i, us, ue, h, t))
  {
    var cut, n := Cut(regs, i, us, ue, h, t), |regs|;
    forall j, k | 0 <= j < k < |cut| ensures !Overlap(cut[j], cut[k].addr, cut[k].addr + cut[k].len) {
      CutFrom(regs, i, us, ue, h, t, j);
      CutFrom(regs, i, us, ue, h, t, k);
    }
  }

  /** Every region after the cut is an old one other than i, or a part of region i. */
  lemma CutFrom(regs: seq<Region>, i: nat, us: nat, ue: nat, h: nat, t: nat, k: nat)
    requires i < |regs| && us < ue && Overlap(regs[i], us, ue) && k < |Cut(regs, i, us, ue, h, t)|
    ensures k < |regs| - 1 ==> Cut(regs, i, us, ue, h, t)[k] == regs[if k == i then |regs| - 1 else k]
    ensures k >= |regs| - 1 ==>
      var r, c := regs[i], Cut(regs, i, us, ue, h, t)[k];
      && c.len > 0 && c.trace == r.trace && r.addr <= c.addr && c.addr + c.len <= r.addr + r.len
      && (c.addr + c.len <= us || (c.addr == ue && k == |Cut(regs, i, us, ue, h, t)| - 1))
  {
    if k >= |regs| - 1 {
      var sv := Survivors(regs[i], us, ue, h, t);
      assert Cut(regs, i, us, ue, h, t)[k] == sv[k - (|regs| - 1)];
    }
  }

  lemma SwapRemoveBag(regs: seq<Region>, i: nat)
    requires i < |regs|
    ensures Bag(regs) == Bag(SwapRemove(regs, i)) + multiset{regs[i].info}
  {
    var q, n := InfosOf(regs), |regs|;
    var u := q[i := q[n - 1]];
    assert u == InfosOf(SwapRemove(regs, i)) + [q[n - 1]];
    assert multiset(u) == multiset(q) - multiset{q[i]} + multiset{q[n - 1]};
    assert q[i] in q;
  }

  lemma BagAdd(regs: seq<Region>, r: Region)
    ensures Bag(regs + [r]) == Bag(regs) + multiset{r.info}
  {
    assert InfosOf(regs + [r]) == InfosOf(regs) + [r.info];
  }
}
