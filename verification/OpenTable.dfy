/** The open-addressing hash tables of src/heaptrack_trace.c: linear probing, growth at seven tenths
    full, and removal that re-inserts the rest of the cluster. One class serves the pointer map and
    the four intern tables, which differ in key type, initial capacity and first index only. The C
    code masks hashes with capacity - 1; capacities are powers of two, so that is the remainder. */
module OpenTable {
  import opened Basics

  datatype Slot<K> = Empty | Full(key: K, val: nat)

  type Hash<!K> = K -> nat

  function Home<K>(hash: Hash<K>, k: K, cap: nat): nat
    requires cap > 0
  {
    hash(k) % cap
  }

  /** Probing steps from slot h to slot i. */
  function Dist(h: nat, i: nat, cap: nat): int {
    if i >= h then i - h else i - h + cap
  }

  function Next(i: nat, cap: nat): nat
    requires i < cap
  {
    if i + 1 == cap then 0 else i + 1
  }

  // ----- what a slot sequence means -----

  /** The full slots are the entries of m, each key once. */
  ghost predicate Holds<K>(s: seq<Slot<K>>, m: map<K, nat>) {
    && (forall i :: 0 <= i < |s| && s[i].Full? ==> s[i].key in m && m[s[i].key] == s[i].val)
    && (forall k :: k in m ==> exists i :: 0 <= i < |s| && s[i].Full? && s[i].key == k)
    && (forall i, j :: 0 <= i < |s| && 0 <= j < |s| && s[i].Full? && s[j].Full? && s[i].key == s[j].key ==> i == j)
  }

  /** Slot q lies on the probe path of the entry in slot i, before it. */
  ghost predicate OnPath<K>(hash: Hash<K>, s: seq<Slot<K>>, i: nat, q: nat)
    requires i < |s| && s[i].Full?
  {
    var h := Home(hash, s[i].key, |s|);
    Dist(h, q, |s|) < Dist(h, i, |s|)
  }

  /** No entry has an empty slot on its probe path, except that slots in the d slots from `hole` may be
      empty on the paths of entries further on. With d == 0 there is no exception. */
  ghost predicate Chains<K>(hash: Hash<K>, s: seq<Slot<K>>, hole: nat, d: int) {
    forall i, q :: 0 <= i < |s| && 0 <= q < |s| && s[i].Full? && OnPath(hash, s, i, q) ==>
      s[q].Full? || (Dist(hole, q, |s|) < d <= Dist(hole, i, |s|))
  }

  /** Slot q is where probing for k ends: everything before it is full of other keys. */
  ghost predicate ProbeEnds<K>(hash: Hash<K>, s: seq<Slot<K>>, k: K, q: nat) {
    && q < |s|
    && (s[q].Full? ==> s[q].key == k)
    && forall p :: 0 <= p < |s| && Dist(Home(hash, k, |s|), p, |s|) < Dist(Home(hash, k, |s|), q, |s|) ==>
         s[p].Full? && s[p].key != k
  }

  /** With intact chains probing decides membership. */
  lemma ProbeDecides<K>(hash: Hash<K>, s: seq<Slot<K>>, m: map<K, nat>, k: K, q: nat)
    requires Holds(s, m) && Chains(hash, s, 0, 0) && ProbeEnds(hash, s, k, q)
    ensures s[q].Full? <==> k in m
    ensures s[q].Full? ==> m[k] == s[q].val
  {
    if k in m {
      var i :| 0 <= i < |s| && s[i].Full? && s[i].key == k;
      var h := Home(hash, k, |s|);
      assert OnPath(hash, s, i, q) ==> s[q].Full?;
      assert Dist(h, q, |s|) == Dist(h, i, |s|) ==> q == i;
    }
  }

  /** A new key goes to the empty slot where probing ends. */
  lemma PutNew<K>(hash: Hash<K>, s: seq<Slot<K>>, m: map<K, nat>, k: K, v: nat, q: nat, hole: nat, d: int)
    requires Holds(s, m) && Chains(hash, s, hole, d) && ProbeEnds(hash, s, k, q)
    requires s[q].Empty? && k !in m && hole < |s|
    ensures Holds(s[q := Full(k, v)], m[k := v])
    ensures Chains(hash, s[q := Full(k, v)], hole, d)
  {
    var s', m' := s[q := Full(k, v)], m[k := v];
    forall k' | k' in m' ensures exists i :: 0 <= i < |s'| && s'[i].Full? && s'[i].key == k' {
      if k' == k {
        assert s'[q].Full? && s'[q].key == k;
      } else {
        var i :| 0 <= i < |s| && s[i].Full? && s[i].key == k';
        assert s'[i].Full? && s'[i].key == k';
      }
    }
    forall i, p | 0 <= i < |s'| && 0 <= p < |s'| && s'[i].Full? && OnPath(hash, s', i, p)
      ensures s'[p].Full? || (Dist(hole, p, |s|) < d <= Dist(hole, i, |s|))
    {
      if i != q {
        assert OnPath(hash, s, i, p);
      }
    }
  }

  /** Overwriting the value of a present key. */
  lemma PutOld<K>(hash: Hash<K>, s: seq<Slot<K>>, m: map<K, nat>, k: K, v: nat, q: nat, hole: nat, d: int)
    requires Holds(s, m) && Chains(hash, s, hole, d)
    requires q < |s| && s[q].Full? && s[q].key == k
    ensures Holds(s[q := Full(k, v)], m[k := v])
    ensures Chains(hash, s[q := Full(k, v)], hole, d)
  {
    var s', m' := s[q := Full(k, v)], m[k := v];
    forall k' | k' in m' ensures exists i :: 0 <= i < |s'| && s'[i].Full? && s'[i].key == k' {
      var i :| 0 <= i < |s| && s[i].Full? && s[i].key == k';
      assert s'[i].Full? && s'[i].key == k';
    }
    forall i, p | 0 <= i < |s'| && 0 <= p < |s'| && s'[i].Full? && OnPath(hash, s', i, p)
      ensures s'[p].Full? || (Dist(hole, p, |s|) < d <= Dist(hole, i, |s|))
    {
      assert OnPath(hash, s, i, p);
    }
  }

  /** Taking an entry out leaves the rest, with one more hole. */
  lemma TakeOut<K>(hash: Hash<K>, s: seq<Slot<K>>, m: map<K, nat>, q: nat)
    requires Holds(s, m) && q < |s| && s[q].Full?
    ensures Holds(s[q := Empty], m - {s[q].key})
    ensures |m - {s[q].key}| == |m| - 1
  {
    var k := s[q].key;
    var s', m' := s[q := Empty], m - {k};
    forall k' | k' in m' ensures exists i :: 0 <= i < |s'| && s'[i].Full? && s'[i].key == k' {
      var i :| 0 <= i < |s| && s[i].Full? && s[i].key == k';
      assert s'[i].Full? && s'[i].key == k';
    }
    assert m'.Keys == m.Keys - {k};
  }

  // ----- counting -----

  function KeysOf<K>(s: seq<Slot<K>>): set<K> {
    set i | 0 <= i < |s| && s[i].Full? :: s[i].key
  }

  lemma {:induction false} DistinctCount<K>(s: seq<Slot<K>>)
    requires forall i :: 0 <= i < |s| ==> s[i].Full?
    requires forall i, j :: 0 <= i < |s| && 0 <= j < |s| && s[i].key == s[j].key ==> i == j
    ensures |KeysOf(s)| == |s|
    decreases |s|
  {
    if s != [] {
      var n := |s| - 1;
      var t := s[..n];
      DistinctCount(t);
      assert KeysOf(s) == KeysOf(t) + {s[n].key} by {
        forall k | k in KeysOf(s) ensures k in KeysOf(t) + {s[n].key} {
          var i :| 0 <= i < |s| && s[i].Full? && s[i].key == k;
          if i < n {
            assert t[i].Full? && t[i].key == k;
          }
        }
        forall k | k in KeysOf(t) ensures k in KeysOf(s) {
          var i :| 0 <= i < |t| && t[i].Full? && t[i].key == k;
          assert s[i].Full? && s[i].key == k;
        }
        assert s[n].Full?;
      }
      assert s[n].key !in KeysOf(t);
    }
  }

  /** A table with fewer entries than slots has an empty slot, so every probe ends. */
  lemma EmptySlotExists<K>(s: seq<Slot<K>>, m: map<K, nat>)
    requires Holds(s, m) && |m| < |s|
    ensures exists e :: 0 <= e < |s| && s[e].Empty?
  {
    if forall i :: 0 <= i < |s| ==> s[i].Full? {
      DistinctCount(s);
      assert KeysOf(s) <= m.Keys;
      SubsetSize(KeysOf(s), m.Keys);
    }
  }

  // ----- re-inserting a cluster -----

  /** Opening a hole at q breaks only paths that come past it. */
  lemma OpenHole<K>(hash: Hash<K>, s: seq<Slot<K>>, q: nat)
    requires Chains(hash, s, 0, 0) && q < |s| && s[q].Full? && |s| > 1
    ensures Chains(hash, s[q := Empty], q, 1)
  {
    var s' := s[q := Empty];
    forall i, p | 0 <= i < |s'| && 0 <= p < |s'| && s'[i].Full? && OnPath(hash, s', i, p)
      ensures s'[p].Full? || (Dist(q, p, |s|) < 1 <= Dist(q, i, |s|))
    {
      assert OnPath(hash, s, i, p);
    }
  }

  /** Where the entry in slot j goes when it is taken out and put back: its own slot or a hole before it. */
  lemma ReinsertSlot<K>(hash: Hash<K>, s: seq<Slot<K>>, m: map<K, nat>, hole: nat, j: nat, p: nat)
    requires Holds(s, m) && hole < |s| && j < |s| && s[j].Full?
    requires Chains(hash, s, hole, Dist(hole, j, |s|))
    requires ProbeEnds(hash, s[j := Empty], s[j].key, p)
    ensures p < |s| && s[j := Empty][p].Empty?
    ensures p == j || (s[p].Empty? && OnPath(hash, s, j, p) && Dist(hole, p, |s|) < Dist(hole, j, |s|))
  {
    var t, cap := s[j := Empty], |s|;
    var h := Home(hash, s[j].key, cap);
    if p != j {
      assert t[p] == s[p];
      assert t[j].Empty?;
      assert OnPath(hash, s, j, p);
    }
  }

  lemma ReinsertChains<K>(hash: Hash<K>, s: seq<Slot<K>>, hole: nat, j: nat, p: nat, e: nat)
    requires hole < |s| && j < |s| && e < |s| && s[j].Full? && s[e].Empty?
    requires Chains(hash, s, hole, Dist(hole, j, |s|)) && Dist(hole, j, |s|) < Dist(hole, e, |s|)
    requires ProbeEnds(hash, s[j := Empty], s[j].key, p)
    requires p == j || (s[p].Empty? && Dist(hole, p, |s|) < Dist(hole, j, |s|))
    ensures Chains(hash, s[j := Empty][p := s[j]], hole, Dist(hole, j, |s|) + 1)
  {
    var d, cap, s' := Dist(hole, j, |s|), |s|, s[j := Empty][p := s[j]];
    forall i, q | 0 <= i < cap && 0 <= q < cap && s'[i].Full? && OnPath(hash, s', i, q)
      ensures s'[q].Full? || (Dist(hole, q, cap) < d + 1 <= Dist(hole, i, cap))
    {
      if i == p {
        ReinsertOwnPath(hash, s, j, p, q);
      } else {
        ReinsertOtherPath(hash, s, hole, i, j, q, e);
        assert s'[i] == s[i];
      }
    }
  }

  lemma ReinsertOwnPath<K>(hash: Hash<K>, s: seq<Slot<K>>, j: nat, p: nat, q: nat)
    requires j < |s| && s[j].Full? && q < |s|
    requires ProbeEnds(hash, s[j := Empty], s[j].key, p)
    requires OnPath(hash, s[j := Empty][p := s[j]], p, q)
    ensures s[j := Empty][p := s[j]][q].Full?
  {
    assert s[j := Empty][q].Full?;
  }

  /** Another entry has its path broken at j only when it lies past j: otherwise the path would also
      have led over e. */
  lemma ReinsertOtherPath<K>(hash: Hash<K>, s: seq<Slot<K>>, hole: nat, i: nat, j: nat, q: nat, e: nat)
    requires hole < |s| && j < |s| && e < |s| && i < |s| && q < |s| && i != j && s[i].Full? && s[e].Empty?
    requires Chains(hash, s, hole, Dist(hole, j, |s|)) && Dist(hole, j, |s|) < Dist(hole, e, |s|)
    requires OnPath(hash, s, i, q)
    ensures (s[q].Full? && q != j) || (Dist(hole, q, |s|) <= Dist(hole, j, |s|) < Dist(hole, i, |s|))
  {
    var h, cap := Home(hash, s[i].key, |s|), |s|;
    Around(h, hole, i, j, e, cap);
    if OnPath(hash, s, i, e) {
      BrokenPath(hash, s, hole, Dist(hole, j, cap), i, e);
    }
  }

  lemma BrokenPath<K>(hash: Hash<K>, s: seq<Slot<K>>, hole: nat, d: int, i: nat, q: nat)
    requires Chains(hash, s, hole, d) && i < |s| && q < |s| && s[i].Full? && OnPath(hash, s, i, q) && s[q].Empty?
    ensures Dist(hole, q, |s|) < d <= Dist(hole, i, |s|)
  {
  }

  lemma Around(h: nat, hole: nat, i: nat, j: nat, e: nat, cap: nat)
    requires h < cap && hole < cap && i < cap && j < cap && e < cap && i != j
    requires Dist(hole, j, cap) < Dist(hole, e, cap)
    ensures Dist(h, j, cap) < Dist(h, i, cap) ==>
      Dist(hole, j, cap) < Dist(hole, i, cap) || Dist(h, e, cap) < Dist(h, i, cap)
    ensures Dist(hole, i, cap) != Dist(hole, j, cap)
  {
  }

  /** Taking out the entry at distance d and putting it back where probing ends moves the boundary of
      the repaired part past it; it never lands on an empty slot e beyond. */
  lemma Reinsert<K>(hash: Hash<K>, s: seq<Slot<K>>, m: map<K, nat>, hole: nat, j: nat, p: nat, e: nat)
    requires Holds(s, m) && hole < |s| && j < |s| && e < |s| && s[j].Full? && s[e].Empty?
    requires Chains(hash, s, hole, Dist(hole, j, |s|)) && Dist(hole, j, |s|) < Dist(hole, e, |s|)
    requires ProbeEnds(hash, s[j := Empty], s[j].key, p)
    ensures s[j := Empty][p].Empty? && p != e
    ensures Chains(hash, s[j := Empty][p := s[j]], hole, Dist(hole, j, |s|) + 1)
    ensures Holds(s[j := Empty][p := s[j]], m)
  {
    hide Chains, ProbeEnds, OnPath;
    ReinsertSlot(hash, s, m, hole, j, p);
    ReinsertChains(hash, s, hole, j, p, e);
    TakeOut(hash, s, m, j);
    assert s[j].key in m && m[s[j].key] == s[j].val;
    assert s[j] == Full(s[j].key, s[j].val);
    ReHold(s[j := Empty], m, s[j].key, s[j].val, p);
  }

  lemma ReHold<K>(t: seq<Slot<K>>, m: map<K, nat>, k: K, v: nat, p: nat)
    requires k in m && m[k] == v && Holds(t, m - {k}) && p < |t| && t[p].Empty?
    ensures Holds(t[p := Full(k, v)], m)
  {
    var s' := t[p := Full(k, v)];
    forall k' | k' in m ensures exists i :: 0 <= i < |s'| && s'[i].Full? && s'[i].key == k' {
      if k' == k {
        assert s'[p].Full?;
      } else {
        assert k' in m - {k};
        var i :| 0 <= i < |t| && t[i].Full? && t[i].key == k';
        assert s'[i].Full? && s'[i].key == k';
      }
    }
  }

  /** Once the boundary reaches an empty slot no path is broken any more. */
  lemma Repaired<K>(hash: Hash<K>, s: seq<Slot<K>>, hole: nat, j: nat)
    requires hole < |s| && j < |s| && s[j].Empty? && Chains(hash, s, hole, Dist(hole, j, |s|))
    ensures Chains(hash, s, 0, 0)
  {
    var cap := |s|;
    forall i, q | 0 <= i < cap && 0 <= q < cap && s[i].Full? && OnPath(hash, s, i, q)
      ensures s[q].Full?
    {
      RepairedPath(hash, s, hole, i, j, q);
    }
  }

  lemma RepairedPath<K>(hash: Hash<K>, s: seq<Slot<K>>, hole: nat, i: nat, j: nat, q: nat)
    requires hole < |s| && i < |s| && j < |s| && q < |s| && s[j].Empty? && s[i].Full?
    requires Chains(hash, s, hole, Dist(hole, j, |s|)) && OnPath(hash, s, i, q)
    ensures s[q].Full?
  {
    var h, cap := Home(hash, s[i].key, |s|), |s|;
    if s[q].Empty? {
      BrokenPath(hash, s, hole, Dist(hole, j, cap), i, q);
      BrokenPath(hash, s, hole, Dist(hole, j, cap), i, j);
    }
  }
}
