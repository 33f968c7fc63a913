/** The hash tables of src/heaptrack_trace.c as objects: an array of slots that grows by doubling and is
    updated in place. `m` is the finite map the table stands for. */
module HashTable {
  import opened Basics
  import opened OpenTable

  class Table<K(==,!new)> {
    const hash: Hash<K>
    const initial: nat
    var slots: array<Slot<K>>
    var count: nat
    ghost var m: map<K, nat>
    ghost var Repr: set<object>

    /** What holds even in the middle of a removal. */
    ghost predicate Shape()
      reads this
    {
      && Repr == {this, slots}
      && initial >= 4
      && (slots.Length == 0 || slots.Length >= initial)
      && count * 10 < slots.Length * 7 + 10
    }

    ghost predicate Valid()
      reads this, Repr
    {
      && Shape()
      && Holds(slots[..], m)
      && Chains(hash, slots[..], 0, 0)
      && count == |m|
    }

    constructor (hash: Hash<K>, initial: nat)
      requires initial >= 4
      ensures Valid() && m == map[] && fresh(Repr) && this in Repr
      ensures this.hash == hash
    {
      this.hash := hash;
      this.initial := initial;
      slots := new Slot<K>[0];
      count := 0;
      m := map[];
      new;
      Repr := {this, slots};
    }

    lemma HasRoom()
      requires Valid() && slots.Length > 0
      ensures exists e :: 0 <= e < slots.Length && slots[e].Empty?
    {
      EmptySlotExists(slots[..], m);
      var e :| 0 <= e < |slots[..]| && slots[..][e].Empty?;
      assert slots[e].Empty?;
    }

    /** Linear probing from the key's home slot; the wrap-around ends at an empty slot at the latest. */
    method Probe(k: K) returns (q: nat)
      requires exists e :: 0 <= e < slots.Length && slots[e].Empty?
      ensures ProbeEnds(hash, slots[..], k, q) && q < slots.Length
      ensures slots[q].Full? ==> slots[q].key == k
    {
      var cap := slots.Length;
      ghost var e :| 0 <= e < cap && slots[e].Empty?;
      var h := Home(hash, k, cap);
      q := h;
      while slots[q].Full? && slots[q].key != k
        invariant q < cap && Dist(h, q, cap) <= Dist(h, e, cap)
        invariant forall p :: 0 <= p < cap && Dist(h, p, cap) < Dist(h, q, cap) ==> slots[p].Full? && slots[p].key != k
        decreases Dist(h, e, cap) - Dist(h, q, cap)
      {
        assert q != e;
        q := Next(q, cap);
      }
    }

    method Lookup(k: K) returns (r: Option<nat>)
      requires Valid()
      ensures r == if k in m then Some(m[k]) else None
    {
      if slots.Length == 0 {
        return None;
      }
      HasRoom();
      var q := Probe(k);
      ProbeDecides(hash, slots[..], m, k, q);
      r := if slots[q].Full? then Some(slots[q].val) else None;
    }

    /** Doubling: every entry is placed anew, without comparing keys, since they are all different. */
    method Grow()
      requires Valid()
      modifies Repr
      ensures Valid() && m == old(m) && count == old(count)
      ensures slots.Length == if old(slots.Length) == 0 then initial else 2 * old(slots.Length)
      ensures fresh(slots) && fresh(Repr - old(Repr))
    {
      hide Holds, Chains, ProbeEnds;
      var cap := if slots.Length == 0 then initial else slots.Length * 2;
      var t := new Slot<K>[cap](_ => Empty);
      ghost var s := slots[..];
      ghost var part: map<K, nat> := map[];
      EmptyTable(hash, t[..], s, m);
      var i := 0;
      while i < slots.Length
        invariant 0 <= i <= slots.Length && slots[..] == s && unchanged(this)
        invariant fresh(t) && t.Length == cap && Holds(s, m)
        invariant part == Prefix(s, i, m)
        invariant Holds(t[..], part) && Chains(hash, t[..], 0, 0)
      {
        if slots[i].Full? {
          ghost var u := t[..];
          PrefixGrows(s, i, m);
          PrefixFits(s, i, m);
          EmptySlotExists(u, part);
          var q := FreeSlot(t, slots[i].key, part);
          PutNew(hash, u, part, slots[i].key, slots[i].val, q, 0, 0);
          t[q] := slots[i];
          assert t[..] == u[q := Full(s[i].key, s[i].val)];
          part := part[s[i].key := s[i].val];
        } else {
          PrefixSkips(s, i, m);
        }
        i := i + 1;
      }
      PrefixAll(s, m);
      assert Holds(t[..], m) && Chains(hash, t[..], 0, 0);
      slots := t;
      Repr := {this, slots};
    }

    method FreeSlot(t: array<Slot<K>>, k: K, ghost part: map<K, nat>) returns (q: nat)
      requires Holds(t[..], part) && k !in part
      requires exists e :: 0 <= e < |t[..]| && t[..][e].Empty?
      ensures ProbeEnds(hash, t[..], k, q) && q < t.Length && t[q].Empty?
    {
      var cap := t.Length;
      ghost var e :| 0 <= e < |t[..]| && t[..][e].Empty?;
      var h := Home(hash, k, cap);
      q := h;
      while t[q].Full?
        invariant q < cap && Dist(h, q, cap) <= Dist(h, e, cap)
        invariant forall p :: 0 <= p < cap && Dist(h, p, cap) < Dist(h, q, cap) ==> t[p].Full? && t[p].key != k
        decreases Dist(h, e, cap) - Dist(h, q, cap)
      {
        assert q != e;
        assert t[..][q].key in part;
        q := Next(q, cap);
      }
    }

    /** Insertion, also used on the way through a removal, when the chains are still broken; then the
        table is never full enough to grow. */
    method Insert(k: K, v: nat) returns (ghost p: nat)
      requires Valid() || (Shape() && count * 10 < slots.Length * 7 && exists e :: 0 <= e < slots.Length && slots[e].Empty?)
      modifies Repr
      ensures m == old(m)[k := v] && Shape() && fresh(Repr - old(Repr)) && this in Repr
      ensures old(count * 10 < slots.Length * 7) ==>
        && slots == old(slots) && ProbeEnds(hash, old(slots[..]), k, p) && p < slots.Length
        && slots[..] == old(slots[..])[p := Full(k, v)]
        && count == if old(slots[..])[p].Full? then old(count) else old(count) + 1
      ensures old(Valid()) ==> Valid()
    {
      hide Holds, Chains, ProbeEnds;
      ghost var valid := Valid();
      if count * 10 >= slots.Length * 7 {
        Grow();
      }
      if valid { HasRoom(); }
      var q := Probe(k);
      ghost var s := slots[..];
      if valid { PutEither(hash, s, m, k, v, q); }
      if slots[q].Empty? {
        count := count + 1;
      }
      slots[q] := Full(k, v);
      assert slots[..] == s[q := Full(k, v)];
      m := m[k := v];
      p := q;
    }

    /** Removal empties the slot and re-inserts every entry up to the next empty slot e. */
    method Remove(k: K) returns (r: Option<nat>)
      requires Valid()
      modifies Repr
      ensures Valid() && m == old(m) - {k} && slots == old(slots) && Repr == old(Repr)
      ensures r == if k in old(m) then Some(old(m)[k]) else None
    {
      hide Holds, Chains, ProbeEnds, OnPath, Dist, Home, Next;
      if slots.Length == 0 {
        assert m == map[];
        return None;
      }
      HasRoom();
      ghost var e :| 0 <= e < slots.Length && slots[e].Empty?;
      var q := Probe(k);
      ghost var s := slots[..];
      Punch(hash, s, m, k, q);
      if slots[q].Empty? {
        return None;
      }
      r := Some(slots[q].val);
      slots[q] := Empty;
      assert slots[..] == s[q := Empty];
      count := count - 1;
      m := m - {k};
      Recluster(q, e);
    }

    /** The entries behind the hole q, up to the next empty slot e, are taken out and inserted again. */
    method Recluster(q: nat, ghost e: nat)
      requires Shape() && Holds(slots[..], m) && Chains(hash, slots[..], q, 1)
      requires count == |m| && count * 10 < slots.Length * 7
      requires q < slots.Length && e < slots.Length && e != q && slots[e].Empty?
      modifies Repr
      ensures Valid() && m == old(m) && slots == old(slots) && Repr == old(Repr)
    {
      hide Holds, Chains, ProbeEnds, OnPath, Home;
      var cap := slots.Length;
      var j: nat := Next(q, cap);
      while slots[j].Full?
        invariant slots == old(slots) && Shape() && j < cap == slots.Length
        invariant 1 <= Dist(q, j, cap) <= Dist(q, e, cap) && slots[e].Empty?
        invariant m == old(m) && count == |m| && count * 10 < cap * 7
        invariant Holds(slots[..], m) && Chains(hash, slots[..], q, Dist(q, j, cap))
        decreases Dist(q, e, cap) - Dist(q, j, cap)
      {
        ghost var s := slots[..];
        var k, v := slots[j].key, slots[j].val;
        TakeOut(hash, s, m, j);
        slots[j] := Empty;
        count := count - 1;
        assert slots[..] == s[j := Empty];
        assert slots[e].Empty?;
        ghost var p := Insert(k, v);
        Reinsert(hash, s, old(m), q, j, p, e);
        assert slots[e] == s[j := Empty][p := s[j]][e];
        m := old(m);
        j := Next(j, cap);
      }
      Repaired(hash, slots[..], q, j);
    }

    /** The interning discipline: a known key answers its index, a new one is entered under `next`. */
    method Intern(k: K, next: nat) returns (index: nat, added: bool)
      requires Valid()
      modifies Repr
      ensures Valid() && fresh(Repr - old(Repr)) && this in Repr
      ensures added == (k !in old(m)) && m == (if added then old(m)[k := next] else old(m)) && index == m[k]
    {
      hide Holds, Chains, ProbeEnds;
      if count * 10 >= slots.Length * 7 {
        Grow();
      }
      HasRoom();
      var q := Probe(k);
      ghost var s := slots[..];
      ProbeDecides(hash, s, m, k, q);
      if slots[q].Full? {
        return slots[q].val, false;
      }
      PutEither(hash, s, m, k, next, q);
      slots[q] := Full(k, next);
      assert slots[..] == s[q := Full(k, next)];
      count := count + 1;
      m := m[k := next];
      return next, true;
    }
  }

  lemma PutEither<K>(hash: Hash<K>, s: seq<Slot<K>>, m: map<K, nat>, k: K, v: nat, q: nat)
    requires Holds(s, m) && Chains(hash, s, 0, 0) && ProbeEnds(hash, s, k, q)
    ensures q < |s| && Holds(s[q := Full(k, v)], m[k := v]) && Chains(hash, s[q := Full(k, v)], 0, 0)
    ensures |m[k := v]| == if s[q].Full? then |m| else |m| + 1
  {
    ProbeDecides(hash, s, m, k, q);
    if s[q].Full? {
      PutOld(hash, s, m, k, v, q, 0, 0);
      OverwriteSize(m, k, v);
    } else {
      PutNew(hash, s, m, k, v, q, 0, 0);
    }
  }

  /** Where probing for k ends, either k is absent or its entry can be taken out. */
  lemma Punch<K>(hash: Hash<K>, s: seq<Slot<K>>, m: map<K, nat>, k: K, q: nat)
    requires Holds(s, m) && Chains(hash, s, 0, 0) && ProbeEnds(hash, s, k, q) && |s| > 1
    ensures q < |s| && s[q].Full? == (k in m)
    ensures s[q].Empty? ==> m - {k} == m
    ensures s[q].Full? ==>
      && m[k] == s[q].val && |m - {k}| == |m| - 1
      && Holds(s[q := Empty], m - {k}) && Chains(hash, s[q := Empty], q, 1)
  {
    hide Holds, Chains;
    ProbeDecides(hash, s, m, k, q);
    if s[q].Full? {
      OpenHole(hash, s, q);
      TakeOut(hash, s, m, q);
    }
  }

  lemma OverwriteSize<K>(m: map<K, nat>, k: K, v: nat)
    requires k in m
    ensures |m[k := v]| == |m|
  {
    assert m[k := v].Keys == m.Keys;
    assert |m[k := v].Keys| == |m[k := v]| && |m.Keys| == |m|;
  }

  lemma EmptyTable<K(!new)>(hash: Hash<K>, t: seq<Slot<K>>, s: seq<Slot<K>>, m: map<K, nat>)
    requires forall i :: 0 <= i < |t| ==> t[i].Empty?
    ensures Holds(t, map[]) && Chains(hash, t, 0, 0) && Prefix(s, 0, m) == map[]
  {
  }

  // ----- the part of the map that growth has copied -----

  ghost function Prefix<K(!new)>(s: seq<Slot<K>>, i: nat, m: map<K, nat>): map<K, nat>
    requires i <= |s|
  {
    map k | k in m && k in KeysOf(s[..i]) :: m[k]
  }

  lemma PrefixGrows<K(!new)>(s: seq<Slot<K>>, i: nat, m: map<K, nat>)
    requires Holds(s, m) && i < |s| && s[i].Full?
    ensures s[i].key !in Prefix(s, i, m)
    ensures Prefix(s, i + 1, m) == Prefix(s, i, m)[s[i].key := s[i].val]
  {
    assert s[..i + 1] == s[..i] + [s[i]];
    forall k ensures k in KeysOf(s[..i + 1]) <==> k in KeysOf(s[..i]) || k == s[i].key {
      if k in KeysOf(s[..i]) {
        var j :| 0 <= j < i && s[..i][j].Full? && s[..i][j].key == k;
        assert s[..i + 1][j] == s[j];
      }
      assert s[..i + 1][i].Full?;
    }
  }

  lemma PrefixSkips<K(!new)>(s: seq<Slot<K>>, i: nat, m: map<K, nat>)
    requires i < |s| && s[i].Empty?
    ensures Prefix(s, i + 1, m) == Prefix(s, i, m)
  {
    forall k ensures k in KeysOf(s[..i + 1]) <==> k in KeysOf(s[..i]) {
      if k in KeysOf(s[..i]) {
        var j :| 0 <= j < i && s[..i][j].Full? && s[..i][j].key == k;
        assert s[..i + 1][j] == s[j];
      }
    }
  }

  lemma PrefixFits<K(!new)>(s: seq<Slot<K>>, i: nat, m: map<K, nat>)
    requires i <= |s|
    ensures |Prefix(s, i, m)| <= |m|
  {
    SubsetSize(Prefix(s, i, m).Keys, m.Keys);
  }

  lemma PrefixAll<K(!new)>(s: seq<Slot<K>>, m: map<K, nat>)
    requires Holds(s, m)
    ensures Prefix(s, |s|, m) == m
  {
    assert s[..|s|] == s;
  }
}
