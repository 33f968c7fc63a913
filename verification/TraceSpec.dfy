/** What each operation of the allocation tracer (src/heaptrack_trace.c) does to its tables and to the
    record stream, as functions of the state, and the invariant all of them keep. */
module TraceSpec {
  import opened TraceLog
  import opened Regions

  datatype Tag = Tag(text: string, ip: nat, addr: nat)

  /** A name resolved before the lock was taken. */
  datatype Hint = Hint(addr: nat, fn: string, image: string)

  /** The tracer's state with each table read as the map it stands for. `lost` are the infos whose
      pointer was handed out again without a free in between. */
  datatype View = View(
    strs: map<string, nat>, ips: map<nat, nat>, traces: map<(nat, nat), nat>, infos: map<(nat, nat), nat>,
    ptrs: map<nat, nat>, tags: seq<Tag>, regions: seq<Region>, allocs: nat, out: Log, lost: multiset<nat>)

  // ----- interning -----

  function Text(s: string): string {
    if s == "" then "??" else s
  }

  function InternStr(v: View, s: string): (View, nat) {
    var t := Text(s);
    if t in v.strs then (v, v.strs[t]) else
      var n := |Strs(v.out)| + 1;
      (v.(strs := v.strs[t := n], out := v.out + [Str(t)]), n)
  }

  /** The three strings of an address record. */
  function InternNames(v: View, image: string, fn: string): (View, nat, nat, nat) {
    var (v1, m) := InternStr(v, image);
    var (v2, f) := InternStr(v1, fn);
    var (v3, l) := InternStr(v2, "??");
    (v3, m, f, l)
  }

  function FindHint(hints: seq<Hint>, a: nat): Hint {
    if hints == [] then Hint(a, "??", "??") else if hints[0].addr == a then hints[0] else FindHint(hints[1..], a)
  }

  function InternIp(v: View, a: nat, hints: seq<Hint>): (View, nat) {
    if a in v.ips then (v, v.ips[a]) else
      var n, h := |Ips(v.out)| + 1, FindHint(hints, a);
      var (v', m, f, l) := InternNames(v.(ips := v.ips[a := n]), h.image, h.fn);
      (v'.(out := v'.out + [Ip(a, m, f, l)]), n)
  }

  const TagBase: nat := 0xfff0_0000_0000_0000
  const TagMax: nat := 32

  function FindTag(tags: seq<Tag>, text: string): (j: nat)
    ensures j <= |tags| && (j < |tags| ==> tags[j].text == text)
  {
    if tags == [] || tags[0].text == text then 0 else 1 + FindTag(tags[1..], text)
  }

  /** The last slot of the fixed table becomes a catch-all. */
  function TagText(tags: seq<Tag>, text: string): string {
    if |tags| == TagMax - 1 then "mmap(other)" else text
  }

  function InternTag(v: View, text: string): (View, nat, nat) {
    var j := FindTag(v.tags, text);
    if j < |v.tags| then (v, v.tags[j].ip, v.tags[j].addr) else
      var t, n, addr := TagText(v.tags, text), |Ips(v.out)| + 1, TagBase + |v.tags| + 1;
      var (v', m, f, l) := InternNames(v, "<mmap>", t);
      (v'.(out := v'.out + [Ip(addr, m, f, l)], tags := v'.tags + [Tag(t, n, addr)]), n, addr)
  }

  function InternTrace(v: View, ip: nat, addr: nat, parent: nat): (View, nat) {
    if (addr, parent) in v.traces then (v, v.traces[(addr, parent)]) else
      var n := |Nodes(v.out)| + 1;
      (v.(traces := v.traces[(addr, parent) := n], out := v.out + [Node(ip, parent)]), n)
  }

  function InternInfo(v: View, size: nat, trace: nat): (View, nat) {
    if (size, trace) in v.infos then (v, v.infos[(size, trace)]) else
      var n := |Infos(v.out)|;
      (v.(infos := v.infos[(size, trace) := n], out := v.out + [Info(size, trace)]), n)
  }

  // ----- the invariant -----

  /** m numbers the elements of s from base on, and nothing else. */
  ghost predicate Indexes<K>(m: map<K, nat>, s: seq<K>, base: nat) {
    && (forall k :: k in m ==> base <= m[k] < base + |s| && s[m[k] - base] == k)
    && (forall i :: 0 <= i < |s| ==> s[i] in m && m[s[i]] == base + i)
  }

  function Calls(ips: seq<nat>, nodes: seq<(nat, nat)>): (c: seq<(nat, nat)>)
    requires Tree(ips, nodes)
    ensures |c| == |nodes|
  {
    seq(|nodes|, i requires 0 <= i < |nodes| => (ips[nodes[i].0 - 1], nodes[i].1))
  }

  ghost predicate IpsOk(ips: map<nat, nat>, seen: seq<nat>) {
    forall a :: a in ips ==> 1 <= ips[a] <= |seen| && seen[ips[a] - 1] == a
  }

  ghost predicate TagsOk(tags: seq<Tag>, seen: seq<nat>) {
    forall j :: 0 <= j < |tags| ==> 1 <= tags[j].ip <= |seen| && seen[tags[j].ip - 1] == tags[j].addr
  }

  ghost predicate StrsOk(v: View) {
    WellFormed(v.out) && Indexes(v.strs, Strs(v.out), 1)
  }

  ghost predicate NodesOk(traces: map<(nat, nat), nat>, ips: seq<nat>, nodes: seq<(nat, nat)>) {
    Tree(ips, nodes) && Indexes(traces, Calls(ips, nodes), 1)
  }

  /** The interning tables agree with the records written so far. */
  ghost predicate Interned(v: View) {
    && StrsOk(v)
    && IpsOk(v.ips, Ips(v.out)) && TagsOk(v.tags, Ips(v.out))
    && NodesOk(v.traces, Ips(v.out), Nodes(v.out))
    && Indexes(v.infos, Infos(v.out), 0)
  }

  ghost function Holders(ptrs: map<nat, nat>, a: nat): set<nat> {
    set p | p in ptrs && ptrs[p] == a
  }

  /** What is outstanding in the stream is what is live, region by region and pointer by pointer, plus
      what was lost. */
  ghost predicate Balanced(v: View) {
    forall a: nat :: Outstanding(v.out)[a] == |Holders(v.ptrs, a)| + Bag(v.regions)[a] + v.lost[a]
  }

  ghost predicate PtrsOk(ptrs: map<nat, nat>, infos: seq<(nat, nat)>) {
    forall p :: p in ptrs ==> ptrs[p] < |infos|
  }

  ghost predicate RegionsOk(regs: seq<Region>, infos: seq<(nat, nat)>) {
    forall k :: 0 <= k < |regs| ==> regs[k].info < |infos| && infos[regs[k].info] == (regs[k].len, regs[k].trace)
  }

  ghost predicate Live(v: View) {
    PtrsOk(v.ptrs, Infos(v.out)) && RegionsOk(v.regions, Infos(v.out)) && Balanced(v)
  }

  ghost predicate Inv(v: View) {
    Interned(v) && Live(v) && Apart(v.regions)
  }

  const Empty: View := View(map[], map[], map[], map[], map[], [], [], 0, [], multiset{})

  lemma EmptyInv()
    ensures Inv(Empty)
  {
  }

  /** Interning only appends definitions. */
  ghost predicate Grows(v: View, v': View) {
    && Strs(v.out) <= Strs(v'.out) && Ips(v.out) <= Ips(v'.out)
    && Nodes(v.out) <= Nodes(v'.out) && Infos(v.out) <= Infos(v'.out)
    && Outstanding(v'.out) == Outstanding(v.out)
    && v'.ptrs == v.ptrs && v'.regions == v.regions && v'.lost == v.lost && v'.allocs == v.allocs
  }

  lemma GrowsLive(v: View, v': View)
    requires Live(v) && Grows(v, v')
    ensures Live(v')
  {
  }

  lemma IndexesAdd<K>(m: map<K, nat>, s: seq<K>, base: nat, k: K)
    requires Indexes(m, s, base) && k !in m
    ensures Indexes(m[k := base + |s|], s + [k], base)
  {
  }

  lemma CallsGrow(ips: seq<nat>, nodes: seq<(nat, nat)>, ips': seq<nat>)
    requires Tree(ips, nodes) && ips <= ips'
    ensures Tree(ips', nodes) && Calls(ips', nodes) == Calls(ips, nodes)
  {
  }

  lemma InternStrKeeps(v: View, s: string)
    requires StrsOk(v)
    ensures var (v', i) := InternStr(v, s);
      && StrsOk(v') && Grows(v, v') && v' == v.(strs := v'.strs, out := v'.out)
      && Ips(v'.out) == Ips(v.out) && Nodes(v'.out) == Nodes(v.out) && Infos(v'.out) == Infos(v.out)
      && 1 <= i <= |Strs(v'.out)| && Strs(v'.out)[i - 1] == Text(s)
  {
    var t := Text(s);
    Emit(v.out, Str(t));
    if t !in v.strs {
      IndexesAdd(v.strs, Strs(v.out), 1, t);
    }
  }

  lemma InternNamesKeeps(v: View, image: string, fn: string)
    requires StrsOk(v)
    ensures var (v', m, f, l) := InternNames(v, image, fn);
      && StrsOk(v') && Grows(v, v') && v' == v.(strs := v'.strs, out := v'.out)
      && Ips(v'.out) == Ips(v.out) && Nodes(v'.out) == Nodes(v.out) && Infos(v'.out) == Infos(v.out)
      && Named(v'.out, m, image) && Named(v'.out, f, fn) && Named(v'.out, l, "??")
  {
    hide StrsOk, InternStr, Strs, Ips, Nodes, Infos, Outstanding, WellFormed, Refers;
    InternStrKeeps(v, image);
    var (v1, m) := InternStr(v, image);
    InternStrKeeps(v1, fn);
    var (v2, f) := InternStr(v1, fn);
    InternStrKeeps(v2, "??");
  }

  /** Index i resolves to this name in the stream. */
  ghost predicate Named(out: Log, i: nat, s: string) {
    1 <= i <= |Strs(out)| && Strs(out)[i - 1] == Text(s)
  }

  lemma AddIp(v: View, a: nat, m: nat, f: nat, l: nat)
    requires StrsOk(v) && NodesOk(v.traces, Ips(v.out), Nodes(v.out)) && Indexes(v.infos, Infos(v.out), 0)
    requires 1 <= m <= |Strs(v.out)| && 1 <= f <= |Strs(v.out)| && 1 <= l <= |Strs(v.out)|
    ensures var v' := v.(out := v.out + [Ip(a, m, f, l)]);
      && StrsOk(v') && Grows(v, v') && Ips(v'.out) == Ips(v.out) + [a]
      && NodesOk(v'.traces, Ips(v'.out), Nodes(v'.out)) && Indexes(v'.infos, Infos(v'.out), 0)
  {
    hide Indexes, Calls, Tree, Strs, Ips, Nodes, Infos, Outstanding, WellFormed;
    Emit(v.out, Ip(a, m, f, l));
    CallsGrow(Ips(v.out), Nodes(v.out), Ips(v.out) + [a]);
  }

  lemma InternIpKeeps(v: View, a: nat, hints: seq<Hint>)
    requires Interned(v)
    ensures var (v', i) := InternIp(v, a, hints);
      && Interned(v') && Grows(v, v') && 1 <= i <= |Ips(v'.out)| && Ips(v'.out)[i - 1] == a
  {
    hide StrsOk, NodesOk, Indexes, InternNames, Strs, Ips, Nodes, Infos, Outstanding, WellFormed, Refers;
    if a !in v.ips {
      var n, h := |Ips(v.out)| + 1, FindHint(hints, a);
      var u := v.(ips := v.ips[a := n]);
      SameStrs(v, u);
      InternNamesKeeps(u, h.image, h.fn);
      var (v1, m, f, l) := InternNames(u, h.image, h.fn);
      AddIp(v1, a, m, f, l);
    }
  }

  lemma SameStrs(v: View, u: View)
    requires StrsOk(v) && u.strs == v.strs && u.out == v.out
    ensures StrsOk(u)
  {
  }

  lemma InternTagKeeps(v: View, text: string)
    requires Interned(v)
    ensures var (v', i, addr) := InternTag(v, text);
      && Interned(v') && Grows(v, v') && 1 <= i <= |Ips(v'.out)| && Ips(v'.out)[i - 1] == addr
  {
    hide StrsOk, NodesOk, Indexes, InternNames, Strs, Ips, Nodes, Infos, Outstanding, WellFormed, Refers;
    if FindTag(v.tags, text) == |v.tags| {
      InternNamesKeeps(v, "<mmap>", TagText(v.tags, text));
      var (v1, m, f, l) := InternNames(v, "<mmap>", TagText(v.tags, text));
      AddIp(v1, TagBase + |v.tags| + 1, m, f, l);
      SameStrs(v1.(out := v1.out + [Ip(TagBase + |v.tags| + 1, m, f, l)]), InternTag(v, text).0);
    }
  }

  lemma InternTraceKeeps(v: View, ip: nat, addr: nat, parent: nat)
    requires Interned(v) && 1 <= ip <= |Ips(v.out)| && Ips(v.out)[ip - 1] == addr && parent <= |Nodes(v.out)|
    ensures var (v', t) := InternTrace(v, ip, addr, parent);
      && Interned(v') && Grows(v, v') && 1 <= t <= |Nodes(v'.out)|
      && Ips(v'.out) == Ips(v.out)
      && Walk(Ips(v'.out), Nodes(v'.out), t) == [addr] + Walk(Ips(v.out), Nodes(v.out), parent)
  {
    hide Indexes, Calls, IpsOk, TagsOk, Walk, Strs, Ips, Nodes, Infos, Outstanding, WellFormed;
    var I, N := Ips(v.out), Nodes(v.out);
    Emit(v.out, Node(ip, parent));
    AddNode(v.traces, I, N, ip, addr, parent);
  }

  lemma AddNode(traces: map<(nat, nat), nat>, I: seq<nat>, N: seq<(nat, nat)>, ip: nat, addr: nat, parent: nat)
    requires NodesOk(traces, I, N) && 1 <= ip <= |I| && I[ip - 1] == addr && parent <= |N|
    ensures (addr, parent) in traces ==>
      1 <= traces[(addr, parent)] <= |N| && Walk(I, N, traces[(addr, parent)]) == [addr] + Walk(I, N, parent)
    ensures (addr, parent) !in traces ==>
      && NodesOk(traces[(addr, parent) := |N| + 1], I, N + [(ip, parent)])
      && Walk(I, N + [(ip, parent)], |N| + 1) == [addr] + Walk(I, N, parent)
  {
    if (addr, parent) in traces {
      assert Calls(I, N)[traces[(addr, parent)] - 1] == (addr, parent);
    } else {
      IndexesAdd(traces, Calls(I, N), 1, (addr, parent));
      assert Calls(I, N + [(ip, parent)]) == Calls(I, N) + [(addr, parent)];
      WalkStable(I, N, I, N + [(ip, parent)], parent);
    }
  }

  lemma InternInfoKeeps(v: View, size: nat, trace: nat)
    requires Interned(v) && trace <= |Nodes(v.out)|
    ensures var (v', a) := InternInfo(v, size, trace);
      && Interned(v') && Grows(v, v') && a < |Infos(v'.out)| && Infos(v'.out)[a] == (size, trace)
      && Ips(v'.out) == Ips(v.out) && Nodes(v'.out) == Nodes(v.out)
  {
    hide Indexes, NodesOk, IpsOk, TagsOk, Strs, Ips, Nodes, Infos, Outstanding, WellFormed;
    Emit(v.out, Info(size, trace));
    AddInfo(v.infos, Infos(v.out), (size, trace));
  }

  lemma AddInfo(infos: map<(nat, nat), nat>, seen: seq<(nat, nat)>, k: (nat, nat))
    requires Indexes(infos, seen, 0)
    ensures k in infos ==> infos[k] < |seen| && seen[infos[k]] == k
    ensures k !in infos ==> Indexes(infos[k := |seen|], seen + [k], 0)
  {
    if k !in infos {
      IndexesAdd(infos, seen, 0, k);
    }
  }

  // ----- call stacks -----

  /** Frames are innermost first; the tree grows from the outermost one. */
  function Build(v: View, frames: seq<nat>, hints: seq<Hint>): (View, nat) {
    if frames == [] then (v, 0) else
      var (v1, parent) := Build(v, frames[1..], hints);
      var (v2, ip) := InternIp(v1, frames[0], hints);
      InternTrace(v2, ip, frames[0], parent)
  }

  /** The stack the stream records for node t. */
  function Stack(v: View, t: nat): seq<nat>
    requires WellFormed(v.out) && t <= |Nodes(v.out)|
  {
    LogTree(v.out);
    Walk(Ips(v.out), Nodes(v.out), t)
  }

  lemma StackStable(v: View, v': View, t: nat)
    requires WellFormed(v.out) && WellFormed(v'.out) && t <= |Nodes(v.out)|
    requires Ips(v.out) <= Ips(v'.out) && Nodes(v.out) <= Nodes(v'.out)
    ensures Stack(v', t) == Stack(v, t)
  {
    LogTree(v.out);
    LogTree(v'.out);
    WalkStable(Ips(v.out), Nodes(v.out), Ips(v'.out), Nodes(v'.out), t);
  }

  /** Walking the records back from the node that is returned gives exactly the frames. */
  lemma {:induction false} BuildStack(v: View, frames: seq<nat>, hints: seq<Hint>)
    requires Interned(v)
    ensures var (v', t) := Build(v, frames, hints);
      Interned(v') && Grows(v, v') && t <= |Nodes(v'.out)| && Stack(v', t) == frames
  {
    hide Interned, InternIp, InternTrace, Walk;
    if frames != [] {
      BuildStack(v, frames[1..], hints);
      var (v1, parent) := Build(v, frames[1..], hints);
      InternIpKeeps(v1, frames[0], hints);
      var (v2, ip) := InternIp(v1, frames[0], hints);
      BuildStep(v, v1, v2, ip, frames, parent);
    } else {
      RootStack(v);
    }
  }

  lemma RootStack(v: View)
    requires Interned(v)
    ensures WellFormed(v.out) && Stack(v, 0) == []
  {
  }

  lemma BuildStep(v: View, v1: View, v2: View, ip: nat, frames: seq<nat>, parent: nat)
    requires frames != [] && Interned(v1) && Interned(v2) && Grows(v, v1) && Grows(v1, v2)
    requires parent <= |Nodes(v1.out)| && Stack(v1, parent) == frames[1..]
    requires 1 <= ip <= |Ips(v2.out)| && Ips(v2.out)[ip - 1] == frames[0]
    ensures var (v3, t) := InternTrace(v2, ip, frames[0], parent);
      Interned(v3) && Grows(v, v3) && t <= |Nodes(v3.out)| && Stack(v3, t) == frames
  {
    hide NodesOk, Indexes, IpsOk, TagsOk, InternTrace, Strs, Ips, Nodes, Infos, Outstanding, WellFormed, Refers;
    StackStable(v1, v2, parent);
    InternTraceKeeps(v2, ip, frames[0], parent);
  }
}
