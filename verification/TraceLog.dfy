/** The record stream of src/heaptrack_trace.c and what a reader makes of it. Indices are implicit: the
    k-th record of a kind defines index k (from 1 for strings, addresses and tree nodes, from 0 for
    allocation infos). */
module TraceLog {

  datatype Rec =
    | Str(text: string)
    | Ip(addr: nat, module_: nat, fn: nat, file: nat)
    | Node(ip: nat, parent: nat)
    | Info(size: nat, trace: nat)
    | Plus(info: nat)
    | Minus(info: nat)
    | Clock

  type Log = seq<Rec>

  function Strs(out: Log): seq<string> {
    if out == [] then [] else
      var r := out[|out| - 1];
      Strs(out[..|out| - 1]) + if r.Str? then [r.text] else []
  }

  function Ips(out: Log): seq<nat> {
    if out == [] then [] else
      var r := out[|out| - 1];
      Ips(out[..|out| - 1]) + if r.Ip? then [r.addr] else []
  }

  function Nodes(out: Log): seq<(nat, nat)> {
    if out == [] then [] else
      var r := out[|out| - 1];
      Nodes(out[..|out| - 1]) + if r.Node? then [(r.ip, r.parent)] else []
  }

  function Infos(out: Log): seq<(nat, nat)> {
    if out == [] then [] else
      var r := out[|out| - 1];
      Infos(out[..|out| - 1]) + if r.Info? then [(r.size, r.trace)] else []
  }

  /** The allocations a reader believes to be live. */
  function Outstanding(out: Log): multiset<nat> {
    if out == [] then multiset{} else Balance(Outstanding(out[..|out| - 1]), out[|out| - 1])
  }

  function Balance(live: multiset<nat>, r: Rec): multiset<nat> {
    if r.Plus? then live + multiset{r.info} else if r.Minus? then live - multiset{r.info} else live
  }

  /** Record r mentions only what the log before it defines, and retires only what is live in it. */
  predicate Refers(out: Log, r: Rec) {
    match r
    case Ip(_, m, f, l) => 1 <= m <= |Strs(out)| && 1 <= f <= |Strs(out)| && 1 <= l <= |Strs(out)|
    case Node(ip, parent) => 1 <= ip <= |Ips(out)| && parent <= |Nodes(out)|
    case Info(_, trace) => trace <= |Nodes(out)|
    case Plus(a) => a < |Infos(out)|
    case Minus(a) => a in Outstanding(out)
    case _ => true
  }

  predicate WellFormed(out: Log) {
    out == [] || (WellFormed(out[..|out| - 1]) && Refers(out[..|out| - 1], out[|out| - 1]))
  }

  /** What one more record does to everything read from the log. */
  lemma Emit(out: Log, r: Rec)
    ensures Strs(out + [r]) == if r.Str? then Strs(out) + [r.text] else Strs(out)
    ensures Ips(out + [r]) == if r.Ip? then Ips(out) + [r.addr] else Ips(out)
    ensures Nodes(out + [r]) == if r.Node? then Nodes(out) + [(r.ip, r.parent)] else Nodes(out)
    ensures Infos(out + [r]) == if r.Info? then Infos(out) + [(r.size, r.trace)] else Infos(out)
    ensures Outstanding(out + [r]) == Balance(Outstanding(out), r)
    ensures WellFormed(out + [r]) == (WellFormed(out) && Refers(out, r))
  {
    assert (out + [r])[..|out|] == out;
  }

  // ----- call stacks -----

  predicate Tree(ips: seq<nat>, nodes: seq<(nat, nat)>) {
    forall i :: 0 <= i < |nodes| ==> 1 <= nodes[i].0 <= |ips| && nodes[i].1 <= i
  }

  lemma {:induction false} LogTree(out: Log)
    requires WellFormed(out)
    ensures Tree(Ips(out), Nodes(out))
  {
    if out != [] {
      LogTree(out[..|out| - 1]);
    }
  }

  /** The reader's walk from a node to the root: the return addresses, innermost first. */
  function Walk(ips: seq<nat>, nodes: seq<(nat, nat)>, t: nat): (stack: seq<nat>)
    requires Tree(ips, nodes) && t <= |nodes|
    decreases t
  {
    if t == 0 then [] else [ips[nodes[t - 1].0 - 1]] + Walk(ips, nodes, nodes[t - 1].1)
  }

  /** Later records never change a stack. */
  lemma {:induction false} WalkStable(ips: seq<nat>, nodes: seq<(nat, nat)>, ips': seq<nat>, nodes': seq<(nat, nat)>, t: nat)
    requires Tree(ips, nodes) && t <= |nodes| && Tree(ips', nodes') && ips <= ips' && nodes <= nodes'
    ensures Walk(ips', nodes', t) == Walk(ips, nodes, t)
    decreases t
  {
    if t > 0 {
      assert nodes'[t - 1] == nodes[t - 1];
      WalkStable(ips, nodes, ips', nodes', nodes[t - 1].1);
    }
  }

  /** No two nodes stand for the same call: with that, equal stacks have equal nodes. */
  predicate Shared(ips: seq<nat>, nodes: seq<(nat, nat)>)
    requires Tree(ips, nodes)
  {
    forall i, j ::
      (0 <= i < |nodes| && 0 <= j < |nodes| && ips[nodes[i].0 - 1] == ips[nodes[j].0 - 1] && nodes[i].1 == nodes[j].1)
      ==> i == j
  }

  lemma {:induction false} WalkUnique(ips: seq<nat>, nodes: seq<(nat, nat)>, t: nat, u: nat)
    requires Tree(ips, nodes) && Shared(ips, nodes) && t <= |nodes| && u <= |nodes|
    ensures Walk(ips, nodes, t) == Walk(ips, nodes, u) ==> t == u
    decreases t
  {
    var s, w := Walk(ips, nodes, t), Walk(ips, nodes, u);
    if t > 0 && u > 0 && s == w {
      assert s[1..] == Walk(ips, nodes, nodes[t - 1].1);
      assert w[1..] == Walk(ips, nodes, nodes[u - 1].1);
      assert s[0] == w[0];
      WalkUnique(ips, nodes, nodes[t - 1].1, nodes[u - 1].1);
    }
  }

  /** The size and the stack of an allocation info, as a reader resolves them. */
  function Meaning(out: Log, a: nat): (nat, seq<nat>)
    requires WellFormed(out) && a < |Infos(out)|
  {
    LogTree(out);
    InfoTrace(out, a);
    (Infos(out)[a].0, Walk(Ips(out), Nodes(out), Infos(out)[a].1))
  }

  lemma {:induction false} InfoTrace(out: Log, a: nat)
    requires WellFormed(out) && a < |Infos(out)|
    ensures Infos(out)[a].1 <= |Nodes(out)|
  {
    if out != [] {
      var before := out[..|out| - 1];
      if a < |Infos(before)| {
        InfoTrace(before, a);
      }
    }
  }

  /** A reader never retires more than was recorded: every outstanding info is defined. */
  lemma {:induction false} OutstandingDefined(out: Log, a: nat)
    requires WellFormed(out) && a in Outstanding(out)
    ensures a < |Infos(out)|
  {
    if out != [] {
      var before := out[..|out| - 1];
      if a in Outstanding(before) {
        OutstandingDefined(before, a);
      }
    }
  }
}
