/** Patch files (patcher_apply of src/patcher.c) after parsing: labels are resolved in file order, then
    every address, then every instruction and expectation, and only then is memory written. */
module Patches {
  import opened Basics
  import opened Leb128
  import opened EhFrame
  import opened ByteMemory
  import Hooks

  /** Eight nibbles, most significant first; None is a wildcard. */
  type Pattern = seq<Option<nat>>

  datatype Loc =
    | Abs(address: nat)
    | Label(name: string, offset: nat)
    | Sym(symbol: string, delta: int)
    | Find(symbol: string, patterns: seq<Pattern>, within: nat)

  datatype Insn = Raw(word: nat) | Branch(target: Loc, link: bool)

  datatype Line =
    | Let(name: string, loc: Loc)
    | At(loc: Loc, insn: Insn, wanted: Option<nat>)

  type Env = map<string, nat>

  /** What the loaded image answers. */
  datatype Image = Image(present: bool, slide: nat, lookup: string -> nat, extent: string -> Option<(nat, nat)>)

  function WordAt(mem: Memory, a: nat): nat {
    FromLe(Read(mem, a, 4))
  }

  // ----- searching -----

  function Nibble(w: nat, k: nat): nat {
    if k == 0 then w % 0x10 else Nibble(w / 0x10, k - 1)
  }

  predicate Fits(w: nat, p: Pattern) {
    forall k :: 0 <= k < |p| && k < 8 && p[k].Some? ==> Nibble(w, 7 - k) == p[k].value
  }

  predicate MatchAt(mem: Memory, a: nat, ps: seq<Pattern>) {
    forall k :: 0 <= k < |ps| ==> Fits(WordAt(mem, a + 4 * k), ps[k])
  }

  /** All matches from a on, four bytes apart, that end in the range. */
  function Hits(mem: Memory, a: nat, end: nat, ps: seq<Pattern>): seq<nat>
    decreases end - a
  {
    if ps == [] || a + 4 * |ps| > end then [] else
      (if MatchAt(mem, a, ps) then [a] else []) + Hits(mem, a + 4, end, ps)
  }

  lemma {:induction false} HitsExact(mem: Memory, a: nat, end: nat, ps: seq<Pattern>, x: nat)
    ensures x in Hits(mem, a, end, ps) <==>
      ps != [] && x >= a && (x - a) % 4 == 0 && x + 4 * |ps| <= end && MatchAt(mem, x, ps)
    decreases end - a
  {
    hide MatchAt;
    if ps != [] && a + 4 * |ps| <= end {
      HitsExact(mem, a + 4, end, ps, x);
      assert (x - a) % 4 == (x - (a + 4)) % 4;
    }
  }

  function Unique(hits: seq<nat>): Option<nat> {
    if |hits| == 1 then Some(hits[0]) else None
  }

  method FindUnique(mem: Memory, start: nat, end: nat, ps: seq<Pattern>) returns (r: Option<nat>)
    ensures r == Unique(Hits(mem, start, end, ps))
  {
    hide MatchAt, Hits;
    if ps == [] || end < start || end - start < 4 * |ps| {
      HitsNone(mem, start, end, ps);
      return None;
    }
    var found: Option<nat>, a: nat := None, start;
    assert Joined(None, Hits(mem, start, end, ps)) == Hits(mem, start, end, ps);
    while a + 4 * |ps| <= end
      invariant Joined(found, Hits(mem, a, end, ps)) == Hits(mem, start, end, ps)
      decreases end - a
    {
      HitsStep(mem, a, end, ps);
      var ok := Compare(mem, a, ps);
      if ok {
        if found.Some? {
          return None;
        }
        found := Some(a);
      }
      a := a + 4;
    }
    HitsNone(mem, a, end, ps);
    r := found;
  }

  function Joined(found: Option<nat>, hits: seq<nat>): seq<nat> {
    (if found.Some? then [found.value] else []) + hits
  }

  lemma HitsNone(mem: Memory, a: nat, end: nat, ps: seq<Pattern>)
    requires ps == [] || a + 4 * |ps| > end
    ensures Hits(mem, a, end, ps) == []
  {
  }

  lemma HitsStep(mem: Memory, a: nat, end: nat, ps: seq<Pattern>)
    requires ps != [] && a + 4 * |ps| <= end
    ensures Hits(mem, a, end, ps) == if MatchAt(mem, a, ps) then [a] + Hits(mem, a + 4, end, ps) else Hits(mem, a + 4, end, ps)
  {
    hide MatchAt;
  }

  method Compare(mem: Memory, a: nat, ps: seq<Pattern>) returns (ok: bool)
    ensures ok == MatchAt(mem, a, ps)
  {
    for k := 0 to |ps|
      invariant forall j :: 0 <= j < k ==> Fits(WordAt(mem, a + 4 * j), ps[j])
    {
      if !Fits(WordAt(mem, a + 4 * k), ps[k]) {
        return false;
      }
    }
    ok := true;
  }

  // ----- locations -----

  /** Where a location is, under the labels known; None is an error. */
  function Resolve(mem: Memory, image: Image, env: Env, loc: Loc): Option<nat> {
    match loc
    case Abs(address) => Some((address + image.slide) % TWO64)
    case Label(name, offset) => if name in env then Some((env[name] + offset) % TWO64) else None
    case Sym(symbol, delta) =>
      if !image.present || image.lookup(symbol) == 0 then None else Some((image.lookup(symbol) + delta) % TWO64)
    case Find(symbol, ps, within) =>
      if !image.present || image.lookup(symbol) == 0 || image.extent(symbol).None? then None else
        var (start, end) := image.extent(symbol).value;
        Unique(Hits(mem, start, Limit(start, end, within), ps))
  }

  function Limit(start: nat, end: nat, within: nat): nat {
    if within != 0 && start + within < end then start + within else end
  }

  /** A found location is the one place in its range that matches. */
  lemma FoundOnly(mem: Memory, image: Image, env: Env, loc: Loc, a: nat)
    requires loc.Find? && Resolve(mem, image, env, loc) == Some(a)
    ensures
      var (start, end) := image.extent(loc.symbol).value;
      var limit := Limit(start, end, loc.within);
      forall x: nat :: (start <= x && (x - start) % 4 == 0 && x + 4 * |loc.patterns| <= limit && MatchAt(mem, x, loc.patterns)) <==> x == a
  {
    hide Hits, MatchAt;
    var (start, end) := image.extent(loc.symbol).value;
    var hits := Hits(mem, start, Limit(start, end, loc.within), loc.patterns);
    assert hits == [a];
    HitsExact(mem, start, Limit(start, end, loc.within), loc.patterns, a);
    forall x: nat
      ensures (start <= x && (x - start) % 4 == 0 && x + 4 * |loc.patterns| <= Limit(start, end, loc.within) && MatchAt(mem, x, loc.patterns)) <==> x == a
    {
      HitsExact(mem, start, Limit(start, end, loc.within), loc.patterns, x);
    }
  }

  // ----- labels -----

  datatype Slot = Slot(name: string, address: nat, resolved: bool)

  /** The first slot of that name decides. */
  function Lookup(labels: seq<Slot>, name: string): Option<nat> {
    if labels == [] then None
    else if labels[0].name == name then (if labels[0].resolved then Some(labels[0].address) else None)
    else Lookup(labels[1..], name)
  }

  function Assign(labels: seq<Slot>, name: string, a: nat): (r: seq<Slot>)
    ensures |r| == |labels| && forall k :: 0 <= k < |r| ==> r[k].name == labels[k].name
  {
    if labels == [] then []
    else if labels[0].name == name then [Slot(name, a, true)] + labels[1..]
    else [labels[0]] + Assign(labels[1..], name, a)
  }

  lemma {:induction false} AssignFirst(labels: seq<Slot>, name: string, a: nat, j: nat)
    requires j < |labels| && labels[j].name == name && forall i :: 0 <= i < j ==> labels[i].name != name
    ensures Assign(labels, name, a) == labels[j := Slot(name, a, true)]
    decreases j
  {
    if j > 0 {
      AssignFirst(labels[1..], name, a, j - 1);
    }
  }

  lemma {:induction false} AssignNone(labels: seq<Slot>, name: string, a: nat)
    requires forall i :: 0 <= i < |labels| ==> labels[i].name != name
    ensures Assign(labels, name, a) == labels
    decreases |labels|
  {
    if labels != [] {
      AssignNone(labels[1..], name, a);
    }
  }

  predicate Registered(labels: seq<Slot>, name: string) {
    exists k :: 0 <= k < |labels| && labels[k].name == name
  }

  lemma {:induction false} AssignLooks(labels: seq<Slot>, name: string, a: nat, other: string)
    requires Registered(labels, name)
    ensures Lookup(Assign(labels, name, a), other) == if other == name then Some(a) else Lookup(labels, other)
    decreases |labels|
  {
    if labels[0].name != name {
      var k :| 0 <= k < |labels| && labels[k].name == name;
      assert labels[1..][k - 1].name == name;
      AssignLooks(labels[1..], name, a, other);
      var r := Assign(labels, name, a);
      assert r[1..] == Assign(labels[1..], name, a);
    } else {
      assert Assign(labels, name, a)[1..] == labels[1..];
    }
  }

  /** The table stands for the labels assigned so far. */
  ghost predicate Stands(labels: seq<Slot>, env: Env) {
    forall name :: Lookup(labels, name) == if name in env then Some(env[name]) else None
  }

  // ----- the plan -----

  /** Labels after all let lines, in file order; a later line replaces an earlier one. */
  function Lets(mem: Memory, image: Image, lines: seq<Line>, env: Env): Option<Env>
    decreases |lines|
  {
    if lines == [] then Some(env)
    else if lines[0].At? then Lets(mem, image, lines[1..], env)
    else
      var a := Resolve(mem, image, env, lines[0].loc);
      if a.None? then None else Lets(mem, image, lines[1..], env[lines[0].name := a.value])
  }

  function BranchWord(offset: int, link: bool): nat {
    Hooks.BranchWord(offset) + if link then 0x8000_0000 else 0
  }

  /** The word for an instruction at a. */
  function Encode(mem: Memory, image: Image, env: Env, insn: Insn, a: nat): Option<nat> {
    match insn
    case Raw(word) => Some(word)
    case Branch(target, link) =>
      var t := Resolve(mem, image, env, target);
      if t.None? || !Hooks.InReach(Signed64(t.value - a)) then None else Some(BranchWord(Signed64(t.value - a), link))
  }

  predicate Expected(mem: Memory, a: nat, wanted: Option<nat>) {
    wanted.Some? ==> WordAt(mem, a) == wanted.value
  }

  /** What one line writes, judged by the memory before any write. */
  function PlanOne(mem: Memory, image: Image, env: Env, line: Line): Option<Write>
    requires line.At?
  {
    var a := Resolve(mem, image, env, line.loc);
    if a.None? then None else
      var w := Encode(mem, image, env, line.insn, a.value);
      if w.None? || !Expected(mem, a.value, line.wanted) then None else Some(Write(a.value, Le(w.value, 4)))
  }

  function Ats(lines: seq<Line>): (r: seq<Line>)
    ensures forall k :: 0 <= k < |r| ==> r[k].At?
  {
    if lines == [] then [] else (if lines[0].At? then [lines[0]] else []) + Ats(lines[1..])
  }

  function PlanAll(mem: Memory, image: Image, env: Env, ats: seq<Line>): Option<seq<Write>>
    requires forall k :: 0 <= k < |ats| ==> ats[k].At?
  {
    if ats == [] then Some([]) else
      var w, rest := PlanOne(mem, image, env, ats[0]), PlanAll(mem, image, env, ats[1..]);
      if w.None? || rest.None? then None else Some([w.value] + rest.value)
  }

  function Plan(mem: Memory, image: Image, lines: seq<Line>): Option<seq<Write>> {
    var env := Lets(mem, image, lines, map[]);
    if env.None? then None else PlanAll(mem, image, env.value, Ats(lines))
  }

  // ----- what a plan means -----

  lemma {:induction false} PlanLines(mem: Memory, image: Image, env: Env, ats: seq<Line>, k: nat)
    requires (forall j :: 0 <= j < |ats| ==> ats[j].At?) && PlanAll(mem, image, env, ats).Some? && k < |ats|
    ensures |PlanAll(mem, image, env, ats).value| == |ats|
    ensures PlanOne(mem, image, env, ats[k]) == Some(PlanAll(mem, image, env, ats).value[k])
    decreases |ats|
  {
    hide PlanOne;
    if k > 0 {
      PlanLines(mem, image, env, ats[1..], k - 1);
    } else if |ats| > 1 {
      PlanLines(mem, image, env, ats[1..], 0);
    }
  }

  /** A branch word of this kind, and where it leads. */
  predicate LeadsTo(w: nat, a: nat, target: nat, link: bool) {
    var bare := if link then w - 0x8000_0000 else w;
    bare >= 0 && Hooks.IsBranch(bare) && (Hooks.BranchTarget(bare, a) - target) % TWO64 == 0
  }

  /** In an applied file every line k writes at its resolved address, a raw line its word and a branch
      line a word that leads to its resolved target, and every expectation was true beforehand. */
  lemma PlanMeaning(mem: Memory, image: Image, lines: seq<Line>, k: nat)
    requires Plan(mem, image, lines).Some? && k < |Ats(lines)|
    ensures var ws := Plan(mem, image, lines).value;
      var env := Lets(mem, image, lines, map[]).value;
      var line := Ats(lines)[k];
      && |ws| == |Ats(lines)|
      && Resolve(mem, image, env, line.loc) == Some(ws[k].at)
      && Expected(mem, ws[k].at, line.wanted)
      && match line.insn
         case Raw(word) => ws[k].bytes == Le(word, 4)
         case Branch(target, link) =>
           && Resolve(mem, image, env, target).Some?
           && LeadsTo(FromLe(ws[k].bytes), ws[k].at, Resolve(mem, image, env, target).value, link)
  {
    hide Resolve, Hooks.InReach, LeadsTo, Le, FromLe, Expected, BranchWord;
    var env, line := Lets(mem, image, lines, map[]).value, Ats(lines)[k];
    PlanLines(mem, image, env, Ats(lines), k);
    var a := Resolve(mem, image, env, line.loc).value;
    if line.insn.Branch? {
      BranchLeads(Resolve(mem, image, env, line.insn.target).value, a, line.insn.link);
    }
  }

  lemma BranchLeads(t: nat, a: nat, link: bool)
    requires Hooks.InReach(Signed64(t - a))
    ensures LeadsTo(FromLe(Le(BranchWord(Signed64(t - a), link), 4)), a, t, link)
  {
    hide Le, FromLe, Hooks.InReach, Hooks.BranchWord, Hooks.BranchTarget;
    var d := Signed64(t - a);
    Hooks.BranchReaches(d, a);
    BranchSmall(d);
    LeWords(BranchWord(d, link));
    SignedSame(t - a);
    assert a + d - t == d - (t - a);
  }

  lemma BranchSmall(d: int)
    requires Hooks.BranchWord(d) < 0x1_0000_0000 && Hooks.IsBranch(Hooks.BranchWord(d))
    ensures Hooks.BranchWord(d) + 0x8000_0000 < 0x1_0000_0000
  {
  }

  lemma SignedSame(v: int)
    ensures (Signed64(v) - v) % TWO64 == 0
  {
    var q := v / TWO64;
    assert v % TWO64 - v == TWO64 * -q;
    ModShift(0, -q);
    ModShift(0, -q - 1);
  }

  // ----- the program -----

  class Patcher {
    const image: Image
    var mem: Memory
    var labels: seq<Slot>

    constructor (image: Image, mem: Memory)
      ensures this.image == image && this.mem == mem && labels == []
    {
      this.image, this.mem, labels := image, mem, [];
    }

    method FindLabel(name: string) returns (r: Option<nat>)
      ensures r == Lookup(labels, name)
    {
      for i := 0 to |labels|
        invariant Lookup(labels, name) == Lookup(labels[i..], name)
      {
        if labels[i].name == name {
          return if labels[i].resolved then Some(labels[i].address) else None;
        }
      }
      r := None;
    }

    method SetLabel(name: string, a: nat)
      modifies this`labels
      ensures labels == Assign(old(labels), name, a)
    {
      for j := 0 to |labels|
        invariant labels == old(labels) && forall i :: 0 <= i < j ==> labels[i].name != name
      {
        if labels[j].name == name {
          AssignFirst(labels, name, a, j);
          labels := labels[j := Slot(name, a, true)];
          return;
        }
      }
      AssignNone(labels, name, a);
    }

    method ResolveLoc(loc: Loc, ghost env: Env) returns (r: Option<nat>)
      requires Stands(labels, env)
      ensures r == Resolve(mem, image, env, loc)
    {
      hide Hits, Lookup;
      match loc {
        case Abs(address) =>
          r := Some((address + image.slide) % TWO64);
        case Label(name, offset) =>
          r := FindLabel(name);
          if r.Some? {
            r := Some((r.value + offset) % TWO64);
          }
        case Sym(symbol, delta) =>
          if !image.present || image.lookup(symbol) == 0 {
            return None;
          }
          r := Some((image.lookup(symbol) + delta) % TWO64);
        case Find(symbol, ps, within) =>
          if !image.present || image.lookup(symbol) == 0 {
            return None;
          }
          var extent := image.extent(symbol);
          if extent.None? {
            return None;
          }
          var start, end := extent.value.0, extent.value.1;
          if within != 0 && start + within < end {
            end := start + within;
          }
          r := FindUnique(mem, start, end, ps);
      }
    }

    /** First every name is entered unresolved. */
    method Register(lines: seq<Line>)
      requires labels == []
      modifies this`labels
      ensures Stands(labels, map[])
      ensures forall k :: 0 <= k < |lines| && lines[k].Let? ==> Registered(labels, lines[k].name)
    {
      for i := 0 to |lines|
        invariant forall k :: 0 <= k < |labels| ==> !labels[k].resolved
        invariant forall k :: 0 <= k < i && lines[k].Let? ==> Registered(labels, lines[k].name)
      {
        if lines[i].Let? {
          ghost var was := labels;
          labels := labels + [Slot(lines[i].name, 0, false)];
          forall k | 0 <= k < i + 1 && lines[k].Let? ensures Registered(labels, lines[k].name) {
            if k < i {
              var j :| 0 <= j < |was| && was[j].name == lines[k].name;
              assert labels[j].name == lines[k].name;
            } else {
              assert labels[|was|].name == lines[k].name;
            }
          }
        }
      }
      Unresolved(labels);
    }

    method ResolveLets(lines: seq<Line>, ghost start: Env) returns (ok: bool, ghost env: Env)
      requires Stands(labels, start)
      requires forall k :: 0 <= k < |lines| && lines[k].Let? ==> Registered(labels, lines[k].name)
      modifies this`labels
      ensures ok == Lets(mem, image, lines, start).Some?
      ensures ok ==> Lets(mem, image, lines, start) == Some(env) && Stands(labels, env)
    {
      hide Resolve, Stands, Registered;
      env := start;
      assert lines[0..] == lines;
      for i := 0 to |lines|
        invariant Stands(labels, env) && Lets(mem, image, lines, start) == Lets(mem, image, lines[i..], env)
        invariant forall k :: 0 <= k < |lines| && lines[k].Let? ==> Registered(labels, lines[k].name)
      {
        assert lines[i..][1..] == lines[i + 1..];
        if lines[i].Let? {
          var a := ResolveLoc(lines[i].loc, env);
          if a.None? {
            return false, env;
          }
          AssignStands(labels, env, lines[i].name, a.value, lines);
          SetLabel(lines[i].name, a.value);
          env := env[lines[i].name := a.value];
        }
      }
      ok := true;
    }

    /** Pass 2c: the addresses of the lines that write. */
    method ResolveAts(ats: seq<Line>, ghost env: Env) returns (ok: bool, addresses: seq<nat>)
      requires Stands(labels, env) && forall k :: 0 <= k < |ats| ==> ats[k].At?
      ensures ok ==> |addresses| == |ats| && forall k :: 0 <= k < |ats| ==> Resolve(mem, image, env, ats[k].loc) == Some(addresses[k])
      ensures !ok ==> PlanAll(mem, image, env, ats).None?
    {
      hide Resolve, Stands;
      addresses := [];
      for i := 0 to |ats|
        invariant |addresses| == i && forall k :: 0 <= k < i ==> Resolve(mem, image, env, ats[k].loc) == Some(addresses[k])
      {
        var a := ResolveLoc(ats[i].loc, env);
        if a.None? {
          PlanFails(mem, image, env, ats, i);
          return false, [];
        }
        addresses := addresses + [a.value];
      }
      ok := true;
    }

    /** Pass 3: the words, and the expectations. */
    method EncodeAll(ats: seq<Line>, addresses: seq<nat>, ghost env: Env) returns (ok: bool, ws: seq<Write>)
      requires Stands(labels, env) && |addresses| == |ats|
      requires forall k :: 0 <= k < |ats| ==> ats[k].At? && Resolve(mem, image, env, ats[k].loc) == Some(addresses[k])
      ensures ok == PlanAll(mem, image, env, ats).Some?
      ensures ok ==> PlanAll(mem, image, env, ats) == Some(ws)
    {
      hide Resolve, Stands, Hooks.InReach, BranchWord, WordAt;
      ws := [];
      assert ats[0..] == ats;
      PrependNone(PlanAll(mem, image, env, ats));
      for i := 0 to |ats|
        invariant PlanAll(mem, image, env, ats) == Prepend(ws, PlanAll(mem, image, env, ats[i..]))
      {
        assert ats[i..][1..] == ats[i + 1..];
        var a := addresses[i];
        var word;
        if ats[i].insn.Raw? {
          word := ats[i].insn.word;
        } else {
          var t := ResolveLoc(ats[i].insn.target, env);
          if t.None? || !Hooks.InReach(Signed64(t.value - a)) {
            return false, [];
          }
          word := BranchWord(Signed64(t.value - a), ats[i].insn.link);
        }
        if ats[i].wanted.Some? && WordAt(mem, a) != ats[i].wanted.value {
          return false, [];
        }
        PrependMore(ws, Write(a, Le(word, 4)), PlanAll(mem, image, env, ats[i + 1..]));
        ws := ws + [Write(a, Le(word, 4))];
      }
      assert ws + [] == ws;
      ok := true;
    }

    /** Pass 4: page protection is assumed to change as asked. */
    method WriteAll(ws: seq<Write>)
      modifies this`mem
      ensures mem == PutAll(old(mem), ws)
    {
      for i := 0 to |ws|
        invariant PutAll(mem, ws[i..]) == PutAll(old(mem), ws)
      {
        mem := Put(mem, ws[i]);
        assert ws[i..][1..] == ws[i + 1..];
      }
    }

    /** All or nothing: an error leaves memory alone, success does every planned write in file order. */
    method Apply(lines: seq<Line>) returns (r: int)
      requires labels == []
      modifies this
      ensures var plan := Plan(old(mem), image, lines);
        if plan.None? then r == -1 && mem == old(mem)
        else r == |plan.value| && mem == PutAll(old(mem), plan.value)
    {
      hide Lets, PlanAll, PutAll, Ats, Stands, Resolve;
      Register(lines);
      var ok;
      ghost var env;
      ok, env := ResolveLets(lines, map[]);
      if !ok {
        return -1;
      }
      var ats := Writing(lines);
      var addresses;
      ok, addresses := ResolveAts(ats, env);
      if !ok {
        return -1;
      }
      var ws;
      ok, ws := EncodeAll(ats, addresses, env);
      if !ok {
        return -1;
      }
      WriteAll(ws);
      r := |ws|;
    }

    method Writing(lines: seq<Line>) returns (ats: seq<Line>)
      ensures ats == Ats(lines)
    {
      ats := [];
      for i := 0 to |lines|
        invariant ats + Ats(lines[i..]) == Ats(lines)
      {
        assert lines[i..][1..] == lines[i + 1..];
        if lines[i].At? {
          ats := ats + [lines[i]];
        }
      }
    }
  }

  lemma {:induction false} Unresolved(labels: seq<Slot>)
    requires forall k :: 0 <= k < |labels| ==> !labels[k].resolved
    ensures Stands(labels, map[])
    decreases |labels|
  {
    if labels != [] {
      Unresolved(labels[1..]);
    }
  }

  lemma AssignStands(labels: seq<Slot>, env: Env, name: string, a: nat, lines: seq<Line>)
    requires Stands(labels, env) && Registered(labels, name)
    requires forall k :: 0 <= k < |lines| && lines[k].Let? ==> Registered(labels, lines[k].name)
    ensures Stands(Assign(labels, name, a), env[name := a])
    ensures forall k :: 0 <= k < |lines| && lines[k].Let? ==> Registered(Assign(labels, name, a), lines[k].name)
  {
    hide Lookup, Assign;
    forall other ensures Lookup(Assign(labels, name, a), other) == if other in env[name := a] then Some(env[name := a][other]) else None {
      AssignLooks(labels, name, a, other);
    }
    forall k | 0 <= k < |lines| && lines[k].Let? ensures Registered(Assign(labels, name, a), lines[k].name) {
      var j :| 0 <= j < |labels| && labels[j].name == lines[k].name;
      assert Assign(labels, name, a)[j].name == lines[k].name;
    }
  }

  lemma {:induction false} PlanFails(mem: Memory, image: Image, env: Env, ats: seq<Line>, i: nat)
    requires (forall k :: 0 <= k < |ats| ==> ats[k].At?) && i < |ats| && Resolve(mem, image, env, ats[i].loc).None?
    ensures PlanAll(mem, image, env, ats).None?
    decreases i
  {
    hide Resolve;
    if i > 0 {
      PlanFails(mem, image, env, ats[1..], i - 1);
    }
  }

  function Prepend(a: seq<Write>, r: Option<seq<Write>>): Option<seq<Write>> {
    if r.None? then None else Some(a + r.value)
  }

  lemma PrependNone(r: Option<seq<Write>>)
    ensures Prepend([], r) == r
  {
    if r.Some? {
      assert [] + r.value == r.value;
    }
  }

  lemma PrependMore(a: seq<Write>, w: Write, r: Option<seq<Write>>)
    ensures Prepend(a + [w], r) == Prepend(a, Prepend([w], r))
  {
    if r.Some? {
      assert a + [w] + r.value == a + ([w] + r.value);
    }
  }

  // ----- labels hold their last let -----

  /** Labels after the first k lines. */
  function EnvAt(mem: Memory, image: Image, lines: seq<Line>, env: Env, k: nat): Option<Env>
    requires k <= |lines|
  {
    Lets(mem, image, lines[..k], env)
  }

  /** If line k is the last let of its name, the label ends up where that line's location was under the
      labels known there. */
  lemma {:induction false} LastLet(mem: Memory, image: Image, lines: seq<Line>, env: Env, k: nat)
    requires k < |lines| && lines[k].Let? && Lets(mem, image, lines, env).Some?
    requires forall j :: k < j < |lines| && lines[j].Let? ==> lines[j].name != lines[k].name
    ensures var before := EnvAt(mem, image, lines, env, k);
      var final := Lets(mem, image, lines, env).value;
      before.Some? && lines[k].name in final && Some(final[lines[k].name]) == Resolve(mem, image, before.value, lines[k].loc)
    decreases |lines|
  {
    hide Resolve;
    if k == 0 {
      var a := Resolve(mem, image, env, lines[0].loc).value;
      LetsKeep(mem, image, lines[1..], env[lines[0].name := a], lines[0].name);
    } else {
      assert lines[..k][1..] == lines[1..][..k - 1];
      var env1 := if lines[0].At? then env else env[lines[0].name := Resolve(mem, image, env, lines[0].loc).value];
      LastLet(mem, image, lines[1..], env1, k - 1);
    }
  }

  lemma {:induction false} LetsKeep(mem: Memory, image: Image, lines: seq<Line>, env: Env, name: string)
    requires name in env && Lets(mem, image, lines, env).Some?
    requires forall j :: 0 <= j < |lines| && lines[j].Let? ==> lines[j].name != name
    ensures var final := Lets(mem, image, lines, env).value; name in final && final[name] == env[name]
    decreases |lines|
  {
    hide Resolve;
    if lines != [] {
      var env1 := if lines[0].At? then env else env[lines[0].name := Resolve(mem, image, env, lines[0].loc).value];
      LetsKeep(mem, image, lines[1..], env1, name);
    }
  }
}
