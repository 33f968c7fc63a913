/** What a patch file says, as a relation between its lines, the image and the bytes written: the program
    of src/patcher.c does exactly that, or fails exactly when the lines say nothing. */
module PatchMeaning {
  import opened Basics
  import opened Leb128
  import opened EhFrame
  import opened ByteMemory
  import opened Patches
  import Hooks

  // ----- patterns -----

  /** The word at a, written as eight hexadecimal digits, agrees with the pattern: the first two digits are
      those of the byte at a + 3, the last two those of the byte at a. */
  predicate Shows(mem: Memory, a: nat, p: Pattern) {
    forall j :: 0 <= j < |p| && j < 8 && p[j].Some? ==>
      (if j % 2 == 0 then mem(a + 3 - j / 2) / 0x10 else mem(a + 3 - j / 2) % 0x10) == p[j].value
  }

  predicate ShowsAll(mem: Memory, a: nat, ps: seq<Pattern>) {
    forall k :: 0 <= k < |ps| ==> Shows(mem, a + 4 * k, ps[k])
  }

  lemma WordBytes(mem: Memory, a: nat)
    ensures WordAt(mem, a) == mem(a) + 0x100 * mem(a + 1) + 0x1_0000 * mem(a + 2) + 0x100_0000 * mem(a + 3)
  {
    var s := Read(mem, a, 4);
    assert s[1..][1..] == s[2..] && s[2..][1..] == s[3..] && s[3..][1..] == [];
    assert FromLe(s[3..]) == mem(a + 3) && FromLe(s[2..]) == mem(a + 2) + 0x100 * mem(a + 3);
    assert FromLe(s[1..]) == mem(a + 1) + 0x100 * FromLe(s[2..]);
  }

  lemma HexDigits(b0: Byte, b1: Byte, b2: Byte, b3: Byte, i: nat)
    requires i < 8
    ensures var w := b0 + 0x100 * b1 + 0x1_0000 * b2 + 0x100_0000 * b3;
      var b := if i / 2 == 0 then b0 else if i / 2 == 1 then b1 else if i / 2 == 2 then b2 else b3;
      Nibble(w, i) == if i % 2 == 1 then b / 0x10 else b % 0x10
  {
    var w := b0 + 0x100 * b1 + 0x1_0000 * b2 + 0x100_0000 * b3;
    var w1, w2 := b1 + 0x100 * b2 + 0x1_0000 * b3, b2 + 0x100 * b3;
    TwoDigits(w, b0, w1);
    TwoDigits(w1, b1, w2);
    TwoDigits(w2, b2, b3);
    TwoDigits(b3, b3, 0);
    if i >= 2 {
      NibbleUp(w, i);
    }
    if i >= 4 {
      NibbleUp(w1, i - 2);
    }
    if i >= 6 {
      NibbleUp(w2, i - 4);
    }
    hide Nibble;
  }

  lemma TwoDigits(w: nat, b: Byte, rest: nat)
    requires w == b + 0x100 * rest
    ensures Nibble(w, 0) == b % 0x10 && Nibble(w, 1) == b / 0x10 && w / 0x100 == rest
  {
    assert w == 0x10 * (b / 0x10 + 0x10 * rest) + b % 0x10;
    assert w / 0x10 == b / 0x10 + 0x10 * rest;
    assert Nibble(w, 1) == Nibble(w / 0x10, 0);
  }

  lemma NibbleUp(w: nat, i: nat)
    requires i >= 2
    ensures Nibble(w, i) == Nibble(w / 0x100, i - 2)
  {
    assert w / 0x10 / 0x10 == w / 0x100;
    assert Nibble(w, i) == Nibble(w / 0x10, i - 1) == Nibble(w / 0x10 / 0x10, i - 2);
  }

  lemma FitsShows(mem: Memory, a: nat, p: Pattern)
    ensures Fits(WordAt(mem, a), p) <==> Shows(mem, a, p)
  {
    hide Nibble, WordAt;
    WordBytes(mem, a);
    forall j | 0 <= j < 8
      ensures Nibble(WordAt(mem, a), 7 - j) == if j % 2 == 0 then mem(a + 3 - j / 2) / 0x10 else mem(a + 3 - j / 2) % 0x10
    {
      HexDigits(mem(a), mem(a + 1), mem(a + 2), mem(a + 3), 7 - j);
    }
  }

  lemma MatchShows(mem: Memory, a: nat, ps: seq<Pattern>)
    ensures MatchAt(mem, a, ps) <==> ShowsAll(mem, a, ps)
  {
    hide Fits, Shows, WordAt;
    forall k | 0 <= k < |ps| ensures Fits(WordAt(mem, a + 4 * k), ps[k]) <==> Shows(mem, a + 4 * k, ps[k]) {
      FitsShows(mem, a + 4 * k, ps[k]);
    }
  }

  // ----- what a location names -----

  /** A place in the range where the patterns show. */
  predicate Site(mem: Memory, x: nat, start: nat, end: nat, ps: seq<Pattern>) {
    ps != [] && start <= x && (x - start) % 4 == 0 && x + 4 * |ps| <= end && ShowsAll(mem, x, ps)
  }

  /** a is the only one. */
  ghost predicate OnlySite(mem: Memory, a: nat, start: nat, end: nat, ps: seq<Pattern>) {
    Site(mem, a, start, end, ps) && forall x: nat :: Site(mem, x, start, end, ps) ==> x == a
  }

  /** The label is a after the first n lines: the last let of the name among them says so. */
  ghost predicate LabelIs(mem: Memory, image: Image, lines: seq<Line>, n: nat, name: string, a: nat)
    requires n <= |lines|
    decreases n, 0
  {
    n > 0 &&
    if lines[n - 1].Let? && lines[n - 1].name == name then Named(mem, image, lines, n - 1, lines[n - 1].loc, a)
    else LabelIs(mem, image, lines, n - 1, name, a)
  }

  /** The location is a, with the labels of the first n lines. */
  ghost predicate Named(mem: Memory, image: Image, lines: seq<Line>, n: nat, loc: Loc, a: nat)
    requires n <= |lines|
    decreases n, 1
  {
    match loc
    case Abs(address) => a == (address + image.slide) % 0x1_0000_0000_0000_0000
    case Label(name, offset) =>
      exists b: nat :: LabelIs(mem, image, lines, n, name, b) && a == (b + offset) % 0x1_0000_0000_0000_0000
    case Sym(symbol, delta) =>
      && image.present && image.lookup(symbol) != 0
      && a == (image.lookup(symbol) + delta) % 0x1_0000_0000_0000_0000
    case Find(symbol, ps, within) =>
      && image.present && image.lookup(symbol) != 0 && image.extent(symbol).Some?
      && var (start, end) := image.extent(symbol).value;
         OnlySite(mem, a, start, if within == 0 || end <= start + within then end else start + within, ps)
  }

  predicate Rises(hits: seq<nat>) {
    forall j, k :: 0 <= j < k < |hits| ==> hits[j] < hits[k]
  }

  lemma {:induction false} UniqueIs(hits: seq<nat>, a: nat)
    requires Rises(hits)
    ensures Unique(hits) == Some(a) <==> a in hits && forall x :: x in hits ==> x == a
  {
    if |hits| == 1 {
      assert hits[0] in hits;
    } else if |hits| > 1 {
      assert hits[0] in hits && hits[1] in hits && hits[0] != hits[1];
    }
  }

  lemma {:induction false} HitsRise(mem: Memory, a: nat, end: nat, ps: seq<Pattern>)
    ensures forall k :: 0 <= k < |Hits(mem, a, end, ps)| ==> a <= Hits(mem, a, end, ps)[k]
    ensures Rises(Hits(mem, a, end, ps))
    decreases end - a
  {
    hide MatchAt, Hits;
    if ps != [] && a + 4 * |ps| <= end {
      HitsRise(mem, a + 4, end, ps);
      HitsStep(mem, a, end, ps);
    } else {
      HitsNone(mem, a, end, ps);
    }
  }

  lemma FoundIs(mem: Memory, start: nat, end: nat, ps: seq<Pattern>, a: nat)
    ensures Unique(Hits(mem, start, end, ps)) == Some(a) <==> OnlySite(mem, a, start, end, ps)
  {
    hide Hits, MatchAt, ShowsAll, Unique;
    var hits := Hits(mem, start, end, ps);
    forall x: nat ensures x in hits <==> Site(mem, x, start, end, ps) {
      HitsExact(mem, start, end, ps, x);
      MatchShows(mem, x, ps);
    }
    HitsRise(mem, start, end, ps);
    UniqueIs(hits, a);
  }

  /** The table of labels is what the lines say. */
  ghost predicate EnvIs(mem: Memory, image: Image, lines: seq<Line>, n: nat, env: Env)
    requires n <= |lines|
  {
    forall name: string, a: nat :: LabelIs(mem, image, lines, n, name, a) <==> name in env && env[name] == a
  }

  lemma {:induction false} ResolveNamed(mem: Memory, image: Image, lines: seq<Line>, n: nat, env: Env, loc: Loc, a: nat)
    requires n <= |lines| && EnvIs(mem, image, lines, n, env)
    ensures Resolve(mem, image, env, loc) == Some(a) <==> Named(mem, image, lines, n, loc, a)
  {
    hide LabelIs, Hits, Unique, OnlySite;
    match loc {
      case Find(symbol, ps, within) =>
        if image.extent(symbol).Some? {
          var (start, end) := image.extent(symbol).value;
          FoundIs(mem, start, Limit(start, end, within), ps, a);
        }
      case Label(name, offset) =>
        if name in env {
          assert LabelIs(mem, image, lines, n, name, env[name]);
        }
      case _ =>
    }
  }

  // ----- labels -----

  /** The labels after one more line. */
  function NextEnv(mem: Memory, image: Image, env: Option<Env>, line: Line): Option<Env> {
    if env.None? || line.At? then env else
      var a := Resolve(mem, image, env.value, line.loc);
      if a.None? then None else Some(env.value[line.name := a.value])
  }

  lemma {:induction false} LetsSnoc(mem: Memory, image: Image, lines: seq<Line>, n: nat, env: Env)
    requires n < |lines|
    ensures Lets(mem, image, lines[..n + 1], env) == NextEnv(mem, image, Lets(mem, image, lines[..n], env), lines[n])
    decreases n
  {
    hide Resolve;
    if n == 0 {
      assert lines[..1][1..] == [];
    } else {
      assert lines[..n + 1][1..] == lines[1..][..n] && lines[..n][1..] == lines[1..][..n - 1];
      assert lines[..n + 1][0] == lines[0] == lines[..n][0];
      var a := if lines[0].At? then None else Resolve(mem, image, env, lines[0].loc);
      if lines[0].At? {
        LetsSnoc(mem, image, lines[1..], n - 1, env);
      } else if a.Some? {
        LetsSnoc(mem, image, lines[1..], n - 1, env[lines[0].name := a.value]);
      }
    }
  }

  /** Every let of the first n lines names a place. */
  ghost predicate LetsName(mem: Memory, image: Image, lines: seq<Line>, n: nat)
    requires n <= |lines|
  {
    forall i: nat :: i < n && lines[i].Let? ==> exists a: nat :: Named(mem, image, lines, i, lines[i].loc, a)
  }

  lemma {:induction false} LabelStep(mem: Memory, image: Image, lines: seq<Line>, n: nat, env: Env, a: nat)
    requires n < |lines| && lines[n].Let? && EnvIs(mem, image, lines, n, env)
    requires Resolve(mem, image, env, lines[n].loc) == Some(a)
    ensures EnvIs(mem, image, lines, n + 1, env[lines[n].name := a])
  {
    hide Resolve, Named;
    var m := n + 1;
    forall name: string, b: nat
      ensures LabelIs(mem, image, lines, m, name, b) <==> name in env[lines[n].name := a] && env[lines[n].name := a][name] == b
    {
      ResolveNamed(mem, image, lines, n, env, lines[n].loc, b);
    }
  }

  lemma {:induction false} SameLabels(mem: Memory, image: Image, lines: seq<Line>, n: nat, env: Env)
    requires n < |lines| && lines[n].At? && EnvIs(mem, image, lines, n, env)
    ensures EnvIs(mem, image, lines, n + 1, env)
  {
    hide Named;
    var m := n + 1;
    forall name: string, a: nat ensures LabelIs(mem, image, lines, m, name, a) <==> name in env && env[name] == a {
      assert LabelIs(mem, image, lines, m, name, a) <==> LabelIs(mem, image, lines, n, name, a);
    }
  }

  /** The labels of the first n lines are known exactly when each let names a place, and then are what the
      lines say. */
  lemma {:induction false} LetsMean(mem: Memory, image: Image, lines: seq<Line>, n: nat)
    requires n <= |lines|
    ensures var env := Lets(mem, image, lines[..n], map[]);
      (env.Some? <==> LetsName(mem, image, lines, n)) && (env.Some? ==> EnvIs(mem, image, lines, n, env.value))
    decreases n
  {
    hide Resolve, EnvIs, Named;
    if n == 0 {
      NoLabels(mem, image, lines);
    } else {
      LetsMean(mem, image, lines, n - 1);
      LetsSnoc(mem, image, lines, n - 1, map[]);
      var env := Lets(mem, image, lines[..n - 1], map[]);
      hide Lets;
      if env.Some? {
        var line := lines[n - 1];
        if line.At? {
          SameLabels(mem, image, lines, n - 1, env.value);
          assert LetsName(mem, image, lines, n);
        } else {
          LetStep(mem, image, lines, n - 1, env.value);
        }
      }
    }
  }

  lemma {:induction false} LetStep(mem: Memory, image: Image, lines: seq<Line>, n: nat, env: Env)
    requires n < |lines| && lines[n].Let? && EnvIs(mem, image, lines, n, env) && LetsName(mem, image, lines, n)
    ensures var next := NextEnv(mem, image, Some(env), lines[n]);
      (next.Some? <==> LetsName(mem, image, lines, n + 1)) && (next.Some? ==> EnvIs(mem, image, lines, n + 1, next.value))
  {
    hide Resolve, EnvIs, Named;
    var a := Resolve(mem, image, env, lines[n].loc);
    if a.Some? {
      ResolveNamed(mem, image, lines, n, env, lines[n].loc, a.value);
      LabelStep(mem, image, lines, n, env, a.value);
    } else {
      forall b: nat ensures !Named(mem, image, lines, n, lines[n].loc, b) {
        ResolveNamed(mem, image, lines, n, env, lines[n].loc, b);
      }
    }
  }

  lemma {:induction false} NoLabels(mem: Memory, image: Image, lines: seq<Line>)
    ensures Lets(mem, image, lines[..0], map[]) == Some(map[]) && EnvIs(mem, image, lines, 0, map[])
  {
  }

  // ----- what a line writes -----

  /** The branch instruction over a distance. */
  function BranchOver(d: int, link: bool): nat {
    (if link then 0x9400_0000 else 0x1400_0000) + d / 4 % 0x400_0000
  }

  /** The instruction's word at a: as given, or a branch whose distance fits 26 bits of words. */
  ghost predicate Word(mem: Memory, image: Image, lines: seq<Line>, insn: Insn, a: nat, w: nat) {
    match insn
    case Raw(word) => w == word
    case Branch(target, link) =>
      exists t: nat, d: int :: Named(mem, image, lines, |lines|, target, t) && Over(a, t, d) && w == BranchOver(d, link)
  }

  /** d leads from a to t, modulo 2^64. */
  predicate Over(a: nat, t: nat, d: int) {
    -0x800_0000 <= d < 0x800_0000 && d % 4 == 0 && (a + d - t) % 0x1_0000_0000_0000_0000 == 0
  }

  /** The line writes its word's four bytes, the lowest first, at the place its location names, and what it
      expects there was there before. */
  ghost predicate Writes(mem: Memory, image: Image, lines: seq<Line>, line: Line, w: Write)
    requires line.At?
  {
    && Named(mem, image, lines, |lines|, line.loc, w.at)
    && (line.wanted.Some? ==>
          mem(w.at) + 0x100 * mem(w.at + 1) + 0x1_0000 * mem(w.at + 2) + 0x100_0000 * mem(w.at + 3) == line.wanted.value)
    && exists v: nat :: Word(mem, image, lines, line.insn, w.at, v) && w.bytes == Le(v, 4)
  }

  lemma Distance(a: nat, t: nat, d: int)
    requires Over(a, t, d)
    ensures Signed64(t - a) == d
  {
    var q := (a + d - t) / TWO64;
    assert t - a == d + TWO64 * -q;
    ModShift(d, -q);
    if d < 0 {
      ModShift(d, 1);
      assert d % TWO64 == d + TWO64;
    }
  }

  lemma ReachOver(a: nat, t: nat)
    requires Hooks.InReach(Signed64(t - a))
    ensures Over(a, t, Signed64(t - a))
  {
    SignedSame(t - a);
    assert a + Signed64(t - a) - t == Signed64(t - a) - (t - a);
  }

  lemma OverReach(a: nat, t: nat, d: int)
    requires Over(a, t, d)
    ensures Hooks.InReach(d)
  {
  }

  lemma BranchWords(d: int, link: bool)
    ensures BranchWord(d, link) == BranchOver(d, link)
  {
  }

  lemma {:induction false} EncodeMeans(mem: Memory, image: Image, lines: seq<Line>, env: Env, insn: Insn, a: nat, w: nat)
    requires EnvIs(mem, image, lines, |lines|, env)
    ensures Encode(mem, image, env, insn, a) == Some(w) <==> Word(mem, image, lines, insn, a, w)
  {
    hide Resolve, Named, EnvIs, Signed64, Hooks.InReach, Over, BranchWord, BranchOver;
    if insn.Branch? {
      var target := insn.target;
      forall t: nat ensures Resolve(mem, image, env, target) == Some(t) <==> Named(mem, image, lines, |lines|, target, t) {
        ResolveNamed(mem, image, lines, |lines|, env, target, t);
      }
      forall d: int ensures BranchWord(d, insn.link) == BranchOver(d, insn.link) {
        BranchWords(d, insn.link);
      }
      forall t: nat, d: int | Over(a, t, d) ensures Signed64(t - a) == d && Hooks.InReach(d) {
        Distance(a, t, d);
        OverReach(a, t, d);
      }
      var t := Resolve(mem, image, env, target);
      if t.Some? && Hooks.InReach(Signed64(t.value - a)) {
        ReachOver(a, t.value);
      }
    }
  }

  lemma {:induction false} PlanOneMeans(mem: Memory, image: Image, lines: seq<Line>, env: Env, line: Line, w: Write)
    requires line.At? && EnvIs(mem, image, lines, |lines|, env)
    ensures PlanOne(mem, image, env, line) == Some(w) <==> Writes(mem, image, lines, line, w)
  {
    hide Resolve, Named, EnvIs, Encode, Word, Le, WordAt;
    ResolveNamed(mem, image, lines, |lines|, env, line.loc, w.at);
    WordBytes(mem, w.at);
    forall v: nat ensures Encode(mem, image, env, line.insn, w.at) == Some(v) <==> Word(mem, image, lines, line.insn, w.at, v) {
      EncodeMeans(mem, image, lines, env, line.insn, w.at, v);
    }
  }

  // ----- the whole file -----

  /** Lines that write among the first n. */
  function Writers(lines: seq<Line>, n: nat): nat
    requires n <= |lines|
  {
    if n == 0 then 0 else Writers(lines, n - 1) + if lines[n - 1].At? then 1 else 0
  }

  /** Every label is defined, and the writes are those of the lines that write, in order. */
  ghost predicate Planned(mem: Memory, image: Image, lines: seq<Line>, ws: seq<Write>) {
    && LetsName(mem, image, lines, |lines|)
    && |ws| == Writers(lines, |lines|)
    && forall i :: 0 <= i < |lines| && lines[i].At? ==>
         Writers(lines, i) < |ws| && Writes(mem, image, lines, lines[i], ws[Writers(lines, i)])
  }

  lemma {:induction false} AtsAdd(a: seq<Line>, b: seq<Line>)
    ensures Ats(a + b) == Ats(a) + Ats(b)
    decreases |a|
  {
    if a == [] {
      assert a + b == b;
    } else {
      assert (a + b)[1..] == a[1..] + b;
      AtsAdd(a[1..], b);
    }
  }

  lemma {:induction false} AtsCount(lines: seq<Line>, n: nat)
    requires n <= |lines|
    ensures |Ats(lines[..n])| == Writers(lines, n) <= |Ats(lines)|
    ensures n < |lines| && lines[n].At? ==> Writers(lines, n) < |Ats(lines)| && Ats(lines)[Writers(lines, n)] == lines[n]
    decreases n
  {
    assert lines == lines[..n] + lines[n..];
    AtsAdd(lines[..n], lines[n..]);
    if n > 0 {
      AtsCount(lines, n - 1);
      assert lines[..n] == lines[..n - 1] + [lines[n - 1]];
      AtsAdd(lines[..n - 1], [lines[n - 1]]);
      AtsOne(lines[n - 1]);
    }
  }

  lemma AtsOne(line: Line)
    ensures Ats([line]) == if line.At? then [line] else []
  {
    assert [line][1..] == [];
  }

  /** Every line that writes has its index among the lines. */
  lemma {:induction false} AtsFrom(lines: seq<Line>, n: nat, k: nat)
    requires n <= |lines| && k < Writers(lines, n)
    ensures exists i :: 0 <= i < n && lines[i].At? && Writers(lines, i) == k
    decreases n
  {
    if k == Writers(lines, n - 1) {
      assert lines[n - 1].At?;
    } else {
      AtsFrom(lines, n - 1, k);
    }
  }

  predicate Each(mem: Memory, image: Image, env: Env, ats: seq<Line>, ws: seq<Write>)
    requires forall k :: 0 <= k < |ats| ==> ats[k].At?
  {
    |ws| == |ats| && forall k :: 0 <= k < |ats| ==> PlanOne(mem, image, env, ats[k]) == Some(ws[k])
  }

  lemma {:induction false} EachFirst(mem: Memory, image: Image, env: Env, ats: seq<Line>, ws: seq<Write>)
    requires (forall k :: 0 <= k < |ats| ==> ats[k].At?) && ats != [] && ws != []
    ensures Each(mem, image, env, ats, ws) <==>
      PlanOne(mem, image, env, ats[0]) == Some(ws[0]) && Each(mem, image, env, ats[1..], ws[1..])
  {
    hide PlanOne;
    if PlanOne(mem, image, env, ats[0]) == Some(ws[0]) && Each(mem, image, env, ats[1..], ws[1..]) {
      forall k | 0 <= k < |ats| ensures PlanOne(mem, image, env, ats[k]) == Some(ws[k]) {
        if k > 0 {
          assert ats[1..][k - 1] == ats[k] && ws[1..][k - 1] == ws[k];
        }
      }
    }
  }

  lemma {:induction false} PlanAllIs(mem: Memory, image: Image, env: Env, ats: seq<Line>, ws: seq<Write>)
    requires forall k :: 0 <= k < |ats| ==> ats[k].At?
    ensures PlanAll(mem, image, env, ats) == Some(ws) <==> Each(mem, image, env, ats, ws)
    decreases |ats|
  {
    hide PlanOne;
    if ats != [] && ws != [] {
      hide Each;
      PlanAllIs(mem, image, env, ats[1..], ws[1..]);
      EachFirst(mem, image, env, ats, ws);
      assert ws == [ws[0]] + ws[1..];
    }
  }

  /** Some line that writes has k such lines before it. */
  ghost predicate Numbered(lines: seq<Line>, k: nat) {
    exists i :: 0 <= i < |lines| && lines[i].At? && Writers(lines, i) == k
  }

  lemma {:induction false} PlannedWrites(mem: Memory, image: Image, lines: seq<Line>, env: Env, ws: seq<Write>)
    requires EnvIs(mem, image, lines, |lines|, env) && LetsName(mem, image, lines, |lines|)
    ensures PlanAll(mem, image, env, Ats(lines)) == Some(ws) <==> Planned(mem, image, lines, ws)
  {
    hide PlanOne, Writes, LetsName, EnvIs, Ats, PlanAll;
    var ats := Ats(lines);
    PlanAllIs(mem, image, env, ats, ws);
    AtsCount(lines, |lines|);
    assert lines[..|lines|] == lines;
    forall i | 0 <= i < |lines| && lines[i].At?
      ensures Writers(lines, i) < |ats| && ats[Writers(lines, i)] == lines[i]
    {
      AtsCount(lines, i);
    }
    forall k | 0 <= k < |ats| && k < |ws|
      ensures Numbered(lines, k)
      ensures PlanOne(mem, image, env, ats[k]) == Some(ws[k]) <==> Writes(mem, image, lines, ats[k], ws[k])
    {
      AtsFrom(lines, |lines|, k);
      PlanOneMeans(mem, image, lines, env, ats[k], ws[k]);
    }
  }

  /** The program's plan is exactly what the file says; it has none exactly when the file says nothing
      consistent: a label or place that is not there, a branch too far, an expectation not met. */
  lemma {:induction false} PlanExactly(mem: Memory, image: Image, lines: seq<Line>, ws: seq<Write>)
    ensures Plan(mem, image, lines) == Some(ws) <==> Planned(mem, image, lines, ws)
  {
    hide Lets, PlanAll, LetsName, EnvIs, Ats, Writes, Writers;
    LetsMean(mem, image, lines, |lines|);
    assert lines[..|lines|] == lines;
    var env := Lets(mem, image, lines, map[]);
    if env.Some? {
      PlannedWrites(mem, image, lines, env.value, ws);
    }
  }
}
