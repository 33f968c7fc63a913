/** What the stream of a run says about single events, in terms of the hooks' arguments alone: the block an
    allocation made, the bytes a mapping covers, the names of the addresses met, the time stamps. */
module TraceReads {
  import opened TraceLog
  import opened Regions
  import opened TraceSpec
  import opened TraceEvents
  import opened TraceRuns
  import opened TraceNames
  import opened TraceRefine

  // ----- runs -----

  lemma {:induction false} LegalPrefix(es: seq<Event>, n: nat)
    requires LegalRun(es) && n <= |es|
    ensures LegalRun(es[..n])
    decreases |es|
  {
    if n == |es| {
      assert es[..n] == es;
    } else {
      LegalPrefix(es[..|es| - 1], n);
      assert es[..|es| - 1][..n] == es[..n];
    }
  }

  lemma HappenedLast(es: seq<Event>)
    requires es != []
    ensures Happened(es) == Happen(Happened(es[..|es| - 1]), es[|es| - 1])
  {
    hide Happen;
  }

  // ----- live blocks -----

  /** The event hands out p: a block of this size, called from these frames. */
  predicate Makes(e: Event, p: nat, size: nat, frames: seq<nat>) {
    p != 0 && match e
      case DoAlloc(q, n, fs, _) => q == p && n == size && fs == frames
      case DoRealloc(_, q, n, fs, _) => q == p && n == size && fs == frames
      case _ => false
  }

  /** The event takes p back: a free, or a reallocation that succeeds or has size 0. */
  predicate Takes(e: Event, p: nat) {
    p != 0 && match e
      case DoFree(q) => q == p
      case DoRealloc(q, r, n, _, _) => q == p && r != p && (r != 0 || n == 0)
      case _ => false
  }

  predicate HandsOut(e: Event, p: nat) {
    p != 0 && match e
      case DoAlloc(q, _, _, _) => q == p
      case DoRealloc(_, q, _, _, _) => q == p
      case _ => false
  }

  lemma BlockKept(w: World, e: Event, p: nat)
    requires !Takes(e, p) && !HandsOut(e, p) && p != 0
    ensures p in Happen(w, e).heap <==> p in w.heap
    ensures p in w.heap ==> Happen(w, e).heap[p] == w.heap[p]
  {
    hide NotedAll, With, Without, MapStack, TagsAfter;
  }

  lemma BlockMade(w: World, e: Event, p: nat, size: nat, frames: seq<nat>)
    requires Makes(e, p, size, frames)
    ensures p in Happen(w, e).heap && Happen(w, e).heap[p] == (size, if |frames| > 1 then frames[1..] else frames)
  {
    hide NotedAll, With, Without, MapStack, TagsAfter;
  }

  lemma BlockTaken(w: World, e: Event, p: nat)
    requires Takes(e, p)
    ensures p !in Happen(w, e).heap
  {
    hide NotedAll, With, Without, MapStack, TagsAfter;
  }

  lemma {:induction false} BlockSince(es: seq<Event>, n: nat, p: nat)
    requires n < |es| && p != 0 && forall i :: n < i < |es| ==> !Takes(es[i], p) && !HandsOut(es[i], p)
    ensures p in Happened(es).heap <==> p in Happened(es[..n + 1]).heap
    ensures p in Happened(es).heap ==> Happened(es).heap[p] == Happened(es[..n + 1]).heap[p]
    decreases |es|
  {
    hide Happen;
    if n + 1 == |es| {
      assert es[..n + 1] == es;
    } else {
      var before := es[..|es| - 1];
      assert before[..n + 1] == es[..n + 1];
      assert forall i :: n < i < |before| ==> before[i] == es[i];
      BlockSince(before, n, p);
      BlockKept(Happened(before), es[|es| - 1], p);
    }
  }

  /** A block handed out by event n and not touched since is recorded as live, with the size asked for and
      the caller's frames, that is all but the first, which is the tracer's own unless it is the only one. */
  lemma BlockReads(es: seq<Event>, n: nat, p: nat, size: nat, frames: seq<nat>)
    requires LegalRun(es) && n < |es| && Makes(es[n], p, size, frames)
    requires forall i :: n < i < |es| ==> !Takes(es[i], p) && !HandsOut(es[i], p)
    ensures var v := Run(es);
      && WellFormed(v.out) && p in v.ptrs && v.ptrs[p] < |Infos(v.out)| && v.ptrs[p] in Outstanding(v.out)
      && Meaning(v.out, v.ptrs[p]) == (size, if |frames| > 1 then frames[1..] else frames)
  {
    hide Happen, LegalRun, Run, Infos, Outstanding, Meaning, WellFormed, Interned, NamesOk, MappedOk, TagsMatch;
    RunRefines(es);
    BlockSince(es, n, p);
    assert es[..n + 1][..n] == es[..n];
    HappenedLast(es[..n + 1]);
    BlockMade(Happened(es[..n]), es[n], p, size, frames);
    PtrInfos(Run(es));
    HeldOutstanding(Run(es), p);
  }

  lemma HeldOutstanding(v: View, p: nat)
    requires Inv(v) && p in v.ptrs
    ensures v.ptrs[p] in Outstanding(v.out)
  {
    hide Interned, Bag, Apart, Outstanding;
    assert p in Holders(v.ptrs, v.ptrs[p]);
  }

  /** A block that event n took back and that was not handed out again is not live. */
  lemma BlockGone(es: seq<Event>, n: nat, p: nat)
    requires LegalRun(es) && n < |es| && Takes(es[n], p)
    requires forall i :: n < i < |es| ==> !Takes(es[i], p) && !HandsOut(es[i], p)
    ensures p !in Run(es).ptrs
  {
    hide Happen, LegalRun, Run, Inv, NamesOk, MappedOk, TagsMatch;
    RunRefines(es);
    BlockSince(es, n, p);
    assert es[..n + 1][..n] == es[..n];
    HappenedLast(es[..n + 1]);
    BlockTaken(Happened(es[..n]), es[n], p);
  }

  // ----- mapped bytes -----

  /** The event maps byte x and records it. */
  predicate MapsByte(e: Event, x: nat) {
    e.DoMmap? && e.tracked && e.ptr != 0 && e.ptr != 0xffff_ffff_ffff_ffff && e.ptr <= x < e.ptr + e.len
  }

  /** The event ends any earlier mapping of byte x: an unmapping, or a fixed mapping over it. */
  predicate UnmapsByte(e: Event, x: nat) {
    match e
    case DoMunmap(p, len) => p != 0 && p <= x < p + len
    case DoMmap(p, len, _, fixed, _, _, _) => fixed && p != 0 && p != 0xffff_ffff_ffff_ffff && p <= x < p + len
    case _ => false
  }

  lemma ByteKept(w: World, e: Event, x: nat)
    requires !MapsByte(e, x) && !UnmapsByte(e, x)
    ensures x in Happen(w, e).mapped <==> x in w.mapped
    ensures x in w.mapped ==> Happen(w, e).mapped[x] == w.mapped[x]
  {
    hide NotedAll, MapStack, TagsAfter;
  }

  lemma ByteMapped(w: World, e: Event, x: nat)
    requires MapsByte(e, x)
    ensures x in Happen(w, e).mapped && Happen(w, e).mapped[x] == MapStack(w.tags, e.tag, e.frames)
    ensures Happen(w, e).tags == TagsAfter(w.tags, e.tag)
  {
    hide NotedAll, MapStack, TagsAfter;
  }

  lemma ByteUnmapped(w: World, e: Event, x: nat)
    requires UnmapsByte(e, x) && !MapsByte(e, x)
    ensures x !in Happen(w, e).mapped
  {
    hide NotedAll, MapStack, TagsAfter;
  }

  lemma {:induction false} ByteSince(es: seq<Event>, n: nat, x: nat)
    requires n < |es| && forall i :: n < i < |es| ==> !MapsByte(es[i], x) && !UnmapsByte(es[i], x)
    ensures x in Happened(es).mapped <==> x in Happened(es[..n + 1]).mapped
    ensures x in Happened(es).mapped ==> Happened(es).mapped[x] == Happened(es[..n + 1]).mapped[x]
    ensures Happened(es[..n + 1]).tags <= Happened(es).tags
    decreases |es|
  {
    hide Happen;
    if n + 1 == |es| {
      assert es[..n + 1] == es;
    } else {
      var before := es[..|es| - 1];
      assert before[..n + 1] == es[..n + 1];
      assert forall i :: n < i < |before| ==> before[i] == es[i];
      ByteSince(before, n, x);
      ByteKept(Happened(before), es[|es| - 1], x);
      TagsGrow(Happened(before), es[|es| - 1]);
    }
  }

  lemma TagsGrow(w: World, e: Event)
    ensures w.tags <= Happen(w, e).tags
  {
    hide NotedAll, With, Without, MapStack, TagIndex;
  }

  /** The tracer knows byte x under the caller's frames and one more, a made-up address that the stream
      puts into module <mmap> with this name for its function. */
  ghost predicate TrackedAs(v: View, x: nat, name: string, frames: seq<nat>) {
    WellFormed(v.out) && exists t: nat, k: nat :: TracksAs(v, x, name, frames, t, k)
  }

  ghost predicate TracksAs(v: View, x: nat, name: string, frames: seq<nat>, t: nat, k: nat)
    requires WellFormed(v.out)
  {
    && t <= |Nodes(v.out)| && Tracked(v.regions, x, t) && k < |Ips(v.out)|
    && Stack(v, t) == [Ips(v.out)[k]] + (if |frames| > 1 then frames[1..] else frames)
    && Says(v.out, k, Ips(v.out)[k], "<mmap>", if name == "" then "??" else name, "??")
  }

  /** The name a tag goes by after these tags: its own, but for the 32nd different one. */
  function Shown(before: seq<string>, tag: string): string {
    if |Distinct(before)| == 31 && tag !in Distinct(before) then "mmap(other)" else tag
  }

  /** A byte mapped by event n and not remapped since is tracked, under a stack whose innermost frame is a
      made-up address that the stream gives the module <mmap> and the tag for a function, or the catch-all
      if 31 other tags came before; the caller's frames follow. */
  lemma ByteReads(es: seq<Event>, n: nat, x: nat)
    requires LegalRun(es) && n < |es| && MapsByte(es[n], x)
    requires forall i :: n < i < |es| ==> !MapsByte(es[i], x) && !UnmapsByte(es[i], x)
    ensures TrackedAs(Run(es), x, Shown(Tagged(es[..n]), es[n].tag), es[n].frames)
  {
    hide Happen, LegalRun, Run, Refines, TrackedAs, TagIndex, MapStack, TagsAfter, Distinct, Tagged;
    RunRefines(es);
    ByteSince(es, n, x);
    assert es[..n + 1][..n] == es[..n];
    HappenedLast(es[..n + 1]);
    var w := Happened(es[..n]);
    ByteMapped(w, es[n], x);
    LegalTag(es, n);
    MappedTag(Run(es), Happened(es), w.tags, es[n].tag, es[n].frames, x);
  }

  lemma LegalTag(es: seq<Event>, n: nat)
    requires LegalRun(es) && n < |es| && Maps(es[n])
    ensures var w := Happened(es[..n]);
      && TagIndex(w.tags, es[n].tag) < TagMax && |w.tags| <= TagMax
      && Shown(Tagged(es[..n]), es[n].tag) ==
         if |w.tags| == TagMax - 1 && es[n].tag !in w.tags then "mmap(other)" else es[n].tag
  {
    hide Happen, TagIndex, TagNames, Tagged, Settled, InTable, Distinct;
    LegalPrefix(es, n + 1);
    assert es[..n + 1][..n] == es[..n];
    RunRefines(es[..n]);
    LegalExactly(es[..n]);
    TaggedNames(es[..n]);
    TableExactly(Tagged(es[..n]));
  }

  lemma MappedTag(v: View, w: World, tags: seq<string>, tag: string, frames: seq<nat>, x: nat)
    requires Refines(v, w) && x in w.mapped && w.mapped[x] == MapStack(tags, tag, frames)
    requires TagsAfter(tags, tag) <= w.tags && TagIndex(tags, tag) < TagMax && |tags| <= TagMax
    ensures TrackedAs(v, x, if |tags| == TagMax - 1 && tag !in tags then "mmap(other)" else tag, frames)
  {
    hide Infos, Nodes, WellFormed, Interned, Live, Apart, HeapOk, Tracked, Stack, Ips, NameIndices, Strs, FrameNamed, Spells;
    PtrInfos(v);
    IndexMeans(tags, tag);
    var t: nat :| Tracked(v.regions, x, t);
    var j := TagIndex(tags, tag);
    var tg := v.tags[j];
    assert TagNamed(v.out, tg.ip - 1, tg);
    var k := tg.ip - 1;
    assert tg.addr == TagBase + j + 1 && Says(v.out, k, tg.addr, "<mmap>", if tg.text == "" then "??" else tg.text, "??");
    assert tg.text == TagsAfter(tags, tag)[j];
    assert TracksAs(v, x, tg.text, frames, t, k);
  }

  /** A byte unmapped by event n and not mapped since is not tracked. */
  lemma ByteGone(es: seq<Event>, n: nat, x: nat, t: nat)
    requires LegalRun(es) && n < |es| && UnmapsByte(es[n], x) && !MapsByte(es[n], x)
    requires forall i :: n < i < |es| ==> !MapsByte(es[i], x) && !UnmapsByte(es[i], x)
    ensures !Tracked(Run(es).regions, x, t)
  {
    hide Happen, LegalRun, Run, Inv, Infos, Nodes, WellFormed, HeapOk, Tracked, Stack, NamesOk, TagsMatch;
    RunRefines(es);
    ByteSince(es, n, x);
    assert es[..n + 1][..n] == es[..n];
    HappenedLast(es[..n + 1]);
    ByteUnmapped(Happened(es[..n]), es[n], x);
    PtrInfos(Run(es));
  }

  // ----- names -----

  /** The frames an event captures, and the hints it comes with. */
  predicate Captures(e: Event, frames: seq<nat>, hints: seq<Hint>) {
    match e
    case DoAlloc(p, _, fs, hs) => p != 0 && fs == frames && hs == hints
    case DoRealloc(_, p, _, fs, hs) => p != 0 && fs == frames && hs == hints
    case DoMmap(p, len, tracked, _, _, fs, hs) =>
      tracked && p != 0 && p != 0xffff_ffff_ffff_ffff && len > 0 && fs == frames && hs == hints
    case _ => false
  }

  /** Address a is one of the caller's. */
  predicate Caller(frames: seq<nat>, a: nat) {
    exists i :: 0 <= i < |frames| && frames[i] == a && (i > 0 || |frames| == 1)
  }

  ghost predicate Meets(e: Event, a: nat) {
    exists frames, hints :: Captures(e, frames, hints) && Caller(frames, a)
  }

  /** Event n is the first to meet a, with these hints. */
  ghost predicate FirstMeets(es: seq<Event>, n: nat, a: nat, frames: seq<nat>, hints: seq<Hint>) {
    n < |es| && Captures(es[n], frames, hints) && Caller(frames, a) && forall i :: 0 <= i < n ==> !Meets(es[i], a)
  }

  lemma {:induction false} NotedMeans(seen: map<nat, seq<Hint>>, frames: seq<nat>, hints: seq<Hint>, a: nat)
    ensures var m := NotedAll(seen, frames, hints);
      if a in seen then a in m && m[a] == seen[a]
      else (a in m <==> a in frames) && (a in m ==> m[a] == hints)
  {
    if frames != [] {
      NotedMeans(seen, frames[1..], hints, a);
      assert frames == [frames[0]] + frames[1..];
    }
  }

  lemma CallerMeans(frames: seq<nat>, a: nat)
    ensures Caller(frames, a) <==> a in Captured(frames)
  {
    if a in Captured(frames) {
      var j :| 0 <= j < |Captured(frames)| && Captured(frames)[j] == a;
      assert frames[if |frames| > 1 then j + 1 else j] == a;
    }
    if i :| 0 <= i < |frames| && frames[i] == a && (i > 0 || |frames| == 1) {
      assert Captured(frames)[if |frames| > 1 then i - 1 else i] == a;
    }
  }

  lemma SeenStep(w: World, e: Event, a: nat)
    ensures var w' := Happen(w, e);
      && (a in w.seen ==> a in w'.seen && w'.seen[a] == w.seen[a])
      && (a !in w.seen && !Meets(e, a) ==> a !in w'.seen)
    ensures forall frames, hints ::
      (Captures(e, frames, hints) && Caller(frames, a) && a !in w.seen ==> a in Happen(w, e).seen && Happen(w, e).seen[a] == hints)
  {
    hide NotedAll, With, Without, MapStack, TagsAfter, Captured, Caller;
    if e.DoAlloc? || e.DoRealloc? || e.DoMmap? {
      NotedMeans(w.seen, Captured(e.frames), e.hints, a);
      CallerMeans(e.frames, a);
      assert Captures(e, e.frames, e.hints) && Caller(e.frames, a) ==> Meets(e, a);
    }
  }

  /** The hints kept for an address are those of the event that met it first; one never met has none. */
  lemma {:induction false} SeenFirst(es: seq<Event>, a: nat)
    ensures (forall i :: 0 <= i < |es| ==> !Meets(es[i], a)) ==> a !in Happened(es).seen
    ensures forall n, frames, hints :: (FirstMeets(es, n, a, frames, hints) ==> a in Happened(es).seen && Happened(es).seen[a] == hints)
  {
    hide Happen, Captures, Caller;
    if es != [] {
      var before, e := es[..|es| - 1], es[|es| - 1];
      SeenFirst(before, a);
      SeenStep(Happened(before), e, a);
      assert forall i :: 0 <= i < |before| ==> before[i] == es[i];
      forall n: nat, frames, hints | FirstMeets(es, n, a, frames, hints)
        ensures a in Happened(es).seen && Happened(es).seen[a] == hints
      {
        if n < |before| {
          assert FirstMeets(before, n, a, frames, hints);
        }
      }
    }
  }

  /** After every run, reading the indices of the k-th address record as strings: an address met in a stack
      has the module and function of the first hint for it that came with the event that met it first, or
      is unknown, a mapping's made-up address has <mmap> and its tag, and no file is ever known. */
  lemma NamesExact(es: seq<Event>, k: nat)
    requires LegalRun(es) && k < |Ips(Run(es).out)|
    ensures var out, w := Run(es).out, Happened(es);
      var a := Ips(out)[k];
      || (a in w.seen && exists image, fn :: NamesFrom(w.seen[a], a, image, fn) && Says(out, k, a, image, fn, "??"))
      || (exists j :: 0 <= j < |w.tags| && a == 0xfff0_0000_0000_0000 + j + 1
            && Says(out, k, a, "<mmap>", if w.tags[j] == "" then "??" else w.tags[j], "??"))
  {
    hide LegalRun, Run, Happened, Inv, HeapOk, MappedOk, Infos, Nodes, Strs, Ips, NameIndices, NamesFrom, WellFormed, Spells;
    RunRefines(es);
    RecordOwner(Run(es), Happened(es), k);
  }

  lemma RecordOwner(v: View, w: World, k: nat)
    requires NamesOk(v, w.seen) && TagsMatch(v.tags, w.tags) && k < |Ips(v.out)|
    ensures var a := Ips(v.out)[k];
      || (a in w.seen && exists image, fn :: NamesFrom(w.seen[a], a, image, fn) && Says(v.out, k, a, image, fn, "??"))
      || (exists j :: 0 <= j < |w.tags| && a == 0xfff0_0000_0000_0000 + j + 1
            && Says(v.out, k, a, "<mmap>", if w.tags[j] == "" then "??" else w.tags[j], "??"))
  {
    hide Strs, Ips, NameIndices, NamesFrom, Spells;
    assert Owned(v.ips, v.tags, k + 1);
    if a :| a in v.ips && v.ips[a] == k + 1 {
      assert FrameNamed(v.out, k, a, w.seen[a]);
    } else {
      var j :| 0 <= j < |v.tags| && v.tags[j].ip == k + 1;
      assert TagNamed(v.out, k, v.tags[j]);
    }
  }

  /** And every address met has such a record. */
  lemma MetNamed(es: seq<Event>, a: nat)
    requires LegalRun(es) && a in Happened(es).seen
    ensures exists k: nat :: FrameNamed(Run(es).out, k, a, Happened(es).seen[a])
  {
    hide LegalRun, Run, Happened, Inv, HeapOk, MappedOk, TagsMatch, FrameNamed;
    RunRefines(es);
    var v := Run(es);
    assert FrameNamed(v.out, v.ips[a] - 1, a, Happened(es).seen[a]);
  }
}
