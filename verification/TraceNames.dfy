/** What a reader of the stream (src/heaptrack_trace.c) learns about an address: the module, function and
    file names its record refers to are the ones the program had when it first met the address. */
module TraceNames {
  import opened TraceLog
  import opened Regions
  import opened TraceSpec
  import opened TraceEvents

  /** The three string indices of every address record. */
  function NameIndices(out: Log): seq<(nat, nat, nat)> {
    if out == [] then [] else
      var r := out[|out| - 1];
      NameIndices(out[..|out| - 1]) + if r.Ip? then [(r.module_, r.fn, r.file)] else []
  }

  /** Index i is the string s. */
  predicate Spells(strs: seq<string>, i: nat, s: string) {
    1 <= i <= |strs| && strs[i - 1] == s
  }

  /** The k-th address record says address a, in this module, function and file. */
  predicate Says(out: Log, k: nat, a: nat, image: string, fn: string, file: string) {
    && k < |Ips(out)| && k < |NameIndices(out)| && Ips(out)[k] == a
    && Spells(Strs(out), NameIndices(out)[k].0, image)
    && Spells(Strs(out), NameIndices(out)[k].1, fn)
    && Spells(Strs(out), NameIndices(out)[k].2, file)
  }

  /** The names hints give an address: those of the first hint for it; unknown without one or where empty. */
  predicate NamesFrom(hints: seq<Hint>, a: nat, image: string, fn: string) {
    if exists j :: 0 <= j < |hints| && hints[j].addr == a then
      exists j :: 0 <= j < |hints| && hints[j].addr == a && (forall i :: 0 <= i < j ==> hints[i].addr != a)
        && (if hints[j].image == "" then image == "??" else image == hints[j].image)
        && (if hints[j].fn == "" then fn == "??" else fn == hints[j].fn)
    else image == "??" && fn == "??"
  }

  ghost predicate FrameNamed(out: Log, k: nat, a: nat, hints: seq<Hint>) {
    exists image, fn :: NamesFrom(hints, a, image, fn) && Says(out, k, a, image, fn, "??")
  }

  ghost predicate TagNamed(out: Log, k: nat, t: Tag) {
    Says(out, k, t.addr, "<mmap>", if t.text == "" then "??" else t.text, "??")
  }

  /** Address index i belongs to an address or to a tag. */
  ghost predicate Owned(ips: map<nat, nat>, tags: seq<Tag>, i: nat) {
    (exists a :: a in ips && ips[a] == i) || (exists j :: 0 <= j < |tags| && tags[j].ip == i)
  }

  lemma OwnedMore(ips: map<nat, nat>, tags: seq<Tag>, i: nat, ips': map<nat, nat>, tags': seq<Tag>)
    requires Owned(ips, tags, i) && tags <= tags' && forall a :: a in ips ==> a in ips' && ips'[a] == ips[a]
    ensures Owned(ips', tags', i)
  {
    if a :| a in ips && ips[a] == i {
      assert a in ips' && ips'[a] == i;
    } else {
      var j :| 0 <= j < |tags| && tags[j].ip == i;
      assert tags'[j].ip == i;
    }
  }

  /** Every address seen has a record with its names, every tag has one with its text, and there are no
      other address records. `seen` holds the hints with which each address was first met. */
  ghost predicate NamesOk(v: View, seen: map<nat, seq<Hint>>) {
    && v.ips.Keys == seen.Keys
    && (forall a :: a in v.ips ==> v.ips[a] >= 1 && FrameNamed(v.out, v.ips[a] - 1, a, seen[a]))
    && (forall j :: 0 <= j < |v.tags| ==> v.tags[j].ip >= 1 && TagNamed(v.out, v.tags[j].ip - 1, v.tags[j]))
    && |NameIndices(v.out)| == |Ips(v.out)|
    && (forall i :: 1 <= i <= |Ips(v.out)| ==> Owned(v.ips, v.tags, i))
  }

  // ----- the stream grows -----

  lemma EmitNames(out: Log, r: Rec)
    ensures NameIndices(out + [r]) == if r.Ip? then NameIndices(out) + [(r.module_, r.fn, r.file)] else NameIndices(out)
  {
    assert (out + [r])[..|out|] == out;
  }

  /** No address record comes, and strings are only added. */
  ghost predicate SameNames(v: View, u: View) {
    && u.ips == v.ips && u.tags == v.tags
    && Strs(v.out) <= Strs(u.out) && Ips(u.out) == Ips(v.out) && NameIndices(u.out) == NameIndices(v.out)
  }

  lemma SaysKept(out: Log, out': Log, k: nat, a: nat, image: string, fn: string, file: string)
    requires Says(out, k, a, image, fn, file)
    requires Strs(out) <= Strs(out') && Ips(out) <= Ips(out') && NameIndices(out) <= NameIndices(out')
    ensures Says(out', k, a, image, fn, file)
  {
    hide Strs, Ips, NameIndices;
  }

  lemma FrameKept(out: Log, out': Log, k: nat, a: nat, hints: seq<Hint>)
    requires FrameNamed(out, k, a, hints)
    requires Strs(out) <= Strs(out') && Ips(out) <= Ips(out') && NameIndices(out) <= NameIndices(out')
    ensures FrameNamed(out', k, a, hints)
  {
    hide Strs, Ips, NameIndices, NamesFrom, Says;
    var image, fn :| NamesFrom(hints, a, image, fn) && Says(out, k, a, image, fn, "??");
    SaysKept(out, out', k, a, image, fn, "??");
  }

  lemma NamesKept(v: View, u: View, seen: map<nat, seq<Hint>>)
    requires NamesOk(v, seen) && SameNames(v, u)
    ensures NamesOk(u, seen)
  {
    hide Strs, Ips, NameIndices, NamesFrom, Says, FrameNamed;
    forall a | a in u.ips ensures FrameNamed(u.out, u.ips[a] - 1, a, seen[a]) {
      FrameKept(v.out, u.out, v.ips[a] - 1, a, seen[a]);
    }
    forall j | 0 <= j < |u.tags| ensures TagNamed(u.out, u.tags[j].ip - 1, u.tags[j]) {
      var t := v.tags[j];
      SaysKept(v.out, u.out, t.ip - 1, t.addr, "<mmap>", if t.text == "" then "??" else t.text, "??");
    }
  }

  lemma SameTrans(v: View, u: View, w: View)
    requires SameNames(v, u) && SameNames(u, w)
    ensures SameNames(v, w)
  {
    hide Strs, Ips, NameIndices;
  }

  lemma SameRefl(v: View)
    ensures SameNames(v, v)
  {
    hide Strs, Ips, NameIndices;
  }

  lemma PutSame(v: View, r: Rec)
    requires !r.Ip?
    ensures SameNames(v, Put(v, r))
  {
    Emit(v.out, r);
    EmitNames(v.out, r);
    hide Strs, Ips, NameIndices;
  }

  lemma StrSame(v: View, s: string)
    ensures SameNames(v, InternStr(v, s).0)
  {
    SameRefl(v);
    PutSame(v, Str(Text(s)));
    hide Strs, Ips, NameIndices;
  }

  lemma NamesSame(v: View, image: string, fn: string)
    ensures SameNames(v, InternNames(v, image, fn).0)
  {
    hide InternStr, SameNames;
    StrSame(v, image);
    var v1 := InternStr(v, image).0;
    StrSame(v1, fn);
    var v2 := InternStr(v1, fn).0;
    StrSame(v2, "??");
    var v3 := InternStr(v2, "??").0;
    SameTrans(v, v1, v2);
    SameTrans(v, v2, v3);
  }

  // ----- new records -----

  /** A record whose indices were just interned says what they were interned for. */
  lemma NewRecord(v: View, a: nat, image: string, fn: string)
    requires StrsOk(v) && |NameIndices(v.out)| == |Ips(v.out)|
    ensures var (u, m, f, l) := InternNames(v, image, fn);
      var out := u.out + [Ip(a, m, f, l)];
      && Says(out, |Ips(v.out)|, a, if image == "" then "??" else image, if fn == "" then "??" else fn, "??")
      && Strs(v.out) <= Strs(out) && Ips(out) == Ips(v.out) + [a]
      && NameIndices(out) == NameIndices(v.out) + [(m, f, l)]
  {
    hide StrsOk, InternNames, Strs, Ips, NameIndices, Nodes, Infos, Outstanding, WellFormed;
    InternNamesKeeps(v, image, fn);
    NamesSame(v, image, fn);
    var (u, m, f, l) := InternNames(v, image, fn);
    Emit(u.out, Ip(a, m, f, l));
    EmitNames(u.out, Ip(a, m, f, l));
  }

  lemma {:induction false} FirstHint(hints: seq<Hint>, a: nat)
    ensures var h := FindHint(hints, a);
      NamesFrom(hints, a, if h.image == "" then "??" else h.image, if h.fn == "" then "??" else h.fn)
  {
    HintPlace(hints, a);
    var h := FindHint(hints, a);
    if j :| 0 <= j < |hints| && hints[j].addr == a && h == hints[j] && forall i :: 0 <= i < j ==> hints[i].addr != a {
      assert 0 <= j < |hints| && hints[j].addr == a;
    }
  }

  lemma {:induction false} HintPlace(hints: seq<Hint>, a: nat)
    ensures var h := FindHint(hints, a);
      if exists j :: 0 <= j < |hints| && hints[j].addr == a then
        exists j :: 0 <= j < |hints| && hints[j].addr == a && h == hints[j] && forall i :: 0 <= i < j ==> hints[i].addr != a
      else h == Hint(a, "??", "??")
  {
    if hints != [] {
      if hints[0].addr == a {
        assert FindHint(hints, a) == hints[0];
      } else {
        HintPlace(hints[1..], a);
        if j :| 0 <= j < |hints| && hints[j].addr == a {
          assert hints[1..][j - 1] == hints[j];
          var i :| 0 <= i < |hints[1..]| && hints[1..][i].addr == a && FindHint(hints[1..], a) == hints[1..][i]
            && forall n :: 0 <= n < i ==> hints[1..][n].addr != a;
          assert forall n :: 0 < n <= i ==> hints[n] == hints[1..][n - 1];
          assert hints[i + 1] == hints[1..][i];
        }
      }
    }
  }

  /** The first meeting decides. */
  function Noted(seen: map<nat, seq<Hint>>, a: nat, hints: seq<Hint>): map<nat, seq<Hint>> {
    if a in seen then seen else seen[a := hints]
  }

  lemma IpNames(v: View, seen: map<nat, seq<Hint>>, a: nat, hints: seq<Hint>)
    requires NamesOk(v, seen) && StrsOk(v)
    ensures NamesOk(InternIp(v, a, hints).0, Noted(seen, a, hints))
  {
    hide StrsOk, InternNames, FindHint, Strs, Ips, NameIndices, NamesFrom, Says, WellFormed;
    if a !in v.ips {
      var n, h := |Ips(v.out)| + 1, FindHint(hints, a);
      var w := v.(ips := v.ips[a := n]);
      SameStrs(v, w);
      NewRecord(w, a, h.image, h.fn);
      FirstHint(hints, a);
      var u := InternIp(v, a, hints).0;
      InternNamesFrame(w, h.image, h.fn);
      NewFrame(v, u, seen, a, hints, n);
    }
  }

  lemma InternNamesFrame(v: View, image: string, fn: string)
    ensures var u := InternNames(v, image, fn).0; u.ips == v.ips && u.tags == v.tags
  {
    hide InternStr;
    var v1, v2 := InternStr(v, image).0, InternStr(InternStr(v, image).0, fn).0;
    StrFrame(v, image);
    StrFrame(v1, fn);
    StrFrame(v2, "??");
  }

  lemma StrFrame(v: View, s: string)
    ensures var u := InternStr(v, s).0; u.ips == v.ips && u.tags == v.tags
  {
  }

  lemma NewFrame(v: View, u: View, seen: map<nat, seq<Hint>>, a: nat, hints: seq<Hint>, n: nat)
    requires NamesOk(v, seen) && a !in v.ips && n == |Ips(v.out)| + 1
    requires u.ips == v.ips[a := n] && u.tags == v.tags
    requires Strs(v.out) <= Strs(u.out) && Ips(u.out) == Ips(v.out) + [a]
    requires NameIndices(v.out) <= NameIndices(u.out) && |NameIndices(u.out)| == n
    requires FrameNamed(u.out, n - 1, a, hints)
    ensures NamesOk(u, Noted(seen, a, hints))
  {
    hide Strs, Ips, NameIndices, NamesFrom, Says, FrameNamed;
    forall b | b in v.ips ensures FrameNamed(u.out, v.ips[b] - 1, b, seen[b]) {
      FrameKept(v.out, u.out, v.ips[b] - 1, b, seen[b]);
    }
    forall j | 0 <= j < |u.tags| ensures TagNamed(u.out, u.tags[j].ip - 1, u.tags[j]) {
      var t := v.tags[j];
      SaysKept(v.out, u.out, t.ip - 1, t.addr, "<mmap>", if t.text == "" then "??" else t.text, "??");
    }
    assert a in u.ips && u.ips[a] == n;
    forall i | 1 <= i <= |Ips(u.out)| ensures Owned(u.ips, u.tags, i) {
      if i < n {
        OwnedMore(v.ips, v.tags, i, u.ips, u.tags);
      }
    }
  }

  lemma TagRecorded(v: View, seen: map<nat, seq<Hint>>, text: string)
    requires NamesOk(v, seen) && StrsOk(v)
    ensures NamesOk(InternTag(v, text).0, seen)
  {
    hide StrsOk, InternNames, FindTag, TagText, Strs, Ips, NameIndices, NamesFrom, Says, WellFormed;
    if FindTag(v.tags, text) == |v.tags| {
      var t, n, addr := TagText(v.tags, text), |Ips(v.out)| + 1, TagBase + |v.tags| + 1;
      NewRecord(v, addr, "<mmap>", t);
      InternNamesFrame(v, "<mmap>", t);
      NewTag(v, InternTag(v, text).0, seen, Tag(t, n, addr));
    }
  }

  lemma NewTag(v: View, u: View, seen: map<nat, seq<Hint>>, t: Tag)
    requires NamesOk(v, seen) && t.ip == |Ips(v.out)| + 1 && u.ips == v.ips && u.tags == v.tags + [t]
    requires Strs(v.out) <= Strs(u.out) && Ips(u.out) == Ips(v.out) + [t.addr]
    requires NameIndices(v.out) <= NameIndices(u.out) && |NameIndices(u.out)| == t.ip && TagNamed(u.out, t.ip - 1, t)
    ensures NamesOk(u, seen)
  {
    hide Strs, Ips, NameIndices, NamesFrom, Says, FrameNamed;
    forall b | b in v.ips ensures FrameNamed(u.out, v.ips[b] - 1, b, seen[b]) {
      FrameKept(v.out, u.out, v.ips[b] - 1, b, seen[b]);
    }
    forall j | 0 <= j < |v.tags| ensures TagNamed(u.out, v.tags[j].ip - 1, v.tags[j]) {
      var t := v.tags[j];
      SaysKept(v.out, u.out, t.ip - 1, t.addr, "<mmap>", if t.text == "" then "??" else t.text, "??");
    }
    assert u.tags[|v.tags|].ip == t.ip;
    forall i | 1 <= i <= |Ips(u.out)| ensures Owned(u.ips, u.tags, i) {
      if i < t.ip {
        OwnedMore(v.ips, v.tags, i, u.ips, u.tags);
      }
    }
  }

  // ----- the events -----

  lemma TraceSame(v: View, ip: nat, addr: nat, parent: nat)
    ensures SameNames(v, InternTrace(v, ip, addr, parent).0)
  {
    SameRefl(v);
    PutSame(v, Node(ip, parent));
    hide Strs, Ips, NameIndices;
  }

  lemma InfoSame(v: View, size: nat, trace: nat)
    ensures SameNames(v, InternInfo(v, size, trace).0)
  {
    SameRefl(v);
    PutSame(v, Info(size, trace));
    hide Strs, Ips, NameIndices;
  }

  /** All frames of one stack, the outermost first. */
  function NotedAll(seen: map<nat, seq<Hint>>, frames: seq<nat>, hints: seq<Hint>): map<nat, seq<Hint>> {
    if frames == [] then seen else Noted(NotedAll(seen, frames[1..], hints), frames[0], hints)
  }

  lemma {:induction false} BuildNames(v: View, seen: map<nat, seq<Hint>>, frames: seq<nat>, hints: seq<Hint>)
    requires NamesOk(v, seen) && Interned(v)
    ensures NamesOk(Build(v, frames, hints).0, NotedAll(seen, frames, hints))
  {
    hide NamesOk, Interned, InternIp, InternTrace, Strs, Ips, Nodes;
    if frames != [] {
      BuildNames(v, seen, frames[1..], hints);
      BuildStack(v, frames[1..], hints);
      var v1 := Build(v, frames[1..], hints).0;
      InternedStrs(v1);
      IpNames(v1, NotedAll(seen, frames[1..], hints), frames[0], hints);
      var (v2, ip) := InternIp(v1, frames[0], hints);
      var (v1', parent) := Build(v, frames[1..], hints);
      TraceSame(v2, ip, frames[0], parent);
      NamesKept(v2, InternTrace(v2, ip, frames[0], parent).0, NotedAll(seen, frames, hints));
    }
  }

  lemma InternedStrs(v: View)
    requires Interned(v)
    ensures StrsOk(v)
  {
  }

  lemma AddRegionSame(v: View, addr: nat, len: nat, trace: nat)
    ensures SameNames(v, AddRegion(v, addr, len, trace))
  {
    hide SameNames, InternInfo;
    InfoSame(v, len, trace);
    var (v1, a) := InternInfo(v, len, trace);
    var v2 := v1.(regions := v1.regions + [Region(addr, len, a, trace)]);
    PutSame(v2, Plus(a));
    FieldsSame(v1, v2);
    SameTrans(v, v1, v2);
    SameTrans(v, v2, Put(v2, Plus(a)));
  }

  lemma FieldsSame(v: View, u: View)
    requires u.ips == v.ips && u.tags == v.tags && u.out == v.out
    ensures SameNames(v, u)
  {
    hide Strs, Ips, NameIndices;
  }

  lemma FreeSame(v: View, p: nat)
    ensures SameNames(v, Free(v, p))
  {
    hide SameNames;
    SameRefl(v);
    if p in v.ptrs {
      var v1 := v.(ptrs := v.ptrs - {p});
      FieldsSame(v, v1);
      PutSame(v1, Minus(v.ptrs[p]));
      SameTrans(v, v1, Put(v1, Minus(v.ptrs[p])));
    }
  }

  lemma CutSame(v: View, i: nat, us: nat, ue: nat)
    requires i < |v.regions|
    ensures SameNames(v, CutAt(v, i, us, ue))
  {
    hide SameNames, AddRegion, SwapRemove;
    var r := v.regions[i];
    var v0 := v.(regions := SwapRemove(v.regions, i));
    FieldsSame(v, v0);
    PutSame(v0, Minus(r.info));
    var v1 := Put(v0, Minus(r.info));
    SameTrans(v, v0, v1);
    var v2 := v1;
    if r.addr < us {
      v2 := AddRegion(v1, r.addr, us - r.addr, r.trace);
      AddRegionSame(v1, r.addr, us - r.addr, r.trace);
      SameTrans(v, v1, v2);
    }
    if r.addr + r.len > ue {
      AddRegionSame(v2, ue, r.addr + r.len - ue, r.trace);
      SameTrans(v, v2, AddRegion(v2, ue, r.addr + r.len - ue, r.trace));
    }
  }

  lemma {:induction false} ScanSame(v: View, i: nat, us: nat, ue: nat, hit: bool)
    requires i <= |v.regions| && us < ue
    ensures SameNames(v, Scan(v, i, us, ue, hit).0)
    decreases Overlaps(v.regions[i..], us, ue), |v.regions| - i
  {
    hide SameNames, CutAt;
    SameRefl(v);
    if i < |v.regions| {
      if !Overlap(v.regions[i], us, ue) {
        assert v.regions[i..][1..] == v.regions[i + 1..];
        ScanSame(v, i + 1, us, ue, hit);
      } else {
        CutAtShape(v, i, us, ue);
        CutSame(v, i, us, ue);
        var u := CutAt(v, i, us, ue);
        ScanSame(u, i, us, ue, true);
        SameTrans(v, u, Scan(u, i, us, ue, true).0);
      }
    }
  }

  lemma MunmapSame(v: View, us: nat, len: nat)
    requires len > 0
    ensures SameNames(v, Munmap(v, us, len))
  {
    hide SameNames, Scan;
    ScanSame(v, 0, us, us + len, false);
    var v1 := Scan(v, 0, us, us + len, false).0;
    PutSame(v1, Clock);
    SameTrans(v, v1, Put(v1, Clock));
  }

  lemma AllocNames(v: View, seen: map<nat, seq<Hint>>, p: nat, size: nat, frames: seq<nat>, hints: seq<Hint>)
    requires NamesOk(v, seen) && Interned(v)
    ensures NamesOk(Alloc(v, p, size, frames, hints), NotedAll(seen, Captured(frames), hints))
  {
    hide NamesOk, SameNames, Interned, Build, InternInfo, Strs, Ips;
    BuildNames(v, seen, Captured(frames), hints);
    var (v1, t) := Build(v, Captured(frames), hints);
    var (v2, a) := InternInfo(v1, size, t);
    InfoSame(v1, size, t);
    var v3 := Tick(PtrInsert(v2, p, a));
    TickSame(v2, p, a);
    PutSame(v3, Plus(a));
    SameTrans(v1, v2, v3);
    SameTrans(v1, v3, Put(v3, Plus(a)));
    NamesKept(v1, Put(v3, Plus(a)), NotedAll(seen, Captured(frames), hints));
  }

  lemma TickSame(v: View, p: nat, a: nat)
    ensures SameNames(v, Tick(PtrInsert(v, p, a)))
  {
    hide SameNames;
    var v1 := PtrInsert(v, p, a).(allocs := v.allocs + 1);
    FieldsSame(v, v1);
    PutSame(v1, Clock);
    SameTrans(v, v1, Put(v1, Clock));
  }

  lemma MmapNames(v: View, seen: map<nat, seq<Hint>>, p: nat, len: nat, tag: string, frames: seq<nat>, hints: seq<Hint>)
    requires NamesOk(v, seen) && Interned(v)
    ensures NamesOk(Mmap(v, p, len, tag, frames, hints), NotedAll(seen, Captured(frames), hints))
  {
    hide NamesOk, SameNames, Interned, Build, InternTag, InternTrace, AddRegion, Strs, Ips, Nodes, Infos, WellFormed;
    var seen' := NotedAll(seen, Captured(frames), hints);
    BuildNames(v, seen, Captured(frames), hints);
    BuildStack(v, Captured(frames), hints);
    var (v1, t) := Build(v, Captured(frames), hints);
    InternedStrs(v1);
    TagRecorded(v1, seen', tag);
    var (v2, ip, addr) := InternTag(v1, tag);
    TraceSame(v2, ip, addr, t);
    var (v3, leaf) := InternTrace(v2, ip, addr, t);
    AddRegionSame(v3, p, len, leaf);
    var v4 := AddRegion(v3, p, len, leaf);
    PutSame(v4, Clock);
    SameTrans(v2, v3, v4);
    SameTrans(v2, v4, Put(v4, Clock));
    NamesKept(v2, Put(v4, Clock), seen');
  }
}
