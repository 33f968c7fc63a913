/** The loop of src/eh_frame.c that turns compact unwind entries into a section: one CIE per personality,
    one FDE per function, in a buffer reserved for the number of entries. */
module EhBuild {
  import opened Leb128
  import opened EhFrame
  import opened EhEntries
  import opened EhEmit
  import opened EhMeaning

  /** At most four personalities are used. */
  function Capped(all: seq<nat>): (ps: seq<nat>)
    ensures |ps| <= 4
  {
    if |all| > 4 then all[..4] else all
  }

  /** The program only reports a write past its reservation. Here the buffer has the bytes that no section
      exceeds, and the report says whether the section ends past what the program reserves. */
  method BuildSection(base: nat, personalities: seq<nat>, es: seq<Entry>) returns (e: Emitter, reported: bool)
    ensures e.Valid() && e.Contents() == Section(Items(base, Capped(personalities), es))
    ensures reported <==> !Reserved(Capped(personalities), es)
  {
    hide Section, Items, Reserved;
    var ps := Capped(personalities);
    FitsExactly(base, ps, es);
    SectionBound(base, ps, es);
    e := new Emitter(88 * |es| + 156);
    EmitSection(e, base, ps, es);
    reported := e.pos > Capacity(|es|);
  }

  lemma SectionBound(base: nat, ps: seq<nat>, es: seq<Entry>)
    requires |ps| <= 4
    ensures |Section(Items(base, ps, es))| <= 88 * |es| + 156
  {
    hide FdesBytes, CiesBytes, BigCount, Section, Items;
    FitsExactly(base, ps, es);
    CiesBound(ps);
    FdesBound(es);
  }

  method EmitSection(e: Emitter, base: nat, ps: seq<nat>, es: seq<Entry>)
    requires e.Valid() && e.pos == 0 && |Section(Items(base, ps, es))| <= e.buf.Length
    modifies e, e.buf
    ensures e.Valid() && e.Contents() == Section(Items(base, ps, es))
  {
    hide Layout, Record, CieItems, FdeItems, PosOf;
    ghost var items := Items(base, ps, es);
    SectionSize(base, ps, es);
    LayoutAdd(0, CieItems(ps), FdeItems(base, ps, es));
    var cies := EmitCies(e, ps);
    EmitFdes(e, base, ps, es, cies);
    assert e.Contents() == Layout(0, items);
    e.U32(0);
    assert Le(0, 4) == Zeros(4);
  }

  method EmitCies(e: Emitter, ps: seq<nat>) returns (cies: seq<nat>)
    requires e.Valid() && e.pos == 0 && |Layout(0, CieItems(ps))| <= e.buf.Length
    modifies e, e.buf
    ensures e.Valid() && e.Contents() == Layout(0, CieItems(ps))
    ensures |cies| == 1 + |ps| && forall k :: 0 <= k < |cies| ==> cies[k] == PosOf(0, CieItems(ps), k)
  {
    hide Layout, Record, CieItems, PosOf;
    ghost var items := CieItems(ps);
    LayoutPrefix(0, items, 0);
    LayoutPrefix(0, items, 1);
    var c := e.EmitCie(0);
    cies := [c];
    for i := 0 to |ps|
      invariant e.Valid() && e.Contents() == Layout(0, items[..i + 1]) && |cies| == i + 1
      invariant forall k :: 0 <= k < |cies| ==> cies[k] == PosOf(0, items, k)
    {
      LayoutPrefix(0, items, i + 1);
      LayoutPrefix(0, items, i + 2);
      c := e.EmitCie(ps[i]);
      cies := cies + [c];
    }
    assert items[..|ps| + 1] == items;
  }

  /** The layout up to record k ends where record k starts. */
  lemma LayoutPrefix(pos: nat, items: seq<Item>, k: nat)
    requires k <= |items|
    ensures PosOf(pos, items, k) == pos + |Layout(pos, items[..k])|
    ensures |Layout(pos, items[..k])| <= |Layout(pos, items)|
    ensures k == 0 ==> Layout(pos, items[..k]) == []
    ensures k > 0 ==> Layout(pos, items[..k]) == Layout(pos, items[..k - 1]) + Record(PosOf(pos, items, k - 1), items[k - 1])
  {
    hide Record;
    LayoutAdd(pos, items[..k], items[k..]);
    PosPrefix(pos, items[..k], items[k..], k);
    assert items[..k] + items[k..] == items;
    if k > 0 {
      assert items[..k - 1] + items[k - 1..] == items;
      assert items[..k - 1] + [items[k - 1]] == items[..k];
      LayoutAdd(pos, items[..k - 1], [items[k - 1]]);
      PosPrefix(pos, items[..k - 1], items[k - 1..], k - 1);
      LayoutOne(pos + |Layout(pos, items[..k - 1])|, items[k - 1]);
    }
  }

  lemma LayoutOne(pos: nat, i: Item)
    ensures Layout(pos, [i]) == Record(pos, i)
  {
    hide Record;
    assert [i][1..] == [];
  }

  method EmitFdes(e: Emitter, base: nat, ps: seq<nat>, es: seq<Entry>, cies: seq<nat>)
    requires e.Valid() && e.Contents() == Layout(0, CieItems(ps))
    requires |cies| == 1 + |ps| && forall k :: 0 <= k < |cies| ==> cies[k] == PosOf(0, CieItems(ps), k)
    requires |Layout(0, CieItems(ps))| + |Layout(|Layout(0, CieItems(ps))|, FdeItems(base, ps, es))| <= e.buf.Length
    modifies e, e.buf
    ensures e.Valid()
    ensures e.Contents() == Layout(0, CieItems(ps)) + Layout(|Layout(0, CieItems(ps))|, FdeItems(base, ps, es))
  {
    hide Layout, Record, CieItems, FdeItems, PosOf, FdeOf, Emitted;
    ghost var front := Layout(0, CieItems(ps));
    for i := 0 to |es|
      invariant e.Valid() && e.Contents() + Layout(e.pos, FdeItems(base, ps, es[i..])) == front + Layout(|front|, FdeItems(base, ps, es))
      invariant |front| <= e.pos
      invariant e.pos + |Layout(e.pos, FdeItems(base, ps, es[i..]))| <= e.buf.Length
    {
      FdesFirst(e.pos, base, ps, es[i..]);
      assert es[i..][0] == es[i] && es[i..][1..] == es[i + 1..];
      if Emitted(es[i]) {
        EmitFde(e, base, ps, es[i], cies);
      }
    }
    FdesNone(e.pos, base, ps, es[|es|..]);
  }

  lemma FdesNone(pos: nat, base: nat, ps: seq<nat>, es: seq<Entry>)
    requires es == []
    ensures Layout(pos, FdeItems(base, ps, es)) == []
  {
  }

  lemma FdesFirst(pos: nat, base: nat, ps: seq<nat>, es: seq<Entry>)
    requires es != []
    ensures Layout(pos, FdeItems(base, ps, es)) ==
      if Emitted(es[0]) then
        var r := Record(pos, FdeOf(base, ps, es[0]));
        r + Layout(pos + |r|, FdeItems(base, ps, es[1..]))
      else Layout(pos, FdeItems(base, ps, es[1..]))
  {
    hide Record, FdeOf, Emitted;
    if Emitted(es[0]) {
      var i := FdeOf(base, ps, es[0]);
      var rest := FdeItems(base, ps, es[1..]);
      assert FdeItems(base, ps, es) == [i] + rest;
      assert ([i] + rest)[1..] == rest;
    } else {
      assert FdeItems(base, ps, es) == FdeItems(base, ps, es[1..]);
    }
  }

  /** The CIE is the one of the entry's personality; the kind of FDE follows the mode. */
  method EmitFde(e: Emitter, base: nat, ps: seq<nat>, x: Entry, cies: seq<nat>)
    requires e.Valid() && Emitted(x) && |Layout(0, CieItems(ps))| <= e.pos
    requires |cies| == 1 + |ps| && forall k :: 0 <= k < |cies| ==> cies[k] == PosOf(0, CieItems(ps), k)
    requires e.pos + |Record(e.pos, FdeOf(base, ps, x))| <= e.buf.Length
    modifies e, e.buf
    ensures e.Valid() && e.Contents() == old(e.Contents()) + Record(old(e.pos), FdeOf(base, ps, x))
  {
    hide Layout, Record, CieItems, PosOf, FrameInsns, FramelessInsns, HasLsda;
    var lsda := 0;
    if HasLsda(x.encoding) && x.lsda != 0 {
      lsda := base + x.lsda;
    }
    var cie := cies[0];
    var k := PersonalityIndex(x.encoding);
    if 0 < k <= |ps| {
      cie := cies[k];
    }
    CieStart(ps, CieIndex(ps, x.encoding));
    if ModeOf(x.encoding) == Frame {
      e.EmitFdeFrame(cie, base + x.offset, x.size, x.encoding, lsda);
    } else if ModeOf(x.encoding) == Frameless {
      e.EmitFdeFrameless(cie, base + x.offset, x.size, x.encoding, lsda);
    } else {
      e.EmitFdeMinimal(cie, base + x.offset, x.size, lsda);
    }
  }

  lemma CieStart(ps: seq<nat>, j: nat)
    requires j <= |ps|
    ensures PosOf(0, CieItems(ps), j) <= |Layout(0, CieItems(ps))|
  {
    hide Record, CieItems, Layout, PosOf;
    LayoutPrefix(0, CieItems(ps), j);
  }
}
