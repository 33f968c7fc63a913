/** The unwind rules, addresses, personalities and LSDAs that a reader of the built section finds are the
    ones the compact encodings stand for (src/eh_frame.c). */
module EhMeaning {
  import opened Basics
  import opened Leb128
  import opened EhFrame
  import opened EhEntries
  import opened EhCfi
  import opened EhParse

  datatype Unwound = Unwound(cie: CieInfo, fde: FdeInfo, row: Row)

  /** Everything the FDE at pos says about the point `target` bytes into its function. */
  function Unwind(s: seq<Byte>, pos: nat, target: nat): Option<Unwound> {
    var b := RecordBody(s, pos);
    if b.None? || |b.value| < 4 then None else
      var back := FromLe(b.value[..4]);
      if back == 0 || back > pos + 4 then None else
        var c := RecordBody(s, pos + 4 - back);
        if c.None? then None else UnwindWith(ReadCie(c.value), b.value, target)
  }

  function UnwindWith(cie: Option<CieInfo>, b: seq<Byte>, target: nat): Option<Unwound> {
    if cie.None? then None else
      var fde := ReadFde(b, cie.value.hasLsda);
      var entry := Run(cie.value.initial, Blank, target, cie.value.codeAlign, cie.value.dataAlign);
      if fde.None? || entry.None? then None else
        var row := Run(fde.value.insns, entry.value, target, cie.value.codeAlign, cie.value.dataAlign);
        if row.None? then None else Some(Unwound(cie.value, fde.value, row.value))
  }

  lemma InitialRow(pad: nat, target: nat)
    ensures Run(InitialInsns() + Zeros(pad), Blank, target, 4, -8) == Some(AtEntry)
  {
    hide Run, PutU;
    RunDefCfa(RegSp, 0, Zeros(pad), Blank, target, 4, -8);
    RunNops(pad, AtEntry, target, 4, -8);
  }

  // ----- positions -----

  lemma {:induction false} PosBelow(pos: nat, items: seq<Item>, j: nat, k: nat)
    requires j < k <= |items|
    ensures PosOf(pos, items, j) + |Record(PosOf(pos, items, j), items[j])| <= PosOf(pos, items, k)
    decreases j
  {
    hide Record;
    var next := pos + |Record(pos, items[0])|;
    if j > 0 {
      PosBelow(next, items[1..], j - 1, k - 1);
    }
  }

  lemma {:induction false} PosPrefix(pos: nat, a: seq<Item>, b: seq<Item>, k: nat)
    requires k <= |a|
    ensures PosOf(pos, a + b, k) == PosOf(pos, a, k)
    decreases k
  {
    hide Record;
    if k > 0 {
      assert (a + b)[1..] == a[1..] + b;
      PosPrefix(pos + |Record(pos, a[0])|, a[1..], b, k - 1);
    }
  }

  // ----- one FDE and its CIE -----

  /** An FDE whose pointer names a CIE reads back whole. */
  lemma PairMeaning(s: seq<Byte>, at: nat, p: nat, pos: nat, addr: nat, size: nat, lsda: nat, enc: nat, target: nat)
    requires At(s, at, Record(at, Cie(p))) && at <= pos && |s| < 0x1_0000_0000
    requires At(s, pos, Record(pos, Fde(at, addr, size, lsda, Insns(enc))))
    requires p < TWO64 && addr < TWO64 && size < TWO64 && lsda < TWO64
    ensures var u := Unwind(s, pos, target);
      && u.Some? && Rules(u.value.row, enc, target)
      && u.value.fde.addr == addr && u.value.fde.size == size && u.value.fde.lsda == (if p == 0 then 0 else lsda)
      && u.value.cie.personality == p && u.value.cie.ra == RegLr
  {
    hide Record, Body, ReadCie, ReadFde, Run, Insns, InitialInsns, Rules, FromLe, PadTo8, Zeros, FdeHead, CieBody;
    var i := Fde(at, addr, size, lsda, Insns(enc));
    var pad := PadTo8(pos + 4 + |Body(pos, i)|);
    var cpad := PadTo8(at + 4 + |Body(at, Cie(p))|);
    ReadRecord(s, pos, i);
    ReadRecord(s, at, Cie(p));
    BodyShapes(pos, i, at, p);
    var head := FdeHead(pos + 4 - at, addr, size, lsda);
    assert head + Insns(enc) + Zeros(pad) == head + (Insns(enc) + Zeros(pad));
    HeadBack(pos + 4 - at, addr, size, lsda, Insns(enc) + Zeros(pad));
    CieRead(p, cpad);
    FdeRead(pos + 4 - at, addr, size, lsda, Insns(enc) + Zeros(pad), p != 0);
    InitialRow(cpad, target);
    InsnsMeaning(enc, pad, target);
  }

  lemma BodyShapes(pos: nat, i: Item, at: nat, p: nat)
    requires i.Fde? && i.cie == at <= pos
    ensures Body(pos, i) == FdeHead(pos + 4 - at, i.addr, i.size, i.lsda) + i.insns
    ensures Body(at, Cie(p)) == CieBody(p)
  {
  }

  lemma HeadBack(back: nat, addr: nat, size: nat, lsda: nat, rest: seq<Byte>)
    requires back < 0x1_0000_0000
    ensures var b := FdeHead(back, addr, size, lsda) + rest; |b| >= 4 && FromLe(b[..4]) == back
  {
    hide Le, FromLe, PutU;
    LeWords(back);
    assert (FdeHead(back, addr, size, lsda) + rest)[..4] == Le(back, 4);
  }

  // ----- the section -----

  /** The personality an encoding selects, 0 for none. */
  function PersonalityOf(ps: seq<nat>, enc: nat): nat {
    var k := CieIndex(ps, enc);
    if k == 0 then 0 else ps[k - 1]
  }

  /** What the format can express. */
  ghost predicate InRange(base: nat, ps: seq<nat>, e: Entry) {
    && base + e.offset < TWO64 && e.size < TWO64 && base + e.lsda < TWO64
    && forall k :: 0 <= k < |ps| ==> ps[k] < TWO64
  }

  lemma CiesFirst(ps: seq<nat>, rest: seq<Item>, k: nat)
    requires k < |CieItems(ps) + rest| && (CieItems(ps) + rest)[k].Fde?
    ensures k > |ps|
  {
    hide CieItems;
  }

  /** For every function that gets an FDE, every encoding and every point in the function: the address
      range, the unwind rules and the personality read from the section are right; the LSDA is lost
      exactly when there is one but no personality to read it. */
  lemma SectionMeaning(base: nat, ps: seq<nat>, es: seq<Entry>, e: Entry, k: nat, target: nat)
    requires var items := Items(base, ps, es);
      |Section(items)| < 0x1_0000_0000 && k < |items| && items[k] == FdeOf(base, ps, e)
    requires InRange(base, ps, e)
    ensures var items := Items(base, ps, es);
      var u := Unwind(Section(items), PosOf(0, items, k), target);
      && u.Some? && Rules(u.value.row, e.encoding, target)
      && u.value.fde.addr == base + e.offset && u.value.fde.size == e.size
      && u.value.cie.personality == PersonalityOf(ps, e.encoding) && u.value.cie.ra == RegLr
      && u.value.fde.lsda == (if PersonalityOf(ps, e.encoding) == 0 then 0 else LsdaOf(base, e))
      && (u.value.fde.lsda == LsdaOf(base, e) <==> LsdaOf(base, e) == 0 || PersonalityOf(ps, e.encoding) != 0)
  {
    hide Record, Layout, Unwind, Rules, Section, CieItems, FdeItems, At, Insns, ModeOf;
    var items, j := Items(base, ps, es), CieIndex(ps, e.encoding);
    CiesFirst(ps, FdeItems(base, ps, es), k);
    assert items[j].Cie? && items[j].personality == PersonalityOf(ps, e.encoding);
    SectionAt(items);
    RecordAt(Section(items), 0, items, j);
    RecordAt(Section(items), 0, items, k);
    PosPrefix(0, CieItems(ps), FdeItems(base, ps, es), j);
    PosBelow(0, items, j, k);
    PairMeaning(Section(items), PosOf(0, items, j), PersonalityOf(ps, e.encoding), PosOf(0, items, k),
                base + e.offset, e.size, LsdaOf(base, e), e.encoding, target);
  }
}
