/** From compact unwind entries to records (src/eh_frame.c): which entries get an FDE, which CIE it
    points at, and how much room the section needs. */
module EhEntries {
  import opened Leb128
  import opened EhFrame

  /** Offsets count from the text base; lsda 0 means none. */
  datatype Entry = Entry(offset: nat, size: nat, encoding: nat, lsda: nat)

  predicate HasLsda(enc: nat) {
    Bit(enc, 0x4000_0000)
  }

  predicate Continues(enc: nat) {
    Bit(enc, 0x8000_0000)
  }

  function PersonalityIndex(enc: nat): nat {
    enc / 0x1000_0000 % 4
  }

  /** DWARF-mode entries are described elsewhere, continuations are not functions. */
  predicate Emitted(e: Entry) {
    ModeOf(e.encoding) != Dwarf && !Continues(e.encoding)
  }

  function CieItems(ps: seq<nat>): (items: seq<Item>)
    ensures |items| == 1 + |ps| && forall k :: 0 <= k < |items| ==> items[k].Cie?
    ensures items[0] == Cie(0) && forall k :: 0 <= k < |ps| ==> items[k + 1] == Cie(ps[k])
  {
    [Cie(0)] + seq(|ps|, k requires 0 <= k < |ps| => Cie(ps[k]))
  }

  /** Position of record k. */
  function PosOf(pos: nat, items: seq<Item>, k: nat): (p: nat)
    requires k <= |items|
    ensures p >= pos
    decreases k
  {
    if k == 0 then pos else PosOf(pos + |Record(pos, items[0])|, items[1..], k - 1)
  }

  /** The CIE an encoding selects: that of its personality, or the first one, without any. */
  function CieIndex(ps: seq<nat>, enc: nat): (k: nat)
    ensures k <= |ps|
  {
    if 0 < PersonalityIndex(enc) <= |ps| then PersonalityIndex(enc) else 0
  }

  function LsdaOf(base: nat, e: Entry): nat {
    if HasLsda(e.encoding) && e.lsda != 0 then base + e.lsda else 0
  }

  function FdeOf(base: nat, ps: seq<nat>, e: Entry): Item {
    Fde(PosOf(0, CieItems(ps), CieIndex(ps, e.encoding)), base + e.offset, e.size, LsdaOf(base, e), Insns(e.encoding))
  }

  function FdeItems(base: nat, ps: seq<nat>, es: seq<Entry>): seq<Item> {
    if es == [] then [] else
      (if Emitted(es[0]) then [FdeOf(base, ps, es[0])] else []) + FdeItems(base, ps, es[1..])
  }

  function Items(base: nat, ps: seq<nat>, es: seq<Entry>): seq<Item> {
    CieItems(ps) + FdeItems(base, ps, es)
  }

  // ----- layout -----

  lemma {:induction false} LayoutAdd(pos: nat, a: seq<Item>, b: seq<Item>)
    ensures PosOf(pos, a, |a|) == pos + |Layout(pos, a)|
    ensures Layout(pos, a + b) == Layout(pos, a) + Layout(pos + |Layout(pos, a)|, b)
    decreases |a|
  {
    hide Record;
    if a == [] {
      assert a + b == b;
    } else {
      assert (a + b)[1..] == a[1..] + b;
      LayoutAdd(pos + |Record(pos, a[0])|, a[1..], b);
    }
  }

  /** Every record is a multiple of eight bytes, so all stay aligned. */
  lemma RecordAligned(pos: nat, i: Item)
    requires pos % 8 == 0
    ensures |Record(pos, i)| == 4 + |Body(pos, i)| + PadTo8(4 + |Body(pos, i)|)
    ensures |Record(pos, i)| % 8 == 0
  {
    hide Body, PadTo8;
    PadAligned(pos, 4 + |Body(pos, i)|);
  }

  lemma PadAligned(pos: nat, n: nat)
    requires pos % 8 == 0
    ensures PadTo8(pos + n) == PadTo8(n) && (n + PadTo8(n)) % 8 == 0
  {
    assert (pos + n) % 8 == n % 8;
  }

  // ----- sizes -----

  /** Whether the FDE of an entry carries an LSDA. */
  predicate WithLsda(e: Entry) {
    HasLsda(e.encoding) && e.lsda != 0
  }

  function RoundTo8(n: nat): nat {
    (n + 7) / 8 * 8
  }

  /** Bytes of the call frame instructions: a frame's 8, 4 for each X pair and 6 for each D pair; a
      frameless function's 4 and its stack size as a LEB128 number. */
  function InsnBytes(enc: nat): nat {
    match ModeOf(enc)
    case Frame => 8 + 2 * |XRegs(enc)| + 3 * |DRegs(enc)|
    case Frameless =>
      var n := StackSize(enc);
      if n == 0 then 0 else 4 + (if n < 0x80 then 1 else if n < 0x4000 then 2 else 3)
    case _ => 0
  }

  function FdeBytes(enc: nat, lsda: bool): nat {
    RoundTo8(25 + (if lsda then 8 else 0) + InsnBytes(enc))
  }

  function FdesBytes(es: seq<Entry>): nat {
    if es == [] then 0 else
      (if Emitted(es[0]) then FdeBytes(es[0].encoding, WithLsda(es[0])) else 0) + FdesBytes(es[1..])
  }

  function CiesBytes(ps: seq<nat>): nat {
    if ps == [] then 0 else (if ps[0] == 0 then 24 else 32) + CiesBytes(ps[1..])
  }

  /** A frame with x X pairs and d D pairs takes 33 + 4x + 6d bytes, 8 more with an LSDA, rounded up. */
  lemma FrameSize(pos: nat, cie: nat, addr: nat, size: nat, lsda: nat, enc: nat)
    requires pos % 8 == 0
    ensures |Record(pos, Fde(cie, addr, size, lsda, FrameInsns(enc)))| ==
            RoundTo8(33 + (if lsda == 0 then 0 else 8) + 2 * |XRegs(enc)| + 3 * |DRegs(enc)|)
  {
    hide FrameInsns, XRegs, DRegs, Record;
    RecordSize(pos, Fde(cie, addr, size, lsda, FrameInsns(enc)));
    FrameInsnsSize(enc);
  }

  lemma RecordSize(pos: nat, i: Item)
    requires pos % 8 == 0 && i.Fde?
    ensures |Record(pos, i)| == RoundTo8(25 + (if i.lsda == 0 then 0 else 8) + |i.insns|)
  {
    hide FdeHead, Record, PadTo8;
    RecordAligned(pos, i);
    PadRounds(25 + (if i.lsda == 0 then 0 else 8) + |i.insns|);
    HeadSize(if i.cie <= pos + 4 then pos + 4 - i.cie else 0, i.addr, i.size, i.lsda);
  }

  lemma PadRounds(n: nat)
    ensures n + PadTo8(n) == RoundTo8(n)
  {
  }

  lemma InsnsSize(enc: nat)
    ensures |Insns(enc)| == InsnBytes(enc)
  {
    hide FrameInsns, FramelessInsns, XRegs, DRegs, ModeOf;
    FrameInsnsSize(enc);
    FramelessInsnsSize(enc);
  }

  /** Every record has the size its encoding gives it. */
  lemma FdeSize(pos: nat, base: nat, ps: seq<nat>, e: Entry)
    requires pos % 8 == 0
    ensures |Record(pos, FdeOf(base, ps, e))| == FdeBytes(e.encoding, WithLsda(e))
  {
    hide Record, Insns, InsnBytes, PosOf, CieItems, CieIndex, HasLsda;
    RecordSize(pos, FdeOf(base, ps, e));
    InsnsSize(e.encoding);
  }

  lemma LayoutFirst(pos: nat, items: seq<Item>)
    requires items != []
    ensures |Layout(pos, items)| == |Record(pos, items[0])| + |Layout(pos + |Record(pos, items[0])|, items[1..])|
  {
    hide Record;
  }

  lemma LayoutNone(pos: nat)
    ensures Layout(pos, []) == []
  {
  }

  lemma {:induction false} FdesSize(pos: nat, base: nat, ps: seq<nat>, es: seq<Entry>)
    requires pos % 8 == 0
    ensures |Layout(pos, FdeItems(base, ps, es))| == FdesBytes(es)
    decreases |es|
  {
    hide Record, Layout, FdeOf, FdeBytes, Emitted, WithLsda;
    if es == [] {
      LayoutNone(pos);
    } else if Emitted(es[0]) {
      var i := FdeOf(base, ps, es[0]);
      FdeSize(pos, base, ps, es[0]);
      RecordAligned(pos, i);
      assert FdeItems(base, ps, es) == [i] + FdeItems(base, ps, es[1..]);
      LayoutFirst(pos, FdeItems(base, ps, es));
      FdesSize(pos + |Record(pos, i)|, base, ps, es[1..]);
    } else {
      assert FdeItems(base, ps, es) == FdeItems(base, ps, es[1..]);
      FdesSize(pos, base, ps, es[1..]);
    }
  }

  lemma CieRecordSize(pos: nat, p: nat)
    requires pos % 8 == 0
    ensures |Record(pos, Cie(p))| == if p == 0 then 24 else 32
  {
    hide CieBody;
    RecordAligned(pos, Cie(p));
    CieSize(p);
  }

  lemma {:induction false} CieTail(pos: nat, items: seq<Item>, ps: seq<nat>)
    requires pos % 8 == 0 && |items| == |ps| && forall k :: 0 <= k < |ps| ==> items[k] == Cie(ps[k])
    ensures |Layout(pos, items)| == CiesBytes(ps) && CiesBytes(ps) % 8 == 0
    decreases |items|
  {
    hide Record, Layout;
    if items == [] {
      LayoutNone(pos);
    } else {
      LayoutFirst(pos, items);
      CieRecordSize(pos, ps[0]);
      CieTail(pos + |Record(pos, items[0])|, items[1..], ps[1..]);
    }
  }

  lemma CiesSize(ps: seq<nat>)
    ensures |Layout(0, CieItems(ps))| == 24 + CiesBytes(ps) && CiesBytes(ps) % 8 == 0
  {
    hide Record, Layout, CieItems;
    LayoutFirst(0, CieItems(ps));
    CieRecordSize(0, 0);
    CieTail(24, CieItems(ps)[1..], ps);
  }

  lemma SectionSize(base: nat, ps: seq<nat>, es: seq<Entry>)
    ensures |Section(Items(base, ps, es))| ==
            |Layout(0, CieItems(ps))| + |Layout(|Layout(0, CieItems(ps))|, FdeItems(base, ps, es))| + 4
  {
    hide CieItems, Layout, FdeItems, Record, Zeros;
    LayoutAdd(0, CieItems(ps), FdeItems(base, ps, es));
  }

  // ----- the reservation -----

  /** Bytes the program reserves for this many functions. */
  function Capacity(count: nat): nat {
    80 * count + 4096
  }

  /** The first CIE and the terminator, the personalities' CIEs, and the FDEs stay in the reservation. */
  predicate Reserved(ps: seq<nat>, es: seq<Entry>) {
    28 + CiesBytes(ps) + FdesBytes(es) <= 80 * |es| + 4096
  }

  /** The reservation holds the section exactly when the encodings' own sizes say so, wherever the code
      is loaded. */
  lemma FitsExactly(base: nat, ps: seq<nat>, es: seq<Entry>)
    ensures |Section(Items(base, ps, es))| == 28 + CiesBytes(ps) + FdesBytes(es)
    ensures |Section(Items(base, ps, es))| <= Capacity(|es|) <==> Reserved(ps, es)
  {
    hide CieItems, Layout, FdeItems, Section, Items;
    CiesSize(ps);
    SectionSize(base, ps, es);
    FdesSize(|Layout(0, CieItems(ps))|, base, ps, es);
  }

  /** The functions whose FDE exceeds the 80 bytes reserved for each. */
  predicate Big(e: Entry) {
    ModeOf(e.encoding) == Frame && WithLsda(e) && |DRegs(e.encoding)| == 8 && |XRegs(e.encoding)| >= 8
  }

  /** No FDE takes more than 88 bytes, and more than 80 only with everything saved and an LSDA. */
  lemma BigExactly(e: Entry)
    ensures 32 <= FdeBytes(e.encoding, WithLsda(e)) <= 88
    ensures FdeBytes(e.encoding, WithLsda(e)) > 80 <==> Big(e)
  {
    hide XRegs, DRegs, StackSize, WithLsda, ModeOf;
  }

  function BigCount(es: seq<Entry>): nat {
    if es == [] then 0 else (if Emitted(es[0]) && Big(es[0]) then 1 else 0) + BigCount(es[1..])
  }

  lemma {:induction false} FdesBound(es: seq<Entry>)
    ensures FdesBytes(es) <= 80 * |es| + 8 * BigCount(es)
    ensures BigCount(es) == |es| ==> FdesBytes(es) == 88 * |es|
    ensures BigCount(es) <= |es|
  {
    hide FdeBytes, Big, Emitted, WithLsda;
    if es != [] {
      BigExactly(es[0]);
      EightsOnly(es[0]);
      FdesBound(es[1..]);
    }
  }

  lemma EightsOnly(e: Entry)
    ensures FdeBytes(e.encoding, WithLsda(e)) % 8 == 0
  {
    hide InsnBytes, WithLsda;
  }

  lemma {:induction false} CiesBound(ps: seq<nat>)
    ensures CiesBytes(ps) <= 32 * |ps|
    ensures (forall k :: 0 <= k < |ps| ==> ps[k] != 0) ==> CiesBytes(ps) == 32 * |ps|
  {
    if ps != [] {
      CiesBound(ps[1..]);
      if forall k :: 0 <= k < |ps| ==> ps[k] != 0 {
        assert forall k :: 0 <= k < |ps| - 1 ==> ps[1..][k] == ps[k + 1];
      }
    }
  }

  /** Whatever else there is, 492 functions of the big kind always fit. */
  lemma SectionFits(base: nat, ps: seq<nat>, es: seq<Entry>)
    requires |ps| <= 4 && BigCount(es) <= 492
    ensures |Section(Items(base, ps, es))| <= Capacity(|es|)
  {
    hide FdesBytes, CiesBytes, BigCount, Section, Items;
    CiesBound(ps);
    FdesBound(es);
    FitsExactly(base, ps, es);
  }

  /** With four personalities and nothing but functions of the big kind, 493 are too many and fewer
      fit. */
  lemma SectionOverflows(base: nat, ps: seq<nat>, es: seq<Entry>)
    requires |ps| == 4 && (forall k :: 0 <= k < 4 ==> ps[k] != 0) && BigCount(es) == |es|
    ensures |Section(Items(base, ps, es))| > Capacity(|es|) <==> |es| >= 493
  {
    hide FdesBytes, CiesBytes, BigCount, Section, Items;
    CiesBound(ps);
    FdesBound(es);
    FitsExactly(base, ps, es);
  }
}
