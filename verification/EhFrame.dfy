/** The .eh_frame section that src/eh_frame.c builds from compact unwind encodings, as bytes. A record is
    a length, a body and padding to eight bytes; a body is that of a CIE or of an FDE. */
module EhFrame {
  import opened Leb128

  const RegFp: nat := 29
  const RegLr: nat := 30
  const RegSp: nat := 31

  const CfaAdvance1: Byte := 0x41
  const CfaNop: Byte := 0x00
  const CfaOffsetExtended: Byte := 0x05
  const CfaDefCfa: Byte := 0x0c
  const CfaDefCfaOffset: Byte := 0x0e

  // ----- little-endian numbers -----

  /** The low n bytes of v. */
  function Le(v: nat, n: nat): (s: seq<Byte>)
    ensures |s| == n
  {
    if n == 0 then [] else [v % 0x100] + Le(v / 0x100, n - 1)
  }

  function FromLe(s: seq<Byte>): nat {
    if s == [] then 0 else s[0] + 0x100 * FromLe(s[1..])
  }

  function Pow256(n: nat): (r: int)
    ensures r > 0
  {
    if n == 0 then 1 else 0x100 * Pow256(n - 1)
  }

  lemma {:induction false} LeRoundTrip(v: nat, n: nat)
    requires v < Pow256(n)
    ensures FromLe(Le(v, n)) == v
    decreases n
  {
    if n > 0 {
      LeRoundTrip(v / 0x100, n - 1);
    }
  }

  /** Byte k has the weight 2^(8k). */
  lemma {:induction false} LeByte(v: nat, n: nat, k: nat)
    requires k < n
    ensures Le(v, n)[k] == v / Pow256(k) % 0x100
    decreases n
  {
    if k > 0 {
      LeByte(v / 0x100, n - 1, k - 1);
      QuotientTwice(v, Pow256(k - 1));
    }
  }

  lemma QuotientTwice(x: nat, p: int)
    requires p > 0
    ensures x / (0x100 * p) == x / 0x100 / p
  {
    var q, r := x / 0x100, x % 0x100;
    var h, m := q / p, q % p;
    assert x == 0x100 * q + r && q == p * h + m;
    assert x == (0x100 * p) * h + (0x100 * m + r) by {
      Weigh(p, h, m);
    }
    QuotientIs(x, 0x100 * p, h, 0x100 * m + r);
  }

  lemma Weigh(p: int, h: int, m: int)
    ensures 0x100 * (p * h + m) == (0x100 * p) * h + 0x100 * m
  {
  }

  /** The two widths, spelt out. */
  lemma LittleEndian(v: nat)
    ensures Le(v, 4) == [v % 0x100, v / 0x100 % 0x100, v / 0x1_0000 % 0x100, v / 0x100_0000 % 0x100]
    ensures Le(v, 8)[..4] == Le(v, 4)
    ensures Le(v, 8)[4] == v / 0x1_0000_0000 % 0x100 && Le(v, 8)[5] == v / 0x100_0000_0000 % 0x100
    ensures Le(v, 8)[6] == v / 0x1_0000_0000_0000 % 0x100 && Le(v, 8)[7] == v / 0x100_0000_0000_0000 % 0x100
    ensures v < 0x1_0000_0000 ==> FromLe(Le(v, 4)) == v
    ensures v < TWO64 ==> FromLe(Le(v, 8)) == v
  {
    LeWords(v);
    Weights();
    hide Le, FromLe, Pow256;
    forall k | 0 <= k < 4 ensures Le(v, 4)[k] == v / Pow256(k) % 0x100 && Le(v, 8)[k] == v / Pow256(k) % 0x100 {
      LeByte(v, 4, k);
      LeByte(v, 8, k);
    }
    LeByte(v, 8, 4);
    LeByte(v, 8, 5);
    LeByte(v, 8, 6);
    LeByte(v, 8, 7);
  }

  lemma Weights()
    ensures Pow256(0) == 1 && Pow256(1) == 0x100 && Pow256(2) == 0x1_0000 && Pow256(3) == 0x100_0000
    ensures Pow256(4) == 0x1_0000_0000 && Pow256(5) == 0x100_0000_0000
    ensures Pow256(6) == 0x1_0000_0000_0000 && Pow256(7) == 0x100_0000_0000_0000
  {
  }

  lemma LeWords(v: nat)
    ensures v < 0x1_0000_0000 ==> FromLe(Le(v, 4)) == v
    ensures v < TWO64 ==> FromLe(Le(v, 8)) == v
  {
    assert Pow256(4) == 0x1_0000_0000;
    assert Pow256(8) == TWO64;
    if v < 0x1_0000_0000 { LeRoundTrip(v, 4); }
    if v < TWO64 { LeRoundTrip(v, 8); }
  }

  function Zeros(n: nat): (s: seq<Byte>)
    ensures |s| == n && forall k :: 0 <= k < n ==> s[k] == 0
  {
    if n == 0 then [] else [0] + Zeros(n - 1)
  }

  // ----- compact encodings -----

  /** The bit of weight b. */
  predicate Bit(enc: nat, b: nat)
    requires b > 0
  {
    enc / b % 2 == 1
  }

  function Pair(enc: nat, b: nat, r: nat): (p: seq<nat>)
    requires b > 0
    ensures p == [] || p == [r, r + 1]
  {
    if Bit(enc, b) then [r, r + 1] else []
  }

  /** n pairs, from bit weight b and register r on. */
  function Pairs(enc: nat, b: nat, r: nat, n: nat): (p: seq<nat>)
    requires b > 0
    ensures |p| <= 2 * n && |p| % 2 == 0
    ensures forall k :: 0 <= k < |p| ==> r <= p[k] < r + 2 * n
    ensures forall j, k :: 0 <= j < k < |p| ==> p[j] < p[k]
    decreases n
  {
    if n == 0 then [] else Pair(enc, b, r) + Pairs(enc, 2 * b, r + 2, n - 1)
  }

  /** X19 to X28, five bits from bit 0. */
  function XRegs(enc: nat): (p: seq<nat>)
    ensures |p| <= 10 && |p| % 2 == 0 && forall k :: 0 <= k < |p| ==> 19 <= p[k] < 29
  {
    Pairs(enc, 0x1, 19, 5)
  }

  /** D8 to D15, four bits from bit 8; DWARF numbers them from 72. */
  function DRegs(enc: nat): (p: seq<nat>)
    ensures |p| <= 8 && |p| % 2 == 0 && forall k :: 0 <= k < |p| ==> 72 <= p[k] < 80
  {
    Pairs(enc, 0x100, 72, 4)
  }

  /** The callee-saved registers an encoding names, in the order they are stored. */
  function Saved(enc: nat): (p: seq<nat>)
    ensures |p| <= 18 && forall k :: 0 <= k < |p| ==> p[k] < 0x80 && p[k] != RegFp && p[k] != RegLr
    ensures forall j, k :: 0 <= j < k < |p| ==> p[j] < p[k]
  {
    hide *;
    XRegs(enc) + DRegs(enc)
  }

  /** Frame size of a frameless function, in bytes. */
  function StackSize(enc: nat): nat {
    enc / 0x1000 % 0x1000 * 16
  }

  datatype Mode = Frame | Frameless | Dwarf | Other

  function ModeOf(enc: nat): Mode {
    var m := enc / 0x100_0000 % 0x10;
    if m == 2 then Frameless else if m == 3 then Dwarf else if m == 4 then Frame else Other
  }

  // ----- call frame instructions -----

  /** D registers do not fit the six bits of the short form. */
  function SaveOne(r: nat, slot: nat): seq<Byte>
    requires r < 0x80
  {
    if r < 0x40 then [0x80 + r] + PutU(slot) else [CfaOffsetExtended] + PutU(r) + PutU(slot)
  }

  function Saves(regs: seq<nat>, slot: nat): seq<Byte>
    requires forall k :: 0 <= k < |regs| ==> regs[k] < 0x80
  {
    if regs == [] then [] else SaveOne(regs[0], slot) + Saves(regs[1..], slot + 1)
  }

  function DefCfa(r: nat, n: nat): seq<Byte> {
    [CfaDefCfa] + PutU(r) + PutU(n)
  }

  function FramePrologue(): seq<Byte> {
    [CfaAdvance1] + DefCfa(RegFp, 16) + SaveOne(RegLr, 1) + SaveOne(RegFp, 2)
  }

  function FrameInsns(enc: nat): seq<Byte> {
    FramePrologue() + Saves(Saved(enc), 3)
  }

  function FramelessInsns(enc: nat): seq<Byte> {
    if StackSize(enc) == 0 then []
    else [CfaAdvance1] + ([CfaDefCfaOffset] + PutU(StackSize(enc))) + SaveOne(RegLr, 1)
  }

  function Insns(enc: nat): seq<Byte> {
    match ModeOf(enc)
    case Frame => FrameInsns(enc)
    case Frameless => FramelessInsns(enc)
    case _ => []
  }

  // ----- records -----

  datatype Item =
    | Cie(personality: nat)
    | Fde(cie: nat, addr: nat, size: nat, lsda: nat, insns: seq<Byte>)

  function CieAugmentation(p: nat): seq<Byte> {
    if p == 0 then ['z' as int, 'R' as int, 0] else ['z' as int, 'P' as int, 'L' as int, 'R' as int, 0]
  }

  function CieData(p: nat): seq<Byte> {
    if p == 0 then PutU(1) + [0] else PutU(11) + [0] + Le(p, 8) + [0] + [0]
  }

  function CieBody(p: nat): seq<Byte> {
    Le(0, 4) + [1] + CieAugmentation(p) + (PutU(4) + PutS(-8) + PutU(RegLr) + CieData(p) + InitialInsns())
  }

  /** At entry the CFA is the stack pointer. */
  function InitialInsns(): seq<Byte> {
    DefCfa(RegSp, 0)
  }

  function FdeHead(back: nat, addr: nat, size: nat, lsda: nat): seq<Byte> {
    Le(back, 4) + Le(addr, 8) + Le(size, 8) + (if lsda == 0 then PutU(0) else PutU(8) + Le(lsda, 8))
  }

  /** The CIE pointer counts back from its own position. */
  function Body(pos: nat, i: Item): seq<Byte> {
    match i
    case Cie(p) => CieBody(p)
    case Fde(cie, addr, size, lsda, insns) =>
      FdeHead(if cie <= pos + 4 then pos + 4 - cie else 0, addr, size, lsda) + insns
  }

  function PadTo8(n: nat): nat {
    (8 - n % 8) % 8
  }

  function Record(pos: nat, i: Item): (s: seq<Byte>)
    ensures |s| >= 4
  {
    var b := Body(pos, i);
    var pad := Zeros(PadTo8(pos + 4 + |b|));
    Le(|b| + |pad|, 4) + b + pad
  }

  function Layout(pos: nat, items: seq<Item>): seq<Byte>
    decreases |items|
  {
    if items == [] then [] else
      var r := Record(pos, items[0]);
      r + Layout(pos + |r|, items[1..])
  }

  /** The section: all records, then a zero length. */
  function Section(items: seq<Item>): seq<Byte> {
    Layout(0, items) + Zeros(4)
  }

  /** The FDEs a table should list: start address and position. */
  function Listed(pos: nat, items: seq<Item>): seq<(nat, nat)>
    decreases |items|
  {
    if items == [] then [] else
      (if items[0].Fde? then [(items[0].addr, pos)] else []) + Listed(pos + |Record(pos, items[0])|, items[1..])
  }

  // ----- sizes -----

  lemma SmallU(v: nat)
    requires v < 0x80
    ensures PutU(v) == [v]
  {
  }

  lemma CieSize(p: nat)
    ensures |CieBody(p)| == if p == 0 then 16 else 28
  {
    hide Le;
    SmallU(4);
    SmallU(RegLr);
    SmallU(1);
    SmallU(11);
    SmallU(RegSp);
    SmallU(0);
    assert PutS(-8) == [0x78];
  }

  lemma {:induction false} SavesSize(regs: seq<nat>, slot: nat)
    requires forall k :: 0 <= k < |regs| ==> regs[k] < 0x80
    requires slot + |regs| <= 0x80
    ensures |Saves(regs, slot)| == 2 * |regs| + Wide(regs)
    decreases |regs|
  {
    if regs != [] {
      SmallU(slot);
      SmallU(regs[0]);
      SavesSize(regs[1..], slot + 1);
    }
  }

  /** How many registers need the long form. */
  function Wide(regs: seq<nat>): nat {
    if regs == [] then 0 else (if regs[0] < 0x40 then 0 else 1) + Wide(regs[1..])
  }

  lemma {:induction false} WideAdd(a: seq<nat>, b: seq<nat>)
    ensures Wide(a + b) == Wide(a) + Wide(b)
  {
    if a == [] {
      assert a + b == b;
    } else {
      assert (a + b)[1..] == a[1..] + b;
      WideAdd(a[1..], b);
    }
  }

  lemma {:induction false} WideAll(a: seq<nat>, wide: bool)
    requires forall k :: 0 <= k < |a| ==> (a[k] < 0x40) == !wide
    ensures Wide(a) == if wide then |a| else 0
  {
    if a != [] {
      WideAll(a[1..], wide);
    }
  }

  /** With x X pairs and d D pairs the instructions of a frame take 8 + 4x + 6d bytes. */
  lemma FrameInsnsSize(enc: nat)
    ensures |FrameInsns(enc)| == 8 + 2 * |XRegs(enc)| + 3 * |DRegs(enc)|
  {
    hide XRegs, DRegs, Saves, Wide;
    SmallU(RegFp);
    SmallU(16);
    SmallU(1);
    SmallU(2);
    SavesSize(Saved(enc), 3);
    WideAdd(XRegs(enc), DRegs(enc));
    WideAll(XRegs(enc), false);
    WideAll(DRegs(enc), true);
  }

  lemma FramelessInsnsSize(enc: nat)
    ensures var n := StackSize(enc);
      |FramelessInsns(enc)| == if n == 0 then 0 else 4 + (if n < 0x80 then 1 else if n < 0x4000 then 2 else 3)
  {
    var n := StackSize(enc);
    SmallU(1);
    UnsignedLength(n, 1);
    UnsignedLength(n, 2);
    UnsignedLength(n, 3);
    assert Power(1) == 0x80 && Power(2) == 0x4000 && Power(3) == 0x20_0000;
  }

  lemma HeadSize(back: nat, addr: nat, size: nat, lsda: nat)
    ensures |FdeHead(back, addr, size, lsda)| == if lsda == 0 then 21 else 29
  {
    hide Le;
    SmallU(0);
    SmallU(8);
  }
}
