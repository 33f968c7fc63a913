/** What the built section (src/eh_frame.c) means, said of compact encodings put together from their parts:
    the registers a frame saves, the stack size of a frameless function, personality, LSDA and
    continuation. */
module EhParts {
  import opened Basics
  import opened Leb128
  import opened EhFrame
  import opened EhEntries
  import opened EhCfi
  import opened EhParse
  import opened EhMeaning
  import opened EhRead
  import opened EhBuild

  /** The low 28 bits of an encoding. A frame saves pairs from X19 and from D8 on; a frameless function
      has a stack of 16-byte units; the rest of the bits have no meaning. */
  datatype Shape =
    | FrameShape(x: seq<bool>, d: seq<bool>, low: nat, high: nat)
    | FramelessShape(units: nat, low: nat)
    | DwarfShape(rest: nat)
    | OtherShape(mode: nat, rest: nat)

  datatype Parts = Parts(shape: Shape, personality: nat, lsda: bool, continuation: bool)

  predicate Proper(p: Parts) {
    && p.personality < 4
    && match p.shape
       case FrameShape(x, d, low, high) => |x| == 5 && |d| == 4 && low < 8 && high < 0x1000
       case FramelessShape(units, low) => units < 0x1000 && low < 0x1000
       case DwarfShape(rest) => rest < 0x100_0000
       case OtherShape(mode, rest) => mode < 0x10 && mode != 2 && mode != 3 && mode != 4 && rest < 0x100_0000
  }

  /** The number whose binary digits these are, the lowest first. */
  function Number(bits: seq<bool>): nat {
    if bits == [] then 0 else (if bits[0] then 1 else 0) + 2 * Number(bits[1..])
  }

  function ShapeCode(s: Shape): nat {
    match s
    case FrameShape(x, d, low, high) => 0x0400_0000 + Number(x) + 0x20 * low + 0x100 * Number(d) + 0x1000 * high
    case FramelessShape(units, low) => 0x0200_0000 + 0x1000 * units + low
    case DwarfShape(rest) => 0x0300_0000 + rest
    case OtherShape(mode, rest) => 0x100_0000 * mode + rest
  }

  function Code(p: Parts): nat {
    ShapeCode(p.shape) + 0x1000_0000 * p.personality
    + (if p.lsda then 0x4000_0000 else 0) + (if p.continuation then 0x8000_0000 else 0)
  }

  /** The registers of a list of pairs, from register r on. */
  function PairList(bits: seq<bool>, r: nat): seq<nat> {
    if bits == [] then [] else (if bits[0] then [r, r + 1] else []) + PairList(bits[1..], r + 2)
  }

  // ----- the fields of an encoding -----

  lemma {:induction false} NumberBound(bits: seq<bool>)
    ensures |bits| == 4 ==> Number(bits) < 0x10
    ensures |bits| == 5 ==> Number(bits) < 0x20
  {
    NumberPower(bits);
    assert Power2(4) == 0x10 && Power2(5) == 0x20;
  }

  function Power2(n: nat): (r: nat)
    ensures r > 0
  {
    if n == 0 then 1 else 2 * Power2(n - 1)
  }

  lemma {:induction false} NumberPower(bits: seq<bool>)
    ensures Number(bits) < Power2(|bits|)
  {
    if bits != [] {
      NumberPower(bits[1..]);
    }
  }

  lemma ShapeBound(s: Shape)
    requires Proper(Parts(s, 0, false, false))
    ensures ShapeCode(s) < 0x1000_0000
    ensures ShapeCode(s) / 0x100_0000 ==
      match s
      case FrameShape(_, _, _, _) => 4
      case FramelessShape(_, _) => 2
      case DwarfShape(_) => 3
      case OtherShape(mode, _) => mode
  {
    if s.FrameShape? {
      NumberBound(s.x);
      NumberBound(s.d);
      hide Number;
    }
  }

  lemma TopFields(c: nat, p: nat, l: nat, k: nat)
    requires c < 0x1000_0000 && p < 4 && l < 2 && k < 2
    ensures var enc := c + 0x1000_0000 * p + 0x4000_0000 * l + 0x8000_0000 * k;
      && enc / 0x1000_0000 % 4 == p && enc / 0x4000_0000 % 2 == l && enc / 0x8000_0000 % 2 == k
      && enc / 0x100_0000 % 0x10 == c / 0x100_0000 && enc % 0x100_0000 == c % 0x100_0000
  {
    var enc := c + 0x1000_0000 * p + 0x4000_0000 * l + 0x8000_0000 * k;
    assert enc / 0x1000_0000 == p + 4 * l + 8 * k;
    assert enc / 0x4000_0000 == l + 2 * k;
    assert enc / 0x8000_0000 == k;
    assert enc / 0x100_0000 == c / 0x100_0000 + 0x10 * (p + 4 * l + 8 * k);
  }

  /** Mode, personality index and flags of a built encoding. */
  lemma Fields(p: Parts)
    requires Proper(p)
    ensures var enc := Code(p);
      && ModeOf(enc) == (match p.shape
           case FrameShape(_, _, _, _) => Frame
           case FramelessShape(_, _) => Frameless
           case DwarfShape(_) => Dwarf
           case OtherShape(_, _) => Other)
      && PersonalityIndex(enc) == p.personality && HasLsda(enc) == p.lsda && Continues(enc) == p.continuation
      && enc % 0x100_0000 == ShapeCode(p.shape) % 0x100_0000
  {
    ShapeBound(p.shape);
    TopFields(ShapeCode(p.shape), p.personality, if p.lsda then 1 else 0, if p.continuation then 1 else 0);
    hide ShapeCode;
  }

  lemma HalfOf(x: nat, b: nat)
    requires b > 0
    ensures x / (2 * b) == x / b / 2
  {
    var q, r := x / b, x % b;
    var h, m := q / 2, q % 2;
    assert x == b * q + r && q == 2 * h + m;
    assert x == 2 * b * h + (b * m + r) by {
      Spread(b, m, h);
    }
    SmallPart(b, m, r);
    QuotientIs(x, 2 * b, h, b * m + r);
  }

  lemma Spread(b: nat, m: nat, h: nat)
    ensures b * (2 * h + m) == 2 * b * h + b * m
  {
  }

  lemma SmallPart(b: nat, m: nat, r: nat)
    requires m < 2 && r < b
    ensures 0 <= b * m + r < 2 * b
  {
    if m == 1 {
      assert b * m == b;
    }
  }

  /** The pairs an encoding names from a bit on are those of the digits there. */
  lemma {:induction false} PairsAre(enc: nat, b: nat, r: nat, bits: seq<bool>, q: nat)
    requires b > 0 && enc / b == Number(bits) + Power2(|bits|) * q
    ensures Pairs(enc, b, r, |bits|) == PairList(bits, r)
    decreases |bits|
  {
    if bits != [] {
      var rest := bits[1..];
      assert Power2(|bits|) * q == 2 * (Power2(|rest|) * q);
      HalfOf(enc, b);
      assert enc / b == (if bits[0] then 1 else 0) + 2 * (Number(rest) + Power2(|rest|) * q);
      PairsAre(enc, 2 * b, r + 2, rest, q);
    }
  }

  lemma FrameRegisters(p: Parts)
    requires Proper(p) && p.shape.FrameShape?
    ensures Saved(Code(p)) == PairList(p.shape.x, 19) + PairList(p.shape.d, 72)
  {
    var s, enc := p.shape, Code(p);
    Fields(p);
    NumberBound(s.x);
    NumberBound(s.d);
    var top := enc / 0x100_0000;
    LowDigits(enc, Number(s.x), s.low, Number(s.d), s.high, top);
    assert Power2(5) == 0x20 && Power2(4) == 0x10;
    PairsAre(enc, 1, 19, s.x, s.low + 8 * Number(s.d) + 0x80 * s.high + 0x8_0000 * top);
    PairsAre(enc, 0x100, 72, s.d, s.high + 0x1000 * top);
    hide Code, ModeOf;
  }

  lemma LowDigits(enc: nat, x: nat, low: nat, d: nat, high: nat, top: nat)
    requires x < 0x20 && low < 8 && d < 0x10 && high < 0x1000 && top == enc / 0x100_0000
    requires enc % 0x100_0000 == (0x0400_0000 + x + 0x20 * low + 0x100 * d + 0x1000 * high) % 0x100_0000
    ensures enc / 1 == x + 0x20 * (low + 8 * d + 0x80 * high + 0x8_0000 * top)
    ensures enc / 0x100 == d + 0x10 * (high + 0x1000 * top)
  {
    assert enc == 0x100_0000 * top + enc % 0x100_0000;
    assert enc % 0x100_0000 == x + 0x20 * low + 0x100 * d + 0x1000 * high;
    assert enc == (x + 0x20 * low) + 0x100 * (d + 0x10 * (high + 0x1000 * top));
  }

  lemma FramelessSize(p: Parts)
    requires Proper(p) && p.shape.FramelessShape?
    ensures StackSize(Code(p)) == 16 * p.shape.units
  {
    Fields(p);
    UnitsAt(Code(p), p.shape.units, p.shape.low);
    hide Code, ModeOf;
  }

  lemma UnitsAt(enc: nat, units: nat, low: nat)
    requires units < 0x1000 && low < 0x1000 && enc % 0x100_0000 == (0x0200_0000 + 0x1000 * units + low) % 0x100_0000
    ensures enc / 0x1000 % 0x1000 == units
  {
    var top := enc / 0x100_0000;
    assert enc == 0x100_0000 * top + enc % 0x100_0000;
    assert enc == 0x1000 * (0x1000 * top + units) + low;
    assert enc / 0x1000 == 0x1000 * top + units;
  }

  // ----- what the section says -----

  /** The unwind rules of a shape. At entry, and for a function without frame, the CFA is SP and nothing is
      saved. In a frame the CFA is FP+16, with LR and FP below it and then the registers of the pairs, in
      order, X as 19 to 28 and D as 72 to 79. Without a frame pointer the CFA is SP plus the stack. */
  ghost predicate RulesOf(s: Shape, row: Row, target: nat) {
    if target >= 4 && s.FrameShape? then
      var regs := PairList(s.x, 19) + PairList(s.d, 72);
      && row.cfaReg == 29 && row.cfaOffset == 16
      && 30 in row.saved && row.saved[30] == -8 && 29 in row.saved && row.saved[29] == -16
      && (forall k :: 0 <= k < |regs| ==> regs[k] in row.saved && row.saved[regs[k]] == -24 - 8 * k)
      && forall r :: r in row.saved ==> r == 30 || r == 29 || r in regs
    else if target >= 4 && s.FramelessShape? && s.units > 0 then
      row.cfaReg == 31 && row.cfaOffset == 16 * s.units && row.saved == map[30 := -8]
    else row.cfaReg == 31 && row.cfaOffset == 0 && row.saved == map[]
  }

  lemma RulesMean(p: Parts, row: Row, target: nat)
    requires Proper(p) && Rules(row, Code(p), target)
    ensures RulesOf(p.shape, row, target)
  {
    hide Saved, StackSize, ModeOf, Code, Pairs, PairList;
    Fields(p);
    if p.shape.FrameShape? {
      FrameRegisters(p);
    } else if p.shape.FramelessShape? {
      FramelessSize(p);
    }
  }

  /** Described elsewhere, or not a function. */
  predicate Silent(p: Parts) {
    p.shape.DwarfShape? || p.continuation
  }

  /** The personality that the parts select. */
  function Selected(p: Parts, ps: seq<nat>): nat {
    if 1 <= p.personality <= |ps| then ps[p.personality - 1] else 0
  }

  function Speaking(cs: seq<Parts>): nat {
    if cs == [] then 0 else (if Silent(cs[0]) then 0 else 1) + Speaking(cs[1..])
  }

  lemma EntryMeaning(base: nat, ps: seq<nat>, es: seq<Entry>, e: Entry, p: Parts, k: nat, target: nat)
    requires var items := Items(base, ps, es);
      |Section(items)| < 0x1_0000_0000 && k < |items| && items[k] == FdeOf(base, ps, e)
    requires InRange(base, ps, e) && Proper(p) && e.encoding == Code(p)
    ensures var u := Unwind(Section(Items(base, ps, es)), PosOf(0, Items(base, ps, es), k), target);
      u.Some? && Described(base, ps, e, p, u.value, target)
  {
    hide Unwind, Section, Items, FdeOf, PosOf, Code, Rules, RulesOf, HasLsda, ModeOf, PersonalityIndex, Continues;
    SectionMeaning(base, ps, es, e, k, target);
    var u := Unwind(Section(Items(base, ps, es)), PosOf(0, Items(base, ps, es), k), target);
    Fields(p);
    RulesMean(p, u.value.row, target);
  }

  /** What the reader finds for one function: its range, its rules, its personality, and its LSDA if there
      is a personality to read it. */
  ghost predicate Described(base: nat, ps: seq<nat>, e: Entry, p: Parts, u: Unwound, target: nat) {
    && u.fde.addr == base + e.offset && u.fde.size == e.size && RulesOf(p.shape, u.row, target)
    && u.cie.personality == Selected(p, ps) && u.cie.ra == 30
    && u.fde.lsda == (if p.lsda && e.lsda != 0 && Selected(p, ps) != 0 then base + e.lsda else 0)
  }

  // ----- function by function -----

  lemma {:induction false} ListedFdes(pos: nat, items: seq<Item>, m: nat)
    requires (forall k :: 0 <= k < |items| ==> items[k].Fde?) && m < |items|
    ensures |Listed(pos, items)| == |items| && Listed(pos, items)[m] == (items[m].addr, PosOf(pos, items, m))
    decreases |items|
  {
    hide Record;
    var next := pos + |Record(pos, items[0])|;
    if m > 0 {
      ListedFdes(next, items[1..], m - 1);
    } else if |items| > 1 {
      ListedFdes(next, items[1..], 0);
    }
  }

  lemma {:induction false} PosAfter(pos: nat, a: seq<Item>, b: seq<Item>, m: nat)
    requires m <= |b|
    ensures PosOf(pos, a + b, |a| + m) == PosOf(pos + |Layout(pos, a)|, b, m)
    decreases |a|
  {
    hide Record;
    if a == [] {
      assert a + b == b;
    } else {
      assert (a + b)[1..] == a[1..] + b;
      PosAfter(pos + |Record(pos, a[0])|, a[1..], b, m);
    }
  }

  /** The FDE of entry i is the one after those of the speaking entries before it. */
  lemma {:induction false} FdePlace(base: nat, ps: seq<nat>, es: seq<Entry>, cs: seq<Parts>, i: nat)
    requires |cs| == |es| && (forall k :: 0 <= k < |cs| ==> Proper(cs[k]) && es[k].encoding == Code(cs[k])) && i <= |es|
    ensures |FdeItems(base, ps, es)| == Speaking(cs) && Speaking(cs[..i]) <= Speaking(cs)
    ensures i < |es| && !Silent(cs[i]) ==>
      Speaking(cs[..i]) < |FdeItems(base, ps, es)| && FdeItems(base, ps, es)[Speaking(cs[..i])] == FdeOf(base, ps, es[i])
    decreases |es|
  {
    hide FdeOf, Code, ModeOf, Continues;
    if es != [] {
      EmittedMeans(es[0], cs[0]);
      assert forall k :: 0 <= k < |cs[1..]| ==> cs[1..][k] == cs[k + 1] && es[1..][k] == es[k + 1];
      if i == 0 {
        FdePlace(base, ps, es[1..], cs[1..], 0);
        assert cs[..0] == [];
      } else {
        FdePlace(base, ps, es[1..], cs[1..], i - 1);
        assert cs[..i][1..] == cs[1..][..i - 1] && cs[..i][0] == cs[0];
      }
    }
  }

  lemma EmittedMeans(e: Entry, p: Parts)
    requires Proper(p) && e.encoding == Code(p)
    ensures Emitted(e) <==> !Silent(p)
  {
    hide Code, ModeOf, Continues;
    Fields(p);
  }

  lemma {:induction false} AllFdes(base: nat, ps: seq<nat>, es: seq<Entry>)
    ensures forall k :: 0 <= k < |FdeItems(base, ps, es)| ==> FdeItems(base, ps, es)[k].Fde?
  {
    hide Emitted;
    if es != [] {
      AllFdes(base, ps, es[1..]);
    }
  }

  /** Walking the section of any functions, given by the parts of their encodings, finds one FDE for each
      that is neither described elsewhere nor a continuation, in order, and a reader unwinding any point of
      the function through it finds what the parts say. */
  lemma SectionOfParts(base: nat, ps: seq<nat>, es: seq<Entry>, cs: seq<Parts>, i: nat, target: nat)
    requires |cs| == |es| && (forall k :: 0 <= k < |cs| ==> Proper(cs[k]) && es[k].encoding == Code(cs[k]))
    requires |Section(Items(base, ps, es))| < 0x1_0000_0000
    requires forall k :: 0 <= k < |es| ==> 0 < base + es[k].offset && InRange(base, ps, es[k])
    requires i < |es|
    ensures var s := Section(Items(base, ps, es)); var list := Walk(s, 0);
      && |list| == Speaking(cs)
      && (!Silent(cs[i]) ==>
            && Speaking(cs[..i]) < |list| && list[Speaking(cs[..i])].0 == base + es[i].offset
            && var u := Unwind(s, list[Speaking(cs[..i])].1, target);
               u.Some? && Described(base, ps, es[i], cs[i], u.value, target))
  {
    hide Section, Unwind, Walk, Code, Items, FdeOf, Described, Proper, Silent, PosOf, InRange;
    ListedEntry(base, ps, es, cs, i);
    if !Silent(cs[i]) {
      EntryMeaning(base, ps, es, es[i], cs[i], 1 + |ps| + Speaking(cs[..i]), target);
    }
  }

  lemma ListedEntry(base: nat, ps: seq<nat>, es: seq<Entry>, cs: seq<Parts>, i: nat)
    requires |cs| == |es| && (forall k :: 0 <= k < |cs| ==> Proper(cs[k]) && es[k].encoding == Code(cs[k]))
    requires |Section(Items(base, ps, es))| < 0x1_0000_0000
    requires forall k :: 0 <= k < |es| ==> 0 < base + es[k].offset && InRange(base, ps, es[k])
    requires i < |es|
    ensures var items := Items(base, ps, es); var list := Walk(Section(items), 0);
      && |list| == Speaking(cs)
      && (!Silent(cs[i]) ==>
            var k := 1 + |ps| + Speaking(cs[..i]);
            && k < |items| && items[k] == FdeOf(base, ps, es[i])
            && Speaking(cs[..i]) < |list| && list[Speaking(cs[..i])] == (base + es[i].offset, PosOf(0, items, k)))
  {
    hide Section, Walk, Listed, Code, Layout, CieItems, FdeItems, FdeOf, Proper, Silent, PosOf, InRange;
    var fdes, m := FdeItems(base, ps, es), Speaking(cs[..i]);
    AddressesFit(base, ps, es);
    WalkedFdes(base, ps, es);
    FdePlace(base, ps, es, cs, i);
    AllFdes(base, ps, es);
    ListedCount(|Layout(0, CieItems(ps))|, fdes);
    if !Silent(cs[i]) {
      ListedFdes(|Layout(0, CieItems(ps))|, fdes, m);
      PosAfter(0, CieItems(ps), fdes, m);
      FdeFields(base, ps, es[i]);
    }
  }

  lemma AddressesFit(base: nat, ps: seq<nat>, es: seq<Entry>)
    requires forall k :: 0 <= k < |es| ==> 0 < base + es[k].offset && InRange(base, ps, es[k])
    ensures forall k :: 0 <= k < |es| ==> 0 < base + es[k].offset < TWO64
  {
  }

  lemma WalkedFdes(base: nat, ps: seq<nat>, es: seq<Entry>)
    requires |Section(Items(base, ps, es))| < 0x1_0000_0000
    requires forall k :: 0 <= k < |es| ==> 0 < base + es[k].offset < TWO64
    ensures Walk(Section(Items(base, ps, es)), 0) == Listed(|Layout(0, CieItems(ps))|, FdeItems(base, ps, es))
  {
    hide Section, Walk, Parse, Listed, Layout, CieItems, FdeItems, Firsts, Addresses, Backward;
    ReadersAgree(base, ps, es, 0, p => 0);
    ListedCies(0, CieItems(ps), FdeItems(base, ps, es));
  }

  lemma {:induction false} ListedCount(pos: nat, items: seq<Item>)
    requires forall k :: 0 <= k < |items| ==> items[k].Fde?
    ensures |Listed(pos, items)| == |items|
    decreases |items|
  {
    hide Record;
    if items != [] {
      ListedCount(pos + |Record(pos, items[0])|, items[1..]);
    }
  }

  /** Of more than four personalities the program keeps the first four, which are all that an encoding can
      name: every part says the same of the list cut short. */
  lemma CappedMeans(base: nat, all: seq<nat>, e: Entry, p: Parts, u: Unwound, target: nat)
    requires Proper(p)
    ensures |Capped(all)| == (if |all| < 4 then |all| else 4) && Capped(all) <= all
    ensures Described(base, Capped(all), e, p, u, target) <==> Described(base, all, e, p, u, target)
  {
    hide RulesOf;
  }

  // ----- every encoding has parts -----

  function Digits(v: nat, n: nat): (b: seq<bool>)
    ensures |b| == n
  {
    if n == 0 then [] else [v % 2 == 1] + Digits(v / 2, n - 1)
  }

  lemma {:induction false} DigitsNumber(v: nat, n: nat)
    requires v < Power2(n)
    ensures Number(Digits(v, n)) == v
    decreases n
  {
    if n > 0 {
      DigitsNumber(v / 2, n - 1);
    }
  }

  function PartsOf(enc: nat): Parts {
    var mode, low := enc / 0x100_0000 % 0x10, enc % 0x100_0000;
    var shape :=
      if mode == 4 then
        FrameShape(Digits(low % 0x20, 5), Digits(low / 0x100 % 0x10, 4), low / 0x20 % 8, low / 0x1000)
      else if mode == 2 then FramelessShape(low / 0x1000, low % 0x1000)
      else if mode == 3 then DwarfShape(low)
      else OtherShape(mode, low);
    Parts(shape, enc / 0x1000_0000 % 4, enc / 0x4000_0000 % 2 == 1, enc / 0x8000_0000 % 2 == 1)
  }

  /** So the theorem speaks of every 32-bit encoding. */
  lemma EveryEncoding(enc: nat)
    requires enc < 0x1_0000_0000
    ensures Proper(PartsOf(enc)) && Code(PartsOf(enc)) == enc
  {
    var low, top := enc % 0x100_0000, enc / 0x100_0000;
    assert Power2(5) == 0x20 && Power2(4) == 0x10;
    DigitsNumber(low % 0x20, 5);
    DigitsNumber(low / 0x100 % 0x10, 4);
    hide Digits, Number;
    TopParts(top);
    TopShifts(enc);
    assert low == low % 0x20 + 0x20 * (low / 0x20 % 8) + 0x100 * (low / 0x100 % 0x10) + 0x1000 * (low / 0x1000) by {
      LowParts(low);
    }
  }

  lemma LowParts(low: nat)
    ensures low == low % 0x20 + 0x20 * (low / 0x20 % 8) + 0x100 * (low / 0x100 % 0x10) + 0x1000 * (low / 0x1000)
  {
    assert low / 0x100 == low / 0x20 / 8 && low / 0x1000 == low / 0x100 / 0x10;
  }

  lemma TopParts(top: nat)
    requires top < 0x100
    ensures top == top % 0x10 + 0x10 * (top / 0x10 % 4) + 0x40 * (top / 0x40 % 2) + 0x80 * (top / 0x80 % 2)
  {
  }

  lemma TopShifts(enc: nat)
    requires enc < 0x1_0000_0000
    ensures var top := enc / 0x100_0000;
      && enc / 0x1000_0000 == top / 0x10 && enc / 0x4000_0000 == top / 0x40 && enc / 0x8000_0000 == top / 0x80
      && top < 0x100 && enc == 0x100_0000 * top + enc % 0x100_0000
  {
  }
}
