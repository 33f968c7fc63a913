/** Pointer chains threaded through memory (DYLD_CHAINED_PTR_64 and its offset form): the in-place walk
    of src/resolver.c against the chain it was given. */
module Chains {
  import opened Basics
  import opened Leb128
  import opened ByteMemory
  import opened DyldRebase
  import A64
  import LseValues

  datatype Fixup =
    | Rebase(target: nat, high8: nat)
    | Import(ordinal: nat, addend: nat)

  /** A slot and the distance to the next one in 4-byte strides, 0 at the end. */
  datatype Link = Link(fixup: Fixup, next: nat)

  const TWO24: nat := 0x100_0000
  const TWO32: nat := 0x1_0000_0000
  const TWO36: nat := 0x10_0000_0000
  const TWO51: nat := 0x8_0000_0000_0000
  const TWO56: nat := 0x100_0000_0000_0000

  predicate Fits(l: Link) {
    && l.next < 0x1000
    && match l.fixup
       case Rebase(target, high8) => target < TWO36 && high8 < 0x100
       case Import(ordinal, addend) => ordinal < TWO24 && addend < 0x100
  }

  /** The 64-bit word a linker leaves in the slot. */
  function Raw(l: Link): nat {
    match l.fixup
    case Rebase(target, high8) => target + TWO36 * high8 + TWO51 * l.next
    case Import(ordinal, addend) => ordinal + TWO24 * addend + TWO51 * l.next + TWO63
  }

  /** The fields as the source extracts them. */
  function NextOf(raw: nat): nat {
    raw / TWO51 % 0x1000
  }

  predicate BindBit(raw: nat) {
    raw / TWO63 % 2 == 1
  }

  function FixupOf(raw: nat): Fixup {
    if BindBit(raw) then Import(raw % TWO24, raw / TWO24 % 0x100)
    else Rebase(raw % TWO36, raw / TWO36 % 0x100)
  }

  lemma FieldsRead(l: Link)
    requires Fits(l)
    ensures Raw(l) < TWO64 && NextOf(Raw(l)) == l.next && FixupOf(Raw(l)) == l.fixup
  {
    match l.fixup
    case Rebase(target, high8) => RebaseFields(target, high8, l.next);
    case Import(ordinal, addend) => ImportFields(ordinal, addend, l.next);
  }

  lemma RebaseFields(target: nat, high8: nat, next: nat)
    requires target < TWO36 && high8 < 0x100 && next < 0x1000
    ensures var raw := target + TWO36 * high8 + TWO51 * next;
      raw < TWO63 && raw / TWO51 == next && raw % TWO36 == target && raw / TWO36 % 0x100 == high8
  {
    var raw, low := target + TWO36 * high8 + TWO51 * next, target + TWO36 * high8;
    Split36(raw, target, high8 + 0x8000 * next);
    Split8(high8 + 0x8000 * next, high8, 0x80 * next);
    Split51(raw, low, next);
  }

  lemma Split8(x: nat, low: nat, q: nat)
    requires low < 0x100 && x == low + 0x100 * q
    ensures x % 0x100 == low
  {
  }

  lemma Split24(x: nat, low: nat, q: nat)
    requires low < TWO24 && x == low + TWO24 * q
    ensures x % TWO24 == low && x / TWO24 == q
  {
  }

  lemma Split36(x: nat, low: nat, q: nat)
    requires low < TWO36 && x == low + TWO36 * q
    ensures x % TWO36 == low && x / TWO36 == q
  {
  }

  lemma Split51(x: nat, low: nat, q: nat)
    requires low < TWO51 && x == low + TWO51 * q
    ensures x / TWO51 == q
  {
  }

  lemma Split63(x: nat)
    requires TWO63 <= x < TWO64
    ensures x / TWO63 == 1
  {
  }

  lemma ImportFields(ordinal: nat, addend: nat, next: nat)
    requires ordinal < TWO24 && addend < 0x100 && next < 0x1000
    ensures var raw := ordinal + TWO24 * addend + TWO51 * next + TWO63;
      && TWO63 <= raw < TWO64 && raw / TWO63 == 1 && raw / TWO51 == next + 0x1000 && raw % TWO24 == ordinal
      && raw / TWO24 % 0x100 == addend
  {
    var raw, low := ordinal + TWO24 * addend + TWO51 * next + TWO63, ordinal + TWO24 * addend;
    Split24(raw, ordinal, addend + 0x800_0000 * (next + 0x1000));
    Split8(addend + 0x800_0000 * (next + 0x1000), addend, 0x8_0000 * (next + 0x1000));
    Split51(raw, low, next + 0x1000);
    Split63(raw);
  }

  // ----- values -----

  /** The high byte is or-ed in. */
  function WithHigh8(v: nat, high8: nat): (r: nat)
    requires v < TWO64 && high8 < 0x100
    ensures r < TWO64
    ensures v < TWO56 ==> r == v + TWO56 * high8
  {
    OrByte(v / TWO56, high8);
    v % TWO56 + TWO56 * A64.Combine(A64.Or, v / TWO56, high8, 8)
  }

  lemma OrByte(a: nat, b: nat)
    requires a < 0x100 && b < 0x100
    ensures 0 <= A64.Combine(A64.Or, a, b, 8) < 0x100
    ensures a == 0 ==> A64.Combine(A64.Or, a, b, 8) == b
  {
    hide A64.Combine;
    assert LseValues.Power(8) == 0x100;
    LseValues.CombineRange(A64.Or, a, b, 8);
    LseValues.OrZero(b, 8);
  }

  function SignedByte(b: nat): int {
    if b < 0x80 then b else b - 0x100
  }

  /** What belongs in the slot: an imported address, or the target moved to where the image lies. */
  function Value(f: Fixup, base: nat, resolve: (nat, int) -> nat): (r: nat)
    ensures r < TWO64
  {
    match f
    case Rebase(target, high8) => WithHigh8((target + base) % TWO64, high8 % 0x100)
    case Import(ordinal, addend) => resolve(ordinal, SignedByte(addend)) % TWO64
  }

  // ----- chains in memory -----

  /** Slots do not overlap, and only the last one ends the chain. */
  predicate Chain(links: seq<Link>) {
    && links != []
    && (forall k :: 0 <= k < |links| ==> Fits(links[k]))
    && (forall k :: 0 <= k < |links| - 1 ==> links[k].next >= 2)
    && links[|links| - 1].next == 0
  }

  function Slots(a: nat, links: seq<Link>): (s: seq<nat>)
    ensures |s| == |links|
    decreases |links|
  {
    if links == [] then [] else [a] + Slots(a + 4 * links[0].next, links[1..])
  }

  /** The chain is there: each slot holds its word. */
  ghost predicate Planted(mem: Memory, a: nat, links: seq<Link>) {
    forall k :: 0 <= k < |links| ==> Load(mem, Slots(a, links)[k]) == Raw(links[k])
  }

  /** Words written one after the other. */
  function Fill(mem: Memory, slots: seq<nat>, words: seq<nat>): Memory
    requires |slots| == |words|
    decreases |slots|
  {
    if slots == [] then mem else Fill(Store(mem, slots[0], words[0]), slots[1..], words[1..])
  }

  function Raws(links: seq<Link>): (w: seq<nat>)
    ensures |w| == |links|
  {
    seq(|links|, k requires 0 <= k < |links| => Raw(links[k]))
  }

  function Values(links: seq<Link>, base: nat, resolve: (nat, int) -> nat): (w: seq<nat>)
    ensures |w| == |links|
  {
    seq(|links|, k requires 0 <= k < |links| => Value(links[k].fixup, base, resolve))
  }

  /** Writing a chain, as a linker does. */
  function Plant(mem: Memory, a: nat, links: seq<Link>): Memory {
    Fill(mem, Slots(a, links), Raws(links))
  }

  function Fixed(mem: Memory, a: nat, links: seq<Link>, base: nat, resolve: (nat, int) -> nat): Memory {
    Fill(mem, Slots(a, links), Values(links, base, resolve))
  }

  predicate Spaced(slots: seq<nat>) {
    forall j, k :: 0 <= j < k < |slots| ==> slots[j] + 8 <= slots[k]
  }

  ghost predicate Outside(slots: seq<nat>, x: nat) {
    forall k :: 0 <= k < |slots| ==> !(slots[k] <= x < slots[k] + 8)
  }

  lemma {:induction false} FillKeeps(mem: Memory, slots: seq<nat>, words: seq<nat>, b: nat)
    requires |slots| == |words| && forall k :: 0 <= k < |slots| ==> b + 8 <= slots[k]
    ensures Load(Fill(mem, slots, words), b) == Load(mem, b)
    decreases |slots|
  {
    hide Load, Store;
    if slots != [] {
      LoadElsewhere(mem, slots[0], words[0], b);
      FillKeeps(Store(mem, slots[0], words[0]), slots[1..], words[1..], b);
    }
  }

  lemma {:induction false} FillByte(mem: Memory, slots: seq<nat>, words: seq<nat>, x: nat)
    requires |slots| == |words| && Outside(slots, x)
    ensures Fill(mem, slots, words)(x) == mem(x)
    decreases |slots|
  {
    if slots != [] {
      assert !(slots[0] <= x < slots[0] + 8);
      forall k | 0 <= k < |slots[1..]| ensures !(slots[1..][k] <= x < slots[1..][k] + 8) {
        assert slots[1..][k] == slots[k + 1];
      }
      FillByte(Store(mem, slots[0], words[0]), slots[1..], words[1..], x);
    }
  }

  lemma {:induction false} FillReads(mem: Memory, slots: seq<nat>, words: seq<nat>, k: nat)
    requires |slots| == |words| && Spaced(slots) && k < |slots| && words[k] < TWO64
    ensures Load(Fill(mem, slots, words), slots[k]) == words[k]
    decreases k
  {
    hide Load, Store;
    var mem1 := Store(mem, slots[0], words[0]);
    if k == 0 {
      LoadStore(mem, slots[0], words[0]);
      FillKeeps(mem1, slots[1..], words[1..], slots[0]);
    } else {
      FillReads(mem1, slots[1..], words[1..], k - 1);
    }
  }

  /** Slots ascend, eight bytes apart at least. */
  lemma {:induction false} SlotsAscend(a: nat, links: seq<Link>, k: nat)
    requires k < |links| && forall j :: 0 <= j < |links| - 1 ==> links[j].next >= 2
    ensures Slots(a, links)[k] >= a + 8 * k
    ensures k + 1 < |links| ==> Slots(a, links)[k] + 8 <= Slots(a, links)[k + 1]
    decreases k
  {
    var next := a + 4 * links[0].next;
    if k == 0 {
      if |links| > 1 {
        assert Slots(a, links)[1] == Slots(next, links[1..])[0] == next;
      }
    } else {
      SlotsAscend(next, links[1..], k - 1);
    }
  }

  lemma ChainTail(links: seq<Link>)
    requires Chain(links) && |links| > 1
    ensures Chain(links[1..])
  {
  }

  lemma PlantedTail(mem: Memory, a: nat, links: seq<Link>, v: nat)
    requires Chain(links) && |links| > 1 && Planted(mem, a, links)
    ensures Planted(Store(mem, a, v), a + 4 * links[0].next, links[1..])
  {
    hide Load, Store, Raw;
    var next := a + 4 * links[0].next;
    forall k | 0 <= k < |links| - 1
      ensures Load(Store(mem, a, v), Slots(next, links[1..])[k]) == Raw(links[1..][k])
    {
      SlotsAscend(next, links[1..], k);
      assert Slots(a, links)[k + 1] == Slots(next, links[1..])[k];
      LoadElsewhere(mem, a, v, Slots(next, links[1..])[k]);
    }
  }

  lemma {:induction false} SlotsSpaced(a: nat, links: seq<Link>)
    requires forall j :: 0 <= j < |links| - 1 ==> links[j].next >= 2
    ensures Spaced(Slots(a, links)) && forall k :: 0 <= k < |links| ==> Slots(a, links)[k] >= a
    decreases |links|
  {
    if links != [] {
      var next := a + 4 * links[0].next;
      SlotsSpaced(next, links[1..]);
      forall k | 0 <= k < |links| ensures Slots(a, links)[k] >= a && (k > 0 ==> Slots(a, links)[k] >= a + 8) {
        if k > 0 {
          assert Slots(a, links)[k] == Slots(next, links[1..])[k - 1];
        }
      }
    }
  }

  // ----- the chains of an image -----

  const Ptr64: nat := 2
  const Ptr64Offset: nat := 6
  const NoStart: nat := 0xffff

  /** Where a segment's chains start, page by page. */
  datatype Starts = Starts(offset: nat, pageSize: nat, format: nat, pages: seq<nat>)

  /** Segments without chains have none. */
  datatype Image = Image(header: nat, slide: nat, segs: seq<Option<Starts>>)

  datatype Head = Head(addr: nat, base: nat)

  /** Other formats are passed over. */
  predicate Walked(im: Image, i: nat)
    requires i < |im.segs|
  {
    im.segs[i].Some? && (im.segs[i].value.format == Ptr64 || im.segs[i].value.format == Ptr64Offset)
  }

  function BaseOf(im: Image, s: Starts): nat {
    if s.format == Ptr64Offset then im.header else im.slide
  }

  /** The chains of the first n pages. */
  function PageHeads(im: Image, s: Starts, n: nat): seq<Head>
    requires n <= |s.pages|
  {
    if n == 0 then [] else
      PageHeads(im, s, n - 1) +
      if s.pages[n - 1] == NoStart then []
      else [Head(im.header + s.offset + (n - 1) * s.pageSize + s.pages[n - 1], BaseOf(im, s))]
  }

  /** The chains of the first n segments. */
  function Heads(im: Image, n: nat): seq<Head>
    requires n <= |im.segs|
  {
    if n == 0 then [] else
      Heads(im, n - 1) +
      if Walked(im, n - 1) then PageHeads(im, im.segs[n - 1].value, |im.segs[n - 1].value.pages|) else []
  }

  function AllHeads(im: Image): seq<Head> {
    Heads(im, |im.segs|)
  }

  /** Slots of different chains do not overlap. */
  ghost predicate ChainsApart(heads: seq<Head>, chains: seq<seq<Link>>)
    requires |heads| == |chains|
  {
    forall i, j, k, l :: 0 <= i < j < |heads| && 0 <= k < |chains[i]| && 0 <= l < |chains[j]| ==>
      Clear8(Slots(heads[i].addr, chains[i])[k], Slots(heads[j].addr, chains[j])[l])
  }

  predicate Clear8(a: nat, b: nat) {
    a + 8 <= b || b + 8 <= a
  }

  ghost predicate AllPlanted(mem: Memory, heads: seq<Head>, chains: seq<seq<Link>>) {
    && |heads| == |chains| && ChainsApart(heads, chains)
    && forall i :: 0 <= i < |heads| ==> Chain(chains[i]) && Planted(mem, heads[i].addr, chains[i])
  }

  /** Memory after the first n chains. */
  function FixedTo(mem: Memory, heads: seq<Head>, chains: seq<seq<Link>>, n: nat, resolve: (nat, int) -> nat): Memory
    requires n <= |chains| <= |heads|
  {
    if n == 0 then mem
    else Fixed(FixedTo(mem, heads, chains, n - 1, resolve), heads[n - 1].addr, chains[n - 1], heads[n - 1].base, resolve)
  }

  function RebasesTo(chains: seq<seq<Link>>, n: nat): nat
    requires n <= |chains|
  {
    if n == 0 then 0 else RebasesTo(chains, n - 1) + Rebases(chains[n - 1])
  }

  lemma PlantedSizes(mem: Memory, heads: seq<Head>, chains: seq<seq<Link>>)
    requires AllPlanted(mem, heads, chains)
    ensures |heads| == |chains|
  {
  }

  lemma FixedToNone(mem: Memory, heads: seq<Head>, chains: seq<seq<Link>>, resolve: (nat, int) -> nat)
    requires |chains| <= |heads|
    ensures FixedTo(mem, heads, chains, 0, resolve) == mem && RebasesTo(chains, 0) == 0
  {
  }

  lemma HeadsNone(im: Image)
    ensures Heads(im, 0) == []
  {
  }

  lemma HeadsNext(im: Image, i: nat)
    requires i < |im.segs| && Walked(im, i)
    ensures Heads(im, i + 1) == Heads(im, i) + PageHeads(im, im.segs[i].value, |im.segs[i].value.pages|)
  {
  }

  lemma HeadsSkip(im: Image, i: nat)
    requires i < |im.segs| && !Walked(im, i)
    ensures Heads(im, i + 1) == Heads(im, i)
  {
  }

  lemma {:induction false} HeadsPrefix(im: Image, n: nat)
    requires n <= |im.segs|
    ensures Heads(im, n) <= AllHeads(im)
    decreases |im.segs| - n
  {
    hide PageHeads;
    if n < |im.segs| {
      HeadsPrefix(im, n + 1);
      assert Heads(im, n) <= Heads(im, n + 1);
    }
  }

  lemma PagesNone(im: Image, s: Starts)
    ensures PageHeads(im, s, 0) == []
  {
  }

  lemma PagesNext(im: Image, s: Starts, page: nat)
    requires page < |s.pages|
    ensures |PageHeads(im, s, page + 1)| == |PageHeads(im, s, page)| + if s.pages[page] == NoStart then 0 else 1
    ensures PageHeads(im, s, page) <= PageHeads(im, s, |s.pages|) && PageHeads(im, s, page + 1) <= PageHeads(im, s, |s.pages|)
  {
    PagesPrefix(im, s, page);
    PagesPrefix(im, s, page + 1);
  }

  lemma {:induction false} PagesPrefix(im: Image, s: Starts, n: nat)
    requires n <= |s.pages|
    ensures PageHeads(im, s, n) <= PageHeads(im, s, |s.pages|)
    decreases |s.pages| - n
  {
    if n < |s.pages| {
      PagesPrefix(im, s, n + 1);
      assert PageHeads(im, s, n) <= PageHeads(im, s, n + 1);
    }
  }

  /** The next chain of a segment in the list of all. */
  lemma PageHead(im: Image, i: nat, page: nat)
    requires i < |im.segs| && Walked(im, i) && page < |im.segs[i].value.pages| && im.segs[i].value.pages[page] != NoStart
    ensures var s := im.segs[i].value; var n := |Heads(im, i)| + |PageHeads(im, s, page)|;
      n < |AllHeads(im)| && AllHeads(im)[n] == Head(im.header + s.offset + page * s.pageSize + s.pages[page], BaseOf(im, s))
  {
    hide Heads;
    var s := im.segs[i].value;
    HeadsNext(im, i);
    HeadsPrefix(im, i + 1);
    PagesNext(im, s, page);
    var n := |PageHeads(im, s, page)|;
    assert PageHeads(im, s, page + 1)[n] == PageHeads(im, s, |s.pages|)[n];
    assert Heads(im, i + 1)[|Heads(im, i)| + n] == PageHeads(im, s, |s.pages|)[n];
  }

  /** Fixing one chain leaves words elsewhere alone. */
  lemma {:induction false} FillApart(mem: Memory, slots: seq<nat>, words: seq<nat>, b: nat)
    requires |slots| == |words| && forall k :: 0 <= k < |slots| ==> Clear8(slots[k], b)
    ensures Load(Fill(mem, slots, words), b) == Load(mem, b)
    decreases |slots|
  {
    hide Load, Store;
    if slots != [] {
      assert Clear8(slots[0], b);
      LoadElsewhere(mem, slots[0], words[0], b);
      forall k | 0 <= k < |slots[1..]| ensures Clear8(slots[1..][k], b) {
        assert slots[1..][k] == slots[k + 1];
      }
      FillApart(Store(mem, slots[0], words[0]), slots[1..], words[1..], b);
    }
  }

  /** A word clear of the first n chains is as it was. */
  lemma {:induction false} FixedToKeeps(mem: Memory, heads: seq<Head>, chains: seq<seq<Link>>, m: nat, n: nat, resolve: (nat, int) -> nat, b: nat)
    requires m <= n <= |chains| == |heads|
    requires forall i, k :: m <= i < n && 0 <= k < |chains[i]| ==> Clear8(Slots(heads[i].addr, chains[i])[k], b)
    ensures Load(FixedTo(mem, heads, chains, n, resolve), b) == Load(FixedTo(mem, heads, chains, m, resolve), b)
    decreases n
  {
    hide Load, Slots, Fill;
    if m < n {
      FixedToKeeps(mem, heads, chains, m, n - 1, resolve, b);
      var h := heads[n - 1];
      FillApart(FixedTo(mem, heads, chains, n - 1, resolve), Slots(h.addr, chains[n - 1]), Values(chains[n - 1], h.base, resolve), b);
    }
  }

  lemma StillPlanted(mem: Memory, heads: seq<Head>, chains: seq<seq<Link>>, n: nat, resolve: (nat, int) -> nat)
    requires AllPlanted(mem, heads, chains) && n < |heads|
    ensures Chain(chains[n]) && Planted(FixedTo(mem, heads, chains, n, resolve), heads[n].addr, chains[n])
  {
    hide Load, Raw, Chain, Slots, FixedTo;
    forall k | 0 <= k < |chains[n]|
      ensures Load(FixedTo(mem, heads, chains, n, resolve), Slots(heads[n].addr, chains[n])[k]) == Raw(chains[n][k])
    {
      FixedToKeeps(mem, heads, chains, 0, n, resolve, Slots(heads[n].addr, chains[n])[k]);
      FixedToNone(mem, heads, chains, resolve);
    }
  }

  /** After all chains of an image, each slot of each holds its own value, and every other byte is as it
      was. */
  lemma AllSlotsRight(mem: Memory, heads: seq<Head>, chains: seq<seq<Link>>, resolve: (nat, int) -> nat)
    requires AllPlanted(mem, heads, chains)
    ensures var out := FixedTo(mem, heads, chains, |chains|, resolve);
      && (forall i, k :: 0 <= i < |chains| && 0 <= k < |chains[i]| ==>
            Load(out, Slots(heads[i].addr, chains[i])[k]) == Value(chains[i][k].fixup, heads[i].base, resolve))
      && (forall x: nat :: (forall i :: 0 <= i < |chains| ==> Outside(Slots(heads[i].addr, chains[i]), x)) ==> out(x) == mem(x))
  {
    hide Load, Value, Chain, Slots, FixedTo, Planted, Outside;
    var out := FixedTo(mem, heads, chains, |chains|, resolve);
    forall i, k | 0 <= i < |chains| && 0 <= k < |chains[i]|
      ensures Load(out, Slots(heads[i].addr, chains[i])[k]) == Value(chains[i][k].fixup, heads[i].base, resolve)
    {
      SlotRight(mem, heads, chains, resolve, i, k);
    }
    forall x: nat | forall i :: 0 <= i < |chains| ==> Outside(Slots(heads[i].addr, chains[i]), x) ensures out(x) == mem(x) {
      ByteKept(mem, heads, chains, |chains|, resolve, x);
    }
  }

  lemma SlotRight(mem: Memory, heads: seq<Head>, chains: seq<seq<Link>>, resolve: (nat, int) -> nat, i: nat, k: nat)
    requires AllPlanted(mem, heads, chains) && i < |chains| && k < |chains[i]|
    ensures Load(FixedTo(mem, heads, chains, |chains|, resolve), Slots(heads[i].addr, chains[i])[k]) ==
            Value(chains[i][k].fixup, heads[i].base, resolve)
  {
    hide Load, Slots, Planted, Fill, Fits, Value;
    var h, b := heads[i], Slots(heads[i].addr, chains[i])[k];
    assert Chain(chains[i]);
    ChainFits(chains[i]);
    SlotsSpaced(h.addr, chains[i]);
    FillReads(FixedTo(mem, heads, chains, i, resolve), Slots(h.addr, chains[i]), Values(chains[i], h.base, resolve), k);
    FixedToKeeps(mem, heads, chains, i + 1, |chains|, resolve, b);
  }

  lemma {:induction false} ByteKept(mem: Memory, heads: seq<Head>, chains: seq<seq<Link>>, n: nat, resolve: (nat, int) -> nat, x: nat)
    requires n <= |chains| == |heads| && forall i :: 0 <= i < n ==> Outside(Slots(heads[i].addr, chains[i]), x)
    ensures FixedTo(mem, heads, chains, n, resolve)(x) == mem(x)
    decreases n
  {
    hide Slots, Fill, Outside;
    if n > 0 {
      ByteKept(mem, heads, chains, n - 1, resolve, x);
      var h := heads[n - 1];
      FillByte(FixedTo(mem, heads, chains, n - 1, resolve), Slots(h.addr, chains[n - 1]), Values(chains[n - 1], h.base, resolve), x);
    }
  }

  // ----- slot by slot -----

  /** The chains of the first n pages, given for each segment and page. */
  ghost function PageChains(im: Image, i: nat, links: (nat, nat) -> seq<Link>, n: nat): (c: seq<seq<Link>>)
    requires i < |im.segs| && im.segs[i].Some? && n <= |im.segs[i].value.pages|
    ensures |c| == |PageHeads(im, im.segs[i].value, n)|
  {
    if n == 0 then [] else
      PageChains(im, i, links, n - 1) + if im.segs[i].value.pages[n - 1] == NoStart then [] else [links(i, n - 1)]
  }

  ghost function ChainsTo(im: Image, links: (nat, nat) -> seq<Link>, n: nat): (c: seq<seq<Link>>)
    requires n <= |im.segs|
    ensures |c| == |Heads(im, n)|
  {
    if n == 0 then [] else
      ChainsTo(im, links, n - 1) +
      if Walked(im, n - 1) then PageChains(im, n - 1, links, |im.segs[n - 1].value.pages|) else []
  }

  ghost function AllChains(im: Image, links: (nat, nat) -> seq<Link>): seq<seq<Link>> {
    ChainsTo(im, links, |im.segs|)
  }

  lemma {:induction false} ChainsPrefix(im: Image, links: (nat, nat) -> seq<Link>, n: nat)
    requires n <= |im.segs|
    ensures ChainsTo(im, links, n) <= AllChains(im, links)
    decreases |im.segs| - n
  {
    hide PageHeads, PageChains;
    if n < |im.segs| {
      ChainsPrefix(im, links, n + 1);
      assert ChainsTo(im, links, n) <= ChainsTo(im, links, n + 1);
    }
  }

  lemma {:induction false} PageChainsPrefix(im: Image, i: nat, links: (nat, nat) -> seq<Link>, n: nat)
    requires i < |im.segs| && im.segs[i].Some? && n <= |im.segs[i].value.pages|
    ensures PageChains(im, i, links, n) <= PageChains(im, i, links, |im.segs[i].value.pages|)
    decreases |im.segs[i].value.pages| - n
  {
    if n < |im.segs[i].value.pages| {
      PageChainsPrefix(im, i, links, n + 1);
      assert PageChains(im, i, links, n) <= PageChains(im, i, links, n + 1);
    }
  }

  /** The chain of a page has the place of its head. */
  lemma PageChain(im: Image, i: nat, links: (nat, nat) -> seq<Link>, page: nat)
    requires i < |im.segs| && Walked(im, i) && page < |im.segs[i].value.pages| && im.segs[i].value.pages[page] != NoStart
    ensures var n := |Heads(im, i)| + |PageHeads(im, im.segs[i].value, page)|;
      n < |AllChains(im, links)| && AllChains(im, links)[n] == links(i, page)
  {
    hide Heads, PageHeads;
    ChainsPrefix(im, links, i + 1);
    PageChainsPrefix(im, i, links, page + 1);
    var n, all := |PageChains(im, i, links, page)|, PageChains(im, i, links, |im.segs[i].value.pages|);
    assert all[n] == PageChains(im, i, links, page + 1)[n] == links(i, page);
    assert ChainsTo(im, links, i + 1)[|ChainsTo(im, links, i)| + n] == all[n];
  }

  /** The distance of the k-th slot from the first. */
  function Distance(links: seq<Link>, k: nat): nat
    requires k <= |links|
  {
    if k == 0 then 0 else links[0].next * 4 + Distance(links[1..], k - 1)
  }

  lemma {:induction false} SlotDistance(a: nat, links: seq<Link>, k: nat)
    requires k < |links|
    ensures Slots(a, links)[k] == a + Distance(links, k)
    decreases k
  {
    if k > 0 {
      SlotDistance(a + 4 * links[0].next, links[1..], k - 1);
    }
  }

  /** The k-th slot of the chain of a page: in a segment with chains in one of the two formats, on a page
      that has one. */
  ghost predicate SlotNamed(im: Image, links: (nat, nat) -> seq<Link>, i: nat, page: nat, k: nat) {
    && i < |im.segs| && im.segs[i].Some? && (im.segs[i].value.format == 2 || im.segs[i].value.format == 6)
    && page < |im.segs[i].value.pages| && im.segs[i].value.pages[page] != 0xffff && k < |links(i, page)|
  }

  /** What a word must be: for a rebase the moved target with the high byte or-ed on top, for an import what
      its ordinal resolves to with the addend, a signed byte. */
  ghost predicate Settled(f: Fixup, shift: nat, word: nat, resolve: (nat, int) -> nat) {
    match f
    case Rebase(target, high8) =>
      var moved := target + shift;
      && (moved < TWO56 ==> word == moved + TWO56 * high8)
      && (moved < TWO64 ==> word == moved % TWO56 + TWO56 * A64.Combine(A64.Or, moved / TWO56, high8, 8))
    case Import(ordinal, addend) =>
      exists signed :: -128 <= signed <= 127 && (signed - addend) % 0x100 == 0 && word == resolve(ordinal, signed) % TWO64
  }

  /** The slot lies in the page, as far from its start as the links before it say, and is settled; targets
      move by the slide in the plain format and by the header's address in the offset format. */
  ghost predicate SlotDone(mem: Memory, im: Image, links: (nat, nat) -> seq<Link>, i: nat, page: nat, k: nat, resolve: (nat, int) -> nat)
    requires SlotNamed(im, links, i, page, k)
  {
    var s := im.segs[i].value;
    var word := Load(mem, im.header + s.offset + page * s.pageSize + s.pages[page] + Distance(links(i, page), k));
    Settled(links(i, page)[k].fixup, if s.format == 6 then im.header else im.slide, word, resolve)
  }

  lemma SlotFixed(mem: Memory, im: Image, links: (nat, nat) -> seq<Link>, i: nat, page: nat, k: nat, resolve: (nat, int) -> nat)
    requires AllPlanted(mem, AllHeads(im), AllChains(im, links)) && |AllHeads(im)| == |AllChains(im, links)|
    requires SlotNamed(im, links, i, page, k)
    ensures var chains := AllChains(im, links);
      SlotDone(FixedTo(mem, AllHeads(im), chains, |chains|, resolve), im, links, i, page, k, resolve)
  {
    hide Load, Heads, PageHeads, AllChains, FixedTo, Slots, Distance, Value, Planted, Settled, Fits;
    var s, n, chains := im.segs[i].value, |Heads(im, i)| + |PageHeads(im, im.segs[i].value, page)|, AllChains(im, links);
    PageHead(im, i, page);
    PageChain(im, i, links, page);
    SlotDistance(AllHeads(im)[n].addr, links(i, page), k);
    SlotRight(mem, AllHeads(im), chains, resolve, n, k);
    assert Chain(chains[n]);
    ChainFits(chains[n]);
    ValueSettled(links(i, page)[k], BaseOf(im, s), resolve);
  }

  lemma ValueSettled(l: Link, base: nat, resolve: (nat, int) -> nat)
    requires Fits(l)
    ensures Settled(l.fixup, base, Value(l.fixup, base, resolve), resolve)
  {
    hide A64.Combine, WithHigh8;
    match l.fixup
    case Rebase(target, high8) => MovedTarget(target, high8, base, resolve);
    case Import(ordinal, addend) =>
      assert -128 <= SignedByte(addend) <= 127 && (SignedByte(addend) - addend) % 0x100 == 0;
  }

  lemma MovedTarget(target: nat, high8: nat, base: nat, resolve: (nat, int) -> nat)
    requires high8 < 0x100
    ensures var moved, v := target + base, Value(Rebase(target, high8), base, resolve);
      && (moved < TWO56 ==> v == moved + TWO56 * high8)
      && (moved < TWO64 ==> v == moved % TWO56 + TWO56 * A64.Combine(A64.Or, moved / TWO56, high8, 8))
  {
    hide A64.Combine;
    if target + base < TWO64 {
      LseValues.SmallMod(target + base, TWO64);
    }
  }

  // ----- the walk -----

  class Walker {
    const resolve: (nat, int) -> nat
    var mem: Memory
    var rebases: nat
    ghost var visited: seq<nat>

    constructor (resolve: (nat, int) -> nat, mem: Memory)
      ensures this.resolve == resolve && this.mem == mem && rebases == 0 && visited == []
    {
      this.resolve, this.mem := resolve, mem;
      rebases, visited := 0, [];
    }

    /** Every slot is visited once, in ascending order, and left with its value. The base is the slide, or
        the header's address in the offset form. */
    method WalkChain(start: nat, base: nat, ghost links: seq<Link>)
      requires Chain(links) && Planted(mem, start, links)
      modifies this
      ensures mem == Fixed(old(mem), start, links, base, resolve)
      ensures visited == old(visited) + Slots(start, links) && Spaced(Slots(start, links))
      ensures rebases == old(rebases) + Rebases(links)
    {
      hide Load, Store, Raw, Fits, NextOf, FixupOf, Value, Planted, Chain, Fixed, Spaced, Slots, Rebases;
      var loc := start;
      ghost var rest := links;
      var more := true;
      ChainFits(links);
      SlotsSpaced(start, links);
      while more
        invariant more ==> Chain(rest) && Planted(mem, loc, rest)
        invariant Fixed(mem, loc, rest, base, resolve) == Fixed(old(mem), start, links, base, resolve)
        invariant visited + Slots(loc, rest) == old(visited) + Slots(start, links)
        invariant rebases + Rebases(rest) == old(rebases) + Rebases(links)
        invariant !more ==> rest == []
        decreases more, |rest|
      {
        ChainFits(rest);
        var raw := Load(mem, loc);
        FirstRaw(mem, loc, rest);
        FieldsRead(rest[0]);
        FixedStep(mem, loc, rest, base, resolve);
        var next := NextOf(raw);
        var f := FixupOf(raw);
        WalkStep(loc, rest, visited);
        mem := Store(mem, loc, Value(f, base, resolve));
        visited := visited + [loc];
        if f.Rebase? {
          rebases := rebases + 1;
        }
        more := next != 0;
        loc := loc + 4 * next;
        rest := rest[1..];
      }
      FixedNone(mem, loc, base, resolve);
      WalkEnd(loc, visited);
    }

    /** One segment's pages; `done` counts the chains walked before. */
    method WalkSegment(im: Image, i: nat, ghost chains: seq<seq<Link>>, ghost was: Memory, ghost done: nat)
      requires i < |im.segs| && Walked(im, i) && AllPlanted(was, AllHeads(im), chains)
      requires done == |Heads(im, i)| <= |chains| == |AllHeads(im)|
      requires mem == FixedTo(was, AllHeads(im), chains, done, resolve) && rebases == RebasesTo(chains, done)
      modifies this
      ensures |Heads(im, i + 1)| <= |chains|
      ensures mem == FixedTo(was, AllHeads(im), chains, |Heads(im, i + 1)|, resolve)
      ensures rebases == RebasesTo(chains, |Heads(im, i + 1)|)
    {
      hide Heads, PageHeads, AllPlanted, Planted, Fixed, Chain, Rebases, Slots;
      var s := im.segs[i].value;
      HeadsNext(im, i);
      HeadsPrefix(im, i + 1);
      PlantedSizes(was, AllHeads(im), chains);
      PagesNone(im, s);
      for page := 0 to |s.pages|
        invariant done + |PageHeads(im, s, page)| <= |chains|
        invariant mem == FixedTo(was, AllHeads(im), chains, done + |PageHeads(im, s, page)|, resolve)
        invariant rebases == RebasesTo(chains, done + |PageHeads(im, s, page)|)
      {
        PagesNext(im, s, page);
        if s.pages[page] != NoStart {
          ghost var n := done + |PageHeads(im, s, page)|;
          PageHead(im, i, page);
          StillPlanted(was, AllHeads(im), chains, n, resolve);
          WalkChain(im.header + s.offset + page * s.pageSize + s.pages[page], BaseOf(im, s), chains[n]);
        }
      }
    }

    /** All chains of the image, segment by segment and page by page: every one is walked once, and every
        slot ends with what its segment's format makes of its word. */
    method ProcessFixups(im: Image, ghost links: (nat, nat) -> seq<Link>)
      requires AllPlanted(mem, AllHeads(im), AllChains(im, links)) && rebases == 0
      modifies this
      ensures var chains := AllChains(im, links);
        |AllHeads(im)| == |chains| && mem == FixedTo(old(mem), AllHeads(im), chains, |chains|, resolve) && rebases == RebasesTo(chains, |chains|)
      ensures forall i: nat, page: nat, k: nat :: SlotNamed(im, links, i, page, k) ==> SlotDone(mem, im, links, i, page, k, resolve)
    {
      hide Heads, AllPlanted, FixedTo, RebasesTo, Fixed, SlotNamed, SlotDone, AllChains;
      ghost var chains := AllChains(im, links);
      ghost var was := mem;
      HeadsNone(im);
      PlantedSizes(mem, AllHeads(im), chains);
      FixedToNone(mem, AllHeads(im), chains, resolve);
      for i := 0 to |im.segs|
        invariant |Heads(im, i)| <= |chains|
        invariant mem == FixedTo(old(mem), AllHeads(im), chains, |Heads(im, i)|, resolve)
        invariant rebases == RebasesTo(chains, |Heads(im, i)|)
      {
        if Walked(im, i) {
          WalkSegment(im, i, chains, old(mem), |Heads(im, i)|);
        } else {
          HeadsSkip(im, i);
        }
      }
      forall i: nat, page: nat, k: nat | SlotNamed(im, links, i, page, k) ensures SlotDone(mem, im, links, i, page, k, resolve) {
        SlotFixed(was, im, links, i, page, k, resolve);
      }
    }
  }

  function Rebases(links: seq<Link>): nat {
    if links == [] then 0 else (if links[0].fixup.Rebase? then 1 else 0) + Rebases(links[1..])
  }

  lemma ChainFits(links: seq<Link>)
    requires Chain(links)
    ensures links != [] && Fits(links[0]) && forall k :: 0 <= k < |links| ==> Fits(links[k])
    ensures forall j :: 0 <= j < |links| - 1 ==> links[j].next >= 2
  {
  }

  lemma FixedStep(mem: Memory, a: nat, links: seq<Link>, base: nat, resolve: (nat, int) -> nat)
    requires links != []
    ensures Fixed(mem, a, links, base, resolve) ==
            Fixed(Store(mem, a, Value(links[0].fixup, base, resolve)), a + 4 * links[0].next, links[1..], base, resolve)
  {
    hide Store, Value;
    assert Values(links, base, resolve)[1..] == Values(links[1..], base, resolve);
    assert Slots(a, links)[1..] == Slots(a + 4 * links[0].next, links[1..]);
  }

  lemma WalkStep(a: nat, links: seq<Link>, before: seq<nat>)
    requires links != []
    ensures before + Slots(a, links) == before + [a] + Slots(a + 4 * links[0].next, links[1..])
    ensures Rebases(links) == (if links[0].fixup.Rebase? then 1 else 0) + Rebases(links[1..])
  {
  }

  lemma WalkEnd(a: nat, before: seq<nat>)
    ensures before + Slots(a, []) == before && Rebases([]) == 0
  {
  }

  lemma FixedNone(mem: Memory, a: nat, base: nat, resolve: (nat, int) -> nat)
    ensures Fixed(mem, a, [], base, resolve) == mem
  {
  }

  /** The first word, and what follows once it is overwritten. */
  lemma FirstRaw(mem: Memory, a: nat, links: seq<Link>)
    requires Chain(links) && Planted(mem, a, links)
    ensures Load(mem, a) == Raw(links[0])
    ensures links[0].next != 0 <==> |links| > 1
    ensures links[0].next == 0 ==> links[1..] == []
    ensures links[0].next != 0 ==> Chain(links[1..]) && forall v :: Planted(Store(mem, a, v), a + 4 * links[0].next, links[1..])
  {
    hide Load, Store, Raw, Fits;
    assert Slots(a, links)[0] == a;
    if |links| > 1 {
      assert links[0].next >= 2;
      ChainTail(links);
      forall v: nat ensures Planted(Store(mem, a, v), a + 4 * links[0].next, links[1..]) {
        PlantedTail(mem, a, links, v);
      }
    }
  }

  /** Planting a chain anywhere and walking it leaves each slot with its value and every other byte of
      the original memory untouched. */
  lemma ChainRoundTrip(mem: Memory, a: nat, links: seq<Link>, base: nat, resolve: (nat, int) -> nat)
    requires Chain(links)
    ensures var planted := Plant(mem, a, links);
      var out := Fixed(planted, a, links, base, resolve);
      && Planted(planted, a, links)
      && (forall k :: 0 <= k < |links| ==> Load(out, Slots(a, links)[k]) == Value(links[k].fixup, base, resolve))
      && (forall x: nat :: Outside(Slots(a, links), x) ==> out(x) == mem(x))
  {
    hide Load, Raw, Value, Fill, Fits, Outside;
    ChainFits(links);
    SlotsSpaced(a, links);
    var planted := Plant(mem, a, links);
    forall k | 0 <= k < |links| ensures Load(planted, Slots(a, links)[k]) == Raw(links[k]) {
      FieldsRead(links[k]);
      FillReads(mem, Slots(a, links), Raws(links), k);
    }
    forall k | 0 <= k < |links|
      ensures Load(Fixed(planted, a, links, base, resolve), Slots(a, links)[k]) == Value(links[k].fixup, base, resolve)
    {
      FillReads(planted, Slots(a, links), Values(links, base, resolve), k);
    }
    forall x: nat | Outside(Slots(a, links), x) ensures Fixed(planted, a, links, base, resolve)(x) == mem(x) {
      FillByte(mem, Slots(a, links), Raws(links), x);
      FillByte(planted, Slots(a, links), Values(links, base, resolve), x);
    }
  }
}
