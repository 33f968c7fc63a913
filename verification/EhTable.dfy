/** Collecting compact unwind entries (collect_entries of src/eh_frame.c): a counting pass, a filling pass
    with a binary search for LSDAs, an insertion sort, and sizes from the gaps. */
module EhTable {
  import opened EhFrame
  import opened EhEntries

  /** A second-level page, with the slice of the LSDA index that belongs to it as (function, LSDA) pairs. */
  datatype Page =
    | Compressed(base: nat, words: seq<nat>, encodings: seq<nat>, lsdas: seq<(nat, nat)>)
    | Regular(entries: seq<(nat, nat)>, lsdas: seq<(nat, nat)>)
    | Unknown

  // ----- the LSDA search -----

  /** Binary search in lsdas[lo..hi]; 0 when there is no entry for the function. */
  function Search(lsdas: seq<(nat, nat)>, f: nat, lo: int, hi: int): nat
    requires 0 <= lo && hi < |lsdas|
    decreases hi - lo
  {
    if lo > hi then 0 else
      var mid := (lo + hi) / 2;
      if lsdas[mid].0 == f then lsdas[mid].1
      else if lsdas[mid].0 < f then Search(lsdas, f, mid + 1, hi)
      else Search(lsdas, f, lo, mid - 1)
  }

  method FindLsda(lsdas: seq<(nat, nat)>, f: nat) returns (r: nat)
    ensures r == Search(lsdas, f, 0, |lsdas| - 1)
  {
    var lo, hi := 0, |lsdas| - 1;
    while lo <= hi
      invariant 0 <= lo && hi < |lsdas|
      invariant Search(lsdas, f, lo, hi) == Search(lsdas, f, 0, |lsdas| - 1)
      decreases hi - lo
    {
      var mid := (lo + hi) / 2;
      if lsdas[mid].0 == f {
        return lsdas[mid].1;
      } else if lsdas[mid].0 < f {
        lo := mid + 1;
      } else {
        hi := mid - 1;
      }
    }
    r := 0;
  }

  predicate Ascending(lsdas: seq<(nat, nat)>) {
    forall j, k :: 0 <= j < k < |lsdas| ==> lsdas[j].0 <= lsdas[k].0
  }

  /** In a sorted index the search finds an entry of the function whenever there is one. */
  lemma {:induction false} SearchFinds(lsdas: seq<(nat, nat)>, f: nat, lo: int, hi: int)
    requires 0 <= lo && hi < |lsdas| && Ascending(lsdas)
    ensures var r := Search(lsdas, f, lo, hi);
      if exists k :: lo <= k <= hi && lsdas[k].0 == f then exists k :: lo <= k <= hi && lsdas[k] == (f, r)
      else r == 0
    decreases hi - lo
  {
    if lo <= hi {
      var mid := (lo + hi) / 2;
      if lsdas[mid].0 == f {
        assert lsdas[mid] == (f, Search(lsdas, f, lo, hi));
      } else if lsdas[mid].0 < f {
        SearchFinds(lsdas, f, mid + 1, hi);
      } else {
        SearchFinds(lsdas, f, lo, mid - 1);
      }
    }
  }

  // ----- reading pages -----

  function MakeEntry(f: nat, enc: nat, lsdas: seq<(nat, nat)>): Entry {
    Entry(f, 0, enc, if HasLsda(enc) then Search(lsdas, f, 0, |lsdas| - 1) else 0)
  }

  /** Compressed entries index the common encodings first and the page's own after them. */
  function Decoded(index: nat, common: seq<nat>, own: seq<nat>): nat {
    if index < |common| then common[index] else if index - |common| < |own| then own[index - |common|] else 0
  }

  function Count(p: Page): nat {
    match p
    case Compressed(_, words, _, _) => |words|
    case Regular(entries, _) => |entries|
    case Unknown => 0
  }

  function EntryAt(p: Page, k: nat, common: seq<nat>): Entry
    requires k < Count(p)
  {
    match p
    case Compressed(base, words, own, lsdas) =>
      MakeEntry((base + words[k] % 0x100_0000) % 0x1_0000_0000, Decoded(words[k] / 0x100_0000 % 0x100, common, own), lsdas)
    case Regular(entries, lsdas) => MakeEntry(entries[k].0, entries[k].1, lsdas)
  }

  function PageEntries(p: Page, common: seq<nat>): (es: seq<Entry>)
    ensures |es| == Count(p)
  {
    seq(Count(p), k requires 0 <= k < Count(p) => EntryAt(p, k, common))
  }

  function Total(pages: seq<Page>): nat {
    if pages == [] then 0 else Total(pages[..|pages| - 1]) + Count(pages[|pages| - 1])
  }

  function AllEntries(pages: seq<Page>, common: seq<nat>): (es: seq<Entry>)
    ensures |es| == Total(pages)
  {
    if pages == [] then [] else
      AllEntries(pages[..|pages| - 1], common) + PageEntries(pages[|pages| - 1], common)
  }

  // ----- sorting -----

  function Insert(s: seq<Entry>, x: Entry): (r: seq<Entry>)
    ensures |r| == |s| + 1
  {
    if s == [] || s[|s| - 1].offset <= x.offset then s + [x]
    else Insert(s[..|s| - 1], x) + [s[|s| - 1]]
  }

  function Sort(s: seq<Entry>): (r: seq<Entry>)
    ensures |r| == |s|
  {
    if s == [] then [] else Insert(Sort(s[..|s| - 1]), s[|s| - 1])
  }

  predicate Sorted(s: seq<Entry>) {
    forall j, k :: 0 <= j < k < |s| ==> s[j].offset <= s[k].offset
  }

  lemma {:induction false} InsertSorts(s: seq<Entry>, x: Entry)
    requires Sorted(s)
    ensures Sorted(Insert(s, x)) && multiset(Insert(s, x)) == multiset(s) + multiset{x}
    decreases |s|
  {
    if s != [] && s[|s| - 1].offset > x.offset {
      var front, last := s[..|s| - 1], s[|s| - 1];
      InsertSorts(front, x);
      assert s == front + [last];
      forall k | 0 <= k < |Insert(front, x)| ensures Insert(front, x)[k].offset <= last.offset {
        assert Insert(front, x)[k] in multiset(Insert(front, x));
        assert Insert(front, x)[k] in front || Insert(front, x)[k] == x;
      }
    }
  }

  lemma {:induction false} SortSorts(s: seq<Entry>)
    ensures Sorted(Sort(s)) && multiset(Sort(s)) == multiset(s)
    decreases |s|
  {
    if s != [] {
      SortSorts(s[..|s| - 1]);
      InsertSorts(Sort(s[..|s| - 1]), s[|s| - 1]);
      assert s == s[..|s| - 1] + [s[|s| - 1]];
    }
  }

  /** Moves the larger entries up and puts entry i into the gap. */
  method InsertInPlace(a: array<Entry>, i: nat)
    requires i < a.Length
    modifies a
    ensures a[..i + 1] == Insert(old(a[..i]), old(a[i])) && a[i + 1..] == old(a[i + 1..])
  {
    hide Insert;
    var x := a[i];
    var j := i - 1;
    ghost var s := a[..i];
    while j >= 0 && a[j].offset > x.offset
      invariant -1 <= j < i
      invariant a[..j + 1] == s[..j + 1] && a[i + 1..] == old(a[i + 1..])
      invariant Insert(s, x) == Insert(s[..j + 1], x) + a[j + 2..i + 1]
    {
      InsertMoves(s[..j + 1], x);
      assert s[..j + 1][..j] == s[..j];
      a[j + 1] := a[j];
      assert a[j + 1..i + 1] == [s[j]] + a[j + 2..i + 1];
      j := j - 1;
    }
    InsertStays(s[..j + 1], x);
    a[j + 1] := x;
    assert a[..i + 1] == a[..j + 1] + [x] + a[j + 2..i + 1];
  }

  lemma InsertMoves(s: seq<Entry>, x: Entry)
    requires s != [] && s[|s| - 1].offset > x.offset
    ensures Insert(s, x) == Insert(s[..|s| - 1], x) + [s[|s| - 1]]
  {
  }

  lemma InsertStays(s: seq<Entry>, x: Entry)
    requires s == [] || s[|s| - 1].offset <= x.offset
    ensures Insert(s, x) == s + [x]
  {
  }

  method InsertionSort(a: array<Entry>)
    modifies a
    ensures a[..] == Sort(old(a[..]))
  {
    hide Insert;
    ghost var was := a[..];
    if a.Length == 0 {
      return;
    }
    var i := 1;
    assert was[..1][..0] == [] && was[..1] == [was[0]];
    InsertStays([], was[0]);
    assert Sort(was[..1]) == [was[0]];
    while i < a.Length
      invariant 1 <= i <= a.Length && a[..i] == Sort(was[..i]) && a[i..] == was[i..]
    {
      assert a[i] == a[i..][0] == was[i];
      assert a[i + 1..] == a[i..][1..];
      InsertInPlace(a, i);
      assert was[..i + 1][..i] == was[..i];
      i := i + 1;
    }
    assert a[..i] == a[..] && was[..i] == was;
  }

  // ----- sizes -----

  /** Each function ends where the next begins; the last is given 256 bytes. */
  function SizeAt(s: seq<Entry>, k: nat): nat
    requires k < |s| && Sorted(s)
  {
    if k + 1 < |s| then s[k + 1].offset - s[k].offset else 256
  }

  function Sized(s: seq<Entry>): (r: seq<Entry>)
    requires Sorted(s)
    ensures |r| == |s|
  {
    seq(|s|, k requires 0 <= k < |s| => s[k].(size := SizeAt(s, k)))
  }

  /** An address belongs to entry k. */
  predicate Within(s: seq<Entry>, k: nat, x: nat)
    requires k < |s|
  {
    s[k].offset <= x < s[k].offset + s[k].size
  }

  lemma {:induction false} OwnerBelow(s: seq<Entry>, n: nat, x: nat)
    requires Sorted(s) && n < |s| && s[0].offset <= x
    requires x < s[n].offset + SizeAt(s, n)
    ensures exists k :: 0 <= k <= n && Within(Sized(s), k, x)
    decreases n
  {
    if s[n].offset <= x {
      assert Within(Sized(s), n, x);
    } else {
      OwnerBelow(s, n - 1, x);
    }
  }

  /** The functions tile the code: every address from the first offset to 256 past the last belongs to
      exactly one, and no other address to any. */
  lemma Tiles(s: seq<Entry>, x: nat)
    requires Sorted(s) && s != []
    ensures (exists k :: 0 <= k < |s| && Within(Sized(s), k, x)) <==> s[0].offset <= x < s[|s| - 1].offset + 256
    ensures forall j, k :: 0 <= j < |s| && 0 <= k < |s| && Within(Sized(s), j, x) && Within(Sized(s), k, x) ==> j == k
  {
    if s[0].offset <= x < s[|s| - 1].offset + 256 {
      OwnerBelow(s, |s| - 1, x);
    }
    forall k | 0 <= k < |s| && Within(Sized(s), k, x) ensures s[0].offset <= x < s[|s| - 1].offset + 256 {
      assert k + 1 < |s| ==> s[k + 1].offset <= s[|s| - 1].offset;
    }
    forall j, k | 0 <= j < k < |s| ensures !(Within(Sized(s), j, x) && Within(Sized(s), k, x)) {
      assert s[j + 1].offset <= s[k].offset;
    }
  }

  // ----- what is collected -----

  /** One function as a page describes it. */
  datatype Listed = Listed(offset: nat, encoding: nat, lsda: nat)

  /** Word w of a compressed page: the low 24 bits count from the page's base, modulo 2^32; the high eight
      index the common encodings and then the page's own, and past both mean encoding 0. */
  predicate SaysCompressed(w: nat, base: nat, common: seq<nat>, own: seq<nat>, f: Listed) {
    && f.offset == (base + w % 0x100_0000) % 0x1_0000_0000
    && var index := w / 0x100_0000 % 0x100;
       && (forall j :: 0 <= j < |common| && index == j ==> f.encoding == common[j])
       && (forall j :: 0 <= j < |own| && index == |common| + j ==> f.encoding == own[j])
       && (index >= |common| + |own| ==> f.encoding == 0)
  }

  /** The LSDA is looked up exactly for encodings that announce one. */
  predicate SaysLsda(lsdas: seq<(nat, nat)>, f: Listed) {
    if f.encoding / 0x4000_0000 % 2 == 0 then f.lsda == 0
    else (f.offset, f.lsda) in lsdas || (f.lsda == 0 && forall k :: 0 <= k < |lsdas| ==> lsdas[k].0 != f.offset)
  }

  /** No function has two entries in the index. */
  predicate Rising(lsdas: seq<(nat, nat)>) {
    forall j, k :: 0 <= j < k < |lsdas| ==> lsdas[j].0 < lsdas[k].0
  }

  predicate Says(p: Page, k: nat, common: seq<nat>, f: Listed)
    requires k < Count(p)
  {
    match p
    case Compressed(base, words, own, lsdas) =>
      SaysCompressed(words[k], base, common, own, f) && Rising(lsdas) && SaysLsda(lsdas, f)
    case Regular(entries, lsdas) => entries[k] == (f.offset, f.encoding) && Rising(lsdas) && SaysLsda(lsdas, f)
  }

  /** fs are the functions of the page. */
  predicate PageSays(p: Page, common: seq<nat>, fs: seq<Listed>) {
    |fs| == Count(p) && forall k :: 0 <= k < |fs| ==> Says(p, k, common, fs[k])
  }

  predicate AllSay(pages: seq<Page>, common: seq<nat>, fs: seq<seq<Listed>>) {
    |fs| == |pages| && forall i :: 0 <= i < |pages| ==> PageSays(pages[i], common, fs[i])
  }

  function Flat(fs: seq<seq<Listed>>): seq<Listed> {
    if fs == [] then [] else Flat(fs[..|fs| - 1]) + fs[|fs| - 1]
  }

  /** The entries of these functions with this offset, in the order given. */
  function ListedAt(fs: seq<Listed>, offset: nat): seq<Listed> {
    if fs == [] then [] else
      var last := fs[|fs| - 1];
      ListedAt(fs[..|fs| - 1], offset) + if last.offset == offset then [last] else []
  }

  function Plain(es: seq<Entry>): (fs: seq<Listed>)
    ensures |fs| == |es|
  {
    seq(|es|, k requires 0 <= k < |es| => Listed(es[k].offset, es[k].encoding, es[k].lsda))
  }

  /** By offset, functions with the same offset in the order of the pages, nothing added or lost; each
      reaches to the next, the last over 256 bytes. */
  ghost predicate CollectedAs(es: seq<Entry>, fs: seq<Listed>) {
    && |es| == |fs|
    && (forall j, k :: 0 <= j < k < |es| ==> es[j].offset <= es[k].offset)
    && (forall offset :: ListedAt(Plain(es), offset) == ListedAt(fs, offset))
    && (forall k :: 0 <= k < |es| ==> es[k].size == if k + 1 < |es| then es[k + 1].offset - es[k].offset else 256)
  }

  lemma SearchSays(lsdas: seq<(nat, nat)>, f: Listed)
    requires Rising(lsdas) && SaysLsda(lsdas, f) && HasLsda(f.encoding)
    ensures Search(lsdas, f.offset, 0, |lsdas| - 1) == f.lsda
  {
    hide Search;
    SearchFinds(lsdas, f.offset, 0, |lsdas| - 1);
    if (f.offset, f.lsda) in lsdas {
      var j :| 0 <= j < |lsdas| && lsdas[j] == (f.offset, f.lsda);
      assert 0 <= j <= |lsdas| - 1 && lsdas[j].0 == f.offset;
    }
  }

  lemma EntrySays(p: Page, k: nat, common: seq<nat>, f: Listed)
    requires k < Count(p) && Says(p, k, common, f)
    ensures EntryAt(p, k, common) == Entry(f.offset, 0, f.encoding, f.lsda)
  {
    hide Search, Rising, SaysLsda;
    if p.Compressed? {
      var index := p.words[k] / 0x100_0000 % 0x100;
      assert index < |common| || index == |common| + (index - |common|);
      assert Decoded(index, common, p.encodings) == f.encoding;
    }
    if HasLsda(f.encoding) {
      SearchSays(p.lsdas, f);
    } else {
      NoLsda(p.lsdas, f);
    }
  }

  lemma NoLsda(lsdas: seq<(nat, nat)>, f: Listed)
    requires SaysLsda(lsdas, f) && !HasLsda(f.encoding)
    ensures f.lsda == 0
  {
  }

  lemma {:induction false} AllPlain(pages: seq<Page>, common: seq<nat>, fs: seq<seq<Listed>>)
    requires AllSay(pages, common, fs)
    ensures Plain(AllEntries(pages, common)) == Flat(fs)
    decreases |pages|
  {
    hide EntryAt, Says;
    if pages != [] {
      var n := |pages| - 1;
      AllPlain(pages[..n], common, fs[..n]);
      assert PageSays(pages[n], common, fs[n]);
      forall k | 0 <= k < |fs[n]|
        ensures PageEntries(pages[n], common)[k] == Entry(fs[n][k].offset, 0, fs[n][k].encoding, fs[n][k].lsda)
      {
        EntrySays(pages[n], k, common, fs[n][k]);
      }
      assert Plain(PageEntries(pages[n], common)) == fs[n];
    }
  }

  lemma PlainLast(s: seq<Entry>)
    requires s != []
    ensures var n := |s| - 1;
      Plain(s)[..n] == Plain(s[..n]) && Plain(s)[n] == Listed(s[n].offset, s[n].encoding, s[n].lsda)
  {
  }

  lemma AtLast(s: seq<Entry>, x: Entry, offset: nat)
    ensures ListedAt(Plain(s + [x]), offset) ==
      ListedAt(Plain(s), offset) + if x.offset == offset then [Listed(x.offset, x.encoding, x.lsda)] else []
  {
    PlainLast(s + [x]);
    assert (s + [x])[..|s|] == s;
  }

  lemma {:induction false} InsertKeeps(s: seq<Entry>, x: Entry, offset: nat)
    ensures ListedAt(Plain(Insert(s, x)), offset) == ListedAt(Plain(s + [x]), offset)
    decreases |s|
  {
    hide ListedAt, Plain;
    if s != [] && s[|s| - 1].offset > x.offset {
      var front, last := s[..|s| - 1], s[|s| - 1];
      assert s == front + [last];
      InsertKeeps(front, x, offset);
      AtLast(Insert(front, x), last, offset);
      AtLast(front, x, offset);
      AtLast(front, last, offset);
      AtLast(s, x, offset);
    }
  }

  lemma {:induction false} SortKeeps(s: seq<Entry>, offset: nat)
    ensures ListedAt(Plain(Sort(s)), offset) == ListedAt(Plain(s), offset)
    decreases |s|
  {
    hide ListedAt, Plain, Insert;
    if s != [] {
      var front, last := s[..|s| - 1], s[|s| - 1];
      assert s == front + [last];
      SortKeeps(front, offset);
      InsertKeeps(Sort(front), last, offset);
      AtLast(Sort(front), last, offset);
      AtLast(front, last, offset);
    }
  }

  lemma SortedSays(pages: seq<Page>, common: seq<nat>, fs: seq<seq<Listed>>)
    requires AllSay(pages, common, fs)
    ensures var s := Sort(AllEntries(pages, common)); Sorted(s) && CollectedAs(Sized(s), Flat(fs))
  {
    hide Sort, AllEntries, AllSay, ListedAt;
    var all := AllEntries(pages, common);
    SortSorts(all);
    AllPlain(pages, common, fs);
    assert Plain(Sized(Sort(all))) == Plain(Sort(all));
    forall offset: nat ensures ListedAt(Plain(Sort(all)), offset) == ListedAt(Flat(fs), offset) {
      SortKeeps(all, offset);
    }
  }

  // ----- the whole -----

  /** Whatever functions the pages describe, they are what is collected. */
  method Collect(pages: seq<Page>, common: seq<nat>) returns (es: seq<Entry>)
    ensures Sorted(Sort(AllEntries(pages, common)))
    ensures es == Sized(Sort(AllEntries(pages, common)))
    ensures forall fs :: AllSay(pages, common, fs) ==> CollectedAs(es, Flat(fs))
  {
    hide Sort, AllEntries, Sized, Sorted, Total, AllSay, CollectedAs;
    SortSorts(AllEntries(pages, common));
    var total := CountPages(pages);
    var a := new Entry[total](_ => Entry(0, 0, 0, 0));
    FillPages(a, pages, common);
    InsertionSort(a);
    es := SetSizes(a);
    forall fs | AllSay(pages, common, fs) ensures CollectedAs(es, Flat(fs)) {
      SortedSays(pages, common, fs);
    }
  }

  method CountPages(pages: seq<Page>) returns (total: nat)
    ensures total == Total(pages)
  {
    total := 0;
    for i := 0 to |pages|
      invariant total == Total(pages[..i])
    {
      assert pages[..i + 1][..i] == pages[..i];
      total := total + Count(pages[i]);
    }
    assert pages[..|pages|] == pages;
  }

  /** The filling pass writes exactly what the counting pass reserved. */
  method FillPages(a: array<Entry>, pages: seq<Page>, common: seq<nat>)
    requires a.Length == Total(pages)
    modifies a
    ensures a[..] == AllEntries(pages, common)
  {
    hide PageEntries, Count;
    var count := 0;
    for i := 0 to |pages|
      invariant count == Total(pages[..i]) <= a.Length
      invariant a[..count] == AllEntries(pages[..i], common)
    {
      TotalPrefix(pages, i + 1);
      assert pages[..i + 1][..i] == pages[..i];
      FillPage(a, count, pages[i], common);
      count := count + Count(pages[i]);
    }
    assert pages[..|pages|] == pages;
    assert a[..count] == a[..];
  }

  lemma {:induction false} TotalPrefix(pages: seq<Page>, i: nat)
    requires i <= |pages|
    ensures Total(pages[..i]) <= Total(pages)
    decreases |pages|
  {
    if i < |pages| {
      assert pages[..|pages| - 1][..i] == pages[..i];
      TotalPrefix(pages[..|pages| - 1], i);
    } else {
      assert pages[..i] == pages;
    }
  }

  method FillPage(a: array<Entry>, at: nat, p: Page, common: seq<nat>)
    requires at + Count(p) <= a.Length
    modifies a
    ensures a[..at + Count(p)] == old(a[..at]) + PageEntries(p, common)
  {
    var i := 0;
    while i < Count(p) && at + i < a.Length
      invariant 0 <= i <= Count(p)
      invariant a[..at] == old(a[..at]) && a[at..at + i] == PageEntries(p, common)[..i]
    {
      a[at + i] := ReadEntry(p, i, common);
      assert a[at..at + i + 1] == a[at..at + i] + [EntryAt(p, i, common)];
      i := i + 1;
    }
    assert a[..at + i] == a[..at] + a[at..at + i];
  }

  method ReadEntry(p: Page, k: nat, common: seq<nat>) returns (e: Entry)
    requires k < Count(p)
    ensures e == EntryAt(p, k, common)
  {
    var f, enc;
    if p.Compressed? {
      f := (p.base + p.words[k] % 0x100_0000) % 0x1_0000_0000;
      enc := Decoded(p.words[k] / 0x100_0000 % 0x100, common, p.encodings);
    } else {
      f, enc := p.entries[k].0, p.entries[k].1;
    }
    var lsda := 0;
    if HasLsda(enc) {
      lsda := FindLsda(p.lsdas, f);
    }
    e := Entry(f, 0, enc, lsda);
  }

  method SetSizes(a: array<Entry>) returns (es: seq<Entry>)
    requires Sorted(a[..])
    modifies a
    ensures es == a[..] == Sized(old(a[..]))
  {
    ghost var s := a[..];
    for i := 0 to a.Length
      invariant a[..i] == Sized(s)[..i] && a[i..] == s[i..]
    {
      assert a[i] == a[i..][0] == s[i];
      assert i + 1 < a.Length ==> a[i + 1] == a[i..][1] == s[i + 1];
      assert a[i + 1..] == a[i..][1..];
      var size := if i + 1 < a.Length then a[i + 1].offset - a[i].offset else 256;
      a[i] := a[i].(size := size);
      assert a[..i + 1] == a[..i] + [a[i]];
    }
    es := a[..];
  }
}
