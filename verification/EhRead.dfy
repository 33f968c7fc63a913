/** The two readers of .eh_frame data in src/eh_frame.c: the walk over the program's own section, and the
    general parser for a section of unknown origin. */
module EhRead {
  import opened Basics
  import opened Leb128
  import opened EhFrame
  import opened EhEntries
  import opened EhCfi
  import opened EhParse
  import opened EhMeaning

  // ----- reading words -----

  /** The buffer is zero-filled beyond what was written. */
  function ByteAt(s: seq<Byte>, p: nat): Byte {
    if p < |s| then s[p] else 0
  }

  function Word(s: seq<Byte>, p: nat, n: nat): nat
    decreases n
  {
    if n == 0 then 0 else ByteAt(s, p) + 0x100 * Word(s, p + 1, n - 1)
  }

  lemma {:induction false} WordAt(s: seq<Byte>, p: nat, n: nat)
    requires p + n <= |s|
    ensures Word(s, p, n) == FromLe(s[p..p + n])
    decreases n
  {
    if n > 0 {
      assert s[p..p + n][1..] == s[p + 1..p + n];
      WordAt(s, p + 1, n - 1);
    }
  }

  // ----- the walk over the program's own section -----

  function Walk(s: seq<Byte>, pos: nat): seq<(nat, nat)>
    decreases |s| - pos
  {
    if pos + 4 >= |s| then [] else
      var length := Word(s, pos, 4);
      if length == 0 then [] else
        (if Word(s, pos + 4, 4) != 0 then [(Word(s, pos + 8, 8), pos)] else []) + Walk(s, pos + 4 + length)
  }

  method WalkSection(s: seq<Byte>) returns (entries: seq<(nat, nat)>)
    ensures entries == Walk(s, 0)
  {
    hide Word;
    entries := [];
    var pos := 0;
    while pos + 4 < |s|
      invariant entries + Walk(s, pos) == Walk(s, 0)
      decreases |s| - pos
    {
      var length := Word(s, pos, 4);
      if length == 0 {
        break;
      }
      if Word(s, pos + 4, 4) != 0 {
        entries := entries + [(Word(s, pos + 8, 8), pos)];
      }
      pos := pos + 4 + length;
    }
  }

  // ----- encoded pointers -----

  const PeAbs: Byte := 0x00
  const PeOmit: Byte := 0xff

  /** Size of a pointer format, 0 when unknown. */
  function PeSize(enc: Byte): nat {
    var f := enc % 0x10;
    if f == 0x02 || f == 0x0a then 2
    else if f == 0x03 || f == 0x0b then 4
    else if f == 0x00 || f == 0x04 || f == 0x0c then 8
    else 0
  }

  function SignExtend(v: nat, n: nat): nat {
    if n == 2 && v >= 0x8000 then v + TWO64 - 0x1_0000
    else if n == 4 && v >= 0x8000_0000 then v + TWO64 - 0x1_0000_0000
    else v
  }

  /** Value and next position; `base` is where the section lies and `load` reads a pointer from memory. */
  function ReadPointer(s: seq<Byte>, p: nat, end: nat, enc: Byte, base: nat, load: nat -> nat): (nat, nat) {
    var n := PeSize(enc);
    if enc == PeOmit || n == 0 || p + n > end then (0, p) else
      var raw := Word(s, p, n);
      var v := if enc % 0x10 >= 0x0a then SignExtend(raw, n) else raw;
      var v1 := if enc / 0x10 % 8 == 1 then (v + base + p) % TWO64 else v;
      (if enc >= 0x80 then load(v1) else v1, p + n)
  }

  // ----- the pointer encoding of a CIE -----

  /** The letters after 'z', in the source's switch; i is the letter and p the data position. */
  function PointerLetter(s: seq<Byte>, i: nat, p: nat, augEnd: nat, base: nat, load: nat -> nat): Byte
    requires augEnd <= |s|
    decreases |s| - i
  {
    if i >= |s| || s[i] == 0 || p >= augEnd then PeAbs
    else if s[i] == 'L' as int then PointerLetter(s, i + 1, p + 1, augEnd, base, load)
    else if s[i] == 'P' as int then
      PointerLetter(s, i + 1, ReadPointer(s, p + 1, augEnd, s[p], base, load).1, augEnd, base, load)
    else if s[i] == 'R' as int then s[p]
    else PeAbs
  }

  /** From the code alignment factor on; `letters` is where the augmentation string starts. */
  function PointerEncodingFrom(s: seq<Byte>, letters: nat, p: nat, end: nat, version: Byte, base: nat, load: nat -> nat): Byte
    requires letters < p <= end <= |s|
  {
    var p1 := p + Len(s[p..end]);
    var p2 := p1 + Len(s[p1..end]);
    var p3 := if version == 1 then (if p2 < end then p2 + 1 else p2) else p2 + Len(s[p2..end]);
    if s[letters] != 'z' as int then PeAbs else
      var p4 := p3 + Len(s[p3..end]);
      var n := U(s[p3..end]) % TWO64;
      PointerLetter(s, letters + 1, p4, if p4 + n > end then end else p4 + n, base, load)
  }

  function PointerEncoding(s: seq<Byte>, p: nat, end: nat, base: nat, load: nat -> nat): Byte
    requires p <= end <= |s|
  {
    if p + 5 > end then PeAbs else
      var str := p + 5;
      var n := StrLen(s[str..end]);
      if str + n >= end then PeAbs else PointerEncodingFrom(s, str, str + n + 1, end, s[p + 4], base, load)
  }

  // ----- the general parser -----

  /** None when the program would read outside the section. A 64-bit length is not reduced. */
  function Parse(s: seq<Byte>, pos: nat, base: nat, load: nat -> nat): Option<seq<(nat, nat)>>
    decreases |s| - pos
  {
    if pos + 4 > |s| || Word(s, pos, 4) == 0 then Some([]) else
      var length := Word(s, pos, 4);
      if length == 0xffff_ffff && pos + 12 > |s| then Some([]) else
        var start := if length == 0xffff_ffff then pos + 12 else pos + 4;
        var end := start + if length == 0xffff_ffff then Word(s, pos + 4, 8) else length;
        if end > |s| then Some([])
        else if start + 4 > |s| then None
        else
          var found := ParseOne(s, pos, start, end, base, load);
          var rest := Parse(s, end, base, load);
          if found.None? || rest.None? then None else Some(found.value + rest.value)
  }

  /** One record: nothing for a CIE, and nothing for an FDE whose address reads as zero. */
  function ParseOne(s: seq<Byte>, pos: nat, start: nat, end: nat, base: nat, load: nat -> nat): Option<seq<(nat, nat)>>
    requires start + 4 <= |s| && start <= end <= |s|
  {
    var back := Word(s, start, 4);
    if back == 0 || back > start then Some([]) else
      var cie := start - back;
      var cieEnd := cie + 4 + Word(s, cie, 4);
      if cie + 4 > |s| || cieEnd > |s| then None else
        var enc := PointerEncoding(s, cie + 4, cieEnd, base, load);
        var addr := ReadPointer(s, start + 4, end, enc, base, load).0;
        Some(if addr != 0 then [(addr, pos)] else [])
  }

  method FindPointerEncoding(s: seq<Byte>, p: nat, end: nat, base: nat, load: nat -> nat) returns (enc: Byte)
    requires p <= end <= |s|
    ensures enc == PointerEncoding(s, p, end, base, load)
  {
    hide PointerEncodingFrom;
    if p + 4 > end {
      return PeAbs;
    }
    var q := p + 4;
    if q >= end {
      return PeAbs;
    }
    var version := s[q];
    q := q + 1;
    var str := q;
    while q < end && s[q] != 0
      invariant str <= q <= end
      invariant StrLen(s[str..end]) == q - str + StrLen(s[q..end])
    {
      assert s[q..end][1..] == s[q + 1..end];
      q := q + 1;
    }
    if q >= end {
      return PeAbs;
    }
    enc := FindEncodingFrom(s, str, q + 1, end, version, base, load);
  }

  method FindEncodingFrom(s: seq<Byte>, letters: nat, p: nat, end: nat, version: Byte, base: nat, load: nat -> nat) returns (enc: Byte)
    requires letters < p <= end <= |s|
    ensures enc == PointerEncodingFrom(s, letters, p, end, version, base, load)
  {
    hide PointerLetter, U, S, Len;
    var v, next := ReadUleb(s, p, end);
    var signed;
    signed, next := ReadSleb(s, next, end);
    if version == 1 {
      if next < end {
        next := next + 1;
      }
    } else {
      v, next := ReadUleb(s, next, end);
    }
    if s[letters] != 'z' as int {
      return PeAbs;
    }
    v, next := ReadUleb(s, next, end);
    enc := FindLetter(s, letters + 1, next, if next + v > end then end else next + v, base, load);
  }

  method FindLetter(s: seq<Byte>, first: nat, data: nat, augEnd: nat, base: nat, load: nat -> nat) returns (enc: Byte)
    requires augEnd <= |s|
    ensures enc == PointerLetter(s, first, data, augEnd, base, load)
  {
    var i: nat, p: nat := first, data;
    while i < |s| && s[i] != 0 && p < augEnd
      invariant PointerLetter(s, i, p, augEnd, base, load) == PointerLetter(s, first, data, augEnd, base, load)
      decreases |s| - i
    {
      if s[i] == 'L' as int {
        p := p + 1;
      } else if s[i] == 'P' as int {
        p := ReadPointer(s, p + 1, augEnd, s[p], base, load).1;
      } else if s[i] == 'R' as int {
        return s[p];
      } else {
        return PeAbs;
      }
      i := i + 1;
    }
    enc := PeAbs;
  }

  /** None when the next read would leave the section. */
  method ParseSection(s: seq<Byte>, base: nat, load: nat -> nat) returns (r: Option<seq<(nat, nat)>>)
    ensures r == Parse(s, 0, base, load)
  {
    hide Word, ParseOne;
    var entries: seq<(nat, nat)> := [];
    var pos: nat := 0;
    PrependNone(Parse(s, 0, base, load));
    while pos + 4 <= |s|
      invariant Parse(s, 0, base, load) == Prepend(entries, Parse(s, pos, base, load))
      decreases |s| - pos
    {
      var length: nat := Word(s, pos, 4);
      if length == 0 {
        break;
      }
      var start: nat, end: nat := pos + 4, pos + 4 + length;
      if length == 0xffff_ffff {
        if pos + 12 > |s| {
          break;
        }
        start := pos + 12;
        end := start + Word(s, pos + 4, 8);
      }
      if end > |s| {
        break;
      }
      if start + 4 > |s| {
        return None;
      }
      var found := ParseRecord(s, pos, start, end, base, load);
      if found.None? {
        return None;
      }
      PrependMore(entries, found.value, Parse(s, end, base, load));
      entries := entries + found.value;
      pos := end;
    }
    r := Some(entries);
    assert entries + [] == entries;
  }

  lemma PrependNone(r: Option<seq<(nat, nat)>>)
    ensures Prepend([], r) == r
  {
    if r.Some? {
      assert [] + r.value == r.value;
    }
  }

  lemma PrependMore(a: seq<(nat, nat)>, b: seq<(nat, nat)>, r: Option<seq<(nat, nat)>>)
    ensures Prepend(a + b, r) == Prepend(a, Prepend(b, r))
  {
    if r.Some? {
      assert a + b + r.value == a + (b + r.value);
    }
  }

  function Prepend(a: seq<(nat, nat)>, r: Option<seq<(nat, nat)>>): Option<seq<(nat, nat)>> {
    if r.None? then None else Some(a + r.value)
  }

  method ParseRecord(s: seq<Byte>, pos: nat, start: nat, end: nat, base: nat, load: nat -> nat)
      returns (r: Option<seq<(nat, nat)>>)
    requires start + 4 <= |s| && start <= end <= |s|
    ensures r == ParseOne(s, pos, start, end, base, load)
  {
    hide Word, PointerEncoding;
    var back := Word(s, start, 4);
    if back == 0 || back > start {
      return Some([]);
    }
    var cie := start - back;
    if cie + 4 > |s| {
      return None;
    }
    var cieEnd := cie + 4 + Word(s, cie, 4);
    if cieEnd > |s| {
      return None;
    }
    var enc := FindPointerEncoding(s, cie + 4, cieEnd, base, load);
    var addr := ReadPointer(s, start + 4, end, enc, base, load).0;
    r := Some(if addr != 0 then [(addr, pos)] else []);
  }

  // ----- both readers agree with the writer -----

  lemma WordLe(s: seq<Byte>, p: nat, v: nat, n: nat)
    requires At(s, p, Le(v, n)) && v < Pow256(n)
    ensures Word(s, p, n) == v
  {
    hide Le, FromLe, Word;
    WordAt(s, p, n);
    LeRoundTrip(v, n);
  }

  lemma RecordLength(s: seq<Byte>, pos: nat, i: Item)
    requires At(s, pos, Record(pos, i)) && |Record(pos, i)| < 0x1_0000_0000
    ensures Word(s, pos, 4) == |Record(pos, i)| - 4
    ensures At(s, pos + 4, Body(pos, i))
  {
    hide Le, Body, At, Zeros, PadTo8;
    var b := Body(pos, i);
    var pad := Zeros(PadTo8(pos + 4 + |b|));
    assert Pow256(4) == 0x1_0000_0000;
    assert Record(pos, i) == Le(|b| + |pad|, 4) + (b + pad);
    AtSplit(s, pos, Le(|b| + |pad|, 4), b + pad);
    AtSplit(s, pos + 4, b, pad);
    WordLe(s, pos, |b| + |pad|, 4);
  }

  lemma CieWord(s: seq<Byte>, q: nat, p: nat)
    requires At(s, q, CieBody(p))
    ensures Word(s, q, 4) == 0
  {
    hide Le, At, PutU, PutS, CieAugmentation, CieData, InitialInsns;
    var rest := PutU(4) + PutS(-8) + PutU(RegLr) + CieData(p) + InitialInsns();
    assert CieBody(p) == Le(0, 4) + ([1] + CieAugmentation(p) + rest);
    AtSplit(s, q, Le(0, 4), [1] + CieAugmentation(p) + rest);
    assert Pow256(4) == 0x1_0000_0000;
    WordLe(s, q, 0, 4);
  }

  lemma FdeWords(s: seq<Byte>, pos: nat, i: Item)
    requires i.Fde? && At(s, pos + 4, Body(pos, i)) && i.cie <= pos && pos + 4 < 0x1_0000_0000 && i.addr < TWO64
    ensures Word(s, pos + 4, 4) == pos + 4 - i.cie
    ensures Word(s, pos + 8, 8) == i.addr
    ensures pos + 4 + |Body(pos, i)| >= pos + 24
  {
    hide Le, At, PutU;
    var tail := Le(i.size, 8) + (if i.lsda == 0 then PutU(0) else PutU(8) + Le(i.lsda, 8)) + i.insns;
    assert Body(pos, i) == Le(pos + 4 - i.cie, 4) + (Le(i.addr, 8) + tail);
    AtSplit(s, pos + 4, Le(pos + 4 - i.cie, 4), Le(i.addr, 8) + tail);
    AtSplit(s, pos + 8, Le(i.addr, 8), tail);
    assert Pow256(4) == 0x1_0000_0000 && Pow256(8) == TWO64;
    WordLe(s, pos + 4, pos + 4 - i.cie, 4);
    WordLe(s, pos + 8, i.addr, 8);
  }

  /** The rest of a section, from a record boundary on. */
  ghost predicate Tail(s: seq<Byte>, pos: nat, items: seq<Item>) {
    && At(s, pos, Layout(pos, items))
    && |s| == pos + |Layout(pos, items)| + 4 < 0x1_0000_0000
    && At(s, pos + |Layout(pos, items)|, Zeros(4))
  }

  /** FDEs point back and have addresses that fit. */
  ghost predicate Backward(pos: nat, items: seq<Item>)
    decreases |items|
  {
    items != [] ==>
      && (items[0].Fde? ==> items[0].cie <= pos && 0 < items[0].addr < TWO64)
      && Backward(pos + |Record(pos, items[0])|, items[1..])
  }

  lemma TailStep(s: seq<Byte>, pos: nat, items: seq<Item>)
    requires Tail(s, pos, items) && items != []
    ensures At(s, pos, Record(pos, items[0])) && |Record(pos, items[0])| >= 4
    ensures pos + |Record(pos, items[0])| + 4 <= |s| < 0x1_0000_0000
    ensures Tail(s, pos + |Record(pos, items[0])|, items[1..])
  {
    hide Record, At, Zeros;
    AtSplit(s, pos, Record(pos, items[0]), Layout(pos + |Record(pos, items[0])|, items[1..]));
  }

  lemma TailEnd(s: seq<Byte>, pos: nat)
    requires Tail(s, pos, [])
    ensures |s| == pos + 4 && Word(s, pos, 4) == 0
  {
    WordAt(s, pos, 4);
    assert s[pos..pos + 4] == Zeros(4) == [0, 0, 0, 0];
  }

  lemma NonEmptyBody(pos: nat, i: Item)
    requires i.Cie? || i.cie <= pos
    ensures |Record(pos, i)| >= 20
  {
    hide Le, PutU, PutS, Zeros;
  }

  /** The shortcut walk lists exactly the emitted FDEs, in order. */
  lemma {:induction false} WalkLists(s: seq<Byte>, pos: nat, items: seq<Item>)
    requires Tail(s, pos, items) && Backward(pos, items)
    ensures Walk(s, pos) == Listed(pos, items)
    decreases |items|
  {
    hide Tail, Record, Body, At, Word;
    if items == [] {
      TailEnd(s, pos);
    } else {
      var i := items[0];
      TailStep(s, pos, items);
      RecordLength(s, pos, i);
      NonEmptyBody(pos, i);
      if i.Cie? {
        BodyOfCie(pos, i.personality);
        CieWord(s, pos + 4, i.personality);
      } else {
        FdeWords(s, pos, i);
      }
      var next := pos + |Record(pos, i)|;
      WalkLists(s, next, items[1..]);
    }
  }

  lemma BodyOfCie(pos: nat, p: nat)
    ensures Body(pos, Cie(p)) == CieBody(p)
  {
  }

  // ----- the general parser on a CIE of ours -----

  /** A slice that starts a number: where the number ends and what follows. */
  lemma SliceU(s: seq<Byte>, p: nat, end: nat, v: nat, rest: seq<Byte>)
    requires p <= end <= |s| && s[p..end] == PutU(v) + rest
    ensures U(s[p..end]) == v && p + Len(s[p..end]) <= end && s[p + Len(s[p..end])..end] == rest
  {
    hide U, Len, PutU, Terminated;
    TakeU(v, rest);
    assert s[p + Len(s[p..end])..end] == s[p..end][Len(s[p..end])..];
  }

  lemma SliceS(s: seq<Byte>, p: nat, end: nat, v: int, rest: seq<Byte>)
    requires p <= end <= |s| && s[p..end] == PutS(v) + rest
    ensures p + Len(s[p..end]) <= end && s[p + Len(s[p..end])..end] == rest
  {
    hide U, Len, PutS, Terminated;
    TakeS(v, rest);
    assert s[p + Len(s[p..end])..end] == s[p..end][Len(s[p..end])..];
  }

  /** The letter loop finds an absolute pointer encoding. */
  lemma LettersAbs(s: seq<Byte>, letters: nat, p4: nat, p: nat, base: nat, load: nat -> nat)
    requires At(s, letters, CieAugmentation(p)) && At(s, p4, CiePointers(p))
    ensures s[letters] == 'z' as int
    ensures PointerLetter(s, letters + 1, p4, p4 + |CiePointers(p)|, base, load) == PeAbs
  {
    hide Le, Word;
    var w := s[letters..letters + |CieAugmentation(p)|];
    var d := s[p4..p4 + |CiePointers(p)|];
    assert w == CieAugmentation(p) && d == CiePointers(p);
    assert w[0] == s[letters] && w[1] == s[letters + 1] && w[2] == s[letters + 2];
    assert d[0] == s[p4];
    if p != 0 {
      assert w[3] == s[letters + 3];
      assert d[10] == s[p4 + 10];
      assert ReadPointer(s, p4 + 1, p4 + 11, s[p4], base, load).1 == p4 + 9;
      assert PointerLetter(s, letters + 3, p4 + 10, p4 + 11, base, load) == PeAbs;
      assert PointerLetter(s, letters + 2, p4 + 9, p4 + 11, base, load) == PeAbs;
    }
  }

  lemma EncodingFrom(s: seq<Byte>, letters: nat, q: nat, end: nat, p: nat, rest: seq<Byte>, base: nat, load: nat -> nat)
    requires letters < q <= end <= |s| && At(s, letters, CieAugmentation(p))
    requires s[q..end] == PutU(4) + (PutS(-8) + (PutU(RegLr) + (PutU(|CiePointers(p)|) + (CiePointers(p) + rest))))
    ensures PointerEncodingFrom(s, letters, q, end, 1, base, load) == PeAbs
  {
    hide Le, At, PutU, PutS, U, Len, CieAugmentation, CiePointers, PointerLetter;
    var d := CiePointers(p);
    SliceU(s, q, end, 4, PutS(-8) + (PutU(RegLr) + (PutU(|d|) + (d + rest))));
    var p1 := q + Len(s[q..end]);
    SliceS(s, p1, end, -8, PutU(RegLr) + (PutU(|d|) + (d + rest)));
    var p2 := p1 + Len(s[p1..end]);
    SmallU(RegLr);
    assert s[p2 + 1..end] == s[p2..end][1..] == PutU(|d|) + (d + rest);
    SliceU(s, p2 + 1, end, |d|, d + rest);
    var p4 := p2 + 1 + Len(s[p2 + 1..end]);
    AtSlice(s, p4, end, d, rest);
    PointersSmall(p);
    LettersAbs(s, letters, p4, p, base, load);
  }

  lemma PointersSmall(p: nat)
    ensures |CiePointers(p)| < TWO64
  {
  }

  lemma AtSlice(s: seq<Byte>, p: nat, end: nat, a: seq<Byte>, rest: seq<Byte>)
    requires p <= end <= |s| && s[p..end] == a + rest
    ensures At(s, p, a) && p + |a| <= end && s[p + |a|..end] == rest
  {
    assert s[p..p + |a|] == s[p..end][..|a|];
    assert s[p + |a|..end] == s[p..end][|a|..];
  }

  lemma EncodingAbs(s: seq<Byte>, q: nat, end: nat, p: nat, pad: nat, base: nat, load: nat -> nat)
    requires q <= end <= |s| && s[q..end] == CieBody(p) + Zeros(pad)
    ensures PointerEncoding(s, q, end, base, load) == PeAbs
  {
    hide Le, At, PutU, PutS, CieAugmentation, CieData, CiePointers, InitialInsns, Zeros, PointerEncodingFrom, StrLen;
    var d := CiePointers(p);
    var rest := InitialInsns() + Zeros(pad);
    var tail := PutU(4) + (PutS(-8) + (PutU(RegLr) + (PutU(|d|) + (d + rest))));
    CieDataSplit(p);
    Regroup2(Le(0, 4) + [1], CieAugmentation(p), PutU(4), PutS(-8), PutU(RegLr), PutU(|d|), d, InitialInsns(), Zeros(pad));
    AtSlice(s, q, end, Le(0, 4) + [1], CieAugmentation(p) + tail);
    assert s[q + 4] == s[q..end][4] == 1;
    AtSlice(s, q + 5, end, CieAugmentation(p), tail);
    AugmentationLength(p, tail);
    EncodingFrom(s, q + 5, q + 5 + |CieAugmentation(p)|, end, p, rest, base, load);
  }

  lemma Regroup2(a: seq<Byte>, b: seq<Byte>, c: seq<Byte>, d: seq<Byte>, e: seq<Byte>, f: seq<Byte>, g: seq<Byte>,
                 h: seq<Byte>, z: seq<Byte>)
    ensures a + b + (c + d + e + (f + g) + h) + z == a + (b + (c + (d + (e + (f + (g + (h + z)))))))
  {
  }

  // ----- agreement -----

  /** Every FDE points at one of our CIEs. */
  ghost predicate Pointing(s: seq<Byte>, items: seq<Item>) {
    forall k :: 0 <= k < |items| && items[k].Fde? ==> exists p :: At(s, items[k].cie, Record(items[k].cie, Cie(p)))
  }

  lemma CieSpan(s: seq<Byte>, at: nat, p: nat)
    requires At(s, at, Record(at, Cie(p))) && |s| < 0x1_0000_0000
    ensures var end := at + 4 + Word(s, at, 4); at + 4 <= end <= |s| && exists pad :: s[at + 4..end] == CieBody(p) + Zeros(pad)
  {
    hide Le, CieBody, Zeros, PadTo8, Word, FromLe;
    var b := CieBody(p);
    var pad := PadTo8(at + 4 + |b|);
    RecordLength(s, at, Cie(p));
    assert Record(at, Cie(p)) == Le(|b| + |Zeros(pad)|, 4) + (b + Zeros(pad));
    AtSplit(s, at, Le(|b| + |Zeros(pad)|, 4), b + Zeros(pad));
    assert s[at + 4..at + 4 + |b + Zeros(pad)|] == b + Zeros(pad);
  }

  lemma FdeParsed(s: seq<Byte>, pos: nat, i: Item, base: nat, load: nat -> nat)
    requires |s| < 0x1_0000_0000 && At(s, pos, Record(pos, i)) && i.Fde? && i.cie <= pos && 0 < i.addr < TWO64
    requires exists p :: At(s, i.cie, Record(i.cie, Cie(p)))
    ensures ParseOne(s, pos, pos + 4, pos + |Record(pos, i)|, base, load) == Some([(i.addr, pos)])
  {
    hide Record, Body, At, Word, PointerEncoding, CieBody, Zeros;
    RecordSpan(s, pos, i);
    RecordLength(s, pos, i);
    FdeWords(s, pos, i);
    FdeLong(pos, i);
    var p :| At(s, i.cie, Record(i.cie, Cie(p)));
    CieSpan(s, i.cie, p);
    var end := i.cie + 4 + Word(s, i.cie, 4);
    var pad :| s[i.cie + 4..end] == CieBody(p) + Zeros(pad);
    EncodingAbs(s, i.cie + 4, end, p, pad, base, load);
  }

  lemma RecordSpan(s: seq<Byte>, pos: nat, i: Item)
    requires At(s, pos, Record(pos, i))
    ensures pos + |Record(pos, i)| <= |s|
  {
  }

  lemma FdeLong(pos: nat, i: Item)
    requires i.Fde?
    ensures |Record(pos, i)| >= 24
  {
    hide Le, PutU, Zeros;
  }

  lemma CieParsed(s: seq<Byte>, pos: nat, p: nat, end: nat, base: nat, load: nat -> nat)
    requires |s| < 0x1_0000_0000 && At(s, pos, Record(pos, Cie(p))) && pos + 4 <= end <= |s| && pos + 8 <= |s|
    ensures ParseOne(s, pos, pos + 4, end, base, load) == Some([])
  {
    hide Record, Body, At, Word, PointerEncoding, CieBody;
    RecordSpan(s, pos, Cie(p));
    RecordLength(s, pos, Cie(p));
    BodyOfCie(pos, p);
    CieWord(s, pos + 4, p);
  }

  /** The general parser finds the same FDEs, and never reads outside the section. */
  lemma {:induction false} ParseLists(s: seq<Byte>, pos: nat, items: seq<Item>, base: nat, load: nat -> nat)
    requires Tail(s, pos, items) && Backward(pos, items) && Pointing(s, items)
    ensures Parse(s, pos, base, load) == Some(Listed(pos, items))
    decreases |items|
  {
    hide Tail, Record, Body, At, Word, ParseOne;
    if items == [] {
      TailEnd(s, pos);
    } else {
      var i := items[0];
      var next := pos + |Record(pos, i)|;
      TailStep(s, pos, items);
      RecordLength(s, pos, i);
      NonEmptyBody(pos, i);
      if i.Cie? {
        CieParsed(s, pos, i.personality, next, base, load);
      } else {
        FdeParsed(s, pos, i, base, load);
      }
      assert forall k :: 0 <= k < |items[1..]| ==> items[1..][k] == items[k + 1];
      ParseLists(s, next, items[1..], base, load);
    }
  }

  // ----- the section the program builds -----

  /** Addresses of the functions that get an FDE, in order. */
  function Addresses(base: nat, es: seq<Entry>): seq<nat> {
    if es == [] then [] else (if Emitted(es[0]) then [base + es[0].offset] else []) + Addresses(base, es[1..])
  }

  function Firsts(l: seq<(nat, nat)>): seq<nat> {
    if l == [] then [] else [l[0].0] + Firsts(l[1..])
  }

  lemma {:induction false} ListedAddresses(pos: nat, base: nat, ps: seq<nat>, es: seq<Entry>)
    ensures Firsts(Listed(pos, FdeItems(base, ps, es))) == Addresses(base, es)
    decreases |es|
  {
    hide Record, FdeOf, Emitted;
    if es != [] {
      if Emitted(es[0]) {
        var i := FdeOf(base, ps, es[0]);
        FdeFields(base, ps, es[0]);
        assert FdeItems(base, ps, es) == [i] + FdeItems(base, ps, es[1..]);
        var rest := Listed(pos + |Record(pos, i)|, FdeItems(base, ps, es[1..]));
        assert Listed(pos, FdeItems(base, ps, es)) == [(i.addr, pos)] + rest;
        assert ([(i.addr, pos)] + rest)[1..] == rest;
        ListedAddresses(pos + |Record(pos, i)|, base, ps, es[1..]);
      } else {
        assert FdeItems(base, ps, es) == FdeItems(base, ps, es[1..]);
        ListedAddresses(pos, base, ps, es[1..]);
      }
    }
  }

  lemma FdeFields(base: nat, ps: seq<nat>, e: Entry)
    ensures FdeOf(base, ps, e).Fde? && FdeOf(base, ps, e).addr == base + e.offset
    ensures FdeOf(base, ps, e).cie == PosOf(0, CieItems(ps), CieIndex(ps, e.encoding))
  {
  }

  lemma {:induction false} ListedCies(pos: nat, cies: seq<Item>, rest: seq<Item>)
    requires forall k :: 0 <= k < |cies| ==> cies[k].Cie?
    ensures Listed(pos, cies + rest) == Listed(pos + |Layout(pos, cies)|, rest)
    ensures Backward(pos, cies + rest) <==> Backward(pos + |Layout(pos, cies)|, rest)
    decreases |cies|
  {
    hide Record;
    if cies == [] {
      assert cies + rest == rest;
    } else {
      assert (cies + rest)[1..] == cies[1..] + rest;
      ListedCies(pos + |Record(pos, cies[0])|, cies[1..], rest);
    }
  }

  lemma {:induction false} FdesBackward(pos: nat, base: nat, ps: seq<nat>, es: seq<Entry>)
    requires |Layout(0, CieItems(ps))| <= pos
    requires forall k :: 0 <= k < |es| ==> 0 < base + es[k].offset < TWO64
    ensures Backward(pos, FdeItems(base, ps, es))
    decreases |es|
  {
    hide Record, FdeOf, Emitted, CieItems, Layout;
    if es != [] {
      assert forall k :: 0 <= k < |es[1..]| ==> es[1..][k] == es[k + 1];
      if Emitted(es[0]) {
        var i := FdeOf(base, ps, es[0]);
        FdeFields(base, ps, es[0]);
        CieBefore(ps, CieIndex(ps, es[0].encoding));
        assert FdeItems(base, ps, es) == [i] + FdeItems(base, ps, es[1..]);
        FdesBackward(pos + |Record(pos, i)|, base, ps, es[1..]);
      } else {
        assert FdeItems(base, ps, es) == FdeItems(base, ps, es[1..]);
        FdesBackward(pos, base, ps, es[1..]);
      }
    }
  }

  lemma CieBefore(ps: seq<nat>, j: nat)
    requires j <= |ps|
    ensures PosOf(0, CieItems(ps), j) <= |Layout(0, CieItems(ps))|
  {
    hide Record, CieItems;
    LayoutAdd(0, CieItems(ps), []);
    PosBelow(0, CieItems(ps), j, |CieItems(ps)|);
  }

  lemma {:induction false} FdesKnown(base: nat, ps: seq<nat>, es: seq<Entry>, k: nat)
    requires k < |FdeItems(base, ps, es)|
    ensures exists e :: e in es && Emitted(e) && FdeItems(base, ps, es)[k] == FdeOf(base, ps, e)
    decreases |es|
  {
    hide FdeOf, Emitted;
    if es != [] {
      if Emitted(es[0]) && k == 0 {
        assert es[0] in es;
      } else {
        FdesKnown(base, ps, es[1..], if Emitted(es[0]) then k - 1 else k);
      }
    }
  }

  lemma ItemsPointing(base: nat, ps: seq<nat>, es: seq<Entry>)
    ensures var items := Items(base, ps, es); Pointing(Section(items), items)
  {
    hide Record, Section, FdeItems, CieItems, FdeOf, At, PosOf, Layout;
    var items := Items(base, ps, es);
    SectionAt(items);
    forall k | 0 <= k < |items| && items[k].Fde?
      ensures exists p :: At(Section(items), items[k].cie, Record(items[k].cie, Cie(p)))
    {
      CiesFirst(ps, FdeItems(base, ps, es), k);
      FdesKnown(base, ps, es, k - 1 - |ps|);
      var e :| e in es && Emitted(e) && items[k] == FdeOf(base, ps, e);
      FdeFields(base, ps, e);
      var j := CieIndex(ps, e.encoding);
      PosPrefix(0, CieItems(ps), FdeItems(base, ps, es), j);
      RecordAt(Section(items), 0, items, j);
      assert items[j] == Cie(items[j].personality);
    }
  }

  /** On the section built from any entries with nonzero addresses, the shortcut walk and the general
      parser both return exactly the emitted functions, in order, with the positions of their FDEs. */
  lemma ReadersAgree(base: nat, ps: seq<nat>, es: seq<Entry>, at: nat, load: nat -> nat)
    requires |Section(Items(base, ps, es))| < 0x1_0000_0000
    requires forall k :: 0 <= k < |es| ==> 0 < base + es[k].offset < TWO64
    ensures var items := Items(base, ps, es);
      var list := Listed(0, items);
      && Walk(Section(items), 0) == list
      && Parse(Section(items), 0, at, load) == Some(list)
      && Firsts(list) == Addresses(base, es)
  {
    hide Record, Layout, FdeItems, CieItems, Walk, Parse, Backward, Pointing, Listed, At, Addresses;
    var items := Items(base, ps, es);
    SectionAt(items);
    ListedCies(0, CieItems(ps), FdeItems(base, ps, es));
    FdesBackward(|Layout(0, CieItems(ps))|, base, ps, es);
    ListedAddresses(|Layout(0, CieItems(ps))|, base, ps, es);
    ItemsPointing(base, ps, es);
    WalkLists(Section(items), 0, items);
    ParseLists(Section(items), 0, items, at, load);
  }
}
