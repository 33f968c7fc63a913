/** A reader of .eh_frame sections after section 6.4.1 of DWARF 5 and the augmentation conventions of
    the Linux Standard Base, and what it finds in the section that src/eh_frame.c builds. */
module EhParse {
  import opened Basics
  import opened Leb128
  import opened EhFrame
  import opened EhEntries
  import opened EhCfi

  ghost predicate At(s: seq<Byte>, pos: nat, t: seq<Byte>) {
    pos + |t| <= |s| && s[pos..pos + |t|] == t
  }

  lemma AtSplit(s: seq<Byte>, pos: nat, a: seq<Byte>, b: seq<Byte>)
    ensures At(s, pos, a + b) <==> At(s, pos, a) && At(s, pos + |a|, b)
  {
    if At(s, pos, a + b) {
      var w := s[pos..pos + |a + b|];
      assert w == a + b;
      assert s[pos..pos + |a|] == w[..|a|] == a;
      assert s[pos + |a|..pos + |a| + |b|] == w[|a|..] == b;
    }
    if At(s, pos, a) && At(s, pos + |a|, b) {
      assert s[pos..pos + |a + b|] == s[pos..pos + |a|] + s[pos + |a|..pos + |a| + |b|];
    }
  }

  /** Record k lies where PosOf says. */
  lemma {:induction false} RecordAt(s: seq<Byte>, pos: nat, items: seq<Item>, k: nat)
    requires At(s, pos, Layout(pos, items)) && k < |items|
    ensures var p := PosOf(pos, items, k); At(s, p, Record(p, items[k]))
    decreases k
  {
    hide Record, At;
    var r := Record(pos, items[0]);
    AtSplit(s, pos, r, Layout(pos + |r|, items[1..]));
    if k > 0 {
      RecordAt(s, pos + |r|, items[1..], k - 1);
    }
  }

  lemma SectionAt(items: seq<Item>)
    ensures At(Section(items), 0, Layout(0, items))
    ensures At(Section(items), |Layout(0, items)|, Zeros(4))
  {
    hide Layout;
    assert Section(items)[0..|Layout(0, items)|] == Layout(0, items);
    assert Section(items)[|Layout(0, items)|..] == Zeros(4);
  }

  // ----- records -----

  /** The bytes a record's length covers. */
  function RecordBody(s: seq<Byte>, pos: nat): Option<seq<Byte>> {
    if pos + 4 > |s| then None else
      var n := FromLe(s[pos..pos + 4]);
      if pos + 4 + n > |s| then None else Some(s[pos + 4..pos + 4 + n])
  }

  lemma ReadRecord(s: seq<Byte>, pos: nat, i: Item)
    requires At(s, pos, Record(pos, i)) && |Record(pos, i)| < 0x1_0000_0000
    ensures RecordBody(s, pos) == Some(Body(pos, i) + Zeros(PadTo8(pos + 4 + |Body(pos, i)|)))
  {
    hide Body, Le, PadTo8, Zeros, FromLe;
    var b := Body(pos, i);
    var pad := Zeros(PadTo8(pos + 4 + |b|));
    var n := |b| + |pad|;
    assert Record(pos, i) == Le(n, 4) + (b + pad);
    AtSplit(s, pos, Le(n, 4), b + pad);
    LeWords(n);
  }

  // ----- CIEs -----

  datatype CieInfo = CieInfo(codeAlign: nat, dataAlign: int, ra: nat, hasLsda: bool, personality: nat, fdeEncoding: nat, initial: seq<Byte>)

  /** The augmentation data, one letter at a time; pointers are absolute. */
  function Augment(letters: seq<Byte>, data: seq<Byte>, info: CieInfo): Option<CieInfo> {
    if letters == [] then Some(info)
    else if letters[0] == 'P' as int then
      if |data| >= 9 && data[0] == 0 then Augment(letters[1..], data[9..], info.(personality := FromLe(data[1..9]))) else None
    else if letters[0] == 'L' as int then
      if |data| >= 1 then Augment(letters[1..], data[1..], info.(hasLsda := data[0] != 0xff)) else None
    else if letters[0] == 'R' as int then
      if |data| >= 1 then Augment(letters[1..], data[1..], info.(fdeEncoding := data[0])) else None
    else None
  }

  function ReadCie(b: seq<Byte>): Option<CieInfo> {
    if |b| < 5 || FromLe(b[..4]) != 0 || b[4] != 1 then None else
      var n := StrLen(b[5..]);
      if n == |b| - 5 || b[5..][..n] == [] || b[5] != 'z' as int then None else
        ReadFactors(b[5..][1..n], b[5..][n + 1..])
  }

  /** The two alignment factors, the return address column, and the augmentation data. */
  function ReadFactors(letters: seq<Byte>, t: seq<Byte>): Option<CieInfo> {
    if !Terminated(t) then None else
      var t1 := t[Len(t)..];
      if !Terminated(t1) then None else
        var t2 := t1[Len(t1)..];
        if t2 == [] || !Terminated(t2[1..]) then None else
          var t3 := t2[1..][Len(t2[1..])..];
          var n := U(t2[1..]);
          if n > |t3| then None else
            Augment(letters, t3[..n], CieInfo(U(t), S(t1), t2[0], false, 0, 0, t3[n..]))
  }

  lemma FactorsRead(letters: seq<Byte>, data: seq<Byte>, rest: seq<Byte>)
    ensures ReadFactors(letters, PutU(4) + PutS(-8) + PutU(RegLr) + PutU(|data|) + data + rest) ==
            Augment(letters, data, CieInfo(4, -8, RegLr, false, 0, 0, rest))
  {
    hide U, S, Len, Terminated, PutU, PutS, Augment;
    var t3 := data + rest;
    var t2 := PutU(RegLr) + (PutU(|data|) + t3);
    var t1 := PutS(-8) + t2;
    var t := PutU(4) + t1;
    assert PutU(4) + PutS(-8) + PutU(RegLr) + PutU(|data|) + data + rest == t;
    TakeU(4, t1);
    TakeS(-8, t2);
    SmallU(RegLr);
    assert t2[0] == RegLr && t2[1..] == PutU(|data|) + t3;
    TakeU(|data|, t3);
    assert t3[..|data|] == data && t3[|data|..] == rest;
  }

  lemma TakeS(v: int, rest: seq<Byte>)
    ensures var s := PutS(v) + rest; Terminated(s) && S(s) == v && s[Len(s)..] == rest
  {
    SignedRoundTrip(v, rest);
    PutSTerminated(v, rest);
  }

  /** The augmentation data without its length byte. */
  function CiePointers(p: nat): seq<Byte> {
    if p == 0 then [0] else [0] + Le(p, 8) + [0] + [0]
  }

  lemma CieDataSplit(p: nat)
    ensures CieData(p) == PutU(|CiePointers(p)|) + CiePointers(p)
    ensures CieData(p)[1..] == CiePointers(p)
  {
    hide Le;
    SmallU(1);
    SmallU(11);
  }

  lemma Regroup(a: seq<Byte>, b: seq<Byte>, c: seq<Byte>, d: seq<Byte>, e: seq<Byte>, f: seq<Byte>)
    ensures a + (b + (c + d) + e) + f == a + (b + c + d + (e + f))
  {
  }

  lemma CieRead(p: nat, pad: nat)
    requires p < TWO64
    ensures ReadCie(CieBody(p) + Zeros(pad)) ==
            Some(CieInfo(4, -8, RegLr, p != 0, p, 0, InitialInsns() + Zeros(pad)))
  {
    hide Le, PutU, PutS, ReadFactors, FromLe, Zeros, InitialInsns, CieData, CiePointers, CieAugmentation, Augment, ReadCie;
    var data := CiePointers(p);
    CieDataSplit(p);
    Regroup(Le(0, 4) + [1] + CieAugmentation(p), PutU(4) + PutS(-8) + PutU(RegLr), PutU(|data|), data, InitialInsns(), Zeros(pad));
    CieHead(p, PutU(4) + PutS(-8) + PutU(RegLr) + PutU(|data|) + data + (InitialInsns() + Zeros(pad)));
    FactorsRead(CieLetters(p), data, InitialInsns() + Zeros(pad));
    AugmentRead(p, InitialInsns() + Zeros(pad));
  }

  function CieLetters(p: nat): seq<Byte> {
    CieAugmentation(p)[1..|CieAugmentation(p)| - 1]
  }

  lemma CieHead(p: nat, tail: seq<Byte>)
    ensures ReadCie(Le(0, 4) + [1] + CieAugmentation(p) + tail) ==
            ReadFactors(CieLetters(p), tail)
  {
    hide Le, ReadFactors;
    LeWords(0);
    var b := Le(0, 4) + [1] + CieAugmentation(p) + tail;
    assert b[..4] == Le(0, 4) && b[4] == 1;
    assert b[5..] == CieAugmentation(p) + tail;
    AugmentationLength(p, tail);
  }

  lemma AugmentationLength(p: nat, tail: seq<Byte>)
    ensures var t := CieAugmentation(p) + tail; var n := StrLen(t);
      && n == |CieAugmentation(p)| - 1 && t[n + 1..] == tail && t[1..n] == CieAugmentation(p)[1..n]
  {
    StrLenIs(CieAugmentation(p) + tail, |CieAugmentation(p)| - 1);
  }

  lemma {:induction false} StrLenIs(t: seq<Byte>, k: nat)
    requires k < |t| && t[k] == 0 && forall j :: 0 <= j < k ==> t[j] != 0
    ensures StrLen(t) == k
    decreases k
  {
    if k > 0 {
      StrLenIs(t[1..], k - 1);
    }
  }

  lemma AugmentRead(p: nat, initial: seq<Byte>)
    requires p < TWO64
    ensures
      Augment(CieLetters(p), CiePointers(p), CieInfo(4, -8, RegLr, false, 0, 0, initial)) ==
      Some(CieInfo(4, -8, RegLr, p != 0, p, 0, initial))
  {
    hide Le, FromLe;
    LeWords(p);
    var info := CieInfo(4, -8, RegLr, false, 0, 0, initial);
    if p == 0 {
      assert CieLetters(p) == ['R' as int];
    } else {
      var data := CiePointers(p);
      assert data[1..9] == Le(p, 8) && data[9..] == [0, 0];
      assert CieLetters(p) == ['P' as int, 'L' as int, 'R' as int];
      LettersRead(data, p, info);
    }
  }

  lemma LettersRead(data: seq<Byte>, p: nat, info: CieInfo)
    requires |data| == 11 && data[0] == 0 && FromLe(data[1..9]) == p && data[9..] == [0, 0]
    ensures Augment(['P' as int, 'L' as int, 'R' as int], data, info) ==
            Some(info.(personality := p, hasLsda := true, fdeEncoding := 0))
  {
    hide FromLe;
    var letters: seq<Byte> := ['P' as int, 'L' as int, 'R' as int];
    var two: seq<Byte> := ['L' as int, 'R' as int];
    var one: seq<Byte> := ['R' as int];
    var zeros: seq<Byte> := [0, 0];
    assert letters[1..] == two && two[1..] == one && one[1..] == [] && zeros[1..] == [0];
    var last := info.(personality := p, hasLsda := true);
    assert Augment(one, [0], last) == Augment([], [0][1..], last.(fdeEncoding := 0)) == Some(last.(fdeEncoding := 0));
    assert Augment(letters, data, info) == Augment(two, zeros, info.(personality := p));
    assert Augment(two, zeros, info.(personality := p)) == Augment(one, [0], last);
  }

  // ----- FDEs -----

  datatype FdeInfo = FdeInfo(back: nat, addr: nat, size: nat, lsda: nat, insns: seq<Byte>)

  /** An FDE under a CIE with or without LSDA pointers. */
  function ReadFde(b: seq<Byte>, hasLsda: bool): Option<FdeInfo> {
    if |b| < 20 || !Terminated(b[20..]) then None else
      var rest := b[20..][Len(b[20..])..];
      var n := U(b[20..]);
      if n > |rest| then None else
        Some(FdeInfo(FromLe(b[..4]), FromLe(b[4..12]), FromLe(b[12..20]),
                     if hasLsda && n >= 8 then FromLe(rest[..8]) else 0, rest[n..]))
  }

  lemma FdeRead(back: nat, addr: nat, size: nat, lsda: nat, insns: seq<Byte>, hasLsda: bool)
    requires back < 0x1_0000_0000 && addr < TWO64 && size < TWO64 && lsda < TWO64
    ensures ReadFde(FdeHead(back, addr, size, lsda) + insns, hasLsda) ==
            Some(FdeInfo(back, addr, size, if hasLsda then lsda else 0, insns))
  {
    hide Le, FromLe, PutU, U, Len, Terminated;
    LeWords(back);
    LeWords(addr);
    LeWords(size);
    LeWords(lsda);
    var b := FdeHead(back, addr, size, lsda) + insns;
    assert b[..4] == Le(back, 4) && b[4..12] == Le(addr, 8) && b[12..20] == Le(size, 8);
    if lsda == 0 {
      TakeU(0, insns);
      assert b[20..] == PutU(0) + insns;
    } else {
      TakeU(8, Le(lsda, 8) + insns);
      assert b[20..] == PutU(8) + (Le(lsda, 8) + insns);
      assert (Le(lsda, 8) + insns)[..8] == Le(lsda, 8) && (Le(lsda, 8) + insns)[8..] == insns;
    }
  }
}
