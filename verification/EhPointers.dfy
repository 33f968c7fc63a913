/** The general parser of src/eh_frame.c on records of another origin: any version, any list of
    augmentation letters it knows, and pointers in any of the formats of the Linux Standard Base
    (sections 10.5 and 10.6 of its Core Generic part). */
module EhPointers {
  import opened Basics
  import opened Leb128
  import opened EhFrame
  import opened EhParse
  import opened EhRead

  // ----- pointers -----

  /** Bytes of a pointer in a format; none when the format is not one of those. */
  function Width(enc: Byte): nat {
    match enc % 0x10
    case 0x00 => 8
    case 0x02 => 2
    case 0x03 => 4
    case 0x04 => 8
    case 0x0a => 2
    case 0x0b => 4
    case 0x0c => 8
    case _ => 0
  }

  /** The numbers a format can hold, signed from 0x08 on. */
  predicate Holds(enc: Byte, v: int) {
    match enc % 0x10
    case 0x00 => 0 <= v < 0x1_0000_0000_0000_0000
    case 0x02 => 0 <= v < 0x1_0000
    case 0x03 => 0 <= v < 0x1_0000_0000
    case 0x04 => 0 <= v < 0x1_0000_0000_0000_0000
    case 0x0a => -0x8000 <= v < 0x8000
    case 0x0b => -0x8000_0000 <= v < 0x8000_0000
    case 0x0c => -0x8000_0000_0000_0000 <= v < 0x8000_0000_0000_0000
    case _ => false
  }

  /** The bytes of a number in a format, in two's complement. */
  function Planted(enc: Byte, v: int): (s: seq<Byte>)
    requires Holds(enc, v)
    ensures |s| == Width(enc)
  {
    Le(if v >= 0 then v
       else if Width(enc) == 2 then v + 0x1_0000
       else if Width(enc) == 4 then v + 0x1_0000_0000
       else v + 0x1_0000_0000_0000_0000, Width(enc))
  }

  /** What a pointer at address `place` means: 0x10 makes it relative to its own place, 0x80 the address of
      the pointer. */
  function Meant(enc: Byte, v: int, place: nat, load: nat -> nat): nat {
    var at := (if enc / 0x10 % 8 == 1 then v + place else v) % 0x1_0000_0000_0000_0000;
    if enc / 0x80 == 1 then load(at) else at
  }

  lemma PlantedWord(s: seq<Byte>, p: nat, enc: Byte, v: int)
    requires Holds(enc, v) && At(s, p, Planted(enc, v))
    ensures Word(s, p, Width(enc)) == v % (if Width(enc) == 2 then 0x1_0000 else if Width(enc) == 4 then 0x1_0000_0000 else TWO64)
  {
    hide Le, Word, At;
    assert Pow256(2) == 0x1_0000 && Pow256(4) == 0x1_0000_0000 && Pow256(8) == TWO64;
    var m := if Width(enc) == 2 then 0x1_0000 else if Width(enc) == 4 then 0x1_0000_0000 else TWO64;
    var w := if v >= 0 then v else v + m;
    WordLe(s, p, w, Width(enc));
    if v >= 0 {
      assert w % m == v % m;
    } else {
      ModOnce(v, m);
    }
  }

  lemma ModOnce(v: int, m: int)
    requires -m <= v < 0
    ensures v % m == v + m
  {
    assert v == -1 * m + (v + m);
  }

  lemma SumWraps(v: int, w: int, place: nat)
    requires w == v || w == v + TWO64
    ensures (w + place) % TWO64 == (v + place) % TWO64 && w % TWO64 == v % TWO64
  {
    if w != v {
      ModShift(v + place, 1);
      ModShift(v, 1);
    }
  }

  lemma Extended(enc: Byte, v: int)
    requires Holds(enc, v)
    ensures var n := Width(enc); var m := if n == 2 then 0x1_0000 else if n == 4 then 0x1_0000_0000 else TWO64;
      var raw := v % m; var w := if enc % 0x10 >= 0x0a then SignExtend(raw, n) else raw;
      0 <= w < TWO64 && (w == v || w == v + TWO64)
  {
    var n := Width(enc);
    var m := if n == 2 then 0x1_0000 else if n == 4 then 0x1_0000_0000 else TWO64;
    if v < 0 {
      ModOnce(v, m);
    } else {
      assert v % m == v;
    }
  }

  /** A pointer in any format reads as what it means, and the reader goes on behind it. */
  lemma PointerRead(s: seq<Byte>, p: nat, end: nat, enc: Byte, v: int, base: nat, load: nat -> nat)
    requires Holds(enc, v) && At(s, p, Planted(enc, v)) && p + Width(enc) <= end
    ensures ReadPointer(s, p, end, enc, base, load) == (Meant(enc, v, base + p, load), p + Width(enc))
  {
    hide At, Planted, Word, SignExtend;
    PlantedWord(s, p, enc, v);
    Extended(enc, v);
    SumWraps(v, v, base + p);
    SumWraps(v, v + TWO64, base + p);
    assert PeSize(enc) == Width(enc) > 0 && enc != PeOmit;
  }

  /** Any other format is skipped without moving. */
  lemma PointerSkipped(s: seq<Byte>, p: nat, end: nat, enc: Byte, base: nat, load: nat -> nat)
    ensures Width(enc) == 0 || p + Width(enc) > end ==> ReadPointer(s, p, end, enc, base, load) == (0, p)
    ensures Width(enc) > 0 && p + Width(enc) <= end ==> ReadPointer(s, p, end, enc, base, load).1 == p + Width(enc)
  {
    hide Word;
  }

  // ----- CIEs of another origin -----

  /** A letter of the augmentation with its data: the format of LSDA pointers, the personality in its
      format, the format of an FDE's addresses. */
  datatype Letter =
    | Lsda(enc: Byte)
    | Personality(enc: Byte, pointer: seq<Byte>)
    | Address(enc: Byte)
    | Unknown(code: Byte, data: seq<Byte>)

  predicate ProperLetter(l: Letter) {
    match l
    case Personality(enc, pointer) => |pointer| == Width(enc)
    case Unknown(code, _) => code != 0 && code != 'L' as int && code != 'P' as int && code != 'R' as int
    case _ => true
  }

  predicate ProperLetters(ls: seq<Letter>) {
    forall k :: 0 <= k < |ls| ==> ProperLetter(ls[k])
  }

  function LetterCode(l: Letter): Byte {
    match l
    case Lsda(_) => 'L' as int
    case Personality(_, _) => 'P' as int
    case Address(_) => 'R' as int
    case Unknown(code, _) => code
  }

  function Letters(ls: seq<Letter>): (s: seq<Byte>)
    ensures |s| == |ls| && forall k :: 0 <= k < |ls| ==> s[k] == LetterCode(ls[k])
  {
    if ls == [] then [] else [LetterCode(ls[0])] + Letters(ls[1..])
  }

  function LetterData(l: Letter): seq<Byte> {
    match l
    case Lsda(enc) => [enc]
    case Personality(enc, pointer) => [enc] + pointer
    case Address(enc) => [enc]
    case Unknown(_, data) => data
  }

  function Data(ls: seq<Letter>): seq<Byte> {
    if ls == [] then [] else LetterData(ls[0]) + Data(ls[1..])
  }

  /** The format an FDE's addresses are taken to be in: absolute unless an 'R' says otherwise. The program
      gives up at a letter it does not know, even if an 'R' follows. */
  function AddressFormat(ls: seq<Letter>): Byte {
    if ls == [] || ls[0].Unknown? then 0x00
    else if ls[0].Address? then ls[0].enc
    else AddressFormat(ls[1..])
  }

  /** The fields of a CIE before its first instruction; in version 1 the return address register is a byte. */
  datatype ForeignCie = ForeignCie(version: Byte, code: nat, data: int, ra: nat, letters: seq<Letter>)

  predicate ProperCie(c: ForeignCie) {
    ProperLetters(c.letters) && (c.version == 1 ==> c.ra < 0x100)
  }

  function RaBytes(c: ForeignCie): seq<Byte>
    requires ProperCie(c)
  {
    if c.version == 1 then [c.ra] else PutU(c.ra)
  }

  function ForeignBody(c: ForeignCie, rest: seq<Byte>): (s: seq<Byte>)
    requires ProperCie(c)
    ensures |s| >= 4
  {
    var d := Data(c.letters);
    [0, 0, 0, 0, c.version] + (['z' as int] + Letters(c.letters) + [0])
    + (PutU(c.code) + (PutS(c.data) + (RaBytes(c) + (PutU(|d|) + (d + rest)))))
  }

  lemma {:induction false} LettersFound(s: seq<Byte>, i: nat, p: nat, ls: seq<Letter>, augEnd: nat, base: nat, load: nat -> nat)
    requires ProperLetters(ls) && At(s, i, Letters(ls) + [0]) && At(s, p, Data(ls)) && augEnd == p + |Data(ls)|
    ensures PointerLetter(s, i, p, augEnd, base, load) == AddressFormat(ls)
    decreases |ls|
  {
    hide Word, At, ReadPointer;
    LetterAt(s, i, ls);
    if ls != [] {
      var l, n := ls[0], |LetterData(ls[0])|;
      assert ProperLetter(l);
      DataAt(s, p, ls);
      if l.Lsda? {
        LettersFound(s, i + 1, p + 1, ls[1..], augEnd, base, load);
      } else if l.Personality? {
        PointerSkipped(s, p + 1, augEnd, l.enc, base, load);
        LettersFound(s, i + 1, p + n, ls[1..], augEnd, base, load);
      }
    }
  }

  lemma LetterAt(s: seq<Byte>, i: nat, ls: seq<Letter>)
    requires At(s, i, Letters(ls) + [0])
    ensures i < |s|
    ensures ls == [] ==> s[i] == 0
    ensures ls != [] ==> s[i] == Letters(ls)[0] && At(s, i + 1, Letters(ls[1..]) + [0])
  {
    var t := s[i..i + |ls| + 1];
    assert t == Letters(ls) + [0] && t[0] == s[i];
    if ls != [] {
      assert s[i + 1..i + |ls| + 1] == t[1..] == Letters(ls[1..]) + [0];
    }
  }

  lemma DataAt(s: seq<Byte>, p: nat, ls: seq<Letter>)
    requires At(s, p, Data(ls)) && ls != []
    ensures At(s, p + |LetterData(ls[0])|, Data(ls[1..]))
    ensures !ls[0].Unknown? ==> p < |s| && s[p] == ls[0].enc && |Data(ls)| > 0
  {
    hide At;
    var d := LetterData(ls[0]);
    AtSplit(s, p, d, Data(ls[1..]));
    if !ls[0].Unknown? {
      FirstOf(s, p, d);
    }
  }

  lemma FirstOf(s: seq<Byte>, p: nat, d: seq<Byte>)
    requires At(s, p, d) && d != []
    ensures p < |s| && s[p] == d[0]
  {
    assert s[p] == s[p..p + |d|][0];
  }

  lemma ForeignFrom(s: seq<Byte>, letters: nat, q: nat, end: nat, c: ForeignCie, rest: seq<Byte>, base: nat, load: nat -> nat)
    requires ProperCie(c) && letters < q <= end <= |s| < 0x1_0000_0000
    requires At(s, letters, ['z' as int] + Letters(c.letters) + [0])
    requires var d := Data(c.letters);
      s[q..end] == PutU(c.code) + (PutS(c.data) + (RaBytes(c) + (PutU(|d|) + (d + rest))))
    ensures PointerEncodingFrom(s, letters, q, end, c.version, base, load) == AddressFormat(c.letters)
  {
    hide At, PutU, PutS, U, Len, Letters, Data, PointerLetter, AddressFormat, ProperLetters, RaBytes;
    var d := Data(c.letters);
    var tail := PutU(|d|) + (d + rest);
    SliceU(s, q, end, c.code, PutS(c.data) + (RaBytes(c) + tail));
    var p1 := q + Len(s[q..end]);
    SliceS(s, p1, end, c.data, RaBytes(c) + tail);
    var p2 := p1 + Len(s[p1..end]);
    SliceRa(s, p2, end, c, tail);
    var p3 := if c.version == 1 then p2 + 1 else p2 + Len(s[p2..end]);
    SliceU(s, p3, end, |d|, d + rest);
    var p4 := p3 + Len(s[p3..end]);
    AtSlice(s, p4, end, d, rest);
    assert ['z' as int] + Letters(c.letters) + [0] == ['z' as int] + (Letters(c.letters) + [0]);
    AtSplit(s, letters, ['z' as int], Letters(c.letters) + [0]);
    FirstOf(s, letters, ['z' as int]);
    LettersFound(s, letters + 1, p4, c.letters, p4 + |d|, base, load);
  }

  lemma SliceRa(s: seq<Byte>, p: nat, end: nat, c: ForeignCie, tail: seq<Byte>)
    requires ProperCie(c) && p <= end <= |s| && s[p..end] == RaBytes(c) + tail
    ensures c.version == 1 ==> p < end && s[p + 1..end] == tail
    ensures c.version != 1 ==> p + Len(s[p..end]) <= end && s[p + Len(s[p..end])..end] == tail
  {
    hide PutU, Len, ProperLetters;
    if c.version == 1 {
      AtSlice(s, p, end, [c.ra], tail);
    } else {
      SliceU(s, p, end, c.ra, tail);
    }
  }

  /** The parser finds the format that a CIE's 'R' gives, whatever the version and whatever letters it knows
      stand before it. */
  lemma ForeignEncoding(s: seq<Byte>, q: nat, end: nat, c: ForeignCie, rest: seq<Byte>, base: nat, load: nat -> nat)
    requires ProperCie(c) && q <= end <= |s| < 0x1_0000_0000 && s[q..end] == ForeignBody(c, rest)
    ensures PointerEncoding(s, q, end, base, load) == AddressFormat(c.letters)
  {
    hide PutU, PutS, Letters, Data, PointerEncodingFrom, AddressFormat, At, StrLen, ProperLetters;
    var d := Data(c.letters);
    var head := [0, 0, 0, 0, c.version];
    var str := ['z' as int] + Letters(c.letters) + [0];
    var tail := PutU(c.code) + (PutS(c.data) + (RaBytes(c) + (PutU(|d|) + (d + rest))));
    assert s[q..end] == head + (str + tail);
    AtSlice(s, q, end, head, str + tail);
    assert s[q + 4] == s[q..end][4] == c.version;
    AtSlice(s, q + 5, end, str, tail);
    StringEnds(s, q + 5, end, c.letters, tail);
    ForeignFrom(s, q + 5, q + 5 + |str|, end, c, rest, base, load);
  }

  lemma StringEnds(s: seq<Byte>, p: nat, end: nat, ls: seq<Letter>, tail: seq<Byte>)
    requires ProperLetters(ls)
    requires p <= end <= |s| && s[p..end] == ['z' as int] + Letters(ls) + [0] + tail
    ensures StrLen(s[p..end]) == 1 + |ls|
  {
    hide StrLen, ProperLetters, Letters;
    NoneZero(ls);
    StrLenIs(s[p..end], 1 + |ls|);
  }

  lemma NoneZero(ls: seq<Letter>)
    requires ProperLetters(ls)
    ensures forall k :: 0 <= k < |ls| ==> Letters(ls)[k] != 0
  {
    hide Letters;
    forall k | 0 <= k < |ls| ensures Letters(ls)[k] != 0 {
      assert ProperLetter(ls[k]);
    }
  }

  // ----- a record that points at such a CIE -----

  /** An FDE whose CIE is of another origin is found under the address its format means, wherever the
      section lies; nothing is listed for address 0. */
  lemma ForeignFound(s: seq<Byte>, pos: nat, start: nat, end: nat, at: nat, c: ForeignCie, rest: seq<Byte>, v: int, base: nat, load: nat -> nat)
    requires ProperCie(c) && |s| < 0x1_0000_0000 && at < start && start + 4 <= end <= |s|
    requires var n := |ForeignBody(c, rest)|; n < 0x1_0000_0000 && At(s, at, Le(n, 4) + ForeignBody(c, rest))
    requires At(s, start, Le(start - at, 4))
    requires var f := AddressFormat(c.letters);
      Holds(f, v) && At(s, start + 4, Planted(f, v)) && start + 4 + Width(f) <= end
    ensures var addr := Meant(AddressFormat(c.letters), v, base + start + 4, load);
      ParseOne(s, pos, start, end, base, load) == Some(if addr == 0 then [] else [(addr, pos)])
  {
    hide Le, At, Word, ForeignBody, PointerEncoding, ReadPointer, Meant, AddressFormat, Planted, ProperCie;
    var body := ForeignBody(c, rest);
    assert Pow256(4) == 0x1_0000_0000;
    WordLe(s, start, start - at, 4);
    AtSplit(s, at, Le(|body|, 4), body);
    WordLe(s, at, |body|, 4);
    Spanned(s, at + 4, body);
    ForeignEncoding(s, at + 4, at + 4 + |body|, c, rest, base, load);
    PointerRead(s, start + 4, end, AddressFormat(c.letters), v, base, load);
  }

  lemma Spanned(s: seq<Byte>, p: nat, t: seq<Byte>)
    requires At(s, p, t)
    ensures p + |t| <= |s| && s[p..p + |t|] == t
  {
  }

  // ----- a section of another origin -----

  /** An FDE may have a 64-bit length. It points back at a CIE, given by its place and its fields. */
  datatype ForeignRecord =
    | CieRecord(c: ForeignCie, rest: seq<Byte>)
    | FdeRecord(wide: bool, at: nat, c: ForeignCie, cieRest: seq<Byte>, v: int, rest: seq<Byte>)

  /** Where a record's body starts. */
  function Start(pos: nat, r: ForeignRecord): nat {
    pos + if r.FdeRecord? && r.wide then 12 else 4
  }

  predicate ProperRecord(pos: nat, r: ForeignRecord) {
    && ProperCie(r.c)
    && (r.FdeRecord? ==> Holds(AddressFormat(r.c.letters), r.v) && r.at < pos)
  }

  function RecordBody(pos: nat, r: ForeignRecord): (s: seq<Byte>)
    requires ProperRecord(pos, r)
    ensures |s| >= 4
  {
    match r
    case CieRecord(c, rest) => ForeignBody(c, rest)
    case FdeRecord(_, at, c, _, v, rest) =>
      Le(Start(pos, r) - at, 4) + (Planted(AddressFormat(c.letters), v) + rest)
  }

  function LengthField(r: ForeignRecord, n: nat): (s: seq<Byte>)
    ensures |s| == if r.FdeRecord? && r.wide then 12 else 4
  {
    if r.FdeRecord? && r.wide then [0xff, 0xff, 0xff, 0xff] + Le(n, 8) else Le(n, 4)
  }

  function RecordEnd(pos: nat, r: ForeignRecord): nat
    requires ProperRecord(pos, r)
  {
    Start(pos, r) + |RecordBody(pos, r)|
  }

  /** From pos on the section holds these records, and then its end or a length of zero. */
  ghost predicate Holding(s: seq<Byte>, pos: nat, rs: seq<ForeignRecord>)
    decreases |rs|
  {
    if rs == [] then pos + 4 > |s| || At(s, pos, [0, 0, 0, 0]) else
      var r := rs[0];
      && ProperRecord(pos, r)
      && HoldsRecord(s, pos, r)
      && Holding(s, RecordEnd(pos, r), rs[1..])
  }

  ghost predicate HoldsRecord(s: seq<Byte>, pos: nat, r: ForeignRecord)
    requires ProperRecord(pos, r)
  {
    var b := RecordBody(pos, r);
    && |b| < 0xffff_ffff && At(s, pos, LengthField(r, |b|) + b)
    && (r.FdeRecord? ==>
          var n := |ForeignBody(r.c, r.cieRest)|;
          n < 0xffff_ffff && At(s, r.at, Le(n, 4) + ForeignBody(r.c, r.cieRest)))
  }

  /** The functions a reader should list: those of the FDEs whose address is not 0. */
  function ForeignList(pos: nat, rs: seq<ForeignRecord>, base: nat, load: nat -> nat): seq<(nat, nat)>
    decreases |rs|
  {
    if rs == [] || !ProperRecord(pos, rs[0]) then [] else
      var r := rs[0];
      (if r.CieRecord? then [] else
         var addr := Meant(AddressFormat(r.c.letters), r.v, base + Start(pos, r) + 4, load);
         if addr == 0 then [] else [(addr, pos)])
      + ForeignList(RecordEnd(pos, r), rs[1..], base, load)
  }

  /** The general parser lists exactly the functions of any such section, in order, and never reads outside. */
  lemma {:induction false} ForeignSection(s: seq<Byte>, pos: nat, rs: seq<ForeignRecord>, base: nat, load: nat -> nat)
    requires |s| < 0x1_0000_0000 && Holding(s, pos, rs)
    ensures Parse(s, pos, base, load) == Some(ForeignList(pos, rs, base, load))
    decreases |rs|
  {
    hide Word, At, ParseOne, HoldsRecord, RecordBody, ProperRecord, Meant, AddressFormat;
    if rs == [] {
      if pos + 4 <= |s| {
        NoLength(s, pos);
      }
    } else {
      var r := rs[0];
      RecordSpan(s, pos, r);
      RecordFound(s, pos, r, base, load);
      ForeignSection(s, RecordEnd(pos, r), rs[1..], base, load);
    }
  }

  lemma NoLength(s: seq<Byte>, pos: nat)
    requires At(s, pos, [0, 0, 0, 0])
    ensures Word(s, pos, 4) == 0
  {
    hide Word, At;
    assert Le(0, 4) == [0, 0, 0, 0] && Pow256(4) == 0x1_0000_0000;
    WordLe(s, pos, 0, 4);
  }

  lemma RecordSpan(s: seq<Byte>, pos: nat, r: ForeignRecord)
    requires ProperRecord(pos, r) && HoldsRecord(s, pos, r)
    ensures Start(pos, r) + 4 <= RecordEnd(pos, r) <= |s|
    ensures At(s, Start(pos, r), RecordBody(pos, r))
    ensures if r.FdeRecord? && r.wide then
              Word(s, pos, 4) == 0xffff_ffff && Word(s, pos + 4, 8) == |RecordBody(pos, r)|
            else 0 < Word(s, pos, 4) == |RecordBody(pos, r)| < 0xffff_ffff
  {
    hide Word, At, Le, RecordBody, ProperRecord, ForeignBody;
    var b := RecordBody(pos, r);
    AtSplit(s, pos, LengthField(r, |b|), b);
    Spanned(s, Start(pos, r), b);
    assert Pow256(4) == 0x1_0000_0000 && Pow256(8) == TWO64;
    if r.FdeRecord? && r.wide {
      AllOnes();
      AtSplit(s, pos, Le(0xffff_ffff, 4), Le(|b|, 8));
      WordLe(s, pos, 0xffff_ffff, 4);
      WordLe(s, pos + 4, |b|, 8);
    } else {
      WordLe(s, pos, |b|, 4);
    }
  }

  lemma AllOnes()
    ensures Le(0xffff_ffff, 4) == [0xff, 0xff, 0xff, 0xff]
  {
  }

  lemma RecordFound(s: seq<Byte>, pos: nat, r: ForeignRecord, base: nat, load: nat -> nat)
    requires |s| < 0x1_0000_0000 && ProperRecord(pos, r) && HoldsRecord(s, pos, r)
    requires At(s, Start(pos, r), RecordBody(pos, r)) && RecordEnd(pos, r) <= |s|
    ensures ParseOne(s, pos, Start(pos, r), RecordEnd(pos, r), base, load) ==
      if r.CieRecord? then Some([]) else
        var addr := Meant(AddressFormat(r.c.letters), r.v, base + Start(pos, r) + 4, load);
        Some(if addr == 0 then [] else [(addr, pos)])
  {
    hide Word, At, Le, ForeignBody, AddressFormat, ProperCie, Meant, Planted, LengthField, ParseOne;
    var start, end := Start(pos, r), RecordEnd(pos, r);
    if r.CieRecord? {
      CieSkipped(s, pos, start, end, r.c, r.rest, base, load);
    } else {
      var f := AddressFormat(r.c.letters);
      AtSplit(s, start, Le(start - r.at, 4), Planted(f, r.v) + r.rest);
      AtSplit(s, start + 4, Planted(f, r.v), r.rest);
      ForeignFound(s, pos, start, end, r.at, r.c, r.cieRest, r.v, base, load);
    }
  }

  lemma CieSkipped(s: seq<Byte>, pos: nat, start: nat, end: nat, c: ForeignCie, rest: seq<Byte>, base: nat, load: nat -> nat)
    requires ProperCie(c) && At(s, start, ForeignBody(c, rest)) && start + 4 <= |s| && start <= end <= |s|
    ensures ParseOne(s, pos, start, end, base, load) == Some([])
  {
    hide Word, At, ProperCie, PutU, PutS, Letters, Data, RaBytes;
    var body := ForeignBody(c, rest);
    assert body == [0, 0, 0, 0] + body[4..];
    AtSplit(s, start, [0, 0, 0, 0], body[4..]);
    NoLength(s, start);
  }
}
