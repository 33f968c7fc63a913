/** The emitter of src/eh_frame.c: a fixed buffer, a write position, and records whose length is patched
    in once they are complete. Writing past the end is the one thing callers must rule out. */
module EhEmit {
  import opened Leb128
  import opened EhFrame
  import opened EhEntries

  class Emitter {
    const buf: array<Byte>
    var pos: nat

    ghost predicate Valid()
      reads this
    {
      pos <= buf.Length
    }

    ghost function Contents(): seq<Byte>
      reads this, buf
      requires Valid()
    {
      buf[..pos]
    }

    constructor (capacity: nat)
      ensures Valid() && Contents() == [] && fresh(buf) && buf.Length == capacity
    {
      buf := new Byte[capacity](_ => 0);
      pos := 0;
    }

    method U8(v: Byte)
      requires Valid() && pos + 1 <= buf.Length
      modifies this, buf
      ensures Valid() && Contents() == old(Contents()) + [v]
    {
      buf[pos] := v;
      pos := pos + 1;
    }

    method Bytes(s: seq<Byte>)
      requires Valid() && pos + |s| <= buf.Length
      modifies this, buf
      ensures Valid() && Contents() == old(Contents()) + s
    {
      var i := 0;
      while i < |s|
        invariant 0 <= i <= |s| && Valid() && pos == old(pos) + i
        invariant Contents() == old(Contents()) + s[..i]
      {
        U8(s[i]);
        assert s[..i + 1] == s[..i] + [s[i]];
        i := i + 1;
      }
      assert s[..i] == s;
    }

    method U32(v: nat)
      requires Valid() && pos + 4 <= buf.Length
      modifies this, buf
      ensures Valid() && Contents() == old(Contents()) + Le(v, 4)
    {
      Bytes(Le(v, 4));
    }

    method U64(v: nat)
      requires Valid() && pos + 8 <= buf.Length
      modifies this, buf
      ensures Valid() && Contents() == old(Contents()) + Le(v, 8)
    {
      Bytes(Le(v, 8));
    }

    method Uleb(v: nat)
      requires Valid() && pos + |PutU(v)| <= buf.Length
      modifies this, buf
      ensures Valid() && Contents() == old(Contents()) + PutU(v)
    {
      var w := v;
      while w >= 0x80
        invariant Valid() && pos + |PutU(w)| <= buf.Length
        invariant Contents() + PutU(w) == old(Contents()) + PutU(v)
      {
        ghost var before := Contents();
        U8(0x80 + w % 0x80);
        assert Contents() + PutU(w / 0x80) == before + PutU(w);
        w := w / 0x80;
      }
      U8(w);
    }

    method Sleb(v: int)
      requires Valid() && pos + |PutS(v)| <= buf.Length
      modifies this, buf
      ensures Valid() && Contents() == old(Contents()) + PutS(v)
    {
      var w := v;
      while !(-0x40 <= w < 0x40)
        invariant Valid() && pos + |PutS(w)| <= buf.Length
        invariant Contents() + PutS(w) == old(Contents()) + PutS(v)
        decreases if w < 0 then -w else w
      {
        ghost var before := Contents();
        U8(0x80 + w % 0x80);
        assert Contents() + PutS(w / 0x80) == before + PutS(w);
        w := w / 0x80;
      }
      U8(w % 0x80);
    }

    method Align()
      requires Valid() && pos + PadTo8(pos) <= buf.Length
      modifies this, buf
      ensures Valid() && Contents() == old(Contents()) + Zeros(PadTo8(old(pos)))
    {
      hide PadTo8, Zeros;
      assert Zeros(0) == [];
      ghost var n := 0;
      PadStep(pos);
      while pos % 8 != 0
        invariant Valid() && pos == old(pos) + n && n + PadTo8(pos) == PadTo8(old(pos))
        invariant pos % 8 == 0 <==> PadTo8(pos) == 0
        invariant PadTo8(pos) > 0 ==> PadTo8(pos) == 1 + PadTo8(pos + 1)
        invariant Contents() == old(Contents()) + Zeros(n)
        decreases PadTo8(pos)
      {
        U8(CfaNop);
        ZerosSnoc(n);
        PadStep(pos);
        n := n + 1;
      }
    }

    /** Writes the final length over the placeholder at `start`. */
    method PatchLength(start: nat)
      requires Valid() && start + 4 <= pos
      modifies buf
      ensures Valid() && Contents() == old(Contents())[..start] + Le(pos - start - 4, 4) + old(Contents())[start + 4..]
    {
      var w := Le(pos - start - 4, 4);
      buf[start], buf[start + 1], buf[start + 2], buf[start + 3] := w[0], w[1], w[2], w[3];
      assert buf[start..start + 4] == w;
      assert buf[..pos] == buf[..start] + buf[start..start + 4] + buf[start + 4..pos];
    }

    // ----- CIEs -----

    method EmitCie(p: nat) returns (start: nat)
      requires Valid() && pos + |Record(pos, Cie(p))| <= buf.Length
      modifies this, buf
      ensures Valid() && start == old(pos) && Contents() == old(Contents()) + Record(start, Cie(p))
    {
      hide Record, CieFront, CieFactors, CieData, DefCfa, Le;
      start := pos;
      ghost var before := Contents();
      CieRoom(pos, p);
      U32(0);
      Front(p);
      Factors();
      Pointers(p);
      DefineCfa(RegSp, 0);
      CieGlue(before + Le(0, 4), p);
      Finish(start, Cie(p), before);
    }

    method Front(p: nat)
      requires Valid() && pos + |CieFront(p)| <= buf.Length
      modifies this, buf
      ensures Valid() && Contents() == old(Contents()) + CieFront(p)
    {
      hide Le, CieAugmentation;
      Append(Contents(), Le(0, 4), [1], CieAugmentation(p));
      U32(0);
      U8(1);
      Letters(p);
    }

    method Letters(p: nat)
      requires Valid() && pos + |CieAugmentation(p)| <= buf.Length
      modifies this, buf
      ensures Valid() && Contents() == old(Contents()) + CieAugmentation(p)
    {
      U8('z' as int);
      if p != 0 {
        U8('P' as int);
        U8('L' as int);
      }
      U8('R' as int);
      U8(0);
    }

    method DefineCfa(r: nat, n: nat)
      requires Valid() && pos + |DefCfa(r, n)| <= buf.Length
      modifies this, buf
      ensures Valid() && Contents() == old(Contents()) + DefCfa(r, n)
    {
      hide PutU;
      Append(Contents(), [CfaDefCfa], PutU(r), PutU(n));
      U8(CfaDefCfa);
      Uleb(r);
      Uleb(n);
    }

    method Factors()
      requires Valid() && pos + |CieFactors()| <= buf.Length
      modifies this, buf
      ensures Valid() && Contents() == old(Contents()) + CieFactors()
    {
      hide PutU, PutS;
      Uleb(4);
      Sleb(-8);
      Uleb(RegLr);
    }

    /** Personality and LSDA pointers are absolute. */
    method Pointers(p: nat)
      requires Valid() && pos + |CieData(p)| <= buf.Length
      modifies this, buf
      ensures Valid() && Contents() == old(Contents()) + CieData(p)
    {
      hide PutU, Le, CieData;
      PointersGlue(Contents(), p);
      if p != 0 {
        Uleb(11);
        U8(0);
        U64(p);
        U8(0);
        U8(0);
      } else {
        Uleb(1);
        U8(0);
      }
    }

    /** Pads and patches the length of the record begun at `start`. */
    method Finish(start: nat, ghost i: Item, ghost before: seq<Byte>)
      requires Valid() && |before| == start && Contents() == before + Le(0, 4) + Body(start, i)
      requires start + |Record(start, i)| <= buf.Length
      modifies this, buf
      ensures Valid() && Contents() == before + Record(start, i)
    {
      hide Le, Body, Zeros, PadTo8;
      ghost var b := Body(start, i);
      ghost var pad := Zeros(PadTo8(pos));
      assert pos == start + 4 + |b|;
      Align();
      assert Contents() == before + Le(0, 4) + b + pad;
      PatchLength(start);
      assert Contents() == before + (Le(|b| + |pad|, 4) + b + pad);
    }

    // ----- FDEs -----

    /** Everything up to the call frame instructions. */
    method BeginFde(cie: nat, addr: nat, size: nat, lsda: nat)
      requires Valid() && cie <= pos + 4 && pos + 4 + |FdeHead(pos + 4 - cie, addr, size, lsda)| <= buf.Length
      modifies this, buf
      ensures Valid()
      ensures Contents() == old(Contents()) + Le(0, 4) + FdeHead(old(pos) + 4 - cie, addr, size, lsda)
    {
      hide PutU, Le;
      U32(0);
      U32(pos - cie);
      U64(addr);
      U64(size);
      if lsda != 0 {
        Uleb(8);
        U64(lsda);
      } else {
        Uleb(0);
      }
    }

    method SaveReg(r: nat, slot: nat)
      requires Valid() && r < 0x80 && pos + |SaveOne(r, slot)| <= buf.Length
      modifies this, buf
      ensures Valid() && Contents() == old(Contents()) + SaveOne(r, slot)
    {
      hide PutU;
      ghost var before := Contents();
      if r < 0x40 {
        Append(before, [0x80 + r], PutU(slot), []);
        U8(0x80 + r);
        Uleb(slot);
      } else {
        Append(before, [CfaOffsetExtended], PutU(r), PutU(slot));
        U8(CfaOffsetExtended);
        Uleb(r);
        Uleb(slot);
      }
    }

    /** One register pair, if its bit is set; n pairs are still to come, this one included. */
    method SavePair(enc: nat, b: nat, r: nat, ghost n: nat, slot: nat) returns (next: nat)
      requires b > 0 && n > 0 && r + 2 * n <= 0x80
      requires Valid() && pos + |Saves(Pairs(enc, b, r, n), slot)| <= buf.Length
      modifies this, buf
      ensures Valid() && next == slot + |Pair(enc, b, r)|
      ensures Contents() + Saves(Pairs(enc, 2 * b, r + 2, n - 1), next) == old(Contents()) + Saves(Pairs(enc, b, r, n), slot)
    {
      hide SaveOne, Pairs, Bit;
      PairsStep(enc, b, r, n, slot);
      next := slot;
      if Bit(enc, b) {
        SaveReg(r, slot);
        SaveReg(r + 1, slot + 1);
        next := slot + 2;
      }
    }

    method SaveX(enc: nat)
      requires Valid() && pos + |Saves(XRegs(enc), 3)| <= buf.Length
      modifies this, buf
      ensures Valid() && Contents() == old(Contents()) + Saves(XRegs(enc), 3)
    {
      hide Saves, Pairs, Pair;
      var slot := 3;
      slot := SavePair(enc, 0x1, 19, 5, slot);
      slot := SavePair(enc, 0x2, 21, 4, slot);
      slot := SavePair(enc, 0x4, 23, 3, slot);
      slot := SavePair(enc, 0x8, 25, 2, slot);
      slot := SavePair(enc, 0x10, 27, 1, slot);
      NoPairs(enc, 0x20, 29, slot);
    }

    method SaveD(enc: nat, first: nat)
      requires Valid() && pos + |Saves(DRegs(enc), first)| <= buf.Length
      modifies this, buf
      ensures Valid() && Contents() == old(Contents()) + Saves(DRegs(enc), first)
    {
      hide Saves, Pairs, Pair;
      var slot := first;
      slot := SavePair(enc, 0x100, 72, 4, slot);
      slot := SavePair(enc, 0x200, 74, 3, slot);
      slot := SavePair(enc, 0x400, 76, 2, slot);
      slot := SavePair(enc, 0x800, 78, 1, slot);
      NoPairs(enc, 0x1000, 80, slot);
    }

    // ----- the three kinds of FDE -----

    method EmitFdeFrame(cie: nat, addr: nat, size: nat, enc: nat, lsda: nat)
      requires Valid() && cie <= pos && pos + |Record(pos, Fde(cie, addr, size, lsda, FrameInsns(enc)))| <= buf.Length
      modifies this, buf
      ensures Valid()
      ensures Contents() == old(Contents()) + Record(old(pos), Fde(cie, addr, size, lsda, FrameInsns(enc)))
    {
      hide FdeHead, Saves, FramePrologue, Le, XRegs, DRegs, Record;
      var start := pos;
      ghost var before := Contents();
      ghost var i := Fde(cie, addr, size, lsda, FrameInsns(enc));
      FdeRoom(pos, i);
      FramePieces(enc);
      BeginFde(cie, addr, size, lsda);
      Prologue();
      SaveX(enc);
      SaveD(enc, 3 + |XRegs(enc)|);
      FrameGlue(before + Le(0, 4), FdeHead(start + 4 - cie, addr, size, lsda), enc);
      FdeGlue(before + Le(0, 4), start, i);
      Finish(start, i, before);
    }

    method Prologue()
      requires Valid() && pos + |FramePrologue()| <= buf.Length
      modifies this, buf
      ensures Valid() && Contents() == old(Contents()) + FramePrologue()
    {
      hide DefCfa, SaveOne;
      ghost var before := Contents();
      U8(CfaAdvance1);
      DefineCfa(RegFp, 16);
      SaveReg(RegLr, 1);
      SaveReg(RegFp, 2);
      assert Contents() == before + FramePrologue();
    }

    method EmitFdeFrameless(cie: nat, addr: nat, size: nat, enc: nat, lsda: nat)
      requires Valid() && cie <= pos && pos + |Record(pos, Fde(cie, addr, size, lsda, FramelessInsns(enc)))| <= buf.Length
      modifies this, buf
      ensures Valid()
      ensures Contents() == old(Contents()) + Record(old(pos), Fde(cie, addr, size, lsda, FramelessInsns(enc)))
    {
      hide FdeHead, FramelessInsns, Le, Record;
      var start := pos;
      ghost var before := Contents();
      ghost var i := Fde(cie, addr, size, lsda, FramelessInsns(enc));
      FdeRoom(pos, i);
      BeginFde(cie, addr, size, lsda);
      Shrink(enc);
      FdeGlue(before + Le(0, 4), start, i);
      Finish(start, i, before);
    }

    method Shrink(enc: nat)
      requires Valid() && pos + |FramelessInsns(enc)| <= buf.Length
      modifies this, buf
      ensures Valid() && Contents() == old(Contents()) + FramelessInsns(enc)
    {
      hide SaveOne, PutU, StackSize;
      var n := StackSize(enc);
      if n > 0 {
        SizeMultiple(enc);
        ShrinkGlue(Contents(), n);
        U8(CfaAdvance1);
        U8(CfaDefCfaOffset);
        Uleb(n);
        if n >= 8 {
          SaveReg(RegLr, 1);
        }
      }
    }

    method EmitFdeMinimal(cie: nat, addr: nat, size: nat, lsda: nat)
      requires Valid() && cie <= pos && pos + |Record(pos, Fde(cie, addr, size, lsda, []))| <= buf.Length
      modifies this, buf
      ensures Valid()
      ensures Contents() == old(Contents()) + Record(old(pos), Fde(cie, addr, size, lsda, []))
    {
      hide FdeHead, Le, Record;
      var start := pos;
      ghost var before := Contents();
      ghost var i := Fde(cie, addr, size, lsda, []);
      FdeRoom(pos, i);
      BeginFde(cie, addr, size, lsda);
      FdeGlue(before + Le(0, 4), start, i);
      Finish(start, i, before);
    }
  }

  lemma PointersGlue(c: seq<Byte>, p: nat)
    ensures p == 0 ==> c + PutU(1) + [0] == c + CieData(p)
    ensures p != 0 ==> c + PutU(11) + [0] + Le(p, 8) + [0] + [0] == c + CieData(p)
  {
    hide PutU, Le;
  }

  lemma ShrinkGlue(c: seq<Byte>, n: nat)
    ensures c + [CfaAdvance1] + [CfaDefCfaOffset] + PutU(n) + SaveOne(RegLr, 1) ==
            c + ([CfaAdvance1] + ([CfaDefCfaOffset] + PutU(n)) + SaveOne(RegLr, 1))
  {
    hide PutU, SaveOne;
  }

  lemma SizeMultiple(enc: nat)
    ensures StackSize(enc) > 0 ==> StackSize(enc) >= 16
  {
  }

  lemma FdeRoom(pos: nat, i: Item)
    requires i.Fde? && i.cie <= pos
    ensures |Record(pos, i)| >= 4 + |FdeHead(pos + 4 - i.cie, i.addr, i.size, i.lsda)| + |i.insns|
  {
    hide FdeHead, Le;
  }

  lemma FdeGlue(c: seq<Byte>, pos: nat, i: Item)
    requires i.Fde? && i.cie <= pos
    ensures c + FdeHead(pos + 4 - i.cie, i.addr, i.size, i.lsda) + i.insns == c + Body(pos, i)
    ensures i.insns == [] ==> c + FdeHead(pos + 4 - i.cie, i.addr, i.size, i.lsda) == c + Body(pos, i)
  {
    hide FdeHead;
  }

  lemma FramePieces(enc: nat)
    ensures FrameInsns(enc) == FramePrologue() + (Saves(XRegs(enc), 3) + Saves(DRegs(enc), 3 + |XRegs(enc)|))
  {
    hide FramePrologue, Saves, XRegs, DRegs;
    SavesAdd(XRegs(enc), DRegs(enc), 3);
  }

  lemma FrameGlue(c: seq<Byte>, head: seq<Byte>, enc: nat)
    ensures c + head + FramePrologue() + Saves(XRegs(enc), 3) + Saves(DRegs(enc), 3 + |XRegs(enc)|) == c + head + FrameInsns(enc)
  {
    hide FramePrologue, Saves, XRegs, DRegs, FrameInsns;
    FramePieces(enc);
  }

  function CieFront(p: nat): seq<Byte> {
    Le(0, 4) + [1] + CieAugmentation(p)
  }

  function CieFactors(): seq<Byte> {
    PutU(4) + PutS(-8) + PutU(RegLr)
  }

  lemma CieGlue(c: seq<Byte>, p: nat)
    ensures c + CieFront(p) + CieFactors() + CieData(p) + InitialInsns() == c + Body(0, Cie(p))
    ensures forall pos :: Body(pos, Cie(p)) == Body(0, Cie(p))
  {
    hide Le, CieAugmentation, PutU, PutS, CieData, DefCfa;
  }

  /** Room for the parts follows from room for the whole. */
  lemma CieRoom(pos: nat, p: nat)
    ensures |Record(pos, Cie(p))| >= 4 + |CieFront(p)| + |CieFactors()| + |CieData(p)| + |InitialInsns()|
  {
    hide Le, PutU, PutS, CieData, DefCfa;
  }

  lemma Append(a: seq<Byte>, b: seq<Byte>, c: seq<Byte>, d: seq<Byte>)
    ensures a + b + c + d == a + (b + c + d) && b + c + [] == b + c && a + b + c == a + (b + c)
  {
  }

  lemma NoPairs(enc: nat, b: nat, r: nat, slot: nat)
    requires b > 0
    ensures Saves(Pairs(enc, b, r, 0), slot) == []
  {
  }

  lemma {:induction false} SavesAdd(a: seq<nat>, b: seq<nat>, slot: nat)
    requires forall k :: 0 <= k < |a| ==> a[k] < 0x80
    requires forall k :: 0 <= k < |b| ==> b[k] < 0x80
    ensures Saves(a + b, slot) == Saves(a, slot) + Saves(b, slot + |a|)
    decreases |a|
  {
    hide SaveOne;
    if a == [] {
      assert a + b == b;
    } else {
      assert (a + b)[1..] == a[1..] + b;
      SavesAdd(a[1..], b, slot + 1);
    }
  }

  lemma PairsStep(enc: nat, b: nat, r: nat, n: nat, slot: nat)
    requires b > 0 && n > 0 && r + 2 * n <= 0x80
    ensures Saves(Pairs(enc, b, r, n), slot) ==
      (if Bit(enc, b) then SaveOne(r, slot) + SaveOne(r + 1, slot + 1) else [])
      + Saves(Pairs(enc, 2 * b, r + 2, n - 1), slot + |Pair(enc, b, r)|)
  {
    hide SaveOne, Bit, Saves;
    var p, rest := Pair(enc, b, r), Pairs(enc, 2 * b, r + 2, n - 1);
    SavesAdd(p, rest, slot);
    SavesTwo(r, slot);
    assert Pairs(enc, b, r, n) == p + rest;
    if p == [] {
      assert Pairs(enc, b, r, n) == rest;
    }
  }

  lemma SavesTwo(r: nat, slot: nat)
    requires r + 1 < 0x80
    ensures Saves([r, r + 1], slot) == SaveOne(r, slot) + SaveOne(r + 1, slot + 1)
    ensures Saves([], slot) == []
  {
    hide SaveOne;
    assert [r, r + 1][1..] == [r + 1] && [r + 1][1..] == [];
    assert Saves([r + 1], slot + 1) == SaveOne(r + 1, slot + 1) + [];
  }

  lemma PadStep(n: nat)
    ensures n % 8 == 0 <==> PadTo8(n) == 0
    ensures n % 8 != 0 ==> PadTo8(n) == 1 + PadTo8(n + 1)
  {
  }

  lemma {:induction false} ZerosSnoc(n: nat)
    ensures Zeros(n) + [0] == Zeros(n + 1)
  {
  }
}
