/** What the emitted call frame information means: an interpreter of CIEs and FDEs after section 6.4 of
    DWARF 5, and the unwind rules it derives from the section built by src/eh_frame.c. */
module EhCfi {
  import opened Basics
  import opened Leb128
  import opened EhFrame
  import opened EhEntries

  /** A row of the unwind table: the CFA is a register plus an offset, and a saved register lies at an
      offset from the CFA. */
  datatype Row = Row(loc: nat, cfaReg: nat, cfaOffset: int, saved: map<nat, int>)

  const Blank: Row := Row(0, 0, 0, map[])

  /** Executes instructions up to the row that covers `target`, an offset from the start address. */
  function Run(s: seq<Byte>, row: Row, target: nat, codeAlign: nat, dataAlign: int): Option<Row>
    decreases |s|
  {
    if s == [] then Some(row) else
      var op, rest := s[0], s[1..];
      if 0x40 <= op < 0x80 then
        var to := row.loc + (op - 0x40) * codeAlign;
        if to > target then Some(row) else Run(rest, row.(loc := to), target, codeAlign, dataAlign)
      else if 0x80 <= op < 0xc0 then
        if Terminated(rest) then
          Run(rest[Len(rest)..], Save(row, op - 0x80, U(rest) * dataAlign), target, codeAlign, dataAlign)
        else None
      else if op == 0x00 then Run(rest, row, target, codeAlign, dataAlign)
      else if !Terminated(rest) then None
      else
        var next := rest[Len(rest)..];
        if op == 0x0e then Run(next, row.(cfaOffset := U(rest)), target, codeAlign, dataAlign)
        else if !Terminated(next) then None
        else if op == 0x0c then
          Run(next[Len(next)..], row.(cfaReg := U(rest), cfaOffset := U(next)), target, codeAlign, dataAlign)
        else if op == 0x05 then
          Run(next[Len(next)..], Save(row, U(rest), U(next) * dataAlign), target, codeAlign, dataAlign)
        else None
  }

  function Save(row: Row, reg: nat, offset: int): Row {
    row.(saved := row.saved[reg := offset])
  }

  // ----- instruction by instruction -----

  lemma {:induction false} RunNops(n: nat, row: Row, target: nat, ca: nat, da: int)
    ensures Run(Zeros(n), row, target, ca, da) == Some(row)
    decreases n
  {
    if n > 0 {
      assert Zeros(n)[1..] == Zeros(n - 1);
      RunNops(n - 1, row, target, ca, da);
    }
  }

  /** Reading a number off the front leaves the rest. */
  lemma TakeU(v: nat, rest: seq<Byte>)
    ensures var s := PutU(v) + rest; Terminated(s) && U(s) == v && s[Len(s)..] == rest
  {
    UnsignedRoundTrip(v, rest);
    PutTerminated(v, rest);
  }

  lemma RunSaveOne(r: nat, slot: nat, rest: seq<Byte>, row: Row, target: nat, ca: nat, da: int)
    requires r < 0x80
    ensures Run(SaveOne(r, slot) + rest, row, target, ca, da) == Run(rest, Save(row, r, slot * da), target, ca, da)
  {
    hide U, Len, Terminated, PutU, Run, Save;
    if r < 0x40 {
      RunShort(r, slot, rest, row, target, ca, da);
    } else {
      assert SaveOne(r, slot) + rest == [CfaOffsetExtended] + PutU(r) + PutU(slot) + rest;
      RunLong(r, slot, rest, row, target, ca, da);
    }
  }

  lemma RunShort(r: nat, slot: nat, rest: seq<Byte>, row: Row, target: nat, ca: nat, da: int)
    requires r < 0x40
    ensures Run([0x80 + r] + PutU(slot) + rest, row, target, ca, da) == Run(rest, Save(row, r, slot * da), target, ca, da)
  {
    hide U, Len, Terminated, PutU, Save;
    TakeU(slot, rest);
    assert ([0x80 + r] + PutU(slot) + rest)[1..] == PutU(slot) + rest;
  }

  lemma RunLong(r: nat, slot: nat, rest: seq<Byte>, row: Row, target: nat, ca: nat, da: int)
    ensures Run([CfaOffsetExtended] + PutU(r) + PutU(slot) + rest, row, target, ca, da) ==
            Run(rest, Save(row, r, slot * da), target, ca, da)
  {
    hide U, Len, Terminated, PutU, Save;
    TakeU(slot, rest);
    TakeU(r, PutU(slot) + rest);
    assert ([CfaOffsetExtended] + PutU(r) + PutU(slot) + rest)[1..] == PutU(r) + (PutU(slot) + rest);
  }

  lemma RunDefCfa(r: nat, n: nat, rest: seq<Byte>, row: Row, target: nat, ca: nat, da: int)
    ensures Run(DefCfa(r, n) + rest, row, target, ca, da) ==
            Run(rest, row.(cfaReg := r, cfaOffset := n), target, ca, da)
  {
    hide U, Len, Terminated, PutU;
    var s := DefCfa(r, n) + rest;
    TakeU(r, PutU(n) + rest);
    TakeU(n, rest);
    assert s[1..] == PutU(r) + (PutU(n) + rest);
  }

  lemma RunDefCfaOffset(n: nat, rest: seq<Byte>, row: Row, target: nat, ca: nat, da: int)
    ensures Run([CfaDefCfaOffset] + PutU(n) + rest, row, target, ca, da) ==
            Run(rest, row.(cfaOffset := n), target, ca, da)
  {
    hide U, Len, Terminated, PutU;
    var s := [CfaDefCfaOffset] + PutU(n) + rest;
    TakeU(n, rest);
    assert s[1..] == PutU(n) + rest;
  }

  lemma RunAdvance(rest: seq<Byte>, row: Row, target: nat, ca: nat, da: int)
    ensures Run([CfaAdvance1] + rest, row, target, ca, da) ==
            if row.loc + ca > target then Some(row) else Run(rest, row.(loc := row.loc + ca), target, ca, da)
  {
    hide U, Len, Terminated;
    assert ([CfaAdvance1] + rest)[1..] == rest;
  }

  // ----- saved registers -----

  /** Row after saving the registers in order, the first one in this slot. */
  function SaveAll(row: Row, regs: seq<nat>, slot: nat, da: int): Row
    decreases |regs|
  {
    if regs == [] then row else SaveAll(Save(row, regs[0], slot * da), regs[1..], slot + 1, da)
  }

  lemma {:induction false} RunSaves(regs: seq<nat>, slot: nat, rest: seq<Byte>, row: Row, target: nat, ca: nat, da: int)
    requires forall k :: 0 <= k < |regs| ==> regs[k] < 0x80
    ensures Run(Saves(regs, slot) + rest, row, target, ca, da) == Run(rest, SaveAll(row, regs, slot, da), target, ca, da)
    decreases |regs|
  {
    hide Run, SaveOne;
    if regs == [] {
      assert Saves(regs, slot) + rest == rest;
    } else {
      assert Saves(regs, slot) + rest == SaveOne(regs[0], slot) + (Saves(regs[1..], slot + 1) + rest);
      RunSaveOne(regs[0], slot, Saves(regs[1..], slot + 1) + rest, row, target, ca, da);
      RunSaves(regs[1..], slot + 1, rest, Save(row, regs[0], slot * da), target, ca, da);
    }
  }

  /** Distinct registers each end up in their own slot, and nothing else changes. */
  lemma {:induction false} SaveAllSlots(row: Row, regs: seq<nat>, slot: nat, da: int)
    requires forall j, k :: 0 <= j < k < |regs| ==> regs[j] < regs[k]
    ensures var out := SaveAll(row, regs, slot, da);
      && out == row.(saved := out.saved)
      && (forall k :: 0 <= k < |regs| ==> regs[k] in out.saved && out.saved[regs[k]] == (slot + k) * da)
      && (forall r :: r !in regs ==> (r in out.saved <==> r in row.saved))
      && (forall r :: r in row.saved && r !in regs ==> out.saved[r] == row.saved[r])
    decreases |regs|
  {
    if regs != [] {
      var first := Save(row, regs[0], slot * da);
      SaveAllSlots(first, regs[1..], slot + 1, da);
      var out := SaveAll(row, regs, slot, da);
      assert regs[0] !in regs[1..];
      forall k | 0 <= k < |regs| ensures regs[k] in out.saved && out.saved[regs[k]] == (slot + k) * da {
        if k > 0 {
          assert regs[1..][k - 1] == regs[k];
        }
      }
      forall r | r !in regs ensures r !in regs[1..] && r != regs[0] {
      }
    }
  }

  // ----- the two kinds of function -----

  /** The rules the compact encoding stands for once the prologue has run. */
  ghost predicate FrameRules(row: Row, enc: nat) {
    && row.cfaReg == RegFp && row.cfaOffset == 16
    && RegLr in row.saved && row.saved[RegLr] == -8
    && RegFp in row.saved && row.saved[RegFp] == -16
    && (forall k :: 0 <= k < |Saved(enc)| ==> Saved(enc)[k] in row.saved && row.saved[Saved(enc)[k]] == -8 * (3 + k))
    && forall r :: r in row.saved ==> r == RegLr || r == RegFp || r in Saved(enc)
  }

  /** The row every CIE sets up: the state at function entry. */
  const AtEntry: Row := Row(0, RegSp, 0, map[])

  lemma FrameMeaning(enc: nat, pad: nat, target: nat)
    ensures var r := Run(FrameInsns(enc) + Zeros(pad), AtEntry, target, 4, -8);
      if target < 4 then r == Some(AtEntry) else r.Some? && r.value.loc == 4 && FrameRules(r.value, enc)
  {
    hide Run, Saves, PutU, XRegs, DRegs, Save, Saved;
    var regs := Saved(enc);
    var tail := Saves(regs, 3) + Zeros(pad);
    var row1 := AtEntry.(loc := 4);
    var row2 := row1.(cfaReg := RegFp, cfaOffset := 16);
    var row3 := Save(row2, RegLr, 1 * -8);
    var row4 := Save(row3, RegFp, 2 * -8);
    var s3 := SaveOne(RegFp, 2) + tail;
    var s2 := SaveOne(RegLr, 1) + s3;
    var s1 := DefCfa(RegFp, 16) + s2;
    assert FrameInsns(enc) + Zeros(pad) == [CfaAdvance1] + s1;
    RunAdvance(s1, AtEntry, target, 4, -8);
    RunDefCfa(RegFp, 16, s2, row1, target, 4, -8);
    RunSaveOne(RegLr, 1, s3, row2, target, 4, -8);
    RunSaveOne(RegFp, 2, tail, row3, target, 4, -8);
    RunSaves(regs, 3, Zeros(pad), row4, target, 4, -8);
    RunNops(pad, SaveAll(row4, regs, 3, -8), target, 4, -8);
    SavedRules(enc, row2);
  }

  lemma SavedRules(enc: nat, row: Row)
    requires row.cfaReg == RegFp && row.cfaOffset == 16 && row.saved == map[]
    ensures var out := SaveAll(Save(Save(row, RegLr, 1 * -8), RegFp, 2 * -8), Saved(enc), 3, -8);
      out.loc == row.loc && FrameRules(out, enc)
  {
    hide Saved;
    SaveAllSlots(Save(Save(row, RegLr, 1 * -8), RegFp, 2 * -8), Saved(enc), 3, -8);
  }

  /** A frameless function's CFA is its stack pointer plus the size; the link register is at the top of
      the frame when there is one. */
  lemma FramelessMeaning(enc: nat, pad: nat, target: nat)
    ensures Run(FramelessInsns(enc) + Zeros(pad), AtEntry, target, 4, -8) == Some(
      if StackSize(enc) == 0 || target < 4 then AtEntry else Row(4, RegSp, StackSize(enc), map[RegLr := -8]))
  {
    hide Run, PutU;
    var n := StackSize(enc);
    if n == 0 {
      assert FramelessInsns(enc) + Zeros(pad) == Zeros(pad);
      RunNops(pad, AtEntry, target, 4, -8);
    } else {
      var row1 := AtEntry.(loc := 4);
      var row2 := row1.(cfaOffset := n);
      var s2 := SaveOne(RegLr, 1) + Zeros(pad);
      var s1 := [CfaDefCfaOffset] + PutU(n) + s2;
      assert FramelessInsns(enc) + Zeros(pad) == [CfaAdvance1] + s1;
      RunAdvance(s1, AtEntry, target, 4, -8);
      RunDefCfaOffset(n, s2, row1, target, 4, -8);
      RunSaveOne(RegLr, 1, Zeros(pad), row2, target, 4, -8);
      RunNops(pad, Save(row2, RegLr, 1 * -8), target, 4, -8);
    }
  }

  /** The rules that hold at an offset from the start of a function with this encoding. */
  ghost predicate Rules(row: Row, enc: nat, target: nat) {
    if ModeOf(enc) == Frame && target >= 4 then row.loc == 4 && FrameRules(row, enc)
    else if ModeOf(enc) == Frameless && target >= 4 && StackSize(enc) > 0 then
      row == Row(4, RegSp, StackSize(enc), map[RegLr := -8])
    else row == AtEntry
  }

  lemma InsnsMeaning(enc: nat, pad: nat, target: nat)
    ensures var r := Run(Insns(enc) + Zeros(pad), AtEntry, target, 4, -8); r.Some? && Rules(r.value, enc, target)
  {
    hide Run, FrameRules, FrameInsns, FramelessInsns, ModeOf, StackSize;
    match ModeOf(enc)
    case Frame => FrameMeaning(enc, pad, target);
    case Frameless => FramelessMeaning(enc, pad, target);
    case _ =>
      assert Insns(enc) + Zeros(pad) == Zeros(pad);
      RunNops(pad, AtEntry, target, 4, -8);
  }
}
