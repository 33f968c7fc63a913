/** As much of the A64 processor as a hooked function runs before its native replacement: B, LDR (literal)
    and BR, fetched from process memory (section C6.2 of the Arm Architecture Reference Manual, DDI 0487). */
module HookCpu {
  import opened Basics
  import opened Leb128
  import opened EhFrame
  import opened ByteMemory

  /** The program counter and the general registers. */
  datatype Core = Core(pc: nat, x: map<nat, nat>)

  /** An n-bit field as a signed number. */
  function Signed(v: nat, n: nat): int {
    if v < n / 2 then v else v - n
  }

  /** One instruction of 32 bits; None for any other one. Register 31 is the zero register. */
  function Step(mem: Memory, c: Core): Option<Core> {
    var w := FromLe(Read(mem, c.pc, 4));
    if w / 0x400_0000 == 0x05 then
      Jump(c, c.pc + 4 * Signed(w % 0x400_0000, 0x400_0000))
    else if w / 0x100_0000 == 0x58 then
      var a, rt := c.pc + 4 * Signed(w / 0x20 % 0x8_0000, 0x8_0000), w % 0x20;
      if a < 0 then None
      else Some(Core(c.pc + 4, if rt == 31 then c.x else c.x[rt := FromLe(Read(mem, a, 8))]))
    else if w / 0x400 == 0x35_87c0 && w % 0x20 == 0 then
      var rn := w / 0x20 % 0x20;
      if rn == 31 then Jump(c, 0) else if rn in c.x then Jump(c, c.x[rn]) else None
    else None
  }

  function Jump(c: Core, to: int): Option<Core> {
    if to < 0 then None else Some(c.(pc := to))
  }

  function Steps(mem: Memory, c: Core, n: nat): Option<Core>
    decreases n
  {
    if n == 0 then Some(c) else
      var next := Step(mem, c);
      if next.None? then None else Steps(mem, next.value, n - 1)
  }

  /** Three instructions from pc lead to the target, and only X16 is changed. */
  ghost predicate LeadsTo(mem: Memory, pc: nat, target: nat) {
    forall c: Core :: c.pc == pc ==> Steps(mem, c, 3) == Some(Core(target, c.x[16 := target]))
  }

  lemma BranchStep(mem: Memory, c: Core, w: nat, to: nat)
    requires FromLe(Read(mem, c.pc, 4)) == w && w / 0x400_0000 == 5
    requires to == c.pc + 4 * Signed(w % 0x400_0000, 0x400_0000)
    ensures Step(mem, c) == Some(c.(pc := to))
  {
    hide FromLe, Read;
  }

  lemma LiteralStep(mem: Memory, c: Core, v: nat)
    requires FromLe(Read(mem, c.pc, 4)) == 0x5800_0050 && FromLe(Read(mem, c.pc + 8, 8)) == v
    ensures Step(mem, c) == Some(Core(c.pc + 4, c.x[16 := v]))
  {
    hide FromLe, Read;
    assert 0x5800_0050 / 0x400_0000 == 0x16 && 0x5800_0050 / 0x20 % 0x8_0000 == 2 && 0x5800_0050 % 0x20 == 16;
    assert 0x5800_0050 / 0x100_0000 == 0x58;
  }

  lemma RegisterStep(mem: Memory, c: Core)
    requires FromLe(Read(mem, c.pc, 4)) == 0xd61f_0200 && 16 in c.x
    ensures Step(mem, c) == Some(c.(pc := c.x[16]))
  {
    hide FromLe, Read;
    assert 0xd61f_0200 / 0x400_0000 == 0x35 && 0xd61f_0200 / 0x100_0000 == 0xd6;
    assert 0xd61f_0200 / 0x400 == 0x35_87c0 && 0xd61f_0200 % 0x20 == 0 && 0xd61f_0200 / 0x20 % 0x20 == 16;
  }

  /** A branch to an island that loads and jumps. */
  lemma IslandLeads(mem: Memory, pc: nat, w: nat, island: nat, target: nat)
    requires FromLe(Read(mem, pc, 4)) == w && w / 0x400_0000 == 5
    requires island == pc + 4 * Signed(w % 0x400_0000, 0x400_0000)
    requires FromLe(Read(mem, island, 4)) == 0x5800_0050 && FromLe(Read(mem, island + 4, 4)) == 0xd61f_0200
    requires FromLe(Read(mem, island + 8, 8)) == target
    ensures LeadsTo(mem, pc, target)
  {
    hide FromLe, Read, Step, Signed;
    forall c: Core | c.pc == pc ensures Steps(mem, c, 3) == Some(Core(target, c.x[16 := target])) {
      BranchStep(mem, c, w, island);
      var c1 := c.(pc := island);
      LiteralStep(mem, c1, target);
      var c2 := Core(island + 4, c.x[16 := target]);
      RegisterStep(mem, c2);
      var c3 := c2.(pc := target);
      assert Steps(mem, c3, 0) == Some(c3);
      assert Steps(mem, c2, 1) == Some(c3);
      assert Steps(mem, c1, 2) == Some(c3);
    }
  }
}
