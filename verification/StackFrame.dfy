/** The 64 bytes below the stack pointer that an island pushes its saved registers into. */
module StackFrame {
  import opened A64Memory
  import opened A64

  const FRAME := 64

  /** Address of the i-th 16-byte slot below sp. */
  function Slot(sp: int, i: int): U64 {
    Wrap(sp - 16 * (i + 1))
  }

  /** The first slots hold these values, in the order they were pushed. */
  ghost predicate Saved(m: Memory, sp: int, vals: seq<int>) {
    forall i :: 0 <= i < |vals| ==> Load(m, Slot(sp, i), Dword) == vals[i]
  }

  function Frame(sp: int): U64 {
    Wrap(sp - FRAME)
  }

  /** A slot lies in the frame. */
  lemma SlotInFrame(sp: int, i: int, b: int)
    requires 0 <= i < 4 && Within(b, Slot(sp, i), 8)
    ensures Within(b, Frame(sp), FRAME)
  {
    var k := Wrap(b - Slot(sp, i));
    assert Wrap(b - Frame(sp)) == 48 - 16 * i + k by {
      WrapSum(b, Slot(sp, i), Frame(sp), sp - 16 * (i + 1), sp - FRAME);
    }
  }

  lemma WrapSum(b: int, s: int, f: int, s': int, f': int)
    requires s == Wrap(s') && f == Wrap(f') && 0 <= s' - f' <= 48 && Wrap(b - s) < 8
    ensures Wrap(b - f) == s' - f' + Wrap(b - s)
  {
    var p, q, r := s' / TWO64, f' / TWO64, (b - s) / TWO64;
    assert s' == TWO64 * p + s && f' == TWO64 * q + f && b - s == TWO64 * r + Wrap(b - s);
    assert b - f == TWO64 * (r - p + q) + (s' - f' + Wrap(b - s));
  }

  /** Different slots share no byte. */
  lemma SlotsApart(sp: int, i: int, j: int, b: int)
    requires 0 <= i < 4 && 0 <= j < 4 && i != j
    requires Within(b, Slot(sp, i), 8)
    ensures !Within(b, Slot(sp, j), 8)
  {
    if Within(b, Slot(sp, j), 8) {
      WrapSum(b, Slot(sp, i), Frame(sp), sp - 16 * (i + 1), sp - FRAME);
      WrapSum(b, Slot(sp, j), Frame(sp), sp - 16 * (j + 1), sp - FRAME);
    }
  }

  /** Pushing keeps what was saved, saves one more value, and touches the frame only. */
  lemma Pushed(m: Memory, sp: int, vals: seq<int>, v: U64)
    requires Saved(m, sp, vals) && |vals| < 4
    ensures Saved(Store(m, Slot(sp, |vals|), Dword, v), sp, vals + [v])
    ensures AgreeOutside(m, Store(m, Slot(sp, |vals|), Dword, v), Frame(sp), FRAME)
  {
    hide Load, Store, Slot, Frame, Within, At;
    var n := |vals|;
    var m' := Store(m, Slot(sp, n), Dword, v);
    StoreOther(m, Slot(sp, n), Dword, v);
    StoreRead(m, Slot(sp, n), Dword, v);
    forall i | 0 <= i < n ensures Load(m', Slot(sp, i), Dword) == vals[i] {
      forall b | Within(b, Slot(sp, i), 8) ensures At(m, b) == At(m', b) {
        SlotsApart(sp, i, n, b);
      }
      LoadSame(m, m', Slot(sp, i), Dword);
    }
    forall b | !Within(b, Frame(sp), FRAME) ensures At(m, b) == At(m', b) {
      if Within(b, Slot(sp, n), 8) {
        SlotInFrame(sp, n, b);
      }
    }
  }

  /** Whatever leaves the frame alone keeps what was saved. */
  lemma SavedSame(m: Memory, m': Memory, sp: int, vals: seq<int>)
    requires Saved(m, sp, vals) && |vals| <= 4
    requires AgreeOn(m, m', Frame(sp), FRAME)
    ensures Saved(m', sp, vals)
  {
    hide Load, Slot, Frame, Within, At;
    forall i | 0 <= i < |vals| ensures Load(m', Slot(sp, i), Dword) == vals[i] {
      forall b | Within(b, Slot(sp, i), 8) ensures At(m, b) == At(m', b) {
        SlotInFrame(sp, i, b);
      }
      LoadSame(m, m', Slot(sp, i), Dword);
    }
  }

  /** A store to a place apart from the frame leaves the frame alone. */
  lemma StoreElsewhere(m: Memory, a: int, size: Size, v: int, sp: int)
    requires Apart(a, Bytes(size), Frame(sp), FRAME)
    ensures AgreeOn(m, Store(m, a, size, v), Frame(sp), FRAME)
  {
    hide Store, Frame, Within, At;
    StoreOther(m, a, size, v);
  }

  /** Agreement outside the frame covers every place apart from it. */
  lemma LoadElsewhere(m: Memory, m': Memory, a: int, size: Size, sp: int)
    requires Apart(a, Bytes(size), Frame(sp), FRAME)
    requires AgreeOutside(m, m', Frame(sp), FRAME)
    ensures Load(m, a, size) == Load(m', a, size)
  {
    hide Load, Frame, Within, At;
    LoadSame(m, m', a, size);
  }

  /** The stack pointer after i pushes, and one more push or pop. */
  lemma SlotStep(sp: int, i: int)
    ensures Wrap(Wrap(sp - 16 * i) - 16) == Slot(sp, i) == Wrap(sp - 16 * (i + 1))
    ensures Wrap(Slot(sp, i) + 16) == Wrap(sp - 16 * i)
  {
  }

  /** The bytes at the stack pointer lie outside the frame below it. */
  lemma TopApart(sp: U64, size: Size)
    ensures Apart(sp, Bytes(size), Frame(sp), FRAME)
  {
    forall b: int ensures !(Within(b, sp, Bytes(size)) && Within(b, Frame(sp), FRAME)) {
      if Within(b, sp, Bytes(size)) {
        var p, q := (b - sp) / TWO64, (sp - FRAME) / TWO64;
        assert b - sp == TWO64 * p + Wrap(b - sp) && sp - FRAME == TWO64 * q + Frame(sp);
        assert b - Frame(sp) == TWO64 * (p + q) + (Wrap(b - sp) + FRAME);
      }
    }
  }

  lemma WithinSlot(b: int, a: int, size: Size)
    requires Within(b, a, Bytes(size))
    ensures Within(b, a, 8)
  {
  }

  /** A store into slot n leaves the slots before it and everything outside the frame alone. */
  lemma SlotStored(m: Memory, sp: int, n: nat, size: Size, v: int, vals: seq<int>)
    requires n < 4 && |vals| <= n && Saved(m, sp, vals)
    ensures Saved(Store(m, Slot(sp, n), size, v), sp, vals)
    ensures AgreeOutside(m, Store(m, Slot(sp, n), size, v), Frame(sp), FRAME)
  {
    hide Load, Store, Slot, Frame, Within, At;
    var m' := Store(m, Slot(sp, n), size, v);
    StoreOther(m, Slot(sp, n), size, v);
    forall i | 0 <= i < |vals| ensures Load(m', Slot(sp, i), Dword) == vals[i] {
      forall b | Within(b, Slot(sp, i), 8) ensures At(m, b) == At(m', b) {
        SlotsApart(sp, i, n, b);
        if Within(b, Slot(sp, n), Bytes(size)) {
          WithinSlot(b, Slot(sp, n), size);
        }
      }
      LoadSame(m, m', Slot(sp, i), Dword);
    }
    forall b | !Within(b, Frame(sp), FRAME) ensures At(m, b) == At(m', b) {
      if Within(b, Slot(sp, n), Bytes(size)) {
        WithinSlot(b, Slot(sp, n), size);
        SlotInFrame(sp, n, b);
      }
    }
  }

  lemma SavedPart(m: Memory, sp: int, vals: seq<int>, n: nat)
    requires Saved(m, sp, vals) && n <= |vals|
    ensures Saved(m, sp, vals[..n])
  {
    hide Load, Slot;
  }
}
