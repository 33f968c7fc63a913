/** What the island's scratch-register arithmetic computes, against the architecture's definition of
    each LSE operation. The island works on 32 or 64 bits and stores the low bytes; the instruction
    works on the access size. */
module LseValues {
  import opened A64Memory
  import opened A64

  /** Register width the island uses for an access size. */
  function Wide(size: Size): int {
    Width(size.Dword?)
  }

  function Pick(cond: int, flags: Flags, yes: int, no: int): int {
    if Holds(cond, flags) then yes else no
  }

  const COND_GT := 0xC
  const COND_LT := 0xB
  const COND_HI := 0x8
  const COND_LO := 0x3
  const COND_NE := 0x1

  /** The two sides of the signed comparison: sign-extended copies for sub-word sizes. */
  function SignedOperand(size: Size, v: int): int {
    if size.Byte? || size.Half? then SignExtended(size, v) else v % Wide(size)
  }

  /** Value in the new-value scratch when the island reaches its store-exclusive. */
  function IslandValue(op: LseOp, size: Size, was: int, source: int): int {
    var w := Wide(size);
    match op
    case LdAdd => (was + source) % w
    case LdClr => Logical(AndNot, was, source, w)
    case LdEor => Logical(Xor, was, source, w)
    case LdSet => Logical(Or, was, source, w)
    case LdSmax =>
      Pick(COND_LT, CompareFlags(SignedWidth(size), SignedOperand(size, was), SignedOperand(size, source)), source, was) % w
    case LdSmin =>
      Pick(COND_GT, CompareFlags(SignedWidth(size), SignedOperand(size, was), SignedOperand(size, source)), source, was) % w
    case LdUmax => Pick(COND_LO, CompareFlags(w, was % w, source % w), source, was) % w
    case LdUmin => Pick(COND_HI, CompareFlags(w, was % w, source % w), source, was) % w
    case Swp => source % w
    case Cas => source % w
  }

  /** Sub-word signed comparisons are made on W registers. */
  function SignedWidth(size: Size): int {
    if size.Dword? then TWO64 else TWO32
  }

  // ----- conditions after a comparison -----

  lemma UnsignedConditions(range: int, a: int, b: int)
    requires range == TWO32 || range == TWO64
    requires 0 <= a < range && 0 <= b < range
    ensures Holds(COND_LO, CompareFlags(range, a, b)) <==> a < b
    ensures Holds(COND_HI, CompareFlags(range, a, b)) <==> a > b
    ensures Holds(COND_NE, CompareFlags(range, a, b)) <==> a != b
  {
    var sum := a + (range - 1 - b) + 1;
    assert sum % range == if a >= b then sum - range else sum;
  }

  lemma SignedConditions(range: int, a: int, b: int)
    requires range == TWO32 || range == TWO64
    requires 0 <= a < range && 0 <= b < range
    ensures Holds(COND_LT, CompareFlags(range, a, b)) <==> Signed(range, a) < Signed(range, b)
    ensures Holds(COND_GT, CompareFlags(range, a, b)) <==> Signed(range, a) > Signed(range, b)
  {
    var sum := a + (range - 1 - b) + 1;
    assert sum % range == if a >= b then sum - range else sum;
  }

  lemma SignExtendedKeepsOrder(size: Size, v: int)
    requires size.Byte? || size.Half?
    ensures 0 <= SignExtended(size, v) < TWO32
    ensures Signed(TWO32, SignExtended(size, v)) == Signed(Range(size), v % Range(size))
  {
  }

  lemma SignExtendedRange(size: Size, v: int)
    requires size.Byte? || size.Half?
    ensures 0 <= SignExtended(size, v) < TWO32
    ensures Wrap(SignExtended(size, v)) == SignExtended(size, v) == SignExtended(size, v) % TWO32
  {
    SignExtendedKeepsOrder(size, v);
  }

  // ----- bitwise operations on fewer bits -----

  lemma {:induction false} CombineNarrow(op: Bitwise, a: int, b: int, n: nat, k: nat, r: int)
    requires k <= n && r == Power(k)
    ensures Combine(op, a, b, n) % r == Combine(op, a, b % r, k)
    ensures 0 <= Combine(op, a, b % r, k) < r
    decreases k
  {
    if k > 0 {
      var h := Power(k - 1);
      CombineNarrow(op, a / 2, b / 2, n - 1, k - 1, h);
      HalveMod(b, h);
      var bit := if Bit(op, a % 2 == 1, b % 2 == 1) then 1 else 0;
      DoubleMod(Combine(op, a / 2, b / 2, n - 1), bit, h);
    }
  }

  function Power(k: nat): (p: int)
    ensures p >= 1
    decreases k, 0
  {
    if k == 0 then 1 else 2 * Power(k - 1)
  }

  lemma HalveMod(b: int, h: int)
    requires h >= 1
    ensures (b % (2 * h)) / 2 == (b / 2) % h
    ensures (b % (2 * h)) % 2 == b % 2
  {
    DoubleMod(b / 2, b % 2, h);
    assert b == 2 * (b / 2) + b % 2;
  }

  lemma DoubleMod(y: int, bit: int, h: int)
    requires h >= 1 && 0 <= bit <= 1
    ensures (bit + 2 * y) % (2 * h) == bit + 2 * (y % h)
  {
    var q, m := y / h, y % h;
    assert bit + 2 * y == (2 * h) * q + (bit + 2 * m) by {
      assert y == h * q + m;
      assert 2 * (h * q) == (2 * h) * q;
    }
    ModUnique(bit + 2 * y, 2 * h, q, bit + 2 * m);
  }

  lemma ModUnique(x: int, r: int, q: int, m: int)
    requires r > 0 && x == r * q + m && 0 <= m < r
    ensures x % r == m
  {
    var d := q - x / r;
    assert r * d == x % r - m by {
      assert x == r * (x / r) + x % r;
    }
    if d >= 1 {
      MulAtLeast(r, d);
    } else if d <= -1 {
      MulAtLeast(r, -d);
    }
  }

  lemma RangePower(size: Size)
    ensures Range(size) == Power(BitCount(Range(size)))
    ensures Wide(size) == Power(BitCount(Wide(size)))
  {
    assert Power(8) == 0x100;
    PowerAdd(8, 8);
    PowerAdd(16, 16);
    PowerAdd(32, 32);
  }

  lemma {:induction false} PowerAdd(a: nat, b: nat)
    ensures Power(a + b) == Power(a) * Power(b)
    decreases a
  {
    if a > 0 {
      PowerAdd(a - 1, b);
    }
  }

  lemma LogicalNarrow(op: Bitwise, size: Size, was: int, source: int)
    requires 0 <= was < Range(size)
    ensures Logical(op, was, source, Wide(size)) % Range(size) == Logical(op, was, source % Range(size), Range(size))
    ensures 0 <= Logical(op, was, source % Range(size), Range(size)) < Range(size)
  {
    RangePower(size);
    CombineNarrow(op, was, source, BitCount(Wide(size)), BitCount(Range(size)), Range(size));
  }

  lemma {:induction false} OrZero(v: int, n: nat)
    ensures Combine(Or, 0, v, n) == v % Power(n)
    decreases n
  {
    if n > 0 {
      OrZero(v / 2, n - 1);
      DoubleMod(v / 2, v % 2, Power(n - 1));
      assert v == v % 2 + 2 * (v / 2);
    }
  }

  /** MOV is ORR with the zero register. */
  lemma MoveValue(size: Size, v: int)
    ensures Logical(Or, 0, v, Wide(size)) == v % Wide(size)
  {
    RangePower(size);
    OrZero(v, BitCount(Wide(size)));
  }

  // ----- the island against the instruction -----

  lemma NarrowSum(size: Size, was: int, source: int)
    ensures (was + source) % Wide(size) % Range(size) == (was + source % Range(size)) % Range(size)
  {
    hide Range, Wide;
    NarrowMod(size, was + source);
    RangePositive(size);
    var r := Range(size);
    ShiftMod(was + source % r, source / r, r);
    assert was + source == was + source % r + r * (source / r);
  }

  lemma RangePositive(size: Size)
    ensures Range(size) > 0 && Wide(size) > 0
  {
  }

  /** A multiple of r makes no difference modulo r. */
  lemma ShiftMod(x: int, q: int, r: int)
    requires r > 0
    ensures (x + r * q) % r == x % r
  {
    assert x == r * (x / r) + x % r;
    assert x + r * q == r * (x / r + q) + x % r;
    ModUnique(x + r * q, r, x / r + q, x % r);
  }

  lemma SmallMod(x: int, r: int)
    requires 0 <= x < r
    ensures x % r == x
  {
    ModUnique(x, r, 0, x);
  }

  lemma SignedOperandKeeps(size: Size, v: int)
    requires 0 <= v < TWO64
    ensures 0 <= SignedOperand(size, v) < SignedWidth(size)
    ensures Signed(SignedWidth(size), SignedOperand(size, v)) == Signed(Range(size), v % Range(size))
  {
    if size.Byte? || size.Half? {
      SignExtendedKeepsOrder(size, v);
      hide SignExtended;
    }
  }

  /** The signed comparison decides as the instruction does. */
  lemma SignedChoice(size: Size, was: int, source: int)
    requires 0 <= was < Range(size) && 0 <= source < TWO64
    ensures
      var f := CompareFlags(SignedWidth(size), SignedOperand(size, was), SignedOperand(size, source));
      var r := Range(size);
      && (Holds(COND_LT, f) <==> Signed(r, was) < Signed(r, source % r))
      && (Holds(COND_GT, f) <==> Signed(r, was) > Signed(r, source % r))
  {
    SmallMod(was, Range(size));
    SignedOperandKeeps(size, was);
    SignedOperandKeeps(size, source);
    hide CompareFlags, Holds, SignedOperand, Signed, Range;
    SignedConditions(SignedWidth(size), SignedOperand(size, was), SignedOperand(size, source));
  }

  lemma NarrowMod(size: Size, v: int)
    ensures v % Wide(size) % Range(size) == v % Range(size)
  {
    hide Range, Wide;
    RangePositive(size);
    RangeDivides(size);
    var r, w, k := Range(size), Wide(size), Wide(size) / Range(size);
    var q, m := v / w, v % w;
    assert v == r * (k * q) + m by {
      assert v == w * q + m;
      assert r * k * q == r * (k * q);
    }
    ShiftMod(m, k * q, r);
  }

  lemma RangeDivides(size: Size)
    ensures Wide(size) == Range(size) * (Wide(size) / Range(size))
  {
  }

  lemma SignedCorrect(op: LseOp, size: Size, was: int, source: int)
    requires op == LdSmax || op == LdSmin
    requires 0 <= was < Range(size) && 0 <= source < TWO64
    ensures IslandValue(op, size, was, source) % Range(size) == Rmw(op, size, was, source)
  {
    SignedChoice(size, was, source);
    NarrowMod(size, source);
    NarrowMod(size, was);
    SmallMod(was, Range(size));
    SignedSame(Range(size), was, source % Range(size));
    hide CompareFlags, Holds, SignedOperand, SignedWidth, Wide, Signed, Range, Logical;
  }

  lemma SignedSame(range: int, a: int, b: int)
    requires range % 2 == 0 && 0 <= a < range && 0 <= b < range
    ensures Signed(range, a) == Signed(range, b) <==> a == b
  {
  }

  lemma UnsignedValue(op: LseOp, size: Size, was: int, source: int)
    requires op == LdUmax || op == LdUmin
    requires 0 <= was < Range(size) && 0 <= source < TWO64
    ensures IslandValue(op, size, was, source) % Range(size) ==
            if op == LdUmax then (if was < source % Wide(size) then source % Range(size) else was)
            else (if was > source % Wide(size) then source % Range(size) else was)
  {
    UnsignedConditions(Wide(size), was, source % Wide(size));
    NarrowMod(size, source);
    NarrowMod(size, was);
    SmallMod(was, Range(size));
    SmallMod(was, Wide(size));
    hide CompareFlags, Holds, SignedOperand, SignedWidth, Wide, Range, Logical;
  }

  lemma IslandValueRange(op: LseOp, size: Size, was: int, source: int)
    ensures 0 <= IslandValue(op, size, was, source) < Wide(size) <= TWO64
  {
    hide CompareFlags, Holds, SignedOperand;
    RangePower(size);
    var w := Wide(size);
    var n := BitCount(w);
    CombineRange(AndNot, was, source, n);
    CombineRange(Xor, was, source, n);
    CombineRange(Or, was, source, n);
  }

  lemma {:induction false} CombineRange(op: Bitwise, a: int, b: int, n: nat)
    ensures 0 <= Combine(op, a, b, n) < Power(n)
    decreases n
  {
    if n > 0 {
      CombineRange(op, a / 2, b / 2, n - 1);
    }
  }

  /** What the island asks of the source register: for the maximum or minimum of unsigned bytes or
      halfwords, that its W form is clear above the access or holds the largest value below. */
  predicate SourceFits(op: LseOp, size: Size, source: int) {
    op == LdUmax || op == LdUmin ==>
      source % Wide(size) < Range(size) || source % Range(size) == Range(size) - 1
  }

  /** The stored bytes are the architecture's, for every operation, size and operand. */
  lemma IslandValueCorrect(op: LseOp, size: Size, was: int, source: int)
    requires 0 <= was < Range(size) && 0 <= source < TWO64
    requires SourceFits(op, size, source)
    ensures IslandValue(op, size, was, source) % Range(size) == Rmw(op, size, was, source)
  {
    NarrowMod(size, source);
    if source % Wide(size) < Range(size) {
      SmallMod(source % Wide(size), Range(size));
    }
    hide Logical, CompareFlags, Holds, Wide, Range;
    match op
    case LdAdd => NarrowSum(size, was, source);
    case LdClr => LogicalNarrow(AndNot, size, was, source);
    case LdEor => LogicalNarrow(Xor, size, was, source);
    case LdSet => LogicalNarrow(Or, size, was, source);
    case LdSmax => SignedCorrect(op, size, was, source);
    case LdSmin => SignedCorrect(op, size, was, source);
    case LdUmax => UnsignedValue(op, size, was, source);
    case LdUmin => UnsignedValue(op, size, was, source);
    case Swp =>
    case Cas =>
  }

  /** The unsigned maximum or minimum of one memory value comes out right when the W source register is
      clear above the access, or memory holds no more than its low part. */
  lemma UnsignedOne(op: LseOp, size: Size, was: int, source: int)
    requires op == LdUmax || op == LdUmin
    requires 0 <= was < Range(size) && 0 <= source < TWO64
    ensures IslandValue(op, size, was, source) % Range(size) == Rmw(op, size, was, source) <==>
            source % Wide(size) < Range(size) || was <= source % Range(size)
  {
    hide IslandValue, Wide, Range;
    UnsignedValue(op, size, was, source);
    RangePositive(size);
    if source % Wide(size) < Range(size) {
      NarrowMod(size, source);
      SmallMod(source % Wide(size), Range(size));
    }
  }

  lemma ModRange(x: int, r: int)
    requires r > 0
    ensures 0 <= x % r < r
  {
  }
}
