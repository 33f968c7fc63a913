/** Byte-addressed memory of the A64 machine: little-endian accesses of 1, 2, 4 and 8 bytes.
    Addresses are 64-bit and wrap around. An address the map does not hold reads as zero. */
module A64Memory {
  import opened BitFields

  const TWO8: int := 0x100
  const TWO16: int := 0x1_0000
  const TWO32: int := 0x1_0000_0000
  const TWO64: int := 0x1_0000_0000_0000_0000

  type U64 = x: int | 0 <= x < 0x1_0000_0000_0000_0000

  type Memory = map<int, bv8>

  /** Size of a load or store, as encoded in bits 31:30 of the instruction. */
  datatype Size = Byte | Half | Word | Dword

  function Bytes(size: Size): int {
    match size
    case Byte => 1
    case Half => 2
    case Word => 4
    case Dword => 8
  }

  /** One more than the largest value an access of this size transfers. */
  function Range(size: Size): int {
    match size
    case Byte => TWO8
    case Half => TWO16
    case Word => TWO32
    case Dword => TWO64
  }

  function Wrap(a: int): (r: U64)
  {
    a % TWO64
  }

  function At(m: Memory, a: int): bv8 {
    if Wrap(a) in m then m[Wrap(a)] else 0
  }

  function Put(m: Memory, a: int, b: bv8): Memory {
    m[Wrap(a) := b]
  }

  function Load1(m: Memory, a: int): int { Nat8(At(m, a)) }
  function Load2(m: Memory, a: int): int { Load1(m, a) + TWO8 * Load1(m, a + 1) }
  function Load4(m: Memory, a: int): int { Load2(m, a) + TWO16 * Load2(m, a + 2) }
  function Load8(m: Memory, a: int): int { Load4(m, a) + TWO32 * Load4(m, a + 4) }

  function Store1(m: Memory, a: int, v: int): Memory { Put(m, a, Bits8(v)) }
  function Store2(m: Memory, a: int, v: int): Memory { Store1(Store1(m, a, v), a + 1, v / TWO8) }
  function Store4(m: Memory, a: int, v: int): Memory { Store2(Store2(m, a, v), a + 2, v / TWO16) }
  function Store8(m: Memory, a: int, v: int): Memory { Store4(Store4(m, a, v), a + 4, v / TWO32) }

  /** Zero-extended load of the given size. */
  function Load(m: Memory, a: int, size: Size): int {
    match size
    case Byte => Load1(m, a)
    case Half => Load2(m, a)
    case Word => Load4(m, a)
    case Dword => Load8(m, a)
  }

  /** Store of the low bytes of v. */
  function Store(m: Memory, a: int, size: Size, v: int): Memory {
    match size
    case Byte => Store1(m, a, v)
    case Half => Store2(m, a, v)
    case Word => Store4(m, a, v)
    case Dword => Store8(m, a, v)
  }

  /** Byte b lies in the n bytes that start at a; wrap-around included. */
  predicate Within(b: int, a: int, n: int) {
    Wrap(b - a) < n
  }

  ghost predicate AgreeOn(m: Memory, m': Memory, a: int, n: int) {
    forall b: int :: Within(b, a, n) ==> At(m, b) == At(m', b)
  }

  ghost predicate AgreeOutside(m: Memory, m': Memory, a: int, n: int) {
    forall b: int :: !Within(b, a, n) ==> At(m, b) == At(m', b)
  }

  /** The two byte ranges share no byte. */
  ghost predicate Apart(a: int, n: int, b: int, k: int) {
    forall c: int :: !(Within(c, a, n) && Within(c, b, k))
  }

  lemma PutOther(m: Memory, a: int, v: bv8, b: int)
    requires !Within(b, a, 1)
    ensures At(Put(m, a, v), b) == At(m, b)
  {
    assert Wrap(b) == Wrap(a) ==> Wrap(b - a) == 0;
  }

  lemma Store2Other(m: Memory, a: int, v: int, b: int)
    requires !Within(b, a, 2)
    ensures At(Store2(m, a, v), b) == At(m, b)
  {
    hide At, Put;
    PutOther(m, a, Bits8(v), b);
    PutOther(Store1(m, a, v), a + 1, Bits8(v / TWO8), b);
  }

  lemma Store4Other(m: Memory, a: int, v: int, b: int)
    requires !Within(b, a, 4)
    ensures At(Store4(m, a, v), b) == At(m, b)
  {
    hide Store2, At;
    Store2Other(m, a, v, b);
    Store2Other(Store2(m, a, v), a + 2, v / TWO16, b);
  }

  lemma Store8Other(m: Memory, a: int, v: int, b: int)
    requires !Within(b, a, 8)
    ensures At(Store8(m, a, v), b) == At(m, b)
  {
    hide Store4, At;
    Store4Other(m, a, v, b);
    Store4Other(Store4(m, a, v), a + 4, v / TWO32, b);
  }

  lemma Load2Same(m: Memory, m': Memory, a: int)
    requires AgreeOn(m, m', a, 2)
    ensures Load2(m, a) == Load2(m', a)
  {
    assert Within(a, a, 2) && Within(a + 1, a, 2);
  }

  lemma Load4Same(m: Memory, m': Memory, a: int)
    requires AgreeOn(m, m', a, 4)
    ensures Load4(m, a) == Load4(m', a)
  {
    hide Load2, At;
    Load2Same(m, m', a);
    Load2Same(m, m', a + 2);
  }

  lemma Load8Same(m: Memory, m': Memory, a: int)
    requires AgreeOn(m, m', a, 8)
    ensures Load8(m, a) == Load8(m', a)
  {
    hide Load4, At;
    Load4Same(m, m', a);
    Load4Same(m, m', a + 4);
  }

  lemma SplitMod8(v: int)
    ensures v % TWO16 == v % TWO8 + TWO8 * (v / TWO8 % TWO8)
  {
    assert v == TWO16 * (v / TWO8 / TWO8) + (TWO8 * (v / TWO8 % TWO8) + v % TWO8);
  }

  lemma SplitMod16(v: int)
    ensures v % TWO32 == v % TWO16 + TWO16 * (v / TWO16 % TWO16)
  {
    assert v == TWO32 * (v / TWO16 / TWO16) + (TWO16 * (v / TWO16 % TWO16) + v % TWO16);
  }

  lemma SplitMod32(v: int)
    ensures v % TWO64 == v % TWO32 + TWO32 * (v / TWO32 % TWO32)
  {
    assert v == TWO64 * (v / TWO32 / TWO32) + (TWO32 * (v / TWO32 % TWO32) + v % TWO32);
  }

  lemma Store2Read(m: Memory, a: int, v: int)
    ensures Load2(Store2(m, a, v), a) == v % TWO16
  {
    hide Bits8;
    SplitMod8(v);
    PutOther(Store1(m, a, v), a + 1, Bits8(v / TWO8), a);
  }

  lemma Store4Read(m: Memory, a: int, v: int)
    ensures Load4(Store4(m, a, v), a) == v % TWO32
  {
    hide Store2, Load2, At;
    SplitMod16(v);
    var m1 := Store2(m, a, v);
    var m2 := Store2(m1, a + 2, v / TWO16);
    forall b: int | Within(b, a, 2) ensures At(m1, b) == At(m2, b) {
      Store2Other(m1, a + 2, v / TWO16, b);
    }
    Load2Same(m1, m2, a);
    Store2Read(m, a, v);
    Store2Read(m1, a + 2, v / TWO16);
  }

  lemma Store8Read(m: Memory, a: int, v: int)
    ensures Load8(Store8(m, a, v), a) == v % TWO64
  {
    hide Store4, Load4, At;
    SplitMod32(v);
    var m1 := Store4(m, a, v);
    var m2 := Store4(m1, a + 4, v / TWO32);
    forall b: int | Within(b, a, 4) ensures At(m1, b) == At(m2, b) {
      Store4Other(m1, a + 4, v / TWO32, b);
    }
    Load4Same(m1, m2, a);
    Store4Read(m, a, v);
    Store4Read(m1, a + 4, v / TWO32);
  }

  /** What was stored is read back, truncated to the access size. */
  lemma StoreRead(m: Memory, a: int, size: Size, v: int)
    ensures Load(Store(m, a, size, v), a, size) == v % Range(size)
  {
    hide Store2, Load2, Store4, Load4, Store8, Load8;
    match size
    case Byte =>
    case Half => Store2Read(m, a, v);
    case Word => Store4Read(m, a, v);
    case Dword => Store8Read(m, a, v);
  }

  /** A store changes no byte outside its range. */
  lemma StoreOther(m: Memory, a: int, size: Size, v: int)
    ensures AgreeOutside(m, Store(m, a, size, v), a, Bytes(size))
  {
    hide Store2, Store4, Store8, At, Put;
    forall b: int | !Within(b, a, Bytes(size)) ensures At(m, b) == At(Store(m, a, size, v), b) {
      match size
      case Byte => PutOther(m, a, Bits8(v), b);
      case Half => Store2Other(m, a, v, b);
      case Word => Store4Other(m, a, v, b);
      case Dword => Store8Other(m, a, v, b);
    }
  }

  /** A load depends on its own bytes only. */
  lemma LoadSame(m: Memory, m': Memory, a: int, size: Size)
    requires AgreeOn(m, m', a, Bytes(size))
    ensures Load(m, a, size) == Load(m', a, size)
  {
    hide Load2, Load4, Load8, At;
    match size
    case Byte => assert Within(a, a, 1);
    case Half => Load2Same(m, m', a);
    case Word => Load4Same(m, m', a);
    case Dword => Load8Same(m, m', a);
  }

  lemma LoadRange(m: Memory, a: int, size: Size)
    ensures 0 <= Load(m, a, size) < Range(size)
  {
    hide At;
  }

  lemma Store2Congruent(m: Memory, a: int, v: int, w: int)
    requires v % TWO16 == w % TWO16
    ensures Store2(m, a, v) == Store2(m, a, w)
  {
    SplitMod8(v);
    SplitMod8(w);
    Bits8Congruent(v, w);
    Bits8Congruent(v / TWO8, w / TWO8);
    hide Put, Bits8;
  }

  lemma Store4Congruent(m: Memory, a: int, v: int, w: int)
    requires v % TWO32 == w % TWO32
    ensures Store4(m, a, v) == Store4(m, a, w)
  {
    hide Store2;
    SplitMod16(v);
    SplitMod16(w);
    Store2Congruent(m, a, v, w);
    Store2Congruent(Store2(m, a, v), a + 2, v / TWO16, w / TWO16);
  }

  lemma Store8Congruent(m: Memory, a: int, v: int, w: int)
    requires v % TWO64 == w % TWO64
    ensures Store8(m, a, v) == Store8(m, a, w)
  {
    hide Store4;
    SplitMod32(v);
    SplitMod32(w);
    Store4Congruent(m, a, v, w);
    Store4Congruent(Store4(m, a, v), a + 4, v / TWO32, w / TWO32);
  }

  /** Only the low bytes of the stored value matter. */
  lemma StoreCongruent(m: Memory, a: int, size: Size, v: int, w: int)
    requires v % Range(size) == w % Range(size)
    ensures Store(m, a, size, v) == Store(m, a, size, w)
  {
    hide Store2, Store4, Store8, Put, Bits8;
    match size
    case Byte => Bits8Congruent(v, w);
    case Half => Store2Congruent(m, a, v, w);
    case Word => Store4Congruent(m, a, v, w);
    case Dword => Store8Congruent(m, a, v, w);
  }

  lemma Nat8Injective(b: bv8, c: bv8)
    requires Nat8(b) == Nat8(c)
    ensures b == c
  {
  }

  /** Storing what memory already holds changes no byte. */
  lemma StoreSame(m: Memory, a: int, size: Size, v: int)
    requires v % Range(size) == Load(m, a, size)
    ensures forall b :: At(Store(m, a, size, v), b) == At(m, b)
  {
    hide Store2, Store4, Store8, Load2, Load4, Load8, At, Put;
    match size
    case Byte => Store1Same(m, a, v);
    case Half => Store2Same(m, a, v);
    case Word => Store4Same(m, a, v);
    case Dword => Store8Same(m, a, v);
  }

  lemma Store1Same(m: Memory, a: int, v: int)
    requires v % TWO8 == Load1(m, a)
    ensures forall b :: At(Store1(m, a, v), b) == At(m, b)
  {
    Nat8Injective(Bits8(v), At(m, a));
  }

  lemma MulAtLeast(r: int, d: int)
    requires r > 0 && d >= 1
    ensures r * d >= r
  {
  }

  lemma Digits(lo: int, hi: int, lo': int, hi': int, r: int)
    requires 0 <= lo < r && 0 <= lo' < r && lo + r * hi == lo' + r * hi'
    ensures lo == lo' && hi == hi'
  {
    var d := hi - hi';
    assert r * d == lo' - lo;
    if d >= 1 {
      MulAtLeast(r, d);
    } else if d <= -1 {
      MulAtLeast(r, -d);
    }
  }

  lemma Store2Same(m: Memory, a: int, v: int)
    requires v % TWO16 == Load2(m, a)
    ensures forall b :: At(Store2(m, a, v), b) == At(m, b)
  {
    hide At, Put;
    SplitMod8(v);
    Digits(v % TWO8, v / TWO8 % TWO8, Load1(m, a), Load1(m, a + 1), TWO8);
    Store1Same(m, a, v);
    Store1Same(Store1(m, a, v), a + 1, v / TWO8);
  }

  lemma Store4Same(m: Memory, a: int, v: int)
    requires v % TWO32 == Load4(m, a)
    ensures forall b :: At(Store4(m, a, v), b) == At(m, b)
  {
    hide At, Store2, Load2;
    SplitMod16(v);
    LoadRange(m, a, Half);
    Digits(v % TWO16, v / TWO16 % TWO16, Load2(m, a), Load2(m, a + 2), TWO16);
    Store2Same(m, a, v);
    Load2Same(m, Store2(m, a, v), a + 2);
    Store2Same(Store2(m, a, v), a + 2, v / TWO16);
  }

  lemma Store8Same(m: Memory, a: int, v: int)
    requires v % TWO64 == Load8(m, a)
    ensures forall b :: At(Store8(m, a, v), b) == At(m, b)
  {
    hide At, Store4, Load4;
    SplitMod32(v);
    LoadRange(m, a, Word);
    Digits(v % TWO32, v / TWO32 % TWO32, Load4(m, a), Load4(m, a + 4), TWO32);
    Store4Same(m, a, v);
    Load4Same(m, Store4(m, a, v), a + 4);
    Store4Same(Store4(m, a, v), a + 4, v / TWO32);
  }

  // ----- the same store on two memories, and a store under a wider load -----

  /** A store leaves agreement at a byte as it was. */
  lemma StoreAgree(m: Memory, m': Memory, a: int, size: Size, v: int, b: int)
    requires At(m, b) == At(m', b)
    ensures At(Store(m, a, size, v), b) == At(Store(m', a, size, v), b)
  {
    hide Store2, Store4, Store8, Put, At;
    match size
    case Byte => PutAgree(m, m', a, Bits8(v), b);
    case Half => Store2Agree(m, m', a, v, b);
    case Word => Store4Agree(m, m', a, v, b);
    case Dword => Store8Agree(m, m', a, v, b);
  }

  lemma PutAgree(m: Memory, m': Memory, a: int, v: bv8, b: int)
    requires At(m, b) == At(m', b)
    ensures At(Put(m, a, v), b) == At(Put(m', a, v), b)
  {
  }

  lemma Store2Agree(m: Memory, m': Memory, a: int, v: int, b: int)
    requires At(m, b) == At(m', b)
    ensures At(Store2(m, a, v), b) == At(Store2(m', a, v), b)
  {
    hide Put, At;
    PutAgree(m, m', a, Bits8(v), b);
    PutAgree(Store1(m, a, v), Store1(m', a, v), a + 1, Bits8(v / TWO8), b);
  }

  lemma Store4Agree(m: Memory, m': Memory, a: int, v: int, b: int)
    requires At(m, b) == At(m', b)
    ensures At(Store4(m, a, v), b) == At(Store4(m', a, v), b)
  {
    hide Store2, At;
    Store2Agree(m, m', a, v, b);
    Store2Agree(Store2(m, a, v), Store2(m', a, v), a + 2, v / TWO16, b);
  }

  lemma Store8Agree(m: Memory, m': Memory, a: int, v: int, b: int)
    requires At(m, b) == At(m', b)
    ensures At(Store8(m, a, v), b) == At(Store8(m', a, v), b)
  {
    hide Store4, At;
    Store4Agree(m, m', a, v, b);
    Store4Agree(Store4(m, a, v), Store4(m', a, v), a + 4, v / TWO32, b);
  }

  /** What a wide load sees above a narrow one. */
  function HighPart(m: Memory, a: int, size: Size): int {
    match size
    case Byte => Load1(m, a + 1) + TWO8 * Load2(m, a + 2) + 0x100_0000 * Load4(m, a + 4)
    case Half => Load2(m, a + 2) + TWO16 * Load4(m, a + 4)
    case Word => Load4(m, a + 4)
    case Dword => 0
  }

  lemma HighLoad(m: Memory, a: int, size: Size)
    ensures Load(m, a, Dword) == Load(m, a, size) + Range(size) * HighPart(m, a, size)
  {
    hide At;
  }

  /** A narrow load reads the low bytes of a wide one. */
  lemma LowLoad(m: Memory, a: int, size: Size)
    ensures Load(m, a, size) == Load(m, a, Dword) % Range(size)
  {
    hide Load1, Load2, Load4, Load8, HighPart;
    HighLoad(m, a, size);
    LoadRange(m, a, size);
    var h := HighPart(m, a, size);
    match size
    case Byte => assert (Load(m, a, size) + TWO8 * h) % TWO8 == Load(m, a, size);
    case Half => assert (Load(m, a, size) + TWO16 * h) % TWO16 == Load(m, a, size);
    case Word => assert (Load(m, a, size) + TWO32 * h) % TWO32 == Load(m, a, size);
    case Dword =>
  }

  lemma HighSame(m: Memory, m': Memory, a: int, size: Size)
    requires AgreeOn(m, m', a + Bytes(size), 8 - Bytes(size))
    ensures HighPart(m, a, size) == HighPart(m', a, size)
  {
    hide Load1, Load2, Load4, At;
    match size
    case Byte =>
      LoadSameWithin(m, m', a + 1, 7, a + 1, Byte);
      LoadSameWithin(m, m', a + 1, 7, a + 2, Half);
      LoadSameWithin(m, m', a + 1, 7, a + 4, Word);
    case Half =>
      LoadSameWithin(m, m', a + 2, 6, a + 2, Half);
      LoadSameWithin(m, m', a + 2, 6, a + 4, Word);
    case Word => LoadSameWithin(m, m', a + 4, 4, a + 4, Word);
    case Dword =>
  }

  lemma LoadSameWithin(m: Memory, m': Memory, a: int, n: int, b: int, size: Size)
    requires AgreeOn(m, m', a, n) && a <= b && b + Bytes(size) <= a + n && n <= 8
    ensures Load(m, b, size) == Load(m', b, size)
  {
    hide Load, At;
    forall x: int | Within(x, b, Bytes(size)) ensures Within(x, a, n) {
      WithinShift(x, b, a, Bytes(size), n);
    }
    LoadSame(m, m', b, size);
  }

  lemma WithinShift(x: int, b: int, a: int, k: int, n: int)
    requires Within(x, b, k) && a <= b && b + k <= a + n && 0 <= k && n <= 8
    ensures Within(x, a, n)
  {
    var q := (x - b) / TWO64;
    assert x - b == TWO64 * q + Wrap(x - b);
    assert x - a == TWO64 * q + (Wrap(x - b) + b - a);
  }

  /** Storing the low bytes replaces them and keeps the rest. */
  lemma MergeStore(m: Memory, a: int, size: Size, v: int)
    ensures var was := Load(m, a, Dword);
      Load(Store(m, a, size, v), a, Dword) == was - was % Range(size) + v % Range(size)
  {
    hide Load, Store, HighPart, At;
    var m' := Store(m, a, size, v);
    StoreOther(m, a, size, v);
    StoreRead(m, a, size, v);
    forall b: int | Within(b, a + Bytes(size), 8 - Bytes(size)) ensures At(m, b) == At(m', b) {
      NotBelow(b, a, Bytes(size));
    }
    HighSame(m, m', a, size);
    HighLoad(m, a, size);
    HighLoad(m', a, size);
    LowLoad(m, a, size);
  }

  lemma NotBelow(b: int, a: int, n: int)
    requires 0 < n <= 8 && Within(b, a + n, 8 - n)
    ensures !Within(b, a, n)
  {
    var q := (b - (a + n)) / TWO64;
    assert b - (a + n) == TWO64 * q + Wrap(b - (a + n));
    assert b - a == TWO64 * q + (Wrap(b - (a + n)) + n);
  }
}
