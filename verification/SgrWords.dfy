/** The SGR cipher from outside: the words the generator draws as one sequence, in arithmetic modulo 2^32,
    the enciphered bytes in terms of it, and the places of an archive's fields. */
module SgrWords {
  import opened Basics
  import opened BitFields
  import opened SgrCipher
  import opened SgrArchive

  // ----- the generator -----

  function Odd(t: bv32): bv32 { 2 * t + 1 }
  function Folded(x: bv32): bv32 { x ^ (x / 0x80) }
  function Up13(u: bv32): bv32 { u * 0x2000 }
  function Up6(v: bv32): bv32 { v * 0x40 }
  function Xor4(a: bv32, b: bv32, c: bv32, d: bv32): bv32 { a ^ b ^ c ^ d }
  function Mixed(u: bv32, v: bv32): bv32 { Xor4(u, Up13(u), v, Up6(v)) }

  /** A word from the one five before it and the one before it. */
  function Fed(x: bv32, v: bv32): bv32 {
    Mixed(Folded(x), v)
  }

  function Drawn(seed: bv32, n: nat): bv32 {
    if n == 0 then seed
    else if n == 1 then seed / 2 + 0x159a_55e5
    else if n == 2 then seed / 8 + 0x1f12_3bb5
    else if n == 3 then seed / 32 + 0x0549_1333
    else if n == 4 then seed / 128 + 0x34da_d465
    else Fed(Drawn(seed, n - 5), Drawn(seed, n - 1))
  }

  /** What call n returns, counted from 0. */
  function Output(seed: bv32, n: nat): bv32 {
    Scaled(Drawn(seed, n + 5), Drawn(seed, n + 2))
  }

  function Scaled(v: bv32, t: bv32): bv32 {
    Times(v, Odd(t))
  }

  lemma FedIs(x: bv32, v: bv32)
    ensures Mix(Fold(x), v) == Fed(x, v)
  {
    FoldIs(x);
    MixIs(Fold(x), v);
    hide Fold, Mix, Folded, Mixed;
  }

  lemma FoldIs(x: bv32)
    ensures Fold(x) == Folded(x)
  {
    assert x >> 7 == x / 0x80;
  }

  lemma MixIs(u: bv32, v: bv32)
    ensures Mix(u, v) == Mixed(u, v)
  {
    hide Mix, Xor4, Up13, Up6;
    MixXor(u, v);
    Up13Is(u);
    Up6Is(v);
  }

  lemma MixXor(u: bv32, v: bv32)
    ensures Mix(u, v) == Xor4(u, u << 13, v, v << 6)
  {
  }

  lemma Up13Is(u: bv32)
    ensures u << 13 == Up13(u)
  {
  }

  lemma Up6Is(v: bv32)
    ensures v << 6 == Up6(v)
  {
  }

  lemma OddIs(t: bv32)
    ensures (t << 1) | 1 == Odd(t)
  {
  }

  lemma ScaleIs(v: bv32, t: bv32)
    ensures Scale(v, t) == Scaled(v, t)
  {
    hide Times, Odd;
    OddIs(t);
  }

  lemma SeedIs(seed: bv32)
    ensures Seeded(seed) ==
      Rng(seed, seed / 2 + 0x159a_55e5, seed / 8 + 0x1f12_3bb5, seed / 32 + 0x0549_1333, seed / 128 + 0x34da_d465)
  {
  }

  /** The generator's state is five words of the sequence. */
  lemma {:induction false} StateIs(seed: bv32, n: nat)
    ensures After(Seeded(seed), n) ==
      Rng(Drawn(seed, n), Drawn(seed, n + 1), Drawn(seed, n + 2), Drawn(seed, n + 3), Drawn(seed, n + 4))
  {
    hide Seeded, Mix, Fold, Fed;
    if n == 0 {
      SeedIs(seed);
    } else {
      StateIs(seed, n - 1);
      AfterSnoc(Seeded(seed), n - 1);
      FedIs(Drawn(seed, n - 1), Drawn(seed, n + 3));
    }
  }

  lemma {:induction false} OutputIs(seed: bv32, n: nat)
    ensures Out(After(Seeded(seed), n)) == Output(seed, n)
  {
    hide Seeded, Mix, Fold, Fed, Scale, Scaled, After, Drawn;
    StateIs(seed, n);
    StateIs(seed, n + 1);
    AfterSnoc(Seeded(seed), n);
    ScaleIs(Drawn(seed, n + 5), Drawn(seed, n + 2));
  }

  // ----- enciphered bytes -----

  function Low(w: bv32): bv8 {
    (w % 0x100) as bv8
  }

  lemma LowIs(w: bv32)
    ensures LowByte(w) == Low(w)
  {
    assert w & 0xff == w % 0x100;
  }

  lemma SkipIs(w: bv32)
    ensures Low4(w) == (w % 0x10) as nat
  {
    assert w & 0xf == w % 0x10;
  }

  lemma {:induction false} AfterAfter(r: Rng, m: nat, n: nat)
    ensures After(After(r, m), n) == After(r, m + n)
    decreases m
  {
    hide Next;
    if m > 0 {
      AfterAfter(Next(r), m - 1, n);
    }
  }

  /** Calls made before the first byte is enciphered: one, and as many more as its low four bits say. */
  function Before(seed: bv32): nat {
    1 + (Output(seed, 0) % 0x10) as nat
  }

  lemma {:induction false} ReadyIs(seed: bv32)
    ensures Ready(seed) == After(Seeded(seed), Before(seed))
  {
    hide Next, Out, Seeded, Output, Low4;
    OutputIs(seed, 0);
    SkipIs(Output(seed, 0));
    AfterAfter(Seeded(seed), 1, SkipCount(seed));
    assert After(Seeded(seed), 1) == Next(Seeded(seed));
  }

  /** Byte by byte: those at even places are xor-ed with the low byte of one call's output each, the others
      stay, and the last four are the seed xor 0x550f0f55, most significant first. */
  lemma {:induction false} SealedBytes(data: seq<bv8>, seed: bv32, j: nat)
    requires j < |data| + 4
    ensures Sealed(data, seed)[j] ==
      if j < |data| && j % 2 == 0 then data[j] ^ Low(Output(seed, Before(seed) + j / 2))
      else if j < |data| then data[j]
      else TrailerByte(seed ^ 0x550f_0f55, j - |data|)
  {
    hide Output, Out, Seeded, Ready, Before, LowByte, Low, After, TrailerByte, Bytes;
    if j < |data| {
      CryptBytes(Ready(seed), data, j);
      ReadyIs(seed);
      AfterAfter(Seeded(seed), Before(seed), j / 2);
      OutputIs(seed, Before(seed) + j / 2);
      LowIs(Output(seed, Before(seed) + j / 2));
    } else {
      TrailerIs(seed ^ Magic, j - |data|);
    }
  }

  /** Byte j of a word, the most significant being byte 0. */
  function TrailerByte(w: bv32, j: nat): bv8
    requires j < 4
  {
    if j == 0 then Low(w / 0x100_0000) else if j == 1 then Low(w / 0x1_0000) else if j == 2 then Low(w / 0x100) else Low(w)
  }

  lemma ByteShifts(w: bv32)
    ensures w >> 24 == w / 0x100_0000 && w >> 16 == w / 0x1_0000 && w >> 8 == w / 0x100
  {
  }

  lemma TrailerIs(w: bv32, j: nat)
    requires j < 4
    ensures Bytes(w)[j] == TrailerByte(w, j)
  {
    hide LowByte, Low;
    ByteShifts(w);
    LowIs(w >> 24);
    LowIs(w >> 16);
    LowIs(w >> 8);
    LowIs(w);
  }

  /** One case worked out: five bytes under the seed 0x1234568f, which drops no call. */
  lemma Worked()
    ensures Sealed([0x41, 0x42, 0x43, 0x44, 0x45], 0x1234_568f) == [0x83, 0x42, 0x4a, 0x44, 0x7c, 0x47, 0x3b, 0x59, 0xda]
  {
  }

  // ----- the places of an archive's fields -----

  /** Two bytes, most significant first. */
  lemma Be16Is(n: nat)
    ensures Nat8(Be16(n)[0]) == n / 0x100 % 0x100 && Nat8(Be16(n)[1]) == n % 0x100
  {
  }

  lemma Be32Is(n: nat)
    ensures Nat8(Be32(n)[0]) == n / 0x100_0000 % 0x100 && Nat8(Be32(n)[1]) == n / 0x1_0000 % 0x100
    ensures Nat8(Be32(n)[2]) == n / 0x100 % 0x100 && Nat8(Be32(n)[3]) == n % 0x100
  {
    Be16Is(n / 0x1_0000);
    Be16Is(n);
    assert n / 0x1_0000 / 0x100 == n / 0x100_0000;
  }

  /** Length of the name, name, kind in the new format only, length of the data with its trailer, data. */
  lemma EntryPlaces(legacy: bool, e: Entry, seed: bv32)
    ensures var s := EntryBytes(legacy, e, seed);
      var n, m := |e.name|, |e.data| + 4;
      var p := 2 + n + if legacy then 0 else 1;
      && |s| == p + 4 + m
      && Nat8(s[0]) == n / 0x100 % 0x100 && Nat8(s[1]) == n % 0x100 && s[2..2 + n] == e.name
      && (!legacy ==> s[2 + n] == e.kind)
      && Nat8(s[p]) == m / 0x100_0000 % 0x100 && Nat8(s[p + 1]) == m / 0x1_0000 % 0x100
      && Nat8(s[p + 2]) == m / 0x100 % 0x100 && Nat8(s[p + 3]) == m % 0x100
      && s[p + 4..] == Sealed(e.data, seed)
  {
    hide Be16, Be32, Sealed, Nat8;
    Be16Is(|e.name|);
    Be32Is(|e.data| + 4);
  }

  /** Title, developer and root, each after its length. */
  lemma HeaderPlaces(h: Header)
    ensures var s := HeaderBytes(h);
      var a, b, c := |h.title|, |h.dev|, |h.root|;
      && |s| == 6 + a + b + c
      && Nat8(s[0]) == a / 0x100 % 0x100 && Nat8(s[1]) == a % 0x100 && s[2..2 + a] == h.title
      && Nat8(s[2 + a]) == b / 0x100 % 0x100 && Nat8(s[3 + a]) == b % 0x100 && s[4 + a..4 + a + b] == h.dev
      && Nat8(s[4 + a + b]) == c / 0x100 % 0x100 && Nat8(s[5 + a + b]) == c % 0x100 && s[6 + a + b..] == h.root
  {
    hide Be16, Nat8;
    Be16Is(|h.title|);
    Be16Is(|h.dev|);
    Be16Is(|h.root|);
  }

  /** A longer header string is cut to 255 bytes, but skipped as a whole. */
  lemma LongString(s: seq<bv8>, rest: seq<bv8>)
    requires 255 <= |s| < 0x1_0000
    ensures ReadStr(Str(s) + rest) == Some((s[..255], rest))
  {
    hide From16, Be16;
    Back16(|s|);
    var t := Str(s) + rest;
    assert t[..2] == Be16(|s|) && t[2..2 + |s|] == s && t[2 + |s|..] == rest;
    assert t[2..2 + 255] == s[..255];
  }

  /** An empty name, or one of more than 2000 bytes, ends the list. */
  lemma NameEndsList(legacy: bool, s: seq<bv8>)
    requires |s| >= 2
    ensures var n := 0x100 * Nat8(s[0]) + Nat8(s[1]);
      n == 0 || n > 2000 ==> ReadEntries(legacy, s) == []
  {
    hide Nat8;
  }
}
