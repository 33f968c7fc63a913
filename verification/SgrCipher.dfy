/** The stream cipher of the SGR archives (tools/sgr_repack.c and tools/sgr_extract.c): a xorshift
    generator whose output is xor-ed into every other byte, with the seed in a masked trailer. */
module SgrCipher {

  /** The generator's five words. */
  datatype Rng = Rng(x: bv32, y: bv32, z: bv32, w: bv32, v: bv32)

  const Magic: bv32 := 0x550f_0f55

  function SeedY(s: bv32): bv32 { (s >> 1) + 0x159a_55e5 }
  function SeedZ(s: bv32): bv32 { (s >> 3) + 0x1f12_3bb5 }
  function SeedW(s: bv32): bv32 { (s >> 5) + 0x0549_1333 }
  function SeedV(s: bv32): bv32 { (s >> 7) + 0x34da_d465 }

  function Seeded(seed: bv32): Rng {
    Rng(seed, SeedY(seed), SeedZ(seed), SeedW(seed), SeedV(seed))
  }

  function Fold(x: bv32): bv32 { x ^ (x >> 7) }
  function Mix(u: bv32, v: bv32): bv32 { u ^ (u << 13) ^ v ^ (v << 6) }
  function Times(v: bv32, t: bv32): bv32 { v * t }
  function Scale(v: bv32, t: bv32): bv32 { Times(v, (t << 1) | 1) }

  function Next(r: Rng): Rng {
    Rng(r.y, r.z, r.w, r.v, Mix(Fold(r.x), r.v))
  }

  /** What the call that moves from r to its successor returns. */
  function Out(r: Rng): bv32 {
    Scale(Next(r).v, r.z)
  }

  function LowByte(w: bv32): bv8 {
    (w & 0xff) as bv8
  }

  function After(r: Rng, n: nat): Rng
    decreases n
  {
    if n == 0 then r else After(Next(r), n - 1)
  }

  function Low4(w: bv32): nat {
    (w & 0xf) as nat
  }

  function SkipCount(seed: bv32): nat {
    Low4(Out(Seeded(seed)))
  }

  /** The generator when the first byte is enciphered: one call decides how many more are dropped. */
  function Ready(seed: bv32): Rng {
    After(Next(Seeded(seed)), SkipCount(seed))
  }

  function Crypt(r: Rng, s: seq<bv8>): (t: seq<bv8>)
    ensures |t| == |s|
    decreases |s|
  {
    if s == [] then []
    else if |s| == 1 then [s[0] ^ LowByte(Out(r))]
    else [s[0] ^ LowByte(Out(r)), s[1]] + Crypt(Next(r), s[2..])
  }

  lemma XorTwice(a: bv8, b: bv8)
    ensures (a ^ b) ^ b == a
  {
  }

  /** Enciphering is its own inverse. */
  lemma CryptTwice(r: Rng, s: seq<bv8>)
    ensures Crypt(r, Crypt(r, s)) == s
  {
    hide Out, Next, LowByte, Crypt;
    var t := Crypt(r, s);
    forall j | 0 <= j < |s| ensures Crypt(r, t)[j] == s[j] {
      CryptBytes(r, s, j);
      CryptBytes(r, t, j);
      XorTwice(s[j], LowByte(Out(After(r, j / 2))));
    }
  }

  // ----- words as bytes, most significant first -----

  function Word(s: seq<bv8>): bv32
    requires |s| == 4
  {
    ((s[0] as bv32) << 24) | ((s[1] as bv32) << 16) | ((s[2] as bv32) << 8) | (s[3] as bv32)
  }

  function Bytes(w: bv32): (s: seq<bv8>)
    ensures |s| == 4
  {
    [LowByte(w >> 24), LowByte(w >> 16), LowByte(w >> 8), LowByte(w)]
  }

  lemma WordBytes(w: bv32)
    ensures Word(Bytes(w)) == w
  {
  }

  /** Enciphered data and its trailer. */
  function Sealed(data: seq<bv8>, seed: bv32): (s: seq<bv8>)
    ensures |s| == |data| + 4
  {
    Crypt(Ready(seed), data) + Bytes(seed ^ Magic)
  }

  function Opened(s: seq<bv8>): (data: seq<bv8>)
    requires |s| >= 4
    ensures |data| == |s| - 4
  {
    var n := |s| - 4;
    Crypt(Ready(Word(s[n..]) ^ Magic), s[..n])
  }

  lemma SealOpens(data: seq<bv8>, seed: bv32)
    ensures Opened(Sealed(data, seed)) == data
  {
    hide Crypt, Ready, Word, Bytes;
    var s := Sealed(data, seed);
    assert s[|data|..] == Bytes(seed ^ Magic) && s[..|data|] == Crypt(Ready(seed), data);
    WordBytes(seed ^ Magic);
    Unmask(seed);
    CryptTwice(Ready(seed), data);
  }

  lemma Unmask(seed: bv32)
    ensures (seed ^ Magic) ^ Magic == seed
  {
  }

  // ----- the programs -----

  class Sugar {
    var sx: bv32
    var sy: bv32
    var sz: bv32
    var sw: bv32
    var sv: bv32

    ghost function State(): Rng
      reads this
    {
      Rng(sx, sy, sz, sw, sv)
    }

    constructor ()
    {
      sx, sy, sz, sw, sv := 0, 0, 0, 0, 0;
    }

    method Srand(seed: bv32)
      modifies this
      ensures State() == Seeded(seed)
    {
      hide SeedY, SeedZ, SeedW, SeedV;
      sx := seed;
      sy := SeedY(sx);
      sz := SeedZ(sx);
      sw := SeedW(sx);
      sv := SeedV(sx);
    }

    method Rnd() returns (r: bv32)
      modifies this
      ensures State() == Next(old(State())) && r == Out(old(State()))
    {
      hide Fold, Mix, Scale;
      var t := sz;
      var u := Fold(sx);
      sx := sy;
      sy := sz;
      sz := sw;
      sw := sv;
      sv := Mix(u, sv);
      r := Scale(sv, t);
    }

    method Prepare(seed: bv32)
      modifies this
      ensures State() == Ready(seed)
    {
      hide Next, Out, Seeded, Low4;
      Srand(seed);
      var first := Rnd();
      var skip := Low4(first);
      for i := 0 to skip
        invariant After(State(), skip - i) == Ready(seed)
      {
        var unused := Rnd();
      }
    }

    /** In place, every other byte of the first len. */
    method Apply(buf: array<bv8>, len: nat)
      requires len <= buf.Length
      modifies this, buf
      ensures buf[..len] == Crypt(old(State()), old(buf[..len])) && buf[len..] == old(buf[len..])
    {
      hide Next, Out, LowByte, Crypt;
      ghost var s := buf[..len];
      ghost var start := State();
      var i := 0;
      while i < len
        invariant 0 <= i <= len + 1 && i % 2 == 0 && State() == After(start, i / 2)
        invariant forall j :: 0 <= j < len && j < i ==> buf[j] == CryptAt(start, s, j)
        invariant forall j :: i <= j < buf.Length ==> buf[j] == old(buf[j])
        invariant buf[len..] == old(buf[len..])
      {
        AfterSnoc(start, i / 2);
        var r := Rnd();
        buf[i] := XorLow(buf[i], r);
        i := i + 2;
      }
      forall j | 0 <= j < len ensures buf[j] == Crypt(start, s)[j] {
        CryptBytes(start, s, j);
      }
    }

    /** The data is enciphered; the caller appends the trailer. */
    method EncodeBuffer(buf: array<bv8>, len: nat, seed: bv32)
      requires len <= buf.Length
      modifies this, buf
      ensures buf[..len] == Crypt(Ready(seed), old(buf[..len])) && buf[len..] == old(buf[len..])
    {
      Prepare(seed);
      Apply(buf, len);
    }

    /** The seed comes from the last four bytes. */
    method DecodeBuffer(buf: array<bv8>)
      requires buf.Length >= 4
      modifies this, buf
      ensures buf[..buf.Length - 4] == Opened(old(buf[..]))
    {
      hide Word, Ready, Crypt;
      var n := buf.Length - 4;
      var tail := Word(buf[n..]);
      assert buf[..][n..] == buf[n..] && buf[..][..n] == buf[..n];
      Prepare(tail ^ Magic);
      Apply(buf, n);
    }
  }

  function XorLow(b: bv8, w: bv32): bv8 {
    b ^ LowByte(w)
  }

  /** Byte j after enciphering. */
  function CryptAt(r: Rng, s: seq<bv8>, j: nat): bv8
    requires j < |s|
  {
    if j % 2 == 0 then XorLow(s[j], Out(After(r, j / 2))) else s[j]
  }

  lemma AfterSnoc(r: Rng, n: nat)
    ensures After(r, n + 1) == Next(After(r, n))
    decreases n
  {
    hide Next;
    if n > 0 {
      AfterSnoc(Next(r), n - 1);
    }
  }

  /** Every other byte, beginning with the first, is xor-ed with one output each. */
  lemma {:induction false} CryptBytes(r: Rng, s: seq<bv8>, j: nat)
    requires j < |s|
    ensures Crypt(r, s)[j] == CryptAt(r, s, j)
    decreases j
  {
    hide Next, Out, LowByte;
    if j >= 2 {
      CryptBytes(Next(r), s[2..], j - 2);
      assert s[2..][j - 2] == s[j];
      assert (j - 2) / 2 + 1 == j / 2 && (j - 2) % 2 == j % 2;
      assert Crypt(r, s)[j] == Crypt(Next(r), s[2..])[j - 2];
    }
  }
}
