/** The SGR container (tools/sgr_repack.c, tools/sgr_extract.c and their _old forms, whose entries have
    no type byte): three header strings, then entries with individually enciphered data. Compression
    is not modelled. */
module SgrArchive {
  import opened Basics
  import opened BitFields
  import opened SgrCipher

  /** An entry of the old format has kind 0. */
  datatype Entry = Entry(name: seq<bv8>, kind: bv8, data: seq<bv8>)

  // ----- numbers, most significant byte first -----

  function Be16(n: nat): (s: seq<bv8>)
    ensures |s| == 2
  {
    [Bits8(n / 0x100), Bits8(n)]
  }

  function Be32(n: nat): (s: seq<bv8>)
    ensures |s| == 4
  {
    Be16(n / 0x1_0000) + Be16(n)
  }

  function From16(s: seq<bv8>): nat
    requires |s| == 2
  {
    Nat8(s[0]) * 0x100 + Nat8(s[1])
  }

  function From32(s: seq<bv8>): nat
    requires |s| == 4
  {
    From16(s[..2]) * 0x1_0000 + From16(s[2..])
  }

  lemma Back16(n: nat)
    ensures From16(Be16(n)) == n % 0x1_0000
  {
    hide Nat8, Bits8;
  }

  lemma Back32(n: nat)
    requires n < 0x1_0000_0000
    ensures From32(Be32(n)) == n
  {
    hide From16, Be16;
    Back16(n / 0x1_0000);
    Back16(n);
    assert Be32(n)[..2] == Be16(n / 0x1_0000) && Be32(n)[2..] == Be16(n);
  }

  // ----- building -----

  function Str(s: seq<bv8>): seq<bv8> {
    Be16(|s|) + s
  }

  function EntryBytes(legacy: bool, e: Entry, seed: bv32): seq<bv8> {
    Str(e.name) + (if legacy then [] else [e.kind]) + Be32(|e.data| + 4) + Sealed(e.data, seed)
  }

  function Entries(legacy: bool, es: seq<Entry>, seeds: seq<bv32>): seq<bv8>
    requires |es| == |seeds|
  {
    if es == [] then [] else EntryBytes(legacy, es[0], seeds[0]) + Entries(legacy, es[1..], seeds[1..])
  }

  datatype Header = Header(title: seq<bv8>, dev: seq<bv8>, root: seq<bv8>)

  function HeaderBytes(h: Header): seq<bv8> {
    Str(h.title) + Str(h.dev) + Str(h.root)
  }

  function Archive(legacy: bool, h: Header, es: seq<Entry>, seeds: seq<bv32>): seq<bv8>
    requires |es| == |seeds|
  {
    HeaderBytes(h) + Entries(legacy, es, seeds)
  }

  // ----- parsing -----

  /** A header string; only 255 bytes of it are kept. None when the program would read past the end. */
  function ReadStr(s: seq<bv8>): Option<(seq<bv8>, seq<bv8>)> {
    if |s| < 2 then None else
      var n := From16(s[..2]);
      if 2 + n > |s| then None else Some((s[2..2 + (if n < 255 then n else 255)], s[2 + n..]))
  }

  function HeadSize(legacy: bool): nat {
    if legacy then 4 else 5
  }

  /** Data of four bytes or less is not deciphered. */
  function Payload(s: seq<bv8>): seq<bv8> {
    if |s| > 4 then Opened(s) else s
  }

  /** The entry at the front, and what follows it; None ends the list. */
  function ReadEntry(legacy: bool, s: seq<bv8>): Option<(Entry, seq<bv8>)> {
    if |s| <= HeadSize(legacy) + 2 then None else
      var n := From16(s[..2]);
      if n == 0 || n > 2000 || 2 + n + HeadSize(legacy) > |s| then None else
        var p := 2 + n + HeadSize(legacy) - 4;
        var size := From32(s[p..p + 4]);
        if p + 4 + size > |s| then None else
          Some((Entry(s[2..2 + n], if legacy then 0 else s[2 + n], Payload(s[p + 4..p + 4 + size])), s[p + 4 + size..]))
  }

  function ReadEntries(legacy: bool, s: seq<bv8>): seq<Entry>
    decreases |s|
  {
    var e := ReadEntry(legacy, s);
    if e.None? then [] else [e.value.0] + ReadEntries(legacy, e.value.1)
  }

  function ReadHeader(s: seq<bv8>): Option<(Header, seq<bv8>)> {
    var a := ReadStr(s);
    if a.None? then None else
      var b := ReadStr(a.value.1);
      if b.None? then None else
        var c := ReadStr(b.value.1);
        if c.None? then None else Some((Header(a.value.0, b.value.0, c.value.0), c.value.1))
  }

  function Parse(legacy: bool, s: seq<bv8>): Option<(Header, seq<Entry>)> {
    var h := ReadHeader(s);
    if h.None? then None else Some((h.value.0, ReadEntries(legacy, h.value.1)))
  }

  // ----- the round trip -----

  predicate Fits(e: Entry) {
    1 <= |e.name| <= 2000 && |e.data| + 4 < 0x1_0000_0000
  }

  /** What comes back for an entry: its data, except that empty data comes back as its own trailer. */
  function Recovered(legacy: bool, e: Entry, seed: bv32): Entry {
    Entry(e.name, if legacy then 0 else e.kind, if e.data == [] then Bytes(seed ^ Magic) else e.data)
  }

  function AllRecovered(legacy: bool, es: seq<Entry>, seeds: seq<bv32>): (r: seq<Entry>)
    requires |es| == |seeds|
    ensures |r| == |es| && forall k :: 0 <= k < |es| ==> r[k] == Recovered(legacy, es[k], seeds[k])
  {
    seq(|es|, k requires 0 <= k < |es| => Recovered(legacy, es[k], seeds[k]))
  }

  lemma StrReads(s: seq<bv8>, rest: seq<bv8>)
    requires |s| <= 255
    ensures ReadStr(Str(s) + rest) == Some((s, rest))
  {
    hide From16, Be16;
    Back16(|s|);
    var t := Str(s) + rest;
    assert t[..2] == Be16(|s|) && t[2..2 + |s|] == s && t[2 + |s|..] == rest;
  }

  lemma HeaderReads(h: Header, rest: seq<bv8>)
    requires |h.title| <= 255 && |h.dev| <= 255 && |h.root| <= 255
    ensures ReadHeader(HeaderBytes(h) + rest) == Some((h, rest))
  {
    hide Str, ReadStr;
    var t2 := Str(h.root) + rest;
    var t1 := Str(h.dev) + t2;
    assert HeaderBytes(h) + rest == Str(h.title) + t1;
    StrReads(h.title, t1);
    StrReads(h.dev, t2);
    StrReads(h.root, rest);
  }

  lemma PayloadReads(data: seq<bv8>, seed: bv32)
    ensures Payload(Sealed(data, seed)) == if data == [] then Bytes(seed ^ Magic) else data
  {
    hide Opened, Ready, Bytes;
    if data == [] {
      assert Crypt(Ready(seed), []) == [];
      assert Sealed(data, seed) == Bytes(seed ^ Magic);
    } else {
      SealOpens(data, seed);
    }
  }

  lemma EntryReads(legacy: bool, e: Entry, seed: bv32, rest: seq<bv8>)
    requires Fits(e)
    ensures ReadEntry(legacy, EntryBytes(legacy, e, seed) + rest) == Some((Recovered(legacy, e, seed), rest))
  {
    hide From16, From32, Be16, Be32, Sealed, Payload, Bytes, ReadEntry, EntryBytes;
    var n, size := |e.name|, |e.data| + 4;
    var kind := if legacy then [] else [e.kind];
    var sealed := Sealed(e.data, seed);
    var s := EntryBytes(legacy, e, seed) + rest;
    var p := 2 + n + |kind|;
    Back16(n);
    Back32(size);
    EntryParts(legacy, e, seed, rest, kind);
    Parts([], Be16(n), e.name + (kind + (Be32(size) + (sealed + rest))));
    Parts(Be16(n), e.name, kind + (Be32(size) + (sealed + rest)));
    Parts(Be16(n) + e.name, kind, Be32(size) + (sealed + rest));
    Parts(Be16(n) + e.name + kind, Be32(size), sealed + rest);
    Parts(Be16(n) + e.name + kind + Be32(size), sealed, rest);
    assert !legacy ==> s[2 + n] == s[2 + n..p][0];
    ReadParts(legacy, s, e.name, sealed, rest);
    PayloadReads(e.data, seed);
  }

  lemma ReadParts(legacy: bool, s: seq<bv8>, name: seq<bv8>, payload: seq<bv8>, rest: seq<bv8>)
    requires 1 <= |name| <= 2000 && |payload| >= 4
    requires
      var n, p := |name|, 2 + |name| + HeadSize(legacy) - 4;
      && |s| == p + 4 + |payload| + |rest|
      && From16(s[..2]) == n && s[2..2 + n] == name
      && From32(s[p..p + 4]) == |payload| && s[p + 4..p + 4 + |payload|] == payload && s[p + 4 + |payload|..] == rest
    ensures ReadEntry(legacy, s) == Some((Entry(name, if legacy then 0 else s[2 + |name|], Payload(payload)), rest))
  {
    hide From16, From32, Payload;
  }

  lemma Parts(a: seq<bv8>, b: seq<bv8>, c: seq<bv8>)
    ensures (a + b + c)[|a|..|a| + |b|] == b && (a + b + c)[|a| + |b|..] == c
  {
  }

  /** The same bytes, cut after each field. */
  lemma EntryParts(legacy: bool, e: Entry, seed: bv32, rest: seq<bv8>, kind: seq<bv8>)
    requires kind == if legacy then [] else [e.kind]
    ensures
      var s := EntryBytes(legacy, e, seed) + rest;
      var n, size, sealed := Be16(|e.name|), Be32(|e.data| + 4), Sealed(e.data, seed);
      && s == [] + n + (e.name + (kind + (size + (sealed + rest))))
      && s == n + e.name + (kind + (size + (sealed + rest)))
      && s == n + e.name + kind + (size + (sealed + rest))
      && s == n + e.name + kind + size + (sealed + rest)
      && s == n + e.name + kind + size + sealed + rest
  {
    hide Be16, Be32, Sealed;
  }

  lemma {:induction false} EntriesRead(legacy: bool, es: seq<Entry>, seeds: seq<bv32>)
    requires |es| == |seeds| && forall k :: 0 <= k < |es| ==> Fits(es[k])
    ensures ReadEntries(legacy, Entries(legacy, es, seeds)) == AllRecovered(legacy, es, seeds)
    decreases |es|
  {
    hide EntryBytes, ReadEntry, Recovered;
    if es == [] {
      NothingRead(legacy);
    } else {
      EntryReads(legacy, es[0], seeds[0], Entries(legacy, es[1..], seeds[1..]));
      EntriesRead(legacy, es[1..], seeds[1..]);
      assert AllRecovered(legacy, es, seeds) == [Recovered(legacy, es[0], seeds[0])] + AllRecovered(legacy, es[1..], seeds[1..]);
    }
  }

  lemma NothingRead(legacy: bool)
    ensures ReadEntry(legacy, []) == None
  {
  }

  /** For any names, types, data and seeds, in either format, parsing what was built gives back the
      header and every entry in order; an entry's data is its own exactly when it is not empty. */
  lemma ArchiveRoundTrip(legacy: bool, h: Header, es: seq<Entry>, seeds: seq<bv32>)
    requires |es| == |seeds| && forall k :: 0 <= k < |es| ==> Fits(es[k])
    requires |h.title| <= 255 && |h.dev| <= 255 && |h.root| <= 255
    ensures var r := Parse(legacy, Archive(legacy, h, es, seeds));
      && r.Some? && r.value.0 == h && |r.value.1| == |es|
      && forall k :: 0 <= k < |es| ==>
        && r.value.1[k].name == es[k].name && (!legacy ==> r.value.1[k].kind == es[k].kind)
        && (r.value.1[k].data == es[k].data <==> es[k].data != [])
  {
    hide Entries, ReadEntries, ReadHeader, HeaderBytes, Bytes;
    HeaderReads(h, Entries(legacy, es, seeds));
    EntriesRead(legacy, es, seeds);
  }

  // ----- the programs -----

  /** A buffer that doubles. */
  class Buf {
    var data: array<bv8>
    var len: nat

    ghost predicate Valid()
      reads this
    {
      len <= data.Length && data.Length > 0
    }

    ghost function Contents(): seq<bv8>
      reads this, data
      requires Valid()
    {
      data[..len]
    }

    constructor ()
      ensures Valid() && Contents() == [] && fresh(data)
    {
      data := new bv8[0x10_0000];
      len := 0;
    }

    method Ensure(need: nat)
      requires Valid()
      modifies this
      ensures Valid() && Contents() == old(Contents()) && len == old(len) && len + need <= data.Length
      ensures data == old(data) || fresh(data)
    {
      while len + need > data.Length
        invariant Valid() && Contents() == old(Contents()) && len == old(len)
        invariant data == old(data) || fresh(data)
        decreases len + need - data.Length
      {
        var was, n := data, len;
        var bigger := new bv8[2 * data.Length](i requires 0 <= i reads was => if i < was.Length then was[i] else 0);
        assert bigger[..n] == was[..n];
        data := bigger;
      }
    }

    method Append(src: seq<bv8>)
      requires Valid()
      modifies this, data
      ensures Valid() && Contents() == old(Contents()) + src
      ensures data == old(data) || fresh(data)
    {
      Ensure(|src|);
      ghost var front := Contents();
      for i := 0 to |src|
        invariant Valid() && len + |src| <= data.Length && (data == old(data) || fresh(data))
        invariant data[..len + i] == front + src[..i]
        invariant len == old(len)
      {
        data[len + i] := src[i];
        assert data[..len + i + 1] == data[..len + i] + [src[i]];
        assert src[..i + 1] == src[..i] + [src[i]];
      }
      assert src[..|src|] == src;
      len := len + |src|;
    }
  }

  /** The loop of the repackers; the random seeds are given. */
  method Repack(legacy: bool, h: Header, es: seq<Entry>, seeds: seq<bv32>) returns (b: Buf)
    requires |es| == |seeds|
    ensures b.Valid() && b.Contents() == Archive(legacy, h, es, seeds)
  {
    hide EntryBytes, Str, Entries;
    b := new Buf();
    b.Append(Str(h.title));
    b.Append(Str(h.dev));
    b.Append(Str(h.root));
    var sugar := new Sugar();
    assert es[0..] == es && seeds[0..] == seeds;
    for i := 0 to |es|
      invariant b.Valid() && fresh(b) && fresh(b.data) && fresh(sugar)
      invariant b.Contents() + Entries(legacy, es[i..], seeds[i..]) == Archive(legacy, h, es, seeds)
    {
      EntriesStep(b.Contents(), legacy, es, seeds, i);
      RepackEntry(b, sugar, legacy, es[i], seeds[i]);
    }
    EntriesNone(b.Contents(), legacy, es[|es|..], seeds[|es|..]);
  }

  lemma EntriesStep(c: seq<bv8>, legacy: bool, es: seq<Entry>, seeds: seq<bv32>, i: nat)
    requires i < |es| == |seeds|
    ensures c + Entries(legacy, es[i..], seeds[i..]) ==
            c + EntryBytes(legacy, es[i], seeds[i]) + Entries(legacy, es[i + 1..], seeds[i + 1..])
  {
    hide EntryBytes;
    assert es[i..][1..] == es[i + 1..] && seeds[i..][1..] == seeds[i + 1..];
  }

  lemma EntriesNone(c: seq<bv8>, legacy: bool, es: seq<Entry>, seeds: seq<bv32>)
    requires es == [] && seeds == []
    ensures c + Entries(legacy, es, seeds) == c
  {
  }

  method RepackEntry(b: Buf, sugar: Sugar, legacy: bool, e: Entry, seed: bv32)
    requires b.Valid()
    modifies b, b.data, sugar
    ensures b.Valid() && (b.data == old(b.data) || fresh(b.data))
    ensures b.Contents() == old(b.Contents()) + EntryBytes(legacy, e, seed)
  {
    hide Be16, Be32, Ready, Bytes, Crypt;
    var enc := Encipher(sugar, e.data, seed);
    var kind := if legacy then [] else [e.kind];
    EntryGlue(b.Contents(), legacy, e, seed, kind);
    b.Append(Str(e.name));
    b.Append(kind);
    b.Append(Be32(|e.data| + 4));
    b.Append(enc);
    b.Append(Bytes(seed ^ Magic));
  }

  lemma EntryGlue(c: seq<bv8>, legacy: bool, e: Entry, seed: bv32, kind: seq<bv8>)
    requires kind == if legacy then [] else [e.kind]
    ensures c + Str(e.name) + kind + Be32(|e.data| + 4) + Crypt(Ready(seed), e.data) + Bytes(seed ^ Magic) ==
            c + EntryBytes(legacy, e, seed)
  {
    hide Be16, Be32, Ready, Bytes, Crypt, Str;
  }

  method Encipher(sugar: Sugar, data: seq<bv8>, seed: bv32) returns (enc: seq<bv8>)
    modifies sugar
    ensures enc == Crypt(Ready(seed), data)
  {
    hide Ready, Crypt;
    var n := |data|;
    var buf := new bv8[n](i requires 0 <= i < n => data[i]);
    assert buf[..n] == data;
    sugar.EncodeBuffer(buf, n, seed);
    enc := buf[..n];
  }

  /** The entry at a position, in terms of the whole data. */
  lemma EntryAt(legacy: bool, s: seq<bv8>, pos: nat)
    requires pos + HeadSize(legacy) + 2 < |s|
    ensures var n := From16(s[pos..pos + 2]);
      var q := pos + 2 + n + HeadSize(legacy) - 4;
      if n == 0 || n > 2000 || q + 4 > |s| || q + 4 + From32(s[q..q + 4]) > |s| then ReadEntry(legacy, s[pos..]) == None
      else
        var end := q + 4 + From32(s[q..q + 4]);
        ReadEntry(legacy, s[pos..]) ==
        Some((Entry(s[pos + 2..pos + 2 + n], if legacy then 0 else s[pos + 2 + n], Payload(s[q + 4..end])), s[end..]))
  {
    hide From16, From32, Payload;
    var rest := s[pos..];
    var n := From16(s[pos..pos + 2]);
    var q := pos + 2 + n + HeadSize(legacy) - 4;
    assert rest[..2] == s[pos..pos + 2];
    if q + 4 <= |s| {
      assert rest[q - pos..q - pos + 4] == s[q..q + 4];
      var size := From32(s[q..q + 4]);
      if q + 4 + size <= |s| {
        assert rest[2..2 + n] == s[pos + 2..pos + 2 + n];
        assert rest[q + 4 - pos..q + 4 - pos + size] == s[q + 4..q + 4 + size];
        assert rest[q + 4 - pos + size..] == s[q + 4 + size..];
      }
    }
  }

  /** The loop of the extractors. */
  method Extract(legacy: bool, s: seq<bv8>, start: nat) returns (es: seq<Entry>)
    requires start <= |s|
    ensures es == ReadEntries(legacy, s[start..])
  {
    hide From16, From32, Payload, ReadEntry;
    es := [];
    var pos := start;
    while pos + HeadSize(legacy) + 2 < |s|
      invariant start <= pos <= |s| && es + ReadEntries(legacy, s[pos..]) == ReadEntries(legacy, s[start..])
      decreases |s| - pos
    {
      EntryAt(legacy, s, pos);
      var n := From16(s[pos..pos + 2]);
      if n == 0 || n > 2000 || pos + 2 + n + HeadSize(legacy) > |s| {
        assert es + [] == es;
        return;
      }
      var q := pos + 2 + n + HeadSize(legacy) - 4;
      var size := From32(s[q..q + 4]);
      if q + 4 + size > |s| {
        assert es + [] == es;
        return;
      }
      var data := Decipher(s[q + 4..q + 4 + size]);
      var e := Entry(s[pos + 2..pos + 2 + n], if legacy then 0 else s[pos + 2 + n], data);
      assert es + ([e] + ReadEntries(legacy, s[q + 4 + size..])) == es + [e] + ReadEntries(legacy, s[q + 4 + size..]);
      es := es + [e];
      pos := q + 4 + size;
    }
    TooShort(legacy, s[pos..]);
    assert es + [] == es;
  }

  lemma TooShort(legacy: bool, s: seq<bv8>)
    requires |s| <= HeadSize(legacy) + 2
    ensures ReadEntry(legacy, s) == None
  {
  }

  method Decipher(s: seq<bv8>) returns (data: seq<bv8>)
    ensures data == Payload(s)
  {
    hide Opened;
    if |s| <= 4 {
      return s;
    }
    var n := |s|;
    var buf := new bv8[n](i requires 0 <= i < n => s[i]);
    assert buf[..] == s;
    var sugar := new Sugar();
    sugar.DecodeBuffer(buf);
    data := buf[..n - 4];
  }

  /** The whole extractor after decompression. */
  method Unpack(legacy: bool, s: seq<bv8>) returns (r: Option<(Header, seq<Entry>)>)
    ensures r == Parse(legacy, s)
  {
    hide ReadEntries, ReadStr;
    var h := ReadHeader(s);
    if h.None? {
      return None;
    }
    HeaderSuffix(s);
    var es := Extract(legacy, s, |s| - |h.value.1|);
    r := Some((h.value.0, es));
  }

  lemma HeaderSuffix(s: seq<bv8>)
    requires ReadHeader(s).Some?
    ensures var rest := ReadHeader(s).value.1; |rest| <= |s| && s[|s| - |rest|..] == rest
  {
    hide ReadStr;
    StrSuffix(s);
    var t := ReadStr(s).value.1;
    StrSuffix(t);
    StrSuffix(ReadStr(t).value.1);
  }

  lemma StrSuffix(s: seq<bv8>)
    ensures ReadStr(s).Some? ==> var rest := ReadStr(s).value.1; |rest| <= |s| && s[|s| - |rest|..] == rest
  {
  }
}
