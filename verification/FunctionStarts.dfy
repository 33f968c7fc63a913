/** LC_FUNCTION_STARTS: deltas as ULEB128 numbers, ended by a zero. The decoder of src/trampoline.c and
    the ones of tools/sword3_audit.py and tools/recover_sdl.py. */
module FunctionStarts {
  import opened Basics
  import opened Leb128

  /** The table a linker writes for these addresses. */
  function Encode(xs: seq<nat>, from: nat): seq<Byte>
    requires Rising(xs, from)
  {
    if xs == [] then PutU(0) else PutU(xs[0] - from) + Encode(xs[1..], xs[0])
  }

  /** Strictly increasing, starting above `from`. */
  predicate Rising(xs: seq<nat>, from: nat) {
    xs != [] ==> xs[0] > from && Rising(xs[1..], xs[0])
  }

  // ----- src/trampoline.c -----

  /** A number longer than ten bytes or cut short is malformed, a delta past the end of the address space
      is an overflow. */
  function Decode(s: seq<Byte>, from: nat): Option<seq<nat>>
    decreases |s|
  {
    if s == [] then Some([])
    else if !(Terminated(s) && Len(s) <= 10) then None
    else
      var delta := U(s) % TWO64;
      if delta == 0 then Some([])
      else if delta > TWO64 - 1 - from then None
      else
        var rest := Decode(s[Len(s)..], from + delta);
        if rest.None? then None else Some([from + delta] + rest.value)
  }

  method DecodeStarts(data: seq<Byte>, text: nat) returns (r: Option<seq<nat>>)
    requires text < TWO64
    ensures r == match Decode(data, text) case None => None case Some(xs) => if xs == [] then None else Some(xs)
  {
    hide U, Len, Terminated;
    var starts: seq<nat>, current: nat, offset: nat := [], text, 0;
    assert data[0..] == data;
    PrefixNone(Decode(data, text));
    while offset < |data|
      invariant 0 <= offset <= |data| && current < TWO64
      invariant Decode(data, text) == Prefix(starts, Decode(data[offset..], current))
      decreases |data| - offset
    {
      var delta, next, ok := ReadDelta(data, offset);
      if !ok {
        return None;
      }
      assert data[offset..][Len(data[offset..])..] == data[next..];
      if delta == 0 {
        break;
      }
      if delta > TWO64 - 1 - current {
        return None;
      }
      PrefixMore(starts, current + delta, Decode(data[next..], current + delta));
      current := current + delta;
      starts := starts + [current];
      offset := next;
    }
    assert starts + [] == starts;
    r := if starts == [] then None else Some(starts);
  }

  function Prefix(xs: seq<nat>, r: Option<seq<nat>>): Option<seq<nat>> {
    if r.None? then None else Some(xs + r.value)
  }

  lemma PrefixNone(r: Option<seq<nat>>)
    ensures Prefix([], r) == r
  {
    if r.Some? {
      assert [] + r.value == r.value;
    }
  }

  lemma PrefixMore(xs: seq<nat>, x: nat, r: Option<seq<nat>>)
    ensures Prefix(xs + [x], r) == Prefix(xs, Prefix([x], r))
  {
    if r.Some? {
      assert xs + [x] + r.value == xs + ([x] + r.value);
    }
  }

  /** One delta; it fails when the data ends or an eleventh byte would be read. */
  method ReadDelta(data: seq<Byte>, at: nat) returns (delta: nat, next: nat, ok: bool)
    requires at < |data|
    ensures ok == (Terminated(data[at..]) && Len(data[at..]) <= 10)
    ensures ok ==> delta == U(data[at..]) % TWO64 && at < next == at + Len(data[at..]) <= |data|
  {
    hide U, Len;
    var shift := 0;
    delta, next := 0, at;
    var scale := 1;
    ghost var sum := 0;
    ghost var whole, length := U(data[at..]), Len(data[at..]);
    var byte: Byte := 0x80;
    assert data[at..|data|] == data[at..];
    while byte >= 0x80
      invariant at <= next <= |data| && shift == 7 * (next - at) && shift <= 70 && delta == sum % TWO64
      invariant byte >= 0x80 ==> whole == sum + scale * U(data[next..|data|]) && at + length == next + Len(data[next..|data|])
      invariant byte < 0x80 ==> whole == sum && at + length == next > at && data[next - 1] == byte
      invariant byte >= 0x80 && next > at ==> data[next - 1] == byte
      decreases |data| - next, byte
    {
      if next >= |data| || shift >= 64 {
        CutShort(data, at, next);
        return delta, next, false;
      }
      DigitStep(data, next, |data|, scale);
      byte := data[next];
      var digit := byte % 0x80 * scale;
      ModAdd(sum, digit);
      delta := (delta + digit) % TWO64;
      sum := sum + digit;
      scale := scale * 0x80;
      next := next + 1;
      shift := shift + 7;
    }
    ok := true;
    assert data[at..][length - 1] == data[next - 1];
  }

  // ----- the Python decoders -----

  /** Deltas are not reduced, and running out of data without a zero is reported. */
  function PyDecode(s: seq<Byte>, from: nat): Option<(seq<nat>, bool)>
    decreases |s|
  {
    if s == [] then Some(([], false)) else
      var delta := PyUleb(s);
      if delta.None? then None
      else if delta.value == 0 then Some(([], true))
      else
        var rest := PyDecode(s[Len(s)..], from + delta.value);
        if rest.None? then None else Some(([from + delta.value] + rest.value.0, rest.value.1))
  }

  // ----- results -----

  /** Every strictly increasing list of addresses comes back, from all decoders. */
  lemma {:induction false} StartsRoundTrip(xs: seq<nat>, from: nat, padding: seq<Byte>)
    requires Rising(xs, from) && (xs != [] ==> xs[|xs| - 1] < TWO64) && from < TWO64
    ensures Decode(Encode(xs, from) + padding, from) == Some(xs)
    ensures PyDecode(Encode(xs, from) + padding, from) == Some((xs, true))
    decreases |xs|
  {
    hide U, Len, PutU, Terminated, PyUleb;
    if xs == [] {
      FrontNumber(0, padding);
    } else {
      var delta := xs[0] - from;
      var rest := Encode(xs[1..], xs[0]) + padding;
      RisingLast(xs, from);
      assert Encode(xs, from) + padding == PutU(delta) + rest;
      FrontNumber(delta, rest);
      StartsRoundTrip(xs[1..], xs[0], padding);
      assert [xs[0]] + xs[1..] == xs;
    }
  }

  lemma FrontNumber(v: nat, rest: seq<Byte>)
    requires v < TWO64
    ensures var s := PutU(v) + rest;
      s != [] && Terminated(s) && Len(s) <= 10 && U(s) % TWO64 == v && s[Len(s)..] == rest && PyUleb(s) == Some(v)
  {
    hide U, Len, PutU, Terminated, PyUleb;
    UnsignedReaders(v, rest);
    UnsignedRoundTrip(v, rest);
    PutTerminated(v, rest);
  }

  lemma {:induction false} RisingLast(xs: seq<nat>, from: nat)
    requires Rising(xs, from) && xs != []
    ensures from < xs[0] <= xs[|xs| - 1]
    decreases |xs|
  {
    if |xs| > 1 {
      RisingLast(xs[1..], xs[0]);
    }
  }

  /** On any data at all, what the C decoder accepts is strictly increasing and within the address space. */
  lemma {:induction false} DecodedRises(s: seq<Byte>, from: nat)
    requires from < TWO64 && Decode(s, from).Some?
    ensures Rising(Decode(s, from).value, from) && forall k :: 0 <= k < |Decode(s, from).value| ==> Decode(s, from).value[k] < TWO64
    decreases |s|
  {
    if s != [] && U(s) % TWO64 != 0 {
      DecodedRises(s[Len(s)..], from + U(s) % TWO64);
      var rest := Decode(s[Len(s)..], from + U(s) % TWO64).value;
      assert ([from + U(s) % TWO64] + rest)[1..] == rest;
    }
  }

  /** Whenever the Python decoder's addresses all fit in 64 bits, the C decoder finds the same ones. */
  lemma {:induction false} DecodersAgree(s: seq<Byte>, from: nat)
    requires PyDecode(s, from).Some? && from < TWO64
    requires forall k :: 0 <= k < |PyDecode(s, from).value.0| ==> PyDecode(s, from).value.0[k] < TWO64
    ensures Decode(s, from) == Some(PyDecode(s, from).value.0)
    decreases |s|
  {
    hide U, Len, Terminated, PyUleb;
    if s != [] {
      PyNumber(s);
      var delta := PyUleb(s).value;
      if delta != 0 {
        var xs, rest := PyDecode(s, from).value.0, PyDecode(s[Len(s)..], from + delta).value.0;
        assert xs == [from + delta] + rest;
        assert xs[0] < TWO64;
        forall k | 0 <= k < |rest| ensures rest[k] < TWO64 {
          assert xs[k + 1] == rest[k];
        }
        SmallDelta(delta, from);
        DecodersAgree(s[Len(s)..], from + delta);
      }
    }
  }

  lemma PyNumber(s: seq<Byte>)
    requires PyUleb(s).Some?
    ensures Terminated(s) && Len(s) <= 10 && U(s) == PyUleb(s).value
  {
  }

  lemma SmallDelta(delta: nat, from: nat)
    requires from + delta < TWO64
    ensures delta % TWO64 == delta
  {
  }
}
