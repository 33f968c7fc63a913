/** LEB128 numbers (section 7.6 of DWARF 5): the writers of src/eh_frame.c and the readers of
    src/eh_frame.c, src/resolver.c, src/trampoline.c and tools/sword3_audit.py. */
module Leb128 {
  import opened Basics

  type Byte = b: int | 0 <= b < 0x100

  const TWO62: int := 0x4000_0000_0000_0000
  const TWO63: int := 0x8000_0000_0000_0000
  const TWO64: int := 0x1_0000_0000_0000_0000
  const TWO70: int := 0x40_0000_0000_0000_0000

  function StrLen(s: seq<Byte>): (n: nat)
    ensures n <= |s|
    ensures forall k :: 0 <= k < n ==> s[k] != 0
    ensures n < |s| ==> s[n] == 0
  {
    if s == [] || s[0] == 0 then 0 else 1 + StrLen(s[1..])
  }

  // ----- writing -----

  function PutU(v: nat): (s: seq<Byte>)
    ensures |s| > 0
  {
    if v < 0x80 then [v] else [0x80 + v % 0x80] + PutU(v / 0x80)
  }

  function PutS(v: int): (s: seq<Byte>)
    ensures |s| > 0
    decreases if v < 0 then -v else v
  {
    if -0x40 <= v < 0x40 then [v % 0x80] else [0x80 + v % 0x80] + PutS(v / 0x80)
  }

  // ----- what the bytes mean -----

  /** Bytes of the number at the front of s. */
  function Len(s: seq<Byte>): (n: nat)
    ensures n <= |s|
  {
    if s == [] then 0 else if s[0] < 0x80 then 1 else 1 + Len(s[1..])
  }

  function U(s: seq<Byte>): nat {
    if s == [] then 0 else if s[0] < 0x80 then s[0] else s[0] - 0x80 + 0x80 * U(s[1..])
  }

  /** The signed reading; a number that breaks off takes its sign from its last byte. */
  function S(s: seq<Byte>): int {
    if s == [] then 0
    else if s[0] < 0x80 || |s| == 1 then
      var d := s[0] % 0x80;
      if d < 0x40 then d else d - 0x80
    else s[0] - 0x80 + 0x80 * S(s[1..])
  }

  /** Conversion to int64_t. */
  function Signed64(v: int): int {
    var r := v % TWO64;
    if r < TWO63 then r else r - TWO64
  }

  // ----- round trips -----

  lemma {:induction false} UnsignedRoundTrip(v: nat, rest: seq<Byte>)
    ensures U(PutU(v) + rest) == v && Len(PutU(v) + rest) == |PutU(v)|
    decreases v
  {
    if v >= 0x80 {
      UnsignedRoundTrip(v / 0x80, rest);
      assert (PutU(v) + rest)[1..] == PutU(v / 0x80) + rest;
    }
  }

  lemma {:induction false} SignedRoundTrip(v: int, rest: seq<Byte>)
    ensures S(PutS(v) + rest) == v && Len(PutS(v) + rest) == |PutS(v)|
    decreases if v < 0 then -v else v
  {
    if -0x40 <= v < 0x40 {
      OneByte(v, rest);
    } else {
      SignedRoundTrip(v / 0x80, rest);
      MoreBytes(0x80 + v % 0x80, PutS(v / 0x80) + rest);
      assert PutS(v) + rest == [0x80 + v % 0x80] + (PutS(v / 0x80) + rest);
      hide S, Len, PutS;
    }
  }

  lemma OneByte(v: int, rest: seq<Byte>)
    requires -0x40 <= v < 0x40
    ensures S([v % 0x80] + rest) == v && Len([v % 0x80] + rest) == 1
  {
  }

  lemma MoreBytes(b: Byte, t: seq<Byte>)
    requires b >= 0x80 && t != []
    ensures S([b] + t) == b - 0x80 + 0x80 * S(t) && Len([b] + t) == 1 + Len(t)
  {
    assert ([b] + t)[1..] == t;
  }

  function Power(n: nat): (r: int)
    ensures r > 0
  {
    if n == 0 then 1 else 0x80 * Power(n - 1)
  }

  /** How long a number gets. */
  lemma {:induction false} UnsignedLength(v: nat, n: nat)
    requires n > 0
    ensures |PutU(v)| <= n <==> v < Power(n)
    decreases n
  {
    if n > 1 && v >= 0x80 {
      UnsignedLength(v / 0x80, n - 1);
      DivideBelow(v, Power(n - 1));
    } else if n == 1 {
      assert Power(1) == 0x80 * Power(0);
    } else {
      PowerAtLeast(n);
    }
  }

  lemma PowerAtLeast(n: nat)
    requires n > 0
    ensures Power(n) >= 0x80
    decreases n
  {
    if n > 1 {
      PowerAtLeast(n - 1);
    }
  }

  lemma DivideBelow(v: int, p: int)
    ensures v / 0x80 < p <==> v < 0x80 * p
  {
  }

  lemma {:induction false} SignedLength(v: int, n: nat)
    requires n > 0
    ensures |PutS(v)| <= n <==> -0x40 * Power(n - 1) <= v < 0x40 * Power(n - 1)
    decreases n
  {
    if n > 1 && !(-0x40 <= v < 0x40) {
      SignedLength(v / 0x80, n - 1);
      DivideBelow(v, 0x40 * Power(n - 2));
      DivideBelow(v, -0x40 * Power(n - 2));
      assert 0x40 * Power(n - 1) == 0x80 * (0x40 * Power(n - 2));
    }
  }

  // ----- the C readers -----

  lemma Spread(scale: int, d: int, rest: int)
    ensures scale * (d + 0x80 * rest) == scale * d + (0x80 * scale) * rest
  {
  }

  lemma ModAdd(total: int, x: int)
    ensures (total % TWO64 + x) % TWO64 == (total + x) % TWO64
  {
    assert total == TWO64 * (total / TWO64) + total % TWO64;
    ModShift(total % TWO64 + x, total / TWO64);
  }

  lemma ModShift(x: int, q: int)
    ensures (x + TWO64 * q) % TWO64 == x % TWO64
  {
  }

  /** One byte read: its digit is added, and the rest counts for what follows only if there is more. */
  lemma DigitStep(data: seq<Byte>, next: nat, end: nat, scale: int)
    requires next < end <= |data|
    ensures var b := data[next];
      && scale * U(data[next..end]) == b % 0x80 * scale + (if b < 0x80 then 0 else scale * 0x80 * U(data[next + 1..end]))
      && Len(data[next..end]) == 1 + if b < 0x80 then 0 else Len(data[next + 1..end])
  {
    var rest := data[next..end];
    assert rest[1..] == data[next + 1..end];
    Spread(scale, rest[0] % 0x80, U(rest[1..]));
  }

  lemma Exhausted(data: seq<Byte>, end: nat, scale: int)
    requires end <= |data|
    ensures scale * U(data[end..end]) == 0 && Len(data[end..end]) == 0
  {
  }

  /** Every reader shifts the digits into a 64-bit word until a byte has no continuation bit or the
      input ends. `scale` is 1 << shift; the digits do not overlap, so | is +. */
  method ReadUleb(data: seq<Byte>, at: nat, end: nat) returns (v: nat, next: nat)
    requires at <= end <= |data|
    ensures v == U(data[at..end]) % TWO64 && next == at + Len(data[at..end])
  {
    hide U, Len;
    v, next := 0, at;
    var scale := 1;
    ghost var sum := 0;
    ghost var whole, length := U(data[at..end]), Len(data[at..end]);
    while next < end
      invariant at <= next <= end && v == sum % TWO64
      invariant whole == sum + scale * U(data[next..end]) && at + length == next + Len(data[next..end])
    {
      var byte := data[next];
      DigitStep(data, next, end, scale);
      var digit := byte % 0x80 * scale;
      ModAdd(sum, digit);
      v := (v + digit) % TWO64;
      sum := sum + digit;
      next := next + 1;
      if byte < 0x80 {
        return;
      }
      scale := scale * 0x80;
    }
    Exhausted(data, end, scale);
  }

  /** The sign bit is the one of the last byte read; it is extended only below bit 64. */
  method ReadSleb(data: seq<Byte>, at: nat, end: nat) returns (v: int, next: nat)
    requires at <= end <= |data|
    ensures Len(data[at..end]) <= 10 ==> v == Signed64(S(data[at..end]))
    ensures next == at + Len(data[at..end])
  {
    hide U, Len, S, Signed64, Power;
    var sum, shift, scale := 0, 0, 1;
    next := at;
    var byte: Byte := 0x80;
    ghost var all := data[at..end];
    PowerStep(0);
    while next < end && byte >= 0x80
      invariant at <= next <= end && shift == 7 * (next - at) && scale == Power(next - at)
      invariant next == at ==> byte == 0x80
      invariant next > at ==> byte == data[next - 1]
      invariant byte >= 0x80 ==> U(all) == sum + scale * U(data[next..end]) && at + Len(all) == next + Len(data[next..end])
      invariant byte < 0x80 ==> U(all) == sum && at + Len(all) == next
    {
      DigitStep(data, next, end, scale);
      PowerStep(next - at);
      byte := data[next];
      sum := sum + byte % 0x80 * scale;
      scale := scale * 0x80;
      shift := shift + 7;
      next := next + 1;
    }
    Exhausted(data, end, scale);
    v := Signed64(if shift < 64 && byte % 0x80 >= 0x40 then sum - scale else sum);
    if at < end {
      SignedFinish(all);
    } else {
      EmptySigned();
    }
  }

  lemma PowerStep(n: nat)
    ensures Power(0) == 1 && Power(n + 1) == Power(n) * 0x80
  {
  }

  lemma EmptySigned()
    ensures S([]) == 0
  {
  }

  lemma SignedFinish(all: seq<Byte>)
    requires all != []
    ensures Len(all) > 0
    ensures Len(all) <= 10 ==>
      Signed64(if 7 * Len(all) < 64 && all[Len(all) - 1] % 0x80 >= 0x40 then U(all) - Power(Len(all)) else U(all))
      == Signed64(S(all))
  {
    SignedDigits(all);
    if Len(all) == 10 {
      assert Power(10) == TWO70;
      WrapSeventy(U(all));
    }
  }

  lemma WrapSeventy(sum: int)
    ensures Signed64(sum - TWO70) == Signed64(sum)
  {
    ModShift(sum, -0x40);
  }

  // ----- the Python readers -----

  /** read_uleb of tools/sword3_audit.py: at most ten bytes, no reduction to 64 bits. */
  function PyUleb(s: seq<Byte>): Option<nat> {
    if Terminated(s) && Len(s) <= 10 then Some(U(s)) else None
  }

  method PyReadUleb(data: seq<Byte>, at: nat) returns (r: Option<nat>, next: nat)
    requires at <= |data|
    ensures r == PyUleb(data[at..]) && (r.Some? ==> next == at + Len(data[at..]))
    ensures at <= next <= |data|
  {
    hide U, Len;
    var value, shift, scale := 0, 0, 1;
    next := at;
    ghost var whole, length := U(data[at..]), Len(data[at..]);
    assert data[at..|data|] == data[at..];
    while next < |data|
      invariant at <= next <= |data| && shift == 7 * (next - at) < 70
      invariant whole == value + scale * U(data[next..|data|]) && at + length == next + Len(data[next..|data|])
      invariant next > at ==> data[next - 1] >= 0x80
    {
      DigitStep(data, next, |data|, scale);
      var byte := data[next];
      next := next + 1;
      value := value + byte % 0x80 * scale;
      if byte < 0x80 {
        assert data[at..][length - 1] == byte;
        return Some(value), next;
      }
      scale := scale * 0x80;
      shift := shift + 7;
      if shift >= 64 {
        CutShort(data, at, next);
        return None, next;
      }
    }
    CutShort(data, at, next);
    r := None;
  }

  /** The number goes on beyond what was read. */
  lemma CutShort(data: seq<Byte>, at: nat, next: nat)
    requires at <= next <= |data| && at + Len(data[at..]) == next + Len(data[next..|data|])
    requires next > at ==> data[next - 1] >= 0x80
    requires next == |data| || next - at >= 10
    ensures PyUleb(data[at..]) == None && PySleb(data[at..]) == None
  {
    var s := data[at..];
    assert data[next..|data|] == data[next..];
    if next < |data| {
      assert Len(data[next..]) >= 1;
    } else if Len(s) > 0 {
      assert s[Len(s) - 1] == data[next - 1];
    }
  }

  predicate Terminated(s: seq<Byte>) {
    Len(s) > 0 && s[Len(s) - 1] < 0x80
  }

  /** read_sleb of tools/sword3_audit.py extends the sign only when fewer than 64 bits were read, and
      its integers do not wrap. */
  function PySleb(s: seq<Byte>): Option<int> {
    if !(Terminated(s) && Len(s) <= 10) then None
    else if Len(s) < 10 then Some(S(s))
    else Some(U(s))
  }

  method PyReadSleb(data: seq<Byte>, at: nat) returns (r: Option<int>, next: nat)
    requires at <= |data|
    ensures r == PySleb(data[at..]) && (r.Some? ==> next == at + Len(data[at..]))
    ensures at <= next <= |data|
  {
    hide U, Len, S, Power;
    var value, shift, scale := 0, 0, 1;
    next := at;
    ghost var all := data[at..];
    assert data[at..|data|] == all;
    PowerStep(0);
    while next < |data|
      invariant at <= next <= |data| && shift == 7 * (next - at) < 70 && scale == Power(next - at)
      invariant U(all) == value + scale * U(data[next..|data|]) && at + Len(all) == next + Len(data[next..|data|])
      invariant next > at ==> data[next - 1] >= 0x80
    {
      DigitStep(data, next, |data|, scale);
      PowerStep(next - at);
      var byte := data[next];
      next := next + 1;
      value := value + byte % 0x80 * scale;
      scale := scale * 0x80;
      shift := shift + 7;
      if byte < 0x80 {
        assert all[Len(all) - 1] == byte;
        SignedDigits(all);
        if shift < 64 && byte >= 0x40 {
          value := value - scale;
        }
        return Some(value), next;
      }
      if shift >= 64 {
        CutShort(data, at, next);
        return None, next;
      }
    }
    CutShort(data, at, next);
    r := None;
  }

  lemma {:induction false} PutTerminated(v: nat, rest: seq<Byte>)
    ensures Terminated(PutU(v) + rest)
    decreases v
  {
    UnsignedRoundTrip(v, rest);
    if v >= 0x80 {
      PutTerminated(v / 0x80, rest);
      UnsignedRoundTrip(v / 0x80, rest);
      assert (PutU(v) + rest)[1..] == PutU(v / 0x80) + rest;
    }
  }

  lemma {:induction false} PutSTerminated(v: int, rest: seq<Byte>)
    ensures Terminated(PutS(v) + rest)
    decreases if v < 0 then -v else v
  {
    SignedRoundTrip(v, rest);
    if !(-0x40 <= v < 0x40) {
      PutSTerminated(v / 0x80, rest);
      SignedRoundTrip(v / 0x80, rest);
      assert (PutS(v) + rest)[1..] == PutS(v / 0x80) + rest;
    }
  }

  /** The signed and unsigned readings of the same digits. */
  lemma {:induction false} SignedDigits(s: seq<Byte>)
    requires s != []
    ensures Len(s) > 0 && S(s) == if s[Len(s) - 1] % 0x80 >= 0x40 then U(s) - Power(Len(s)) else U(s)
    decreases |s|
  {
    if s[0] >= 0x80 && |s| > 1 {
      assert s[1..][Len(s[1..]) - 1] == s[Len(s) - 1];
      SignedDigits(s[1..]);
    } else {
      assert Power(1) == 0x80 * Power(0);
    }
  }

  lemma {:induction false} UnsignedDigits(s: seq<Byte>)
    ensures U(s) < Power(Len(s))
    decreases |s|
  {
    if s != [] && s[0] >= 0x80 {
      UnsignedDigits(s[1..]);
    } else {
      assert Power(1) == 0x80 * Power(0);
    }
  }

  /** All readers give back every unsigned 64-bit number. */
  lemma UnsignedReaders(v: nat, rest: seq<Byte>)
    requires v < TWO64
    ensures U(PutU(v) + rest) % TWO64 == v && PyUleb(PutU(v) + rest) == Some(v) && |PutU(v)| <= 10
  {
    UnsignedRoundTrip(v, rest);
    PutTerminated(v, rest);
    UnsignedLength(v, 10);
    assert Power(10) == TWO70;
  }

  /** The C readers give back every signed 64-bit number; the Python one exactly those from -2^62 on,
      and below that a number 2^70 too large. */
  lemma SignedReaders(v: int, rest: seq<Byte>)
    requires -TWO63 <= v < TWO63
    ensures Signed64(S(PutS(v) + rest)) == v && |PutS(v)| <= 10
    ensures PySleb(PutS(v) + rest) == Some(if v < -TWO62 then v + TWO70 else v)
  {
    SignedRoundTrip(v, rest);
    PutSTerminated(v, rest);
    assert Power(8) == 0x100_0000_0000_0000 && Power(9) == TWO63 && Power(10) == TWO70;
    SignedLength(v, 10);
    SignedLength(v, 9);
    SignedDigits(PutS(v) + rest);
    UnsignedDigits(PutS(v) + rest);
  }

  // ----- digit by digit -----

  lemma DivideTwice(x: nat, p: int)
    requires p > 0
    ensures x / (0x80 * p) == x / 0x80 / p
  {
    var q, r := x / 0x80, x % 0x80;
    var h, m := q / p, q % p;
    assert x == 0x80 * q + r && q == p * h + m;
    assert x == (0x80 * p) * h + (0x80 * m + r) by {
      Spread(0x80, m, h);
      Regroup(p, h);
    }
    QuotientIs(x, 0x80 * p, h, 0x80 * m + r);
  }

  lemma Regroup(p: int, h: int)
    ensures 0x80 * (p * h) == (0x80 * p) * h
  {
  }

  lemma QuotientIs(x: int, d: int, q: int, r: int)
    requires d > 0 && 0 <= r < d && x == d * q + r
    ensures x / d == q
  {
    var e := x / d - q;
    assert d * e == r - x % d;
    if e >= 1 {
      AtLeast(d, e);
    } else if e <= -1 {
      AtLeast(d, -e);
    }
  }

  lemma AtLeast(d: int, e: int)
    requires d > 0 && e >= 1
    ensures d * e >= d
  {
  }

  /** A number's bytes carry its digits to the base 2^7, the lowest first, and all but the last say that
      more follow. */
  lemma {:induction false} Digits(s: seq<Byte>, k: nat)
    requires k < Len(s)
    ensures U(s) / Power(k) % 0x80 == s[k] % 0x80
    ensures U(s) < Power(Len(s))
    ensures k + 1 < Len(s) ==> s[k] >= 0x80
    ensures k + 1 == Len(s) ==> s[k] < 0x80 || Len(s) == |s|
    decreases k
  {
    hide Power;
    PowerStep(0);
    UnsignedDigits(s);
    if k > 0 {
      PowerStep(k - 1);
      Digits(s[1..], k - 1);
      assert U(s) / 0x80 == U(s[1..]);
      DivideTwice(U(s), Power(k - 1));
    }
  }

  /** Among them the numbers that section 7.6 of DWARF 5 gives as examples. */
  lemma Examples()
    ensures PutU(2) == [2] && PutU(127) == [127] && PutU(128) == [0x80, 1] && PutU(129) == [0x81, 1]
    ensures PutU(12857) == [57 + 0x80, 100] && U([57 + 0x80, 100]) == 12857
    ensures PutS(2) == [2] && PutS(-2) == [0x7e] && PutS(127) == [127 + 0x80, 0] && PutS(-127) == [1 + 0x80, 0x7f]
    ensures PutS(128) == [0x80, 1] && PutS(-128) == [0x80, 0x7f] && PutS(129) == [1 + 0x80, 1] && PutS(-129) == [0x7f + 0x80, 0x7e]
    ensures S([0x7e]) == -2 && S([0x80, 0x7f]) == -128 && S([0x7f + 0x80, 0x7e]) == -129
  {
    var t := [0x7f + 0x80, 0x7e];
    assert t[1..] == [0x7e];
    var u := [57 + 0x80, 100];
    assert u[1..] == [100];
    var w := [0x80, 0x7f];
    assert w[1..] == [0x7f];
  }
}
