/** Process memory byte by byte, and lists of writes to it. */
module ByteMemory {
  import opened Leb128

  type Memory = nat -> Byte

  datatype Write = Write(at: nat, bytes: seq<Byte>)

  function Put(mem: Memory, w: Write): Memory {
    (x: nat) => if w.at <= x < w.at + |w.bytes| then w.bytes[x - w.at] else mem(x)
  }

  function PutAll(mem: Memory, ws: seq<Write>): Memory {
    if ws == [] then mem else PutAll(Put(mem, ws[0]), ws[1..])
  }

  function Read(mem: Memory, a: nat, n: nat): (s: seq<Byte>)
    ensures |s| == n && forall i :: 0 <= i < n ==> s[i] == mem(a + i)
  {
    seq(n, i requires 0 <= i < n => mem(a + i))
  }

  predicate In(x: nat, w: Write) {
    w.at <= x < w.at + |w.bytes|
  }

  predicate Clear(a: Write, b: Write) {
    a.at + |a.bytes| <= b.at || b.at + |b.bytes| <= a.at
  }

  predicate Disjoint(ws: seq<Write>) {
    forall j, k :: 0 <= j < k < |ws| ==> Clear(ws[j], ws[k])
  }

  lemma {:induction false} PutAllAdd(mem: Memory, a: seq<Write>, b: seq<Write>)
    ensures PutAll(mem, a + b) == PutAll(PutAll(mem, a), b)
    decreases |a|
  {
    if a == [] {
      assert a + b == b;
    } else {
      assert (a + b)[1..] == a[1..] + b;
      PutAllAdd(Put(mem, a[0]), a[1..], b);
    }
  }

  /** A byte no write covers keeps its value. */
  lemma {:induction false} PutAllOutside(mem: Memory, ws: seq<Write>, x: nat)
    requires forall k :: 0 <= k < |ws| ==> !In(x, ws[k])
    ensures PutAll(mem, ws)(x) == mem(x)
    decreases |ws|
  {
    if ws != [] {
      assert !In(x, ws[0]);
      assert forall k :: 0 <= k < |ws[1..]| ==> ws[1..][k] == ws[k + 1];
      PutAllOutside(Put(mem, ws[0]), ws[1..], x);
    }
  }

  /** Of disjoint writes each one can be read back. */
  lemma {:induction false} PutAllReads(mem: Memory, ws: seq<Write>, k: nat)
    requires Disjoint(ws) && k < |ws|
    ensures Read(PutAll(mem, ws), ws[k].at, |ws[k].bytes|) == ws[k].bytes
    decreases k
  {
    var mem1 := Put(mem, ws[0]);
    if k > 0 {
      PutAllReads(mem1, ws[1..], k - 1);
    } else {
      forall i | 0 <= i < |ws[0].bytes| ensures PutAll(mem, ws)(ws[0].at + i) == ws[0].bytes[i] {
        forall j | 0 <= j < |ws[1..]| ensures !In(ws[0].at + i, ws[1..][j]) {
          assert Clear(ws[0], ws[j + 1]);
        }
        PutAllOutside(mem1, ws[1..], ws[0].at + i);
      }
    }
  }
}
