/** Rewriting a code section: downgrading LDAPR to LDAR (src/machismo.c), then moving every LSE atomic
    and BCAX to an island of its own (src/isa_emul.c). */
module IsaPatch {
  import opened Basics
  import opened BitFields
  import opened A64Memory
  import opened A64
  import opened IsaEncode
  import opened LseValues
  import opened IsaEmul
  import opened Interleaving

  // ----- LDAPR to LDAR -----

  predicate IsLdapr(w: bv32) {
    w & 0x3FFF_FC00 == 0x38BF_C000
  }

  /** LDAR with the size and registers of w. */
  function ToLdar(w: bv32): bv32 {
    (w & 0xC000_03FF) | 0x08DF_FC00
  }

  function Downgrade(w: bv32): bv32 {
    if IsLdapr(w) then ToLdar(w) else w
  }

  /** Exactly the LDAPR words change, each to the LDAR of the same size and registers. */
  lemma DowngradeMeaning(w: bv32)
    ensures IsLdapr(w) <==> Decode(w).LoadAcquire? && Decode(w).rcpc
    ensures IsLdapr(w) ==> Decode(Downgrade(w)) == Decode(w).(rcpc := false)
    ensures !IsLdapr(Downgrade(w))
  {
    hide *;
    if IsLdaprMask(w) {
      LdaprWord(w);
    } else {
      NotLdapr(w);
    }
  }

  predicate IsLdaprMask(w: bv32) {
    IsLdapr(w)
  }

  lemma LdaprWord(w: bv32)
    requires IsLdaprMask(w)
    ensures IsLdapr(w) && !IsLdapr(Downgrade(w))
    ensures Decode(w) == LoadAcquire(SizeOf(w), true, Field5(w, 0), Field5(w, 5))
    ensures Decode(Downgrade(w)) == LoadAcquire(SizeOf(w), false, Field5(w, 0), Field5(w, 5))
    ensures Decode(w).LoadAcquire? && Decode(w).rcpc && Decode(Downgrade(w)) == Decode(w).(rcpc := false)
  {
    hide Imm9, Imm19, Imm26, Nat8, Nat32, OpcodeOp, DecodeOther;
  }

  lemma NotLdapr(w: bv32)
    requires !IsLdaprMask(w)
    ensures !IsLdapr(w) && !IsLdapr(Downgrade(w))
    ensures !(Decode(w).LoadAcquire? && Decode(w).rcpc)
  {
    hide Field5, Imm9, Imm19, Imm26, Nat8, Nat32, OpcodeOp, SizeOf;
  }

  /** Without the downgrade an LDAPR would be taken for a SWP, which stores. */
  lemma LdaprLooksLikeSwp(w: bv32)
    requires IsLdapr(w)
    ensures SwpLookalike(w) && DecodeLse(w).Some? && DecodeLse(w).value.op == Swp
  {
    hide Field5, Imm9, Imm19, Imm26, Nat8, Nat32, OpcodeOp, SizeOf;
  }

  function LdaprCount(ws: seq<bv32>): nat {
    if ws == [] then 0 else LdaprCount(ws[..|ws| - 1]) + if IsLdapr(ws[|ws| - 1]) then 1 else 0
  }

  method DowngradeRcpc(code: array<bv32>) returns (count: nat)
    modifies code
    ensures forall i :: 0 <= i < code.Length ==> code[i] == Downgrade(old(code[i]))
    ensures forall i :: 0 <= i < code.Length ==> !IsLdapr(code[i])
    ensures count == LdaprCount(old(code[..]))
  {
    hide IsLdapr, ToLdar, Decode;
    count := 0;
    ghost var was := code[..];
    for j := 0 to code.Length
      invariant forall i :: 0 <= i < j ==> code[i] == Downgrade(old(code[i])) && !IsLdapr(code[i])
      invariant forall i :: j <= i < code.Length ==> code[i] == old(code[i])
      invariant count == LdaprCount(was[..j])
    {
      DowngradeMeaning(code[j]);
      assert was[..j + 1][..j] == was[..j] && was[j] == code[j];
      if IsLdapr(code[j]) {
        code[j] := ToLdar(code[j]);
        count := count + 1;
      }
    }
    assert was[..code.Length] == was;
  }

  // ----- islands -----

  predicate Recognised(w: bv32) {
    DecodeLse(w).Some? || DecodeBcax(w).Some?
  }

  /** What the patcher takes, in the processor's terms. */
  lemma RecognisedExactly(w: bv32)
    ensures Recognised(w) <==> Decode(w).Lse? || Decode(w).Bcax? || SwpLookalike(w)
    ensures SwpLookalike(w) ==> Decode(w).Unmodelled? || (Decode(w).LoadAcquire? && Decode(w).rcpc)
  {
    hide Field5, Decode, DecodeLse, DecodeBcax, SwpLookalike;
    DecodeLseAgrees(w);
    DecodeBcaxAgrees(w);
    if SwpLookalike(w) {
      LookalikeDecode(w);
    }
  }

  lemma LookalikeDecode(w: bv32)
    requires SwpLookalike(w)
    ensures Decode(w).Unmodelled? || (Decode(w).LoadAcquire? && Decode(w).rcpc)
  {
    hide Field5, Imm9, Imm19, Imm26, Nat8, Nat32, OpcodeOp, SizeOf, DecodeOther;
  }

  /** Words an island needs. */
  function IslandLength(w: bv32): nat {
    match DecodeLse(w)
    case Some(d) => |LseWords(d, 0)|
    case None =>
      match DecodeBcax(w)
      case Some(b) => |BcaxWords(b, 0)|
      case None => 0
  }

  /** Words the patcher insists on having left. */
  function Reserve(w: bv32): nat {
    if DecodeLse(w).Some? then 24 else 5
  }

  /** Offset of an island's last branch, back to the word after the patched one. */
  function BackOffset(site: int, base: int, length: int): int {
    site + 1 - (base + length - 1)
  }

  /** The island of word w at word address site, placed at word address base. */
  function IslandFor(w: bv32, site: int, base: int): seq<bv32> {
    var back := BackOffset(site, base, IslandLength(w));
    match DecodeLse(w)
    case Some(d) => LseWords(d, back)
    case None =>
      match DecodeBcax(w)
      case Some(b) => BcaxWords(b, back)
      case None => []
  }

  lemma LseLength(d: Atomic, back: int)
    ensures |LseWords(d, back)| == |LseWords(d, 0)| <= 19
    ensures |LseWords(d, back)| >= 15
  {
    hide ScratchesOf, RmwWords, CasWords;
    if d.op == Cas {
      CasLength(d, back);
      CasLength(d, 0);
    } else {
      RmwLength(d, back);
      RmwLength(d, 0);
    }
  }

  /** The reserves of 24 and 5 words suffice: an atomic's island takes at most 19, a BCAX's at most 5. */
  lemma IslandFits(w: bv32, site: int, base: int)
    requires Recognised(w)
    ensures |IslandFor(w, site, base)| == IslandLength(w) <= Reserve(w)
    ensures 3 <= IslandLength(w) <= 19
  {
    hide DecodeLse, DecodeBcax, LseWords, VecTemp;
    var back := BackOffset(site, base, IslandLength(w));
    match DecodeLse(w)
    case Some(d) => LseLength(d, back);
    case None =>
  }

  /** Every island of an LSE word keeps that word's ordering. */
  lemma IslandOrdered(w: bv32, site: int, base: int)
    requires Decode(w).Lse?
    ensures Ordered(Decode(w), IslandFor(w, site, base))
  {
    hide Decode, DecodeLse, DecodeBcax, LseWords, OrderedAt;
    DecodeLseAgrees(w);
    var d, words := DecodeLse(w).value, IslandFor(w, site, base);
    LseOrdered(d, BackOffset(site, base, IslandLength(w)));
    var l, s :| OrderedAt(LseInstr(d), words, l, s);
    OrderedAs(LseInstr(d), Decode(w), words, l, s);
  }

  /** A compare-and-swap may be given more acquire ordering than it asks for. */
  lemma OrderedAs(i: Instr, j: Instr, words: seq<bv32>, l: int, s: int)
    requires i.Lse? && j.Lse? && OrderedAt(i, words, l, s)
    requires i == j.(acquire := i.acquire) && (j.acquire ==> i.acquire) && (i.acquire ==> j.acquire || i.lse == Cas)
    ensures OrderedAt(j, words, l, s)
  {
    hide Decode;
  }

  /** The offset a B instruction carries for an intended one: the low 26 bits, as a signed number. */
  function Carried(offset: int): int {
    (offset + 0x200_0000) % 0x400_0000 - 0x200_0000
  }

  lemma BranchCarries(offset: int)
    ensures Decode(EncB(offset)) == Branch(Carried(offset))
  {
    BranchWord(offset);
    hide Decode, EncB, Bits32, Nat32;
    Low26(offset);
  }

  /** The range the patcher checks is the range of the branch. */
  lemma RangeExact(offset: int)
    ensures -0x200_0000 <= offset <= 0x1FF_FFFF <==> Decode(EncB(offset)) == Branch(offset)
    ensures InBranchRange(offset) <==> Decode(EncB(offset)) == Branch(offset)
  {
    hide Decode, EncB;
    BranchCarries(offset);
  }

  /** An island's last branch reaches the word after the patched one exactly when the entry offset
      leaves room for it: entry offsets near the top of the range pass the patcher's check, and the
      return branch of their islands wraps. */
  lemma ReturnReaches(site: int, base: int, length: int)
    requires InBranchRange(base - site) && 3 <= length <= 19
    ensures Decode(EncB(BackOffset(site, base, length))) == Branch(BackOffset(site, base, length))
       <==> base - site + length <= 0x200_0002
  {
    hide Decode, EncB;
    BranchCarries(BackOffset(site, base, length));
  }
}
