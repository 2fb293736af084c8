/**
 The 32-bit PowerPC relocations of src/elf.c, following the System V ABI PowerPC Processor
 Supplement, chapter 4, "Relocation": what each kind stores, and what a whole list of them does.
 */
module ElfReloc {
  const NONE := 0
  const ADDR32 := 1
  const ADDR16_LO := 4
  const ADDR16_HA := 6
  const REL24 := 10
  const REL32 := 26

  /** One resolved entry: patch the field at address at, for symbol value s and addend a; virt is
      the distance from physical to virtual addresses, or 0 where it must not be added. */
  datatype Fix = Fix(at: nat, kind: nat, s: bv32, a: bv32, virt: bv32)

  predicate Known(kind: nat) {
    kind == NONE || kind == ADDR32 || kind == ADDR16_LO || kind == ADDR16_HA || kind == REL24 || kind == REL32
  }

  function Width(kind: nat): nat {
    if kind == NONE || !Known(kind) then 0 else if kind == ADDR16_LO || kind == ADDR16_HA then 2 else 4
  }

  // ---- words and bytes -------------------------------------------------------------------

  function Bytes32(w: bv32): (r: seq<bv8>)
    ensures |r| == 4
  {
    [((w >> 24) & 0xFF) as bv8, ((w >> 16) & 0xFF) as bv8, ((w >> 8) & 0xFF) as bv8, (w & 0xFF) as bv8]
  }

  function Bytes16(w: bv32): (r: seq<bv8>)
    ensures |r| == 2
  {
    [((w >> 8) & 0xFF) as bv8, (w & 0xFF) as bv8]
  }

  function Word32(b: seq<bv8>): bv32
    requires |b| == 4
  {
    ((b[0] as bv32) << 24) | ((b[1] as bv32) << 16) | ((b[2] as bv32) << 8) | (b[3] as bv32)
  }

  lemma WordOfBytes(w: bv32)
    ensures Word32(Bytes32(w)) == w
  {
  }

  /** Words and halves are read from memory most significant byte first. */
  lemma BigEndian(a: bv8, b: bv8, c: bv8, d: bv8)
    ensures Word32([a, b, c, d]) == ((a as bv32 * 0x100 + b as bv32) * 0x100 + c as bv32) * 0x100 + d as bv32
    ensures Half([a, b]) == a as bv32 * 0x100 + b as bv32
  {
  }

  // ---- what each kind stores -------------------------------------------------------------

  function Ha(t: bv32): bv32 {
    ((t >> 16) + (if t & 0x8000 != 0 then 1 else 0)) & 0xFFFF
  }

  function Lo(t: bv32): bv32 {
    t & 0xFFFF
  }

  function Branch(was: bv32, d: bv32): bv32 {
    (was & !0x03FF_FFFC) | (d & 0x03FF_FFFC)
  }

  /** A pointer as a 32-bit value. */
  function Address(at: nat): bv32 {
    (at % 0x1_0000_0000) as bv32
  }

  /** S + A at virtual addresses. */
  function Target(s: bv32, a: bv32, virt: bv32): bv32 {
    s + a + virt
  }

  /** S + A - P. */
  function Gap(s: bv32, a: bv32, p: bv32): bv32 {
    s + a - p
  }

  function Distance(s: bv32, a: bv32, at: nat): bv32 {
    Gap(s, a, Address(at))
  }

  /** The new bytes of the field, given its old ones. */
  function FieldBytes(f: Fix, was: seq<bv8>): (r: seq<bv8>)
    requires |was| == Width(f.kind)
    ensures |r| == Width(f.kind)
  {
    if f.kind == ADDR32 then Bytes32(Target(f.s, f.a, f.virt))
    else if f.kind == ADDR16_LO then Bytes16(Lo(Target(f.s, f.a, f.virt)))
    else if f.kind == ADDR16_HA then Bytes16(Ha(Target(f.s, f.a, f.virt)))
    else if f.kind == REL24 then Bytes32(Branch(Word32(was), Distance(f.s, f.a, f.at)))
    else if f.kind == REL32 then Bytes32(Distance(f.s, f.a, f.at))
    else []
  }

  /** How an instruction sign-extends its 16-bit operand. */
  function Extended16(lo: bv32): bv32 {
    if lo & 0x8000 != 0 then lo | 0xFFFF_0000 else lo
  }

  function Extended26(d: bv32): bv32 {
    if d & 0x0200_0000 != 0 then d | 0xFC00_0000 else d
  }

  /** The displacement a branch instruction encodes. */
  function Displacement(w: bv32): bv32 {
    Extended26(w & 0x03FF_FFFC)
  }

  /** What an addis/addi pair makes of its two operands. */
  function Joined(high: bv32, low: bv32): bv32 {
    (high << 16) + Extended16(low)
  }

  /** The high and low halves make up the address again. */
  lemma HalvesMakeAddress(t: bv32)
    ensures Joined(Ha(t), Lo(t)) == t
  {
    if t & 0x8000 != 0 {
      HalvesWithCarry(t);
    } else {
      HalvesWithoutCarry(t);
    }
  }

  lemma HalvesWithCarry(t: bv32)
    requires t & 0x8000 != 0
    ensures ((((t >> 16) + 1) & 0xFFFF) << 16) + ((t & 0xFFFF) | 0xFFFF_0000) == t && (t & 0xFFFF) & 0x8000 != 0
  {
  }

  lemma HalvesWithoutCarry(t: bv32)
    requires t & 0x8000 == 0
    ensures (((t >> 16) & 0xFFFF) << 16) + (t & 0xFFFF) == t && (t & 0xFFFF) & 0x8000 == 0
  {
  }

  predicate ReachableBy24(d: bv32) {
    d & 3 == 0 && (d <= 0x01FF_FFFF || d >= 0xFE00_0000)
  }

  lemma BranchField(was: bv32, d: bv32)
    ensures Branch(was, d) & 0x03FF_FFFC == d & 0x03FF_FFFC
  {
  }

  /** Opcode, AA and LK stay. */
  lemma BranchKeeps(was: bv32, d: bv32)
    ensures Branch(was, d) & 0xFC00_0003 == was & 0xFC00_0003
    ensures Branch(Branch(was, d), d) == Branch(was, d)
  {
    assert Branch(was, d) & 0xFC00_0003 == was & 0xFC00_0003;
    BranchAgain(was, d);
  }

  lemma BranchAgain(was: bv32, d: bv32)
    ensures Branch(Branch(was, d), d) == Branch(was, d)
  {
  }

  lemma ReachableIsField(d: bv32)
    ensures ReachableBy24(d) <==> Displacement(d) == d
  {
    if d & 0x0200_0000 != 0 {
      assert (d & 0x03FF_FFFC) & 0x0200_0000 != 0;
      assert d & 3 == 0 && d >= 0xFE00_0000 <==> (d & 0x03FF_FFFC) | 0xFC00_0000 == d;
      assert !(d <= 0x01FF_FFFF);
    } else {
      assert (d & 0x03FF_FFFC) & 0x0200_0000 == 0;
      assert d & 3 == 0 && d <= 0x01FF_FFFF <==> d & 0x03FF_FFFC == d;
      assert !(d >= 0xFE00_0000);
    }
  }

  /**
   The patched branch encodes exactly the distance d to its target when d is a multiple of 4 in the
   signed 26-bit range, and some other distance otherwise.
   */
  lemma BranchReachesIff(was: bv32, d: bv32)
    ensures Displacement(Branch(was, d)) == d <==> ReachableBy24(d)
  {
    hide Branch, ReachableBy24, Extended26;
    BranchField(was, d);
    ReachableIsField(d);
  }

  /** Where a displacement x leads from the instruction at p, run under a shift of all addresses. */
  function Reached(p: bv32, shift: bv32, x: bv32): bv32 {
    (p + shift) + x
  }

  /** The way back: the displacement that leads to t from p under the shift. */
  function WayTo(t: bv32, p: bv32, shift: bv32): bv32 {
    (t - shift) - p
  }

  lemma WayToReached(p: bv32, shift: bv32, x: bv32)
    ensures WayTo((p + shift) + x, p, shift) == x
  {
  }

  lemma WayToTarget(s: bv32, a: bv32, p: bv32, shift: bv32)
    ensures WayTo(s + a + shift, p, shift) == Gap(s, a, p)
  {
  }

  lemma OnlyGapReaches(s: bv32, a: bv32, p: bv32, shift: bv32, x: bv32)
    requires Reached(p, shift, x) == Target(s, a, shift)
    ensures x == Gap(s, a, p)
  {
    hide WayTo, Gap;
    WayToReached(p, shift, x);
    WayToTarget(s, a, p, shift);
  }

  lemma DifferenceReaches(s: bv32, a: bv32, p: bv32, shift: bv32, d: bv32)
    requires d == s + a - p
    ensures Reached(p, shift, d) == Target(s, a, shift)
  {
  }

  lemma GapIsDifference(s: bv32, a: bv32, p: bv32)
    ensures Gap(s, a, p) == s + a - p
  {
  }

  lemma GapReaches(s: bv32, a: bv32, p: bv32, shift: bv32)
    ensures Reached(p, shift, Gap(s, a, p)) == Target(s, a, shift)
  {
    hide *;
    GapIsDifference(s, a, p);
    DifferenceReaches(s, a, p, shift, Gap(s, a, p));
  }

  /** A displacement leads to S + A under any common shift exactly if it is the distance taken at
      physical addresses. */
  lemma ReachesIff(f: Fix, x: bv32, shift: bv32)
    ensures Reached(Address(f.at), shift, x) == Target(f.s, f.a, shift) <==> x == Distance(f.s, f.a, f.at)
  {
    hide Reached, Target, Address, Gap;
    if Reached(Address(f.at), shift, x) == Target(f.s, f.a, shift) {
      OnlyGapReaches(f.s, f.a, Address(f.at), shift, x);
    }
    GapReaches(f.s, f.a, Address(f.at), shift);
  }

  // ---- lists of fixes --------------------------------------------------------------------

  predicate InRange(size: nat, f: Fix) {
    f.at + Width(f.kind) <= size
  }

  function Field(mem: seq<bv8>, f: Fix): seq<bv8>
    requires InRange(|mem|, f)
  {
    mem[f.at..f.at + Width(f.kind)]
  }

  function Patch(mem: seq<bv8>, f: Fix): (r: seq<bv8>)
    requires InRange(|mem|, f)
    ensures |r| == |mem|
  {
    mem[..f.at] + FieldBytes(f, Field(mem, f)) + mem[f.at + Width(f.kind)..]
  }

  /** Memory after the fixes of a list, applied in order. */
  function Patches(mem: seq<bv8>, fs: seq<Fix>): (r: seq<bv8>)
    requires forall f :: f in fs ==> InRange(|mem|, f)
    ensures |r| == |mem|
    decreases |fs|
  {
    if fs == [] then mem else
      Patches(Patch(mem, fs[0]), fs[1..])
  }

  predicate Covers(f: Fix, b: nat) {
    f.at <= b < f.at + Width(f.kind)
  }

  predicate Apart(f: Fix, g: Fix) {
    f.at + Width(f.kind) <= g.at || g.at + Width(g.kind) <= f.at
  }

  predicate PairwiseApart(fs: seq<Fix>) {
    forall i, j :: 0 <= i < j < |fs| ==> Apart(fs[i], fs[j])
  }

  lemma PatchFrame(mem: seq<bv8>, f: Fix, g: Fix)
    requires InRange(|mem|, f) && InRange(|mem|, g) && Apart(f, g)
    ensures Field(Patch(mem, f), g) == Field(mem, g)
  {
    hide FieldBytes;
    var p, q := Field(Patch(mem, f), g), Field(mem, g);
    forall k | 0 <= k < |p| ensures p[k] == q[k] {
      PatchByte(mem, f, g.at + k);
    }
  }

  lemma PatchByte(mem: seq<bv8>, f: Fix, b: nat)
    requires InRange(|mem|, f) && b < |mem|
    ensures Patch(mem, f)[b] == if Covers(f, b) then FieldBytes(f, Field(mem, f))[b - f.at] else mem[b]
  {
    hide FieldBytes;
  }

  /** With disjoint fields, each field ends up as its own formula makes it from its first content,
      and no other byte changes. */
  lemma {:induction false} PatchesByte(mem: seq<bv8>, fs: seq<Fix>, b: nat)
    requires (forall f :: f in fs ==> InRange(|mem|, f)) && PairwiseApart(fs) && b < |mem|
    ensures forall i :: 0 <= i < |fs| && Covers(fs[i], b)
                        ==> Patches(mem, fs)[b] == FieldBytes(fs[i], Field(mem, fs[i]))[b - fs[i].at]
    ensures (forall f :: f in fs ==> !Covers(f, b)) ==> Patches(mem, fs)[b] == mem[b]
    decreases |fs|
  {
    hide FieldBytes, Patch, Field;
    if fs != [] {
      var f, rest := fs[0], fs[1..];
      var mem1 := Patch(mem, f);
      PatchByte(mem, f, b);
      PatchesByte(mem1, rest, b);
      forall i | 0 < i < |fs| ensures fs[i] == rest[i - 1] && Field(mem1, fs[i]) == Field(mem, fs[i]) {
        PatchFrame(mem, f, fs[i]);
      }
      if Covers(f, b) {
        forall g | g in rest ensures !Covers(g, b) {
          var i :| 0 <= i < |rest| && rest[i] == g;
          assert fs[i + 1] == g;
        }
      }
    }
  }

  /** The order of entries with disjoint fields does not matter. */
  lemma OrderDoesNotMatter(mem: seq<bv8>, fs: seq<Fix>, gs: seq<Fix>)
    requires (forall f :: f in fs ==> InRange(|mem|, f)) && PairwiseApart(fs) && PairwiseApart(gs)
    requires forall f :: f in fs <==> f in gs
    ensures Patches(mem, fs) == Patches(mem, gs)
  {
    hide Patches, FieldBytes, Field;
    forall b: nat | b < |mem| ensures Patches(mem, fs)[b] == Patches(mem, gs)[b] {
      PatchesByte(mem, fs, b);
      PatchesByte(mem, gs, b);
      if f :| f in fs && Covers(f, b) {
        var i :| 0 <= i < |fs| && fs[i] == f;
        assert f in gs;
        var j :| 0 <= j < |gs| && gs[j] == f;
      }
    }
  }

  lemma FieldBytesAgain(f: Fix, was: seq<bv8>)
    requires |was| == Width(f.kind)
    ensures FieldBytes(f, FieldBytes(f, was)) == FieldBytes(f, was)
  {
    hide Bytes32, Bytes16, Word32, Branch, Ha, Target, Distance;
    if f.kind == REL24 {
      WordOfBytes(Branch(Word32(was), Distance(f.s, f.a, f.at)));
      BranchAgain(Word32(was), Distance(f.s, f.a, f.at));
    }
  }

  /** Relocating twice is relocating once. */
  lemma PatchesAreIdempotent(mem: seq<bv8>, fs: seq<Fix>)
    requires (forall f :: f in fs ==> InRange(|mem|, f)) && PairwiseApart(fs)
    ensures Patches(Patches(mem, fs), fs) == Patches(mem, fs)
  {
    hide Patches, FieldBytes;
    var mem1 := Patches(mem, fs);
    forall b: nat | b < |mem| ensures Patches(mem1, fs)[b] == mem1[b] {
      PatchesByte(mem, fs, b);
      PatchesByte(mem1, fs, b);
      if f :| f in fs && Covers(f, b) {
        var i :| 0 <= i < |fs| && fs[i] == f;
        PatchedField(mem, fs, i);
        FieldBytesAgain(f, Field(mem, f));
      }
    }
  }

  lemma PatchedField(mem: seq<bv8>, fs: seq<Fix>, i: nat)
    requires (forall f :: f in fs ==> InRange(|mem|, f)) && PairwiseApart(fs) && i < |fs|
    ensures Field(Patches(mem, fs), fs[i]) == FieldBytes(fs[i], Field(mem, fs[i]))
  {
    hide Patches, FieldBytes, Width, PairwiseApart;
    var f := fs[i];
    assert InRange(|mem|, f);
    var got, want := Field(Patches(mem, fs), f), FieldBytes(f, Field(mem, f));
    forall k | 0 <= k < |got| ensures got[k] == want[k] {
      PatchedByte(mem, fs, i, k);
    }
  }

  lemma PatchedByte(mem: seq<bv8>, fs: seq<Fix>, i: nat, k: nat)
    requires (forall f :: f in fs ==> InRange(|mem|, f)) && PairwiseApart(fs) && i < |fs|
    requires InRange(|mem|, fs[i]) && k < Width(fs[i].kind)
    ensures Patches(mem, fs)[fs[i].at + k] == FieldBytes(fs[i], Field(mem, fs[i]))[k]
  {
    hide Patches, FieldBytes, Field, Width, PairwiseApart;
    PatchesByte(mem, fs, fs[i].at + k);
    assert Covers(fs[i], fs[i].at + k);
  }

  // ---- what the processor makes of the patched fields ------------------------------------

  function Half(b: seq<bv8>): bv32
    requires |b| == 2
  {
    ((b[0] as bv32) << 8) | (b[1] as bv32)
  }

  lemma HalfOfHa(t: bv32)
    ensures Half(Bytes16(Ha(t))) == Ha(t)
  {
  }

  lemma HalfOfLo(t: bv32)
    ensures Half(Bytes16(Lo(t))) == Lo(t)
  {
  }

  /**
   An instruction pair that adds a patched high half and a patched low half of one symbol and addend
   computes the virtual address of S + A.
   */
  lemma HalvesReachTarget(mem: seq<bv8>, fs: seq<Fix>, i: nat, j: nat)
    requires (forall f :: f in fs ==> InRange(|mem|, f)) && PairwiseApart(fs) && i < |fs| && j < |fs|
    requires fs[i].kind == ADDR16_HA && fs[j].kind == ADDR16_LO
    requires fs[i].s == fs[j].s && fs[i].a == fs[j].a && fs[i].virt == fs[j].virt
    ensures var r := Patches(mem, fs);
            Joined(Half(Field(r, fs[i])), Half(Field(r, fs[j])))
            == Target(fs[i].s, fs[i].a, fs[i].virt)
  {
    hide Patches, Bytes16, Half, Ha, Lo, Joined, Target;
    var t := Target(fs[i].s, fs[i].a, fs[i].virt);
    PatchedField(mem, fs, i);
    PatchedField(mem, fs, j);
    HalfOfHa(t);
    HalfOfLo(t);
    HalvesMakeAddress(t);
  }

  /**
   A patched branch, run where memory is mapped under any shift, goes to S + A under the same shift
   exactly if the distance is in its range; opcode, AA and LK are those it had.
   */
  lemma BranchReachesTargetIff(mem: seq<bv8>, fs: seq<Fix>, i: nat, shift: bv32)
    requires (forall f :: f in fs ==> InRange(|mem|, f)) && PairwiseApart(fs) && i < |fs|
    requires fs[i].kind == REL24
    ensures var f := fs[i];
            var w := Word32(Field(Patches(mem, fs), f));
            && (Reached(Address(f.at), shift, Displacement(w)) == Target(f.s, f.a, shift)
                <==> ReachableBy24(Distance(f.s, f.a, f.at)))
            && w & 0xFC00_0003 == Word32(Field(mem, f)) & 0xFC00_0003
  {
    hide Patches, Bytes32, Word32, Branch, Displacement, ReachableBy24, Address, Reached, Target, Distance;
    var f := fs[i];
    var was, d := Word32(Field(mem, f)), Distance(f.s, f.a, f.at);
    PatchedField(mem, fs, i);
    WordOfBytes(Branch(was, d));
    BranchReachesIff(was, d);
    BranchKeeps(was, d);
    ReachesIff(f, Displacement(Branch(was, d)), shift);
  }

  /** Full words: an absolute one is the virtual address, a relative one leads there from its field. */
  lemma WordsReachTarget(mem: seq<bv8>, fs: seq<Fix>, i: nat, shift: bv32)
    requires (forall f :: f in fs ==> InRange(|mem|, f)) && PairwiseApart(fs) && i < |fs|
    requires fs[i].kind == ADDR32 || fs[i].kind == REL32
    ensures var f := fs[i];
            var w := Word32(Field(Patches(mem, fs), f));
            if f.kind == ADDR32 then w == Target(f.s, f.a, f.virt)
            else Reached(Address(f.at), shift, w) == Target(f.s, f.a, shift)
  {
    hide Patches, Bytes32, Word32, Target, Address, Reached, Distance;
    var f := fs[i];
    PatchedField(mem, fs, i);
    WordOfBytes(Target(f.s, f.a, f.virt));
    WordOfBytes(Distance(f.s, f.a, f.at));
    ReachesIff(f, Distance(f.s, f.a, f.at), shift);
  }

  predicate Within(f: Fix, lo: nat, hi: nat) {
    lo <= f.at && f.at + Width(f.kind) <= hi
  }

  predicate Outside(f: Fix, lo: nat, hi: nat) {
    f.at + Width(f.kind) <= lo || hi <= f.at
  }

  lemma {:induction false} PatchesConcat(mem: seq<bv8>, fs: seq<Fix>, gs: seq<Fix>)
    requires forall f :: f in fs + gs ==> InRange(|mem|, f)
    ensures (forall f :: f in fs ==> InRange(|mem|, f)) && (forall f :: f in gs ==> InRange(|mem|, f))
    ensures Patches(mem, fs + gs) == Patches(Patches(mem, fs), gs)
    decreases |fs|
  {
    hide Patch;
    assert forall f :: f in fs ==> f in fs + gs;
    assert forall f :: f in gs ==> f in fs + gs;
    if fs == [] {
      assert fs + gs == gs;
    } else {
      assert (fs + gs)[1..] == fs[1..] + gs;
      PatchesConcat(Patch(mem, fs[0]), fs[1..], gs);
    }
  }

  /** Fixes outside a range leave it as it is. */
  lemma {:induction false} PatchesOutside(mem: seq<bv8>, fs: seq<Fix>, lo: nat, hi: nat)
    requires lo <= hi <= |mem|
    requires forall f :: f in fs ==> InRange(|mem|, f) && Outside(f, lo, hi)
    ensures Patches(mem, fs)[lo..hi] == mem[lo..hi]
    decreases |fs|
  {
    hide Patch;
    if fs != [] {
      PatchElsewhere(mem, fs[0], lo, hi);
      PatchesOutside(Patch(mem, fs[0]), fs[1..], lo, hi);
    }
  }

  /** What fixes inside a range make of it depends on that range only. */
  lemma {:induction false} PatchesWithin(mem: seq<bv8>, mem': seq<bv8>, fs: seq<Fix>, lo: nat, hi: nat)
    requires lo <= hi <= |mem| == |mem'| && mem[lo..hi] == mem'[lo..hi]
    requires forall f :: f in fs ==> InRange(|mem|, f) && Within(f, lo, hi)
    ensures Patches(mem, fs)[lo..hi] == Patches(mem', fs)[lo..hi]
    decreases |fs|
  {
    hide Patch;
    if fs != [] {
      SamePatch(mem, mem', fs[0], lo, hi);
      PatchesWithin(Patch(mem, fs[0]), Patch(mem', fs[0]), fs[1..], lo, hi);
    }
  }

  lemma SamePatch(mem: seq<bv8>, mem': seq<bv8>, f: Fix, lo: nat, hi: nat)
    requires lo <= hi <= |mem| == |mem'| && mem[lo..hi] == mem'[lo..hi] && Within(f, lo, hi)
    ensures Patch(mem, f)[lo..hi] == Patch(mem', f)[lo..hi]
  {
    hide FieldBytes;
    SameField(mem, mem', f, lo, hi);
    var p, p' := Patch(mem, f)[lo..hi], Patch(mem', f)[lo..hi];
    forall k | 0 <= k < |p| ensures p[k] == p'[k] {
      PatchByte(mem, f, lo + k);
      PatchByte(mem', f, lo + k);
      assert mem[lo + k] == mem[lo..hi][k] && mem'[lo + k] == mem'[lo..hi][k];
    }
  }

  lemma SameField(mem: seq<bv8>, mem': seq<bv8>, f: Fix, lo: nat, hi: nat)
    requires lo <= hi <= |mem| == |mem'| && mem[lo..hi] == mem'[lo..hi] && Within(f, lo, hi)
    ensures Field(mem, f) == Field(mem', f)
  {
    var x, y := Field(mem, f), Field(mem', f);
    forall k | 0 <= k < |x| ensures x[k] == y[k] {
      assert mem[lo..hi][f.at - lo + k] == x[k] && mem'[lo..hi][f.at - lo + k] == y[k];
    }
  }

  lemma PatchElsewhere(mem: seq<bv8>, f: Fix, lo: nat, hi: nat)
    requires lo <= hi <= |mem| && InRange(|mem|, f) && Outside(f, lo, hi)
    ensures Patch(mem, f)[lo..hi] == mem[lo..hi]
  {
    hide FieldBytes;
    var p, q := Patch(mem, f)[lo..hi], mem[lo..hi];
    forall k | 0 <= k < |p| ensures p[k] == q[k] {
      PatchByte(mem, f, lo + k);
    }
  }
}
