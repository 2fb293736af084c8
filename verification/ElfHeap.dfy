/**
 The two-ended allocator of load_hunk in src/elf.c: writable sections go below the kernel base,
 growing down, read-only ones above it, growing up, over all modules loaded.
 */
module ElfHeap {
  const PHYS_BASE: int := 0x0080_0000
  const LIMIT: int := 0x1_0000_0000

  datatype Chunk = Chunk(addr: nat, size: nat, align: nat, writable: bool)

  /** The static pointers ptr_rw and ptr_ro, and the chunks handed out so far. */
  datatype Heap = Heap(rw: nat, ro: nat, chunks: seq<Chunk>)

  const INITIAL := Heap(PHYS_BASE, PHYS_BASE, [])

  predicate PowerOfTwo(a: nat) {
    a == 1 || (a > 1 && a % 2 == 0 && PowerOfTwo(a / 2))
  }

  /** Clearing the bits below a, for a power of two a. */
  function AlignDown(x: nat, a: nat): (r: nat)
    requires a > 0
    ensures r <= x < r + a && r % a == 0
  {
    ModFacts(x, a);
    x / a * a
  }

  lemma ModFacts(x: nat, a: nat)
    requires a > 0
    ensures x / a * a <= x < x / a * a + a && (x / a * a) % a == 0
  {
    MultipleMod(x / a, a);
  }

  lemma MultipleMod(k: nat, a: nat)
    requires a > 0
    ensures (k * a) % a == 0
  {
    var q, r := (k * a) / a, (k * a) % a;
    Distribute(k, q, a);
    if k > q {
      AtLeastOnce(k - q, a);
    } else if q > k {
      AtLeastOnce(q - k, a);
    }
  }

  lemma Distribute(k: int, q: int, a: int)
    ensures (k - q) * a == k * a - q * a && (q - k) * a == q * a - k * a
  {
  }

  lemma AtLeastOnce(n: nat, a: nat)
    requires n > 0
    ensures n * a >= a
  {
  }

  // ---- the bit mask ----------------------------------------------------------------------

  const ALL_BITS: nat := 0xFFFF_FFFF

  /** The bitwise conjunction of two unsigned numbers. */
  function And(x: nat, y: nat): nat
    decreases x
  {
    if x == 0 then 0 else 2 * And(x / 2, y / 2) + x % 2 * (y % 2)
  }

  /** ~(a - 1) in 32 bits. */
  function AlignMask(a: nat): nat
    requires 1 <= a <= LIMIT
  {
    ALL_BITS - (a - 1)
  }

  /** A number of n bits, all of them set. */
  predicate Ones(m: nat, n: nat) {
    if n == 0 then m == 0 else m % 2 == 1 && Ones(m / 2, n - 1)
  }

  lemma AllBitsAreOnes()
    ensures Ones(ALL_BITS, 32)
  {
    assert Ones(0xFF, 8);
    assert Ones(0xFFFF, 16);
    assert Ones(0xFF_FFFF, 24);
  }

  lemma {:induction false} AndOnes(x: nat, m: nat, n: nat)
    requires Ones(m, n) && x <= m
    ensures And(x, m) == x
    decreases n
  {
    if n > 0 {
      AndOnes(x / 2, m / 2, n - 1);
    }
  }

  lemma QuotientIs(x: nat, a: nat, q: nat)
    requires a > 0 && q * a <= x < q * a + a
    ensures x / a == q
  {
    var k := x / a;
    ModFacts(x, a);
    Distribute(k, q, a);
    if k > q {
      AtLeastOnce(k - q, a);
    } else if q > k {
      AtLeastOnce(q - k, a);
    }
  }

  lemma Twice(q: nat, h: nat)
    ensures q * (2 * h) == 2 * (q * h)
  {
  }

  /** Rounding half of x down to half of a is half of rounding x down to a. */
  lemma AlignHalves(x: nat, a: nat)
    requires a > 0 && a % 2 == 0
    ensures AlignDown(x, a) == 2 * AlignDown(x / 2, a / 2)
  {
    var q := x / 2 / (a / 2);
    ModFacts(x / 2, a / 2);
    Twice(q, a / 2);
    assert 2 * (a / 2) == a;
    QuotientIs(x, a, q);
  }

  /** Masking with ones above the bits of a - 1 rounds down to a multiple of a power of two a. */
  lemma {:induction false} MaskedOnes(x: nat, a: nat, m: nat, n: nat)
    requires PowerOfTwo(a) && Ones(m, n) && x <= m && a <= m + 1
    ensures And(x, m - (a - 1)) == AlignDown(x, a)
    decreases n
  {
    if a == 1 {
      AndOnes(x, m, n);
    } else if x > 0 {
      hide AlignDown;
      MaskedOnes(x / 2, a / 2, m / 2, n - 1);
      AlignHalves(x, a);
      assert (m - (a - 1)) / 2 == m / 2 - (a / 2 - 1) && (m - (a - 1)) % 2 == 0;
    }
  }

  /** The bit mask of the source rounds a 32-bit number down to a multiple of a power of two. */
  lemma MaskIsAlignDown(x: nat, a: nat)
    requires PowerOfTwo(a) && x < LIMIT && a <= LIMIT
    ensures And(x, AlignMask(a)) == AlignDown(x, a)
  {
    hide Ones;
    AllBitsAreOnes();
    MaskedOnes(x, a, ALL_BITS, 32);
  }

  // ---- allocation ------------------------------------------------------------------------

  /** The request fits without a 32-bit address wrapping around. */
  predicate Fits(h: Heap, size: nat, align: nat, writable: bool) {
    PowerOfTwo(align) && (if writable then size + align <= h.rw + 1 else h.ro + align - 1 + size <= LIMIT)
  }

  /** load_hunk's placement; an empty section takes nothing. */
  function Alloc(h: Heap, size: nat, align: nat, writable: bool): Heap
    requires size > 0 ==> Fits(h, size, align, writable)
  {
    if size == 0 then h
    else if writable then
      var p := AlignDown(h.rw - size - align + 1, align);
      Heap(p, h.ro, h.chunks + [Chunk(p, size, align, true)])
    else
      var p := AlignDown(h.ro + align - 1, align);
      Heap(h.rw, p + size, h.chunks + [Chunk(p, size, align, false)])
  }

  predicate Overlap(a: Chunk, b: Chunk) {
    a.addr < b.addr + b.size && b.addr < a.addr + a.size
  }

  /** Chunks are aligned, disjoint, and each kind lies between the base and its pointer. */
  ghost predicate Valid(h: Heap) {
    && h.rw <= PHYS_BASE <= h.ro <= LIMIT
    && (forall i :: 0 <= i < |h.chunks| ==> InPlace(h, h.chunks[i]))
    && (forall i, j :: 0 <= i < j < |h.chunks| ==> !Overlap(h.chunks[i], h.chunks[j]))
  }

  predicate InPlace(h: Heap, c: Chunk) {
    c.size > 0 && c.align > 0 && c.addr % c.align == 0
    && if c.writable then h.rw <= c.addr && c.addr + c.size <= PHYS_BASE
       else PHYS_BASE <= c.addr && c.addr + c.size <= h.ro
  }

  /** One call keeps all chunks disjoint, moves the pointers apart, and wastes at least the alignment
      less one and at most twice that above a writable chunk, at most that before a read-only one. */
  lemma AllocKeeps(h: Heap, size: nat, align: nat, writable: bool)
    requires Valid(h) && size > 0 && Fits(h, size, align, writable)
    ensures var h' := Alloc(h, size, align, writable);
            && Valid(h') && h'.rw <= h.rw && h.ro <= h'.ro
            && |h'.chunks| == |h.chunks| + 1 && h'.chunks[..|h.chunks|] == h.chunks
            && var c := h'.chunks[|h.chunks|];
            && c == Chunk(c.addr, size, align, writable)
            && (if writable then c.addr == h'.rw && align - 1 <= h.rw - (c.addr + size) <= 2 * (align - 1)
                else c.addr + size == h'.ro && 0 <= c.addr - h.ro <= align - 1)
  {
    var h' := Alloc(h, size, align, writable);
    var n := |h.chunks|;
    forall i | 0 <= i < n ensures InPlace(h', h'.chunks[i]) && !Overlap(h'.chunks[i], h'.chunks[n]) {
      assert h'.chunks[i] == h.chunks[i] && InPlace(h, h.chunks[i]);
    }
  }

  datatype Request = Request(size: nat, align: nat, writable: bool)

  /** Every request of a run fits where it comes. */
  predicate RunFits(h: Heap, rs: seq<Request>)
    decreases rs
  {
    rs == [] || ((rs[0].size > 0 ==> Fits(h, rs[0].size, rs[0].align, rs[0].writable))
                 && RunFits(Alloc(h, rs[0].size, rs[0].align, rs[0].writable), rs[1..]))
  }

  function Run(h: Heap, rs: seq<Request>): Heap
    requires RunFits(h, rs)
    decreases rs
  {
    if rs == [] then h else Run(Alloc(h, rs[0].size, rs[0].align, rs[0].writable), rs[1..])
  }

  /** The bytes that the requests of one kind ask for. */
  function Asked(rs: seq<Request>, writable: bool): nat {
    if rs == [] then 0 else (if rs[0].writable == writable then rs[0].size else 0) + Asked(rs[1..], writable)
  }

  /** The alignments less one of the requests of one kind that take memory, added up. */
  function Slack(rs: seq<Request>, writable: bool): int {
    if rs == [] then 0 else
      (if rs[0].writable == writable && rs[0].size > 0 then rs[0].align - 1 else 0) + Slack(rs[1..], writable)
  }

  /**
   Over every run, earlier chunks stay, all chunks are disjoint, and the pointers only move apart:
   the lower one by the writable bytes and between one and two times their slack, the upper one by
   the read-only bytes and at most their slack.
   */
  lemma {:induction false} RunKeeps(h: Heap, rs: seq<Request>)
    requires Valid(h) && RunFits(h, rs)
    ensures var h' := Run(h, rs);
            && Valid(h') && h.chunks <= h'.chunks && h'.rw <= h.rw && h.ro <= h'.ro
            && Slack(rs, true) <= h.rw - h'.rw - Asked(rs, true) <= 2 * Slack(rs, true)
            && 0 <= h'.ro - h.ro - Asked(rs, false) <= Slack(rs, false)
    decreases rs
  {
    hide Alloc, Valid;
    if rs != [] {
      if rs[0].size > 0 {
        AllocKeeps(h, rs[0].size, rs[0].align, rs[0].writable);
        AllocKeepsOther(h, rs[0].size, rs[0].align, rs[0].writable);
      } else {
        NoAlloc(h, rs[0]);
      }
      RunKeeps(Alloc(h, rs[0].size, rs[0].align, rs[0].writable), rs[1..]);
    }
  }

  lemma AllocKeepsOther(h: Heap, size: nat, align: nat, writable: bool)
    requires size > 0 && Fits(h, size, align, writable)
    ensures var h' := Alloc(h, size, align, writable);
            if writable then h'.ro == h.ro else h'.rw == h.rw
  {
  }

  lemma InAddressSpace(h: Heap)
    requires Valid(h)
    ensures h.rw <= PHYS_BASE <= h.ro <= LIMIT
  {
  }

  lemma NoAlloc(h: Heap, r: Request)
    requires r.size == 0
    ensures Alloc(h, r.size, r.align, r.writable) == h
  {
  }
}
