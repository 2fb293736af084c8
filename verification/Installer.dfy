/**
 The disk installer of tools/parthenope-install.c: it frees the boot block chain of an Amiga
 rigid disk, writes a new chain holding the second-level bootloader, and re-checksums the RDB.

 Blocks are modelled as 128 words. The byte position given to fseek is a 32-bit product, so a
 block number only addresses the first 2^23 blocks of a disk; Slot states that wrap-around.
 */
module Installer {
  import opened Options
  import opened Words

  const REACH: int := 0x80_0000
  const RDB_LIMIT: int := 16
  const DATA_WORDS: int := 123

  const RDSK: Word := 0x5244534B
  const BADB: Word := 0x42414442
  const PART: Word := 0x50415254
  const FSHD: Word := 0x46534844
  const LSEG: Word := 0x4C534547
  const BOOT: Word := 0x424F4F54
  const FREE: Word := 0xFFFF_FFFF

  /** The identifiers are the names of the block types, spelt from the first byte of a block on. */
  lemma IdsAreNames()
    ensures Chars(BeBytes(RDSK)) == "RDSK" && Chars(BeBytes(BADB)) == "BADB" && Chars(BeBytes(PART)) == "PART"
    ensures Chars(BeBytes(FSHD)) == "FSHD" && Chars(BeBytes(LSEG)) == "LSEG" && Chars(BeBytes(BOOT)) == "BOOT"
  {
    hide Chars, BeBytes;
    SpeltAs(RDSK, "RDSK");
    SpeltAs(BADB, "BADB");
    SpeltAs(PART, "PART");
    SpeltAs(FSHD, "FSHD");
    SpeltAs(LSEG, "LSEG");
    SpeltAs(BOOT, "BOOT");
  }

  // Word positions in a block: the common header, the boot block, and the RDB.
  const ID := 0
  const LONGS := 1
  const CHK := 2
  const NEXT := 4
  const DATA := 5
  const BOOT_LIST := 10
  const BLOCKS_LO := 32
  const BLOCKS_HI := 33

  type Block = b: seq<Word> | |b| == 128 ghost witness seq(128, _ => 0)
  const ZERO_BLOCK: Block := seq(128, _ => 0)
  type Disk = d: seq<Block> | |d| == REACH ghost witness seq<Block>(REACH, _ => ZERO_BLOCK)

  /** What the heap holds behind the 512-byte copy made by checksum: its cap lets it sum 512 words. */
  type Heap = h: seq<Word> | |h| == 384 ghost witness seq(384, _ => 0)

  /** The 123 words behind the image buffer, which the last memmove of install_slb reads. */
  type Tail = t: seq<Word> | |t| == DATA_WORDS ghost witness seq(DATA_WORDS, _ => 0)

  class Device {
    var blocks: Disk

    constructor (image: Disk)
      ensures blocks == image
    {
      blocks := image;
    }
  }

  function Slot(block: Word): nat {
    block % REACH
  }

  /** fseek is given the byte position in 32 bits. */
  lemma SlotIsPosition(block: Word)
    ensures Slot(block) * 512 == (block * 512) % 0x1_0000_0000
  {
  }

  // ---- checksums -------------------------------------------------------------------------

  function Longs(b: Block): nat {
    if b[LONGS] > 512 then 512 else b[LONGS]
  }

  function BlockSum(b: Block, heap: Heap): Word {
    Sum((b[LONGS := Longs(b)] + heap)[..Longs(b)])
  }

  /** The block with its checksum word corrected by the sum found. */
  function Fixed(b: Block, heap: Heap): Block {
    b[CHK := Wrap(b[CHK] as int - BlockSum(b, heap))]
  }

  method Checksum(header: Block, heap: Heap) returns (sum: Word)
    ensures sum == BlockSum(header, heap)
  {
    var copy := header;
    sum := 0;
    if copy[LONGS] > 512 {
      copy := copy[LONGS := 512];
    }
    var memory := copy + heap;
    var i := 0;
    while i < copy[LONGS]
      invariant 0 <= i <= copy[LONGS] <= 512
      invariant sum == Sum(memory[..i])
    {
      SumTakeOne(memory, i);
      sum := Wrap(sum + memory[i]);
      i := i + 1;
    }
    assert copy == header[LONGS := Longs(header)];
  }

  method CalculateChecksum(blk: Block, heap: Heap) returns (r: Block)
    ensures r == Fixed(blk, heap)
  {
    var sum := Checksum(blk, heap);
    r := blk[CHK := Wrap(blk[CHK] as int - sum)];
  }

  /** Changing one word moves the block sum by the difference when the sum covers that word. */
  lemma BlockSumUpdate(b: Block, i: nat, v: Word, heap: Heap)
    requires i < 128 && i != LONGS
    ensures BlockSum(b[i := v], heap)
         == if i < Longs(b) then Wrap(BlockSum(b, heap) as int - b[i] + v) else BlockSum(b, heap)
  {
    var n := Longs(b);
    var m := b[LONGS := n] + heap;
    var m' := b[i := v][LONGS := n] + heap;
    if i < n {
      assert m'[..n] == m[..n][i := v];
      SumUpdate(m[..n], i, v);
    } else {
      assert m'[..n] == m[..n];
    }
  }

  /** calculate_checksum makes a block valid exactly when the sum covers the checksum word. */
  lemma FixedValidIff(b: Block, heap: Heap)
    ensures BlockSum(Fixed(b, heap), heap) == if b[LONGS] >= 3 then 0 else BlockSum(b, heap)
    ensures BlockSum(b, heap) == 0 ==> Fixed(b, heap) == b
  {
    hide BlockSum;
    var s := BlockSum(b, heap);
    var c := b[CHK] as int;
    BlockSumUpdate(b, CHK, Wrap(c - s), heap);
    WrapNeg(s - c, Wrap(c - s));
    WrapAdd(c - s, s - c);
  }

  /** What the checksum word held before does not matter once the sum covers it. */
  lemma FixedForgets(b: Block, x: Word, heap: Heap)
    requires b[LONGS] >= 3
    ensures Fixed(b[CHK := x], heap) == Fixed(b, heap)
  {
    var s, c := BlockSum(b, heap), b[CHK] as int;
    BlockSumUpdate(b, CHK, x, heap);
    WrapNeg(s - c + x, x);
    assert b[CHK := x][CHK := Wrap(c - s)] == b[CHK := Wrap(c - s)];
  }

  lemma WrapNeg(a: int, b: int)
    ensures Wrap(b - Wrap(a)) == Wrap(b - a)
  {
    assert b - Wrap(a) == b - a + (a / TWO32) * TWO32;
    WrapShift(b - a, a / TWO32);
  }

  // ---- block input and output ------------------------------------------------------------

  method ReadBlock(dev: Device, block: Word, heap: Heap) returns (blk: Block, ok: bool)
    ensures blk == dev.blocks[Slot(block)]
    ensures ok <==> BlockSum(blk, heap) == 0
  {
    blk := dev.blocks[Slot(block)];
    var sum := Checksum(blk, heap);
    ok := sum == 0;
  }

  method WriteBlock(dev: Device, blk: Block, block: Word)
    modifies dev
    ensures dev.blocks == old(dev.blocks)[Slot(block) := blk]
  {
    dev.blocks := dev.blocks[Slot(block) := blk];
  }

  // ---- finding the RDB -------------------------------------------------------------------

  predicate IsRdb(b: Block, heap: Heap) {
    BlockSum(b, heap) == 0 && b[ID] == RDSK
  }

  predicate IsFirstRdb(disk: Disk, i: nat, heap: Heap) {
    i < 16 && IsRdb(disk[i], heap) && forall j :: 0 <= j < i ==> !IsRdb(disk[j], heap)
  }

  method FindRdb(dev: Device, heap: Heap) returns (found: Option<nat>)
    ensures found.Some? ==> IsFirstRdb(dev.blocks, found.value, heap)
    ensures found.None? ==> forall j :: 0 <= j < 16 ==> !IsRdb(dev.blocks[j], heap)
  {
    var i := 0;
    while i < RDB_LIMIT
      invariant 0 <= i <= RDB_LIMIT
      invariant forall j :: 0 <= j < i ==> !IsRdb(dev.blocks[j], heap)
    {
      var blk, ok := ReadBlock(dev, i, heap);
      if ok && blk[ID] == RDSK {
        return Some(i);
      }
      i := i + 1;
    }
    return None;
  }

  // ---- erasing the old chain -------------------------------------------------------------

  /** The loop test of erase_slb: a checksummed boot block, reached by a number that is not FREE. */
  predicate IsBoot(disk: Disk, block: Word, heap: Heap) {
    block != FREE && BlockSum(disk[Slot(block)], heap) == 0 && disk[Slot(block)][ID] == BOOT
  }

  function Freed(b: Block, heap: Heap): Block {
    Fixed(b[ID := FREE], heap)
  }

  ghost function Boots(disk: Disk): set<nat> {
    set s: nat | s < |disk| && disk[s][ID] == BOOT
  }

  lemma FreeingShrinks(disk: Disk, block: Word, heap: Heap)
    requires IsBoot(disk, block, heap)
    ensures Boots(disk[Slot(block) := Freed(disk[Slot(block)], heap)]) < Boots(disk)
  {
    assert Slot(block) in Boots(disk);
  }

  /** The block numbers erase_slb visits, and the disk it leaves. */
  ghost function Erase(disk: Disk, block: Word, heap: Heap): (r: (Disk, seq<Word>))
    decreases Boots(disk)
  {
    if !IsBoot(disk, block, heap) then (disk, []) else
      var blk := disk[Slot(block)];
      FreeingShrinks(disk, block, heap);
      var (d, path) := Erase(disk[Slot(block) := Freed(blk, heap)], blk[NEXT], heap);
      (d, [block] + path)
  }

  /** Terminates on every disk, cyclic chains included: each round turns one BOOT block into a free one. */
  method EraseSlb(dev: Device, rdb: Block, heap: Heap)
    modifies dev
    ensures dev.blocks == Erase(old(dev.blocks), rdb[BOOT_LIST], heap).0
  {
    var block := rdb[BOOT_LIST];
    ghost var goal := Erase(dev.blocks, block, heap).0;
    var blk, ok := ReadBlock(dev, block, heap);
    while block != FREE && ok && blk[ID] == BOOT
      invariant blk == dev.blocks[Slot(block)]
      invariant ok <==> BlockSum(blk, heap) == 0
      invariant Erase(dev.blocks, block, heap).0 == goal
      decreases Boots(dev.blocks)
    {
      FreeingShrinks(dev.blocks, block, heap);
      blk := blk[ID := FREE];
      blk := CalculateChecksum(blk, heap);
      WriteBlock(dev, blk, block);
      block := blk[NEXT];
      blk, ok := ReadBlock(dev, block, heap);
    }
  }

  // ---- allocating free blocks ------------------------------------------------------------

  predicate IsFree(b: Block) {
    b[ID] !in {RDSK, BADB, PART, FSHD, LSEG, BOOT}
  }

  /** Where the do-while of next_free_block stops: it always advances once, past limit too. */
  function SearchEnd(disk: Disk, from: nat, limit: nat): (q: nat)
    requires from < REACH - 1 && limit < REACH
    ensures from < q && (q <= limit || q == from + 1)
    ensures forall j :: from < j < q ==> disk[j][ID] in {RDSK, BADB, PART, FSHD, LSEG, BOOT}
    ensures disk[q][ID] !in {RDSK, BADB, PART, FSHD, LSEG, BOOT} || q >= limit
    decreases limit - from
  {
    if IsFree(disk[from + 1]) || from + 1 >= limit then from + 1 else SearchEnd(disk, from + 1, limit)
  }

  /** A block whose checksum is wrong is free as well: the continue of the source re-tests the condition. */
  method NextFreeBlock(dev: Device, pointer: nat, limit: nat, heap: Heap) returns (ok: bool, pointer': nat)
    requires pointer < REACH - 1 && limit < REACH
    ensures pointer' == SearchEnd(dev.blocks, pointer, limit)
    ensures ok <==> dev.blocks[pointer'][ID] !in {RDSK, BADB, PART, FSHD, LSEG, BOOT}
  {
    pointer' := pointer + 1;
    var blk, valid := ReadBlock(dev, pointer', heap);
    while !IsFree(blk) && pointer' < limit
      invariant pointer < pointer' < REACH
      invariant blk == dev.blocks[pointer']
      invariant SearchEnd(dev.blocks, pointer, limit) == SearchEnd(dev.blocks, pointer' - 1, limit)
      decreases limit - pointer'
    {
      pointer' := pointer' + 1;
      blk, valid := ReadBlock(dev, pointer', heap);
    }
    ok := IsFree(blk);
  }

  /** The blocks that up to want successive searches find. */
  function Picks(disk: Disk, from: nat, limit: nat, want: nat): (r: seq<Word>)
    requires from + want < REACH && limit + want < REACH
    ensures |r| <= want
    ensures forall i :: 0 <= i < |r| ==> from < r[i] < REACH && disk[r[i]][ID] !in {RDSK, BADB, PART, FSHD, LSEG, BOOT}
    ensures forall i, j :: 0 <= i < j < |r| ==> r[i] < r[j]
    decreases want
  {
    if want == 0 then [] else
      var q := SearchEnd(disk, from, limit);
      if IsFree(disk[q]) then [q as Word] + Picks(disk, q, limit, want - 1) else []
  }

  // ---- writing the new chain -------------------------------------------------------------

  /** Boot blocks needed for n words. */
  function Count(n: nat): nat {
    (n + 122) / 123
  }

  lemma CountBounds(n: nat, k: nat)
    ensures k < Count(n) <==> DATA_WORDS * k < n
    ensures k == Count(n) ==> DATA_WORDS * k < n + DATA_WORDS
  {
  }

  /** All blocks found but the last, which is only looked ahead at. */
  function WrittenCount(picks: seq<Word>): nat {
    if picks == [] then 0 else |picks| - 1
  }

  /** The i-th block of the chain for the image slb on the blocks picks. */
  function SlbBlock(picks: seq<Word>, i: nat, slb: seq<Word>, tail: Tail, heap: Heap): Block
    requires i + 1 < |picks| && DATA_WORDS * i < |slb|
  {
    var rest := |slb| - DATA_WORDS * i;
    var last := rest <= DATA_WORDS;
    var longs: Word := if last then 5 + rest else 128;
    var next: Word := if last then FREE else picks[i + 1];
    Fixed([BOOT, longs, 0, 0, next] + (slb + tail)[DATA_WORDS * i..DATA_WORDS * i + DATA_WORDS], heap)
  }

  /** The disk after the first k blocks of the chain have been written. */
  function Written(disk: Disk, picks: seq<Word>, k: nat, slb: seq<Word>, tail: Tail, heap: Heap): Disk
    requires k <= WrittenCount(picks) && |picks| <= Count(|slb|) + 1
    decreases k
  {
    if k == 0 then disk else
      CountBounds(|slb|, k - 1);
      Written(disk, picks, k - 1, slb, tail, heap)[Slot(picks[k - 1]) := SlbBlock(picks, k - 1, slb, tail, heap)]
  }

  /** The search limit: the 32-bit difference of the bounds that the RDB gives for hard blocks, taken as a block number. */
  function Limit(rdb: Block): Word {
    Wrap(rdb[BLOCKS_HI] as int - rdb[BLOCKS_LO])
  }

  /** The search limit and an image behind it lie within the blocks that a 32-bit position reaches. */
  predicate Reachable(rdb: Block, n: nat) {
    Limit(rdb) + Count(n) + 1 < REACH
  }

  function AllPicks(disk: Disk, rdb: Block, n: nat): seq<Word>
    requires Reachable(rdb, n)
  {
    Picks(disk, 0, Limit(rdb), Count(n) + 1)
  }

  /** A filled buffer gives the chain block whatever its checksum word held. */
  lemma BuiltBlock(blk: Block, picks: seq<Word>, i: nat, slb: seq<Word>, tail: Tail, heap: Heap)
    requires i + 1 < |picks| && DATA_WORDS * i < |slb|
    requires var rest := |slb| - DATA_WORDS * i;
             && blk[ID] == BOOT && blk[3] == 0
             && blk[LONGS] == (if rest <= DATA_WORDS then 5 + rest else 128)
             && blk[NEXT] == (if rest <= DATA_WORDS then FREE else picks[i + 1])
             && blk[DATA..] == (slb + tail)[DATA_WORDS * i..DATA_WORDS * i + DATA_WORDS]
    ensures Fixed(blk, heap) == SlbBlock(picks, i, slb, tail, heap)
  {
    FixedForgets(blk, 0, heap);
    assert blk[CHK := 0] == [BOOT, blk[LONGS], 0, 0, blk[NEXT]] + blk[DATA..];
  }

  /** The body of the loop of install_slb between the allocation and the write. */
  method FillBlock(junk: Block, next: Word, ghost picks: seq<Word>, ghost i: nat, offset: nat,
                   slb: seq<Word>, tail: Tail, heap: Heap)
    returns (blk: Block)
    requires i + 1 < |picks| && picks[i + 1] == next && offset == DATA_WORDS * i < |slb|
    ensures blk == SlbBlock(picks, i, slb, tail, heap)
  {
    blk := junk[ID := BOOT][LONGS := 128][3 := 0][NEXT := next];
    if |slb| - offset <= DATA_WORDS {
      blk := blk[LONGS := 5 + |slb| - offset][NEXT := FREE];
    }
    blk := blk[..DATA] + (slb + tail)[offset..offset + DATA_WORDS];
    BuiltBlock(blk, picks, i, slb, tail, heap);
    blk := CalculateChecksum(blk, heap);
  }

  /** One more search extends what has been found, or ends it. */
  lemma PicksStep(disk: Disk, picks: seq<Word>, i: nat, from: nat, limit: nat, want: nat)
    requires from + want < REACH && limit + want < REACH && i < |picks| && want > 0
    requires picks == picks[..i + 1] + Picks(disk, from, limit, want)
    ensures var q := SearchEnd(disk, from, limit);
            if IsFree(disk[q])
            then i + 1 < |picks| && picks[i + 1] == q && picks == picks[..i + 2] + Picks(disk, q, limit, want - 1)
            else |picks| == i + 1
  {
    var rest := Picks(disk, from, limit, want);
    assert rest == picks[i + 1..];
    if rest != [] {
      assert picks[i + 2..] == rest[1..];
    }
  }

  /** Between rounds of install_slb: i blocks written, picks[i] allocated, the disk behind it untouched. */
  ghost predicate Midway(now: Disk, disk: Disk, picks: seq<Word>, i: nat, limit: nat,
                         slb: seq<Word>, tail: Tail, heap: Heap)
  {
    && i <= Count(|slb|) && DATA_WORDS * i < |slb| + DATA_WORDS
    && i < |picks| <= Count(|slb|) + 1 && picks[i] <= limit + i + 1 && limit + Count(|slb|) + 1 < REACH
    && picks == picks[..i + 1] + Picks(disk, picks[i], limit, Count(|slb|) - i)
    && now == Written(disk, picks, i, slb, tail, heap)
    && (forall j :: picks[i] <= j < REACH ==> now[j] == disk[j])
  }

  lemma MidwayStep(now: Disk, disk: Disk, picks: seq<Word>, i: nat, limit: nat,
                   slb: seq<Word>, tail: Tail, heap: Heap)
    requires Midway(now, disk, picks, i, limit, slb, tail, heap) && DATA_WORDS * i < |slb|
    ensures i < |picks| && picks[i] < REACH - 1 && limit < REACH
    ensures var q := SearchEnd(now, picks[i], limit);
            if IsFree(now[q])
            then && i + 1 < |picks| && picks[i + 1] == q
                 && Midway(now[Slot(picks[i]) := SlbBlock(picks, i, slb, tail, heap)],
                           disk, picks, i + 1, limit, slb, tail, heap)
            else |picks| == i + 1
  {
    hide SlbBlock, SearchEnd, Picks;
    CountBounds(|slb|, i);
    CountBounds(|slb|, i + 1);
    SearchAgrees(disk, now, picks[i], limit);
    PicksStep(disk, picks, i, picks[i], limit, Count(|slb|) - i);
  }

  /** One round of the loop of install_slb. */
  method InstallRound(dev: Device, limit: nat, block: Word, junk: Block, offset: nat,
                      slb: seq<Word>, tail: Tail, heap: Heap,
                      ghost disk: Disk, ghost picks: seq<Word>, ghost i: nat)
    returns (ok: bool, next: Word, blk: Block)
    requires Midway(dev.blocks, disk, picks, i, limit, slb, tail, heap)
    requires offset == DATA_WORDS * i < |slb| && block == picks[i]
    modifies dev
    ensures ok ==> Midway(dev.blocks, disk, picks, i + 1, limit, slb, tail, heap) && next == picks[i + 1]
    ensures !ok ==> |picks| == i + 1 && dev.blocks == old(dev.blocks)
  {
    hide Midway, SlbBlock, SearchEnd;
    MidwayStep(dev.blocks, disk, picks, i, limit, slb, tail, heap);
    blk := junk;
    ok, next := NextFreeBlock(dev, block, limit, heap);
    if ok {
      blk := FillBlock(blk, next, picks, i, offset, slb, tail, heap);
      WriteBlock(dev, blk, block);
    }
  }

  lemma MidwayStarts(disk: Disk, rdb: Block, slb: seq<Word>, tail: Tail, heap: Heap)
    requires Reachable(rdb, |slb|)
    ensures var picks, limit := AllPicks(disk, rdb, |slb|), Limit(rdb);
            && limit < REACH
            && var q := SearchEnd(disk, 0, limit);
               if IsFree(disk[q])
               then picks != [] && picks[0] == q && Midway(disk, disk, picks, 0, limit, slb, tail, heap)
               else picks == [] && Written(disk, picks, WrittenCount(picks), slb, tail, heap) == disk
                    && |picks| != Count(|slb|) + 1
  {
    hide SearchEnd;
    var picks := AllPicks(disk, rdb, |slb|);
    if picks != [] {
      assert picks[..1] == [picks[0]];
    }
  }

  lemma MidwayInside(now: Disk, disk: Disk, picks: seq<Word>, i: nat, limit: nat,
                     slb: seq<Word>, tail: Tail, heap: Heap)
    requires Midway(now, disk, picks, i, limit, slb, tail, heap)
    ensures i < |picks|
  {
  }

  /** The loop ends with the whole image written or with no block found. */
  lemma MidwayEnds(now: Disk, disk: Disk, picks: seq<Word>, i: nat, limit: nat,
                   slb: seq<Word>, tail: Tail, heap: Heap)
    requires Midway(now, disk, picks, i, limit, slb, tail, heap)
    requires DATA_WORDS * i >= |slb| || |picks| == i + 1
    ensures i < |picks| <= Count(|slb|) + 1 && WrittenCount(picks) == i
    ensures now == Written(disk, picks, i, slb, tail, heap)
    ensures |picks| == Count(|slb|) + 1 <==> DATA_WORDS * i >= |slb|
  {
    hide SlbBlock, SearchEnd, Written, Picks;
    CountBounds(|slb|, i);
  }

  /** done reports whether the run printed " done!" rather than "Not enough free blocks!". */
  method InstallSlb(dev: Device, rdb: Block, slb: seq<Word>, tail: Tail, junk: Block, heap: Heap)
    returns (rdb': Block, done: bool)
    requires Reachable(rdb, |slb|)
    modifies dev
    ensures var picks := AllPicks(old(dev.blocks), rdb, |slb|);
            && (done <==> |picks| == Count(|slb|) + 1)
            && rdb' == Relinked(rdb, picks)
            && dev.blocks == Written(old(dev.blocks), picks, WrittenCount(picks), slb, tail, heap)
  {
    hide SlbBlock, SearchEnd, Midway, Written, Picks, Count, Limit;
    var limit := Limit(rdb);
    ghost var disk := dev.blocks;
    ghost var picks := AllPicks(disk, rdb, |slb|);
    MidwayStarts(disk, rdb, slb, tail, heap);
    rdb' := rdb;
    var ok, block := NextFreeBlock(dev, 0, limit, heap);
    if !ok {
      return rdb', false;
    }
    rdb' := rdb'[BOOT_LIST := block];
    var blk, offset := junk, 0;
    ghost var i: nat := 0;
    while offset < |slb|
      invariant Midway(dev.blocks, disk, picks, i, limit, slb, tail, heap) && i < |picks|
      invariant offset == DATA_WORDS * i && block == picks[i] && picks[0] == rdb'[BOOT_LIST]
    {
      ok, block, blk := InstallRound(dev, limit, block, blk, offset, slb, tail, heap, disk, picks, i);
      if !ok {
        MidwayEnds(dev.blocks, disk, picks, i, limit, slb, tail, heap);
        return rdb', false;
      }
      MidwayInside(dev.blocks, disk, picks, i + 1, limit, slb, tail, heap);
      offset := offset + DATA_WORDS;
      i := i + 1;
    }
    MidwayEnds(dev.blocks, disk, picks, i, limit, slb, tail, heap);
    done := true;
  }

  /** A search sees only the blocks behind its starting point. */
  lemma {:induction false} SearchAgrees(d: Disk, d': Disk, from: nat, limit: nat)
    requires from < REACH - 1 && limit < REACH
    requires forall j :: from < j < REACH ==> (IsFree(d[j]) <==> IsFree(d'[j]))
    ensures SearchEnd(d, from, limit) == SearchEnd(d', from, limit)
    decreases limit - from
  {
    if !IsFree(d[from + 1]) && from + 1 < limit {
      SearchAgrees(d, d', from + 1, limit);
    }
  }

  // ---- the whole run ---------------------------------------------------------------------

  /** The RDB as install_slb leaves it in memory. */
  function Relinked(rdb: Block, picks: seq<Word>): Block {
    if picks == [] then rdb else rdb[BOOT_LIST := picks[0]]
  }

  /** The RDB is block i, and its search limit is addressable together with an image of n words behind it. */
  predicate Ready(disk: Disk, i: nat, n: nat, heap: Heap) {
    IsFirstRdb(disk, i, heap) && Reachable(disk[i], n)
  }

  /** The disk after the old chain has been erased. */
  ghost function ErasedDisk(disk: Disk, i: nat, heap: Heap): Disk
    requires i < RDB_LIMIT
  {
    Erase(disk, disk[i][BOOT_LIST], heap).0
  }

  /** The blocks a run finds for an image of n words. */
  ghost function RunPicks(disk: Disk, i: nat, n: nat, heap: Heap): seq<Word>
    requires Ready(disk, i, n, heap)
  {
    AllPicks(ErasedDisk(disk, i, heap), disk[i], n)
  }

  /** The disk a run of the installer leaves. */
  ghost function AfterRun(disk: Disk, i: nat, slb: seq<Word>, tail: Tail, heap: Heap): Disk
    requires Ready(disk, i, |slb|, heap)
  {
    var picks := RunPicks(disk, i, |slb|, heap);
    var written := Written(ErasedDisk(disk, i, heap), picks, WrittenCount(picks), slb, tail, heap);
    written[i := Fixed(Relinked(disk[i], picks), heap)]
  }

  /** The sequence in main, once the device is open and the image is in memory. */
  method Run(dev: Device, slb: seq<Word>, tail: Tail, junk: Block, heap: Heap) returns (code: int)
    requires forall i: nat :: IsFirstRdb(dev.blocks, i, heap) ==> Reachable(dev.blocks[i], |slb|)
    modifies dev
    ensures code == 0 || code == -1
    ensures code == -1 ==> dev.blocks == old(dev.blocks)
                           && forall j :: 0 <= j < RDB_LIMIT ==> !IsRdb(dev.blocks[j], heap)
    ensures code == 0 ==> exists i: nat :: IsFirstRdb(old(dev.blocks), i, heap)
                                      && dev.blocks == AfterRun(old(dev.blocks), i, slb, tail, heap)
  {
    hide Written, Erase, AllPicks, Fixed, IsFirstRdb;
    var found := FindRdb(dev, heap);
    if found.None? {
      return -1;
    }
    var rdb := dev.blocks[found.value];
    EraseSlb(dev, rdb, heap);
    var done;
    rdb, done := InstallSlb(dev, rdb, slb, tail, junk, heap);
    rdb := CalculateChecksum(rdb, heap);
    WriteBlock(dev, rdb, found.value);
    assert dev.blocks == AfterRun(old(dev.blocks), found.value, slb, tail, heap);
    return 0;
  }
}
