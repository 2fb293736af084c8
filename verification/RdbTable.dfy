/** The partition table of src/rdb.c: a chain of partition blocks read into a table of 16 slots. */
module RdbTable {
  import opened Options
  import opened Words
  import opened Support
  import opened Installer

  const SLOTS := 16

  // Word positions in the RDB and in a partition block.
  const BLOCK_BYTES := 4
  const PARTITION_LIST := 7
  const DRIVE_NAME := 9
  const ENVIRONMENT := 32

  /** A hard disk; a read may fail. */
  datatype Unit = Unit(read: Word -> Option<Block>)

  // ---- the RDB ---------------------------------------------------------------------------

  predicate HasRdb(u: Unit, i: Word, heap: Heap) {
    u.read(i).Some? && u.read(i).value[ID] == RDSK && BlockSum(u.read(i).value, heap) == 0
  }

  /** get_rdb. */
  method GetRdb(u: Unit, heap: Heap) returns (rdb: Option<Block>)
    ensures match rdb
            case Some(b) => exists i: Word :: i < 16 && u.read(i) == Some(b) && b[ID] == RDSK && BlockSum(b, heap) == 0
                                              && forall j: Word :: j < i ==> !HasRdb(u, j, heap)
            case None => forall i: Word :: i < 16 ==> !HasRdb(u, i, heap)
  {
    hide BlockSum;
    var i: Word := 0;
    while i < RDB_LIMIT
      invariant i <= RDB_LIMIT && forall j: Word :: j < i ==> !HasRdb(u, j, heap)
    {
      var res := u.read(i);
      if res.Some? && res.value[ID] == RDSK {
        var sum := Checksum(res.value, heap);
        if sum == 0 {
          assert HasRdb(u, i, heap);
          return res;
        }
      }
      i := i + 1;
    }
    return None;
  }

  // ---- the chain -------------------------------------------------------------------------

  /** The partition block at a block number, if there is one. */
  function PartAt(u: Unit, block: Word): Option<Block> {
    if block == FREE then None
    else match u.read(block)
         case None => None
         case Some(b) => if b[ID] == PART then Some(b) else None
  }

  /** The block part places down the chain; the chain may be cyclic. */
  function Nth(u: Unit, block: Word, part: nat): Option<Block>
    decreases part
  {
    match PartAt(u, block)
    case None => None
    case Some(b) => if part == 0 then Some(b) else Nth(u, b[NEXT], part - 1)
  }

  /** How long the chain is, as far as limit blocks. */
  function Length(u: Unit, block: Word, limit: nat): (n: nat)
    ensures n <= limit
    decreases limit
  {
    if limit == 0 then 0
    else match PartAt(u, block)
         case None => 0
         case Some(b) => 1 + Length(u, b[NEXT], limit - 1)
  }

  /** The partitions that exist are numbered from 0 without a gap. */
  lemma {:induction false} NthIffShort(u: Unit, block: Word, limit: nat, part: nat)
    requires part < limit
    ensures Nth(u, block, part).Some? <==> part < Length(u, block, limit)
    decreases part
  {
    var b := PartAt(u, block);
    if b.Some? && part > 0 {
      NthIffShort(u, b.value[NEXT], limit - 1, part - 1);
    }
  }

  /** A partition block that names itself as the next one is every partition. */
  lemma {:induction false} SelfLoopIsEveryPart(u: Unit, block: Word, part: nat)
    requires PartAt(u, block).Some? && PartAt(u, block).value[NEXT] == block
    ensures Nth(u, block, part) == PartAt(u, block)
  {
    if part > 0 {
      SelfLoopIsEveryPart(u, block, part - 1);
    }
  }

  // ---- the loop of get_partition_info, step by step --------------------------------------

  datatype Scan = At(block: Word, part: nat) | Found(b: Block) | Missing

  /** One round; a partition block whose checksum fails leaves everything as it was. */
  function Step(u: Unit, s: Scan, heap: Heap): Scan {
    if !s.At? then s
    else match PartAt(u, s.block)
         case None => Missing
         case Some(b) =>
           if BlockSum(b, heap) != 0 then s
           else if s.part == 0 then Found(b)
           else At(b[NEXT], s.part - 1)
  }

  function After(u: Unit, s: Scan, n: nat, heap: Heap): Scan
    decreases n
  {
    if n == 0 then s else After(u, Step(u, s, heap), n - 1, heap)
  }

  /** Every partition block up to the one asked for has a good checksum. */
  predicate Sound(u: Unit, block: Word, part: nat, heap: Heap)
    decreases part
  {
    match PartAt(u, block)
    case None => true
    case Some(b) => BlockSum(b, heap) == 0 && (part > 0 ==> Sound(u, b[NEXT], part - 1, heap))
  }

  function Outcome(u: Unit, block: Word, part: nat): Scan {
    match Nth(u, block, part) case None => Missing case Some(b) => Found(b)
  }

  lemma {:induction false} SoundEnds(u: Unit, block: Word, part: nat, heap: Heap)
    requires Sound(u, block, part, heap)
    ensures After(u, At(block, part), part + 1, heap) == Outcome(u, block, part)
    decreases part
  {
    hide BlockSum;
    var b := PartAt(u, block);
    if b == None || part == 0 {
      EndStays(u, Outcome(u, block, part), part, heap);
    } else {
      SoundEnds(u, b.value[NEXT], part - 1, heap);
    }
  }

  lemma {:induction false} EndStays(u: Unit, s: Scan, n: nat, heap: Heap)
    requires !s.At?
    ensures After(u, s, n, heap) == s
    decreases n
  {
    hide BlockSum;
    if n > 0 {
      EndStays(u, s, n - 1, heap);
    }
  }

  lemma {:induction false} UnsoundRuns(u: Unit, block: Word, part: nat, n: nat, heap: Heap)
    requires !Sound(u, block, part, heap)
    ensures After(u, At(block, part), n, heap).At?
    decreases n
  {
    hide BlockSum;
    if n > 0 {
      var b := PartAt(u, block).value;
      if BlockSum(b, heap) != 0 {
        UnsoundRuns(u, block, part, n - 1, heap);
      } else {
        UnsoundRuns(u, b[NEXT], part - 1, n - 1, heap);
      }
    }
  }

  /** The loop ends, with the block at that place of the chain, exactly if no partition block on the
      way has a bad checksum; cyclic chains included. */
  lemma ScanEndsIff(u: Unit, block: Word, part: nat, heap: Heap)
    ensures (exists n: nat :: !After(u, At(block, part), n, heap).At?) <==> Sound(u, block, part, heap)
    ensures Sound(u, block, part, heap) ==>
              forall n: nat :: !After(u, At(block, part), n, heap).At?
                               ==> After(u, At(block, part), n, heap) == Outcome(u, block, part)
  {
    hide After, Sound, Nth, Step;
    if Sound(u, block, part, heap) {
      SoundEnds(u, block, part, heap);
      forall n: nat | !After(u, At(block, part), n, heap).At?
        ensures After(u, At(block, part), n, heap) == Outcome(u, block, part)
      {
        EndsAgree(u, At(block, part), n, part + 1, heap);
      }
    } else {
      forall n: nat ensures After(u, At(block, part), n, heap).At? {
        UnsoundRuns(u, block, part, n, heap);
      }
    }
  }

  lemma {:induction false} EndsAgree(u: Unit, s: Scan, n: nat, m: nat, heap: Heap)
    requires !After(u, s, n, heap).At? && !After(u, s, m, heap).At?
    ensures After(u, s, n, heap) == After(u, s, m, heap)
    decreases n
  {
    hide BlockSum;
    if !s.At? {
      EndStays(u, s, n, heap);
      EndStays(u, s, m, heap);
    } else {
      EndsAgree(u, Step(u, s, heap), n - 1, m - 1, heap);
    }
  }

  // ---- what a slot holds -----------------------------------------------------------------

  /** start, size and blksz of disk_partition_t, and the five characters of its type. */
  datatype Info = Info(start: Word, size: Word, blksz: Word, kind: string)

  datatype Partition = Partition(name: string, number: nat, info: Info)

  /** Byte i of a block, most significant byte of a word first. */
  function ByteOf(b: Block, i: nat): char
    requires i < 512
  {
    var w := b[i / 4];
    (match i % 4 case 0 => w / 0x100_0000 case 1 => w / 0x1_0000 % 0x100 case 2 => w / 0x100 % 0x100 case _ => w % 0x100)
    as char
  }

  function DriveName(b: Block): (s: string)
    ensures |s| == 32
  {
    seq(32, i requires 0 <= i < 32 => ByteOf(b, 4 * DRIVE_NAME + i))
  }

  /** The name behind its length byte. With a length byte of zero nothing behind it is copied, and
      what the name shows was in the memory before. */
  function NameOf(b: Block, junk: string): (r: string)
    ensures '\0' !in r
  {
    if ByteOf(b, 4 * DRIVE_NAME) == '\0' then CString(junk) else CString(DriveName(b)[1..])
  }

  /** A drive name as AmigaOS stores it, its length first, is read back. */
  lemma NameReads(b: Block, name: string, junk: string)
    requires 0 < |name| < 31 && '\0' !in name
    requires DriveName(b)[0] == |name| as char && DriveName(b)[1..|name| + 2] == name + ['\0']
    ensures NameOf(b, junk) == name
  {
    hide ByteOf;
    var s := DriveName(b)[1..];
    assert DriveName(b)[0] == ByteOf(b, 4 * DRIVE_NAME + 0);
    assert s[..|name| + 1] == name + ['\0'];
    forall i | 0 <= i < |name| ensures s[i] == name[i] {
      assert s[..|name| + 1][i] == name[i];
    }
    assert s[..|name| + 1][|name|] == '\0';
    IndexOfIs(s, '\0', |name|);
  }

  function Env(b: Block, i: nat): Word
    requires i < 17
  {
    b[ENVIRONMENT + i]
  }

  function Start(b: Block): Word {
    Wrap(Env(b, 9) * Env(b, 5) * Env(b, 3))
  }

  function Extent(b: Block): Word {
    Wrap((Env(b, 10) - Env(b, 9) + 1) * Env(b, 5) * Env(b, 3) - 1)
  }

  /** The four bytes of a DOS type, the last one as a digit behind a backslash. */
  function KindOf(dos: Word): string {
    var b := BeBytes(dos);
    [b[0] as char, b[1] as char, b[2] as char, '\\', ((b[3] as int + 48) % 0x100) as char]
  }

  function InfoOf(b: Block, rdb: Block): Info {
    Info(Start(b), Extent(b), rdb[BLOCK_BYTES], KindOf(Env(b, 16)))
  }

  function PartitionOf(b: Block, rdb: Block, number: nat, junk: string): Partition {
    Partition(NameOf(b, junk), number, InfoOf(b, rdb))
  }

  /** The 32-bit values of one extent of cylinders, when none wraps around. */
  predicate FitsWords(b: Block) {
    Env(b, 9) <= Env(b, 10) && (Env(b, 10) + 1) * Env(b, 5) * Env(b, 3) <= TWO32 && Env(b, 5) * Env(b, 3) > 0
  }

  /** start is the first block of the cylinders given and start + size the last one: size is one
      less than their number of blocks. */
  lemma InfoIsExtent(b: Block, rdb: Block)
    requires FitsWords(b)
    ensures var per, i := Env(b, 5) * Env(b, 3), InfoOf(b, rdb);
            i.start == Env(b, 9) * per && i.start + i.size == (Env(b, 10) + 1) * per - 1
  {
    hide Wrap, KindOf, Env;
    var surfaces: nat, track: nat, low: nat, high: nat := Env(b, 3), Env(b, 5), Env(b, 9), Env(b, 10);
    Products(low, high, track, surfaces);
    WrapFits(low * track * surfaces);
    WrapFits((high - low + 1) * track * surfaces - 1);
  }

  lemma WrapFits(x: int)
    requires 0 <= x < TWO32
    ensures Wrap(x) == x
  {
  }

  lemma Products(low: nat, high: nat, track: nat, surfaces: nat)
    requires low <= high && track * surfaces > 0
    ensures low * track * surfaces == low * (track * surfaces)
    ensures (high - low + 1) * track * surfaces == (high + 1) * (track * surfaces) - low * (track * surfaces)
    ensures (high + 1) * track * surfaces == (high + 1) * (track * surfaces)
    ensures (high - low + 1) * track * surfaces >= 1
    ensures 0 <= low * (track * surfaces) < (high + 1) * (track * surfaces)
  {
    var per := track * surfaces;
    Associate(low, track, surfaces);
    Associate(high - low + 1, track, surfaces);
    Associate(high + 1, track, surfaces);
    AtLeast(high - low + 1, per);
    Spread(high + 1, low, per);
  }

  lemma Associate(a: nat, b: nat, c: nat)
    ensures a * b * c == a * (b * c)
  {
  }

  lemma AtLeast(a: nat, p: nat)
    requires a > 0 && p > 0
    ensures a * p >= 1
  {
  }

  lemma Spread(a: nat, b: nat, p: nat)
    requires b < a && p > 0
    ensures (a - b) * p == a * p - b * p && 0 <= b * p < a * p
  {
    AtLeast(a - b, p);
  }

  /** Partitions on separate cylinders of the same geometry share no block. */
  lemma PartitionsApart(a: Block, b: Block, rdb: Block)
    requires FitsWords(a) && FitsWords(b) && Env(a, 3) == Env(b, 3) && Env(a, 5) == Env(b, 5) && Env(a, 10) < Env(b, 9)
    ensures InfoOf(a, rdb).start + InfoOf(a, rdb).size < InfoOf(b, rdb).start
  {
    InfoIsExtent(a, rdb);
    InfoIsExtent(b, rdb);
    NotLess(Env(a, 10) + 1, Env(b, 9), Env(a, 5) * Env(a, 3));
  }

  lemma NotLess(a: nat, b: nat, p: nat)
    requires a <= b
    ensures a * p <= b * p
  {
  }

  // ---- the table -------------------------------------------------------------------------

  /** get_partition_info up to the block it decodes. */
  method GetPartition(u: Unit, rdb: Block, number: nat, heap: Heap) returns (p: Option<Block>)
    requires Sound(u, rdb[PARTITION_LIST], number, heap)
    ensures p == Nth(u, rdb[PARTITION_LIST], number)
  {
    hide BlockSum;
    var block, part := rdb[PARTITION_LIST], number;
    while block != FREE
      invariant part >= 0 && Sound(u, block, part, heap)
      invariant Nth(u, block, part) == Nth(u, rdb[PARTITION_LIST], number)
      decreases part, if block == FREE then 0 else 1
    {
      var read := u.read(block);
      if read.Some? && read.value[ID] == PART {
        var sum := Checksum(read.value, heap);
        assert sum == 0;
        if part == 0 {
          return read;
        }
        part := part - 1;
        block := read.value[NEXT];
      } else {
        return None;
      }
    }
    return None;
  }

  /** What slot i holds after initialisation. */
  function SlotOf(u: Unit, rdb: Block, i: nat, junk: string): Option<Partition> {
    match Nth(u, rdb[PARTITION_LIST], i)
    case None => None
    case Some(b) => Some(PartitionOf(b, rdb, i, junk))
  }

  predicate Filled(slots: seq<Option<Partition>>, n: nat) {
    n <= |slots| && forall i :: 0 <= i < |slots| ==> (slots[i].Some? <==> i < n)
  }

  predicate AllNames(slots: seq<Option<Partition>>) {
    forall i :: 0 <= i < |slots| && slots[i].Some? ==> '\0' !in slots[i].value.name
  }

  class Table {
    const slots: array<Option<Partition>>
    ghost var count: nat

    constructor (entries: array<Option<Partition>>)
      requires entries.Length == SLOTS && forall i :: 0 <= i < SLOTS ==> entries[i] == None
      ensures slots == entries && Valid() && count == 0
    {
      slots, count := entries, 0;
    }

    /** The filled slots come first; readers stop at the first empty one. */
    ghost predicate Valid()
      reads this, slots
    {
      slots.Length == SLOTS && Filled(slots[..], count) && AllNames(slots[..])
    }

    /** RdbPartitionTable_init. With an RDB, the table holds the first blocks of the chain in order,
        as many as there are, up to 16. */
    method Init(u: Unit, rdb: Option<Block>, junk: string, heap: Heap)
      requires slots.Length == SLOTS
      requires rdb.Some? ==> Sound(u, rdb.value[PARTITION_LIST], SLOTS - 1, heap)
      modifies this, slots
      ensures Valid()
      ensures rdb == None ==> count == 0
      ensures rdb.Some? ==> count == Length(u, rdb.value[PARTITION_LIST], 16)
                            && forall i :: 0 <= i < 16 ==> slots[i] == SlotOf(u, rdb.value, i, junk)
    {
      hide PartitionOf, Length, Nth, Sound, PartAt;
      var i := 0;
      while i < SLOTS
        invariant 0 <= i <= SLOTS && forall j :: 0 <= j < i ==> slots[j] == None
      {
        slots[i] := None;
        i := i + 1;
      }
      count := 0;
      if rdb == None {
        return;
      }
      ghost var list := rdb.value[PARTITION_LIST];
      i := 0;
      while i < SLOTS
        invariant 0 <= i <= SLOTS
        invariant forall j :: 0 <= j < i ==> slots[j] == SlotOf(u, rdb.value, j, junk)
        invariant forall j :: i <= j < SLOTS ==> slots[j] == None
      {
        SoundBefore(u, list, SLOTS - 1, i, heap);
        var p := GetPartition(u, rdb.value, i, heap);
        if p.Some? {
          slots[i] := Some(PartitionOf(p.value, rdb.value, i, junk));
        }
        i := i + 1;
      }
      count := Length(u, list, SLOTS);
      forall j | 0 <= j < SLOTS
        ensures (slots[j].Some? <==> j < count) && (slots[j].Some? ==> '\0' !in slots[j].value.name)
      {
        NthIffShort(u, list, SLOTS, j);
        HasName(u, rdb.value, j, junk);
      }
    }

    /** RdbPartitionTable_get. */
    method Get(partition: Byte) returns (r: Option<Partition>)
      requires Valid()
      ensures r == if partition < count then slots[partition] else None
      ensures r.Some? <==> partition < count
    {
      if partition >= SLOTS || slots[partition] == None {
        return None;
      }
      return slots[partition];
    }

    /** RdbPartitionTable_getbyname: the lowest match of the whole table, though the search ends at the
        first empty slot. */
    method GetByName(name: string) returns (r: Option<Partition>)
      requires Valid() && '\0' !in name
      ensures match r
              case Some(p) => exists i :: 0 <= i < SLOTS && slots[i] == Some(p) && EqualFold(name, p.name)
                                          && forall j :: 0 <= j < i && slots[j].Some?
                                                         ==> !EqualFold(name, slots[j].value.name)
              case None => forall i :: 0 <= i < SLOTS && slots[i].Some? ==> !EqualFold(name, slots[i].value.name)
    {
      hide EqualFold;
      var i := 0;
      while i < SLOTS && slots[i] != None
        invariant 0 <= i <= SLOTS
        invariant forall j :: 0 <= j < i ==> slots[j].Some? && !EqualFold(name, slots[j].value.name)
      {
        assert slots[..][i] == slots[i];
        var diff := StrCaseCmp(name, slots[i].value.name);
        if diff == 0 {
          return slots[i];
        }
        i := i + 1;
      }
      if i < SLOTS {
        assert slots[..][i] == slots[i];
        forall j | i <= j < SLOTS ensures slots[j] == None {
          assert slots[..][j] == slots[j];
        }
      }
      return None;
    }
  }

  lemma {:induction false} SoundBefore(u: Unit, block: Word, part: nat, i: nat, heap: Heap)
    requires Sound(u, block, part, heap) && i <= part
    ensures Sound(u, block, i, heap)
    decreases part
  {
    hide BlockSum;
    var b := PartAt(u, block);
    if b.Some? && i > 0 {
      SoundBefore(u, b.value[NEXT], part - 1, i - 1, heap);
    }
  }

  lemma HasName(u: Unit, rdb: Block, i: nat, junk: string)
    ensures SlotOf(u, rdb, i, junk).Some? <==> Nth(u, rdb[PARTITION_LIST], i).Some?
    ensures SlotOf(u, rdb, i, junk).Some? ==> '\0' !in SlotOf(u, rdb, i, junk).value.name
  {
    hide Nth;
  }
}
