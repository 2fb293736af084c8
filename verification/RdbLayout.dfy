/**
 The RDB and the partition blocks as src/rdb.h lays them out, field by field, and what the partition
 table makes of a disk written in this way.
 */
module RdbLayout {
  import opened Options
  import opened Words
  import opened Support
  import opened Installer
  import opened RdbTable

  // ---- the RDB ---------------------------------------------------------------------------

  /** The fields of struct RigidDiskBlock that are looked at. */
  datatype Rdb = Rdb(summedLongs: Word, checksum: Word, blockBytes: Word, partitionList: Word, bootBlockList: Word,
                     blocksLo: Word, blocksHi: Word)

  /** What is in the other words, in the order of the structure. */
  datatype RdbRest = RdbRest(hostId: Word, flags: Word, badBlockList: Word, driveLists: seq<Word>, unused: seq<Word>,
                             tail: seq<Word>)

  /** struct RigidDiskBlock: rdb_FileSysHeaderList and rdb_DriveInit stand between the partition and
      the boot block list, 21 words between that and rdb_RDBBlocksLo. */
  function RdbBlock(r: Rdb, x: RdbRest): Block
    requires |x.driveLists| == 2 && |x.unused| == 21 && |x.tail| == 94
  {
    [RDSK, r.summedLongs, r.checksum, x.hostId, r.blockBytes, x.flags, x.badBlockList, r.partitionList]
    + x.driveLists + [r.bootBlockList] + x.unused + [r.blocksLo, r.blocksHi] + x.tail
  }

  /** Every field is read from its place. */
  lemma RdbReads(r: Rdb, x: RdbRest)
    requires |x.driveLists| == 2 && |x.unused| == 21 && |x.tail| == 94
    ensures var b := RdbBlock(r, x);
            && b[ID] == RDSK && b[LONGS] == r.summedLongs && b[CHK] == r.checksum && b[BLOCK_BYTES] == r.blockBytes
            && b[PARTITION_LIST] == r.partitionList && b[BOOT_LIST] == r.bootBlockList
            && b[BLOCKS_LO] == r.blocksLo && b[BLOCKS_HI] == r.blocksHi
  {
  }

  // ---- partition blocks ------------------------------------------------------------------

  /** The fields of struct PartitionBlock and of its struct AmigaPartitionGeometry that are looked at. */
  datatype Part = Part(name: string, surfaces: Word, blockPerTrack: Word, lowCyl: Word, highCyl: Word, dosType: Word)

  /** The other words: pb_SummedLongs, pb_ChkSum and pb_HostID; pb_Flags to pb_DevFlags; pb_Reserved2; in
      the geometry apg_TableSize to apg_Unused1, apg_SectorPerBlock, apg_Reserved to apg_Interleave
      and apg_NumBuffers to apg_BootPriority; and what is left of the block. */
  datatype PartRest = PartRest(sums: seq<Word>, flags: seq<Word>, reserved: seq<Word>, sizes: seq<Word>,
                               sectorPerBlock: Word, interleave: seq<Word>, buffers: seq<Word>, tail: seq<Word>)

  predicate RestFits(x: PartRest) {
    |x.sums| == 3 && |x.flags| == 4 && |x.reserved| == 15 && |x.sizes| == 3 && |x.interleave| == 3
    && |x.buffers| == 5 && |x.tail| == 79
  }

  /** A drive name: its length, its characters, and zeros up to 32 bytes. */
  function NameField(name: string): (s: string)
    requires |name| < 31
    ensures |s| == 32
  {
    [|name| as char] + name + seq(31 - |name|, _ => '\0')
  }

  function WordOfChars(s: string, i: nat): Word
    requires i + 4 <= |s| && forall c :: c in s ==> c as int < 0x100
  {
    assert s[i] in s && s[i + 1] in s && s[i + 2] in s && s[i + 3] in s;
    ((s[i] as int * 0x100 + s[i + 1] as int) * 0x100 + s[i + 2] as int) * 0x100 + s[i + 3] as int
  }

  predicate CleanName(name: string) {
    0 < |name| < 31 && forall c :: c in name ==> 0 < c as int < 0x100
  }

  function NameWords(name: string): (ws: seq<Word>)
    requires CleanName(name)
    ensures |ws| == 8
  {
    var s := NameField(name);
    seq(8, i requires 0 <= i < 8 => WordOfChars(s, 4 * i))
  }

  function Geometry(p: Part, x: PartRest): (ws: seq<Word>)
    requires RestFits(x)
    ensures |ws| == 17
  {
    x.sizes + [p.surfaces, x.sectorPerBlock, p.blockPerTrack] + x.interleave + [p.lowCyl, p.highCyl] + x.buffers
    + [p.dosType]
  }

  function PartBlock(p: Part, next: Word, x: PartRest): Block
    requires CleanName(p.name) && RestFits(x)
  {
    [PART] + x.sums + [next] + x.flags + NameWords(p.name) + x.reserved + Geometry(p, x) + x.tail
  }

  lemma PartWords(p: Part, next: Word, x: PartRest)
    requires CleanName(p.name) && RestFits(x)
    ensures var b := PartBlock(p, next, x);
            && b[ID] == PART && b[NEXT] == next
            && Env(b, 3) == p.surfaces && Env(b, 5) == p.blockPerTrack && Env(b, 9) == p.lowCyl && Env(b, 10) == p.highCyl
            && Env(b, 16) == p.dosType
            && b[DRIVE_NAME..DRIVE_NAME + 8] == NameWords(p.name)
  {
    hide NameWords;
    var b := PartBlock(p, next, x);
    var g := Geometry(p, x);
    assert b[ENVIRONMENT..ENVIRONMENT + 17] == g;
    forall i: nat | i < 17 ensures Env(b, i) == g[i] {
      assert b[ENVIRONMENT..ENVIRONMENT + 17][i] == b[ENVIRONMENT + i];
    }
  }

  lemma BytesOfWord(s: string, i: nat, w: Word)
    requires i + 4 <= |s| && (forall c :: c in s ==> c as int < 0x100) && w == WordOfChars(s, i)
    ensures w / 0x100_0000 == s[i] as int && w / 0x1_0000 % 0x100 == s[i + 1] as int
    ensures w / 0x100 % 0x100 == s[i + 2] as int && w % 0x100 == s[i + 3] as int
  {
    assert s[i] in s && s[i + 1] in s && s[i + 2] in s && s[i + 3] in s;
    var a, b, c, d := s[i] as int, s[i + 1] as int, s[i + 2] as int, s[i + 3] as int;
    assert w == a * 0x100_0000 + b * 0x1_0000 + c * 0x100 + d;
  }

  /** The name is read back from the words it is packed into. */
  lemma NameIsRead(b: Block, name: string, junk: string)
    requires CleanName(name) && b[DRIVE_NAME..DRIVE_NAME + 8] == NameWords(name)
    ensures NameOf(b, junk) == name
  {
    hide NameField, NameWords, ByteOf, DriveName, NameOf;
    forall i: nat | i < 32 ensures ByteOf(b, 4 * DRIVE_NAME + i) == NameField(name)[i] {
      NameByte(b, name, i);
    }
    DriveNameIs(b, NameField(name));
    FieldParts(name);
    NameReads(b, name, junk);
  }

  lemma DriveNameIs(b: Block, s: string)
    requires |s| == 32 && forall i: nat :: i < 32 ==> ByteOf(b, 4 * DRIVE_NAME + i) == s[i]
    ensures DriveName(b) == s
  {
    hide ByteOf;
    forall i: nat | i < 32 ensures DriveName(b)[i] == s[i] {
      assert ByteOf(b, 4 * DRIVE_NAME + i) == s[i];
    }
  }

  lemma FieldParts(name: string)
    requires CleanName(name)
    ensures var s := NameField(name);
            s[0] == |name| as char && s[1..|name| + 2] == name + ['\0'] && '\0' !in name
  {
  }

  lemma NameByte(b: Block, name: string, i: nat)
    requires CleanName(name) && b[DRIVE_NAME..DRIVE_NAME + 8] == NameWords(name) && i < 32
    ensures ByteOf(b, 4 * DRIVE_NAME + i) == NameField(name)[i]
  {
    var s, k := NameField(name), i / 4;
    assert forall c :: c in s ==> c as int < 0x100;
    assert b[DRIVE_NAME + k] == b[DRIVE_NAME..DRIVE_NAME + 8][k] == WordOfChars(s, 4 * k);
    hide NameField, WordOfChars;
    BytesOfWord(s, 4 * k, b[DRIVE_NAME + k]);
    assert (4 * DRIVE_NAME + i) / 4 == DRIVE_NAME + k && (4 * DRIVE_NAME + i) % 4 == i % 4 == i - 4 * k;
  }

  /** Neither the first nor the last block of the partition is past a 32-bit block number. */
  predicate PartFits(p: Part) {
    p.lowCyl <= p.highCyl && p.surfaces > 0 && p.blockPerTrack > 0
    && (p.highCyl + 1) * p.blockPerTrack * p.surfaces <= TWO32
  }

  /** The partition of a block laid out from its fields. */
  lemma PartReads(p: Part, next: Word, x: PartRest, rdb: Block, number: nat, junk: string)
    requires CleanName(p.name) && RestFits(x) && PartFits(p)
    ensures var r := PartitionOf(PartBlock(p, next, x), rdb, number, junk);
            && r.name == p.name && r.number == number && r.info.blksz == rdb[4] && r.info.kind == KindOf(p.dosType)
            && r.info.start == p.lowCyl * (p.blockPerTrack * p.surfaces)
            && r.info.start + r.info.size == (p.highCyl + 1) * (p.blockPerTrack * p.surfaces) - 1
  {
    hide PartBlock, NameOf, KindOf, Env, Start, Extent;
    var b := PartBlock(p, next, x);
    PartWords(p, next, x);
    NameIsRead(b, p.name, junk);
    Fitting(p, b);
    InfoIsExtent(b, rdb);
  }

  lemma Fitting(p: Part, b: Block)
    requires PartFits(p) && Env(b, 3) == p.surfaces && Env(b, 5) == p.blockPerTrack
    requires Env(b, 9) == p.lowCyl && Env(b, 10) == p.highCyl
    ensures FitsWords(b)
  {
    hide Env;
    AtLeast(p.blockPerTrack, p.surfaces);
  }

  /** The type of a partition: three characters, a backslash, and the version counted from the digit 0
      on in eight bits; that is a digit if the version is below ten. */
  lemma KindReads(dos: Word, name: string, version: nat)
    requires |name| == 3 && (forall i :: 0 <= i < 3 ==> name[i] as int < 0x100) && version < 0x100
    requires dos == ((name[0] as int * 0x100 + name[1] as int) * 0x100 + name[2] as int) * 0x100 + version
    ensures version < 10 ==> KindOf(dos) == name + "\\" + Decimal(version)
    ensures KindOf(dos) == name + "\\" + [(if version < 208 then version + 48 else version - 208) as char]
  {
    SpeltAs(dos, name + [version as char]);
    var codes: seq<Byte> := [name[0] as int, name[1] as int, name[2] as int, version];
    assert BeBytes(dos) == codes;
  }

  // ---- the chain -------------------------------------------------------------------------

  /** The chain ends at the end mark, at a block that cannot be read, or at one of another kind. */
  predicate Ends(u: Unit, block: Word) {
    block == 0xFFFF_FFFF
    || match u.read(block) case None => true case Some(b) => Chars(BeBytes(b[0])) != "PART"
  }

  /** The disk holds these partitions one after the other from a block on, up to where the chain ends. */
  ghost predicate PartsWritten(u: Unit, block: Word, ps: seq<Part>)
    decreases ps
  {
    if ps == [] then Ends(u, block)
    else block != 0xFFFF_FFFF && CleanName(ps[0].name) && PartFits(ps[0])
         && exists next: Word, x :: RestFits(x) && u.read(block) == Some(PartBlock(ps[0], next, x))
                                    && PartsWritten(u, next, ps[1..])
  }

  /** Slot i holds partition i of the chain, under its name and with its blocks. */
  lemma {:induction false} SlotIsPart(u: Unit, rdb: Block, block: Word, ps: seq<Part>, i: nat, number: nat, junk: string)
    requires PartsWritten(u, block, ps)
    ensures match Nth(u, block, i)
            case None => i >= |ps|
            case Some(b) =>
              i < |ps|
              && var r, per := PartitionOf(b, rdb, number, junk), ps[i].blockPerTrack * ps[i].surfaces;
                 && r.name == ps[i].name && r.number == number && r.info.kind == KindOf(ps[i].dosType)
                 && r.info.blksz == rdb[4] && r.info.start == ps[i].lowCyl * per
                 && r.info.start + r.info.size == (ps[i].highCyl + 1) * per - 1
    decreases i
  {
    hide PartBlock, PartitionOf, KindOf, PartFits, RestFits, CleanName, Ends;
    if ps == [] {
      NothingAtEnd(u, block);
    } else {
      var next: Word, x :| RestFits(x) && u.read(block) == Some(PartBlock(ps[0], next, x)) && PartsWritten(u, next, ps[1..]);
      var b := PartBlock(ps[0], next, x);
      PartWords(ps[0], next, x);
      if i == 0 {
        PartReads(ps[0], next, x, rdb, number, junk);
      } else {
        SlotIsPart(u, rdb, next, ps[1..], i - 1, number, junk);
      }
    }
  }

  lemma NothingAtEnd(u: Unit, block: Word)
    requires Ends(u, block)
    ensures PartAt(u, block) == None
  {
    hide Chars, BeBytes;
    IdsAreNames();
  }

  /** On a disk laid out in this way, the table that Init fills has exactly the partitions of the chain,
      in order, as far as it has slots. */
  lemma TableIsChain(u: Unit, r: Rdb, x: RdbRest, ps: seq<Part>, i: nat, junk: string)
    requires |x.driveLists| == 2 && |x.unused| == 21 && |x.tail| == 94 && PartsWritten(u, r.partitionList, ps)
    ensures match SlotOf(u, RdbBlock(r, x), i, junk)
            case None => i >= |ps|
            case Some(p) =>
              i < |ps|
              && var per := ps[i].blockPerTrack * ps[i].surfaces;
                 && p.name == ps[i].name && p.number == i && p.info.kind == KindOf(ps[i].dosType)
                 && p.info.blksz == r.blockBytes && p.info.start == ps[i].lowCyl * per
                 && p.info.start + p.info.size == (ps[i].highCyl + 1) * per - 1
  {
    hide RdbBlock, PartitionOf, KindOf, PartsWritten, Nth;
    RdbReads(r, x);
    SlotIsPart(u, RdbBlock(r, x), r.partitionList, ps, i, i, junk);
  }
}
