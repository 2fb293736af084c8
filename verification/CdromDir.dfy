/** Directories of an ISO 9660 disc: their records, with or without Rock Ridge names, and the scan that
    meets them in fs_cdrom_find_file of src/cdrom.c. */
module CdromDir {
  import opened Options
  import opened Sequences
  import opened Words
  import opened Support
  import opened CdromRead
  import opened CdromSusp

  // Byte positions in a directory record, section 9.1 of ECMA-119; the name follows the header.
  const HEADER := 33
  const EXTENT := 6
  const SIZE := 14
  const FLAGS := 25
  const NAME_LENGTH := 32

  /** What the walk uses of a directory record. */
  datatype Entry = Entry(name: string, flags: Byte, extent: Word, size: Word)

  // ---- names -----------------------------------------------------------------------------

  /** Where the version is cut off: the last semicolon that does not begin the name, or the end. */
  function VersionAt(raw: seq<Byte>): (k: nat)
    ensures k <= |raw| && (raw != [] ==> k > 0)
    ensures k < |raw| ==> raw[k] == ';' as Byte
    ensures forall i :: k < i < |raw| ==> raw[i] != ';' as Byte
    ensures k == |raw| ==> forall i :: 0 < i < |raw| ==> raw[i] != ';' as Byte
  {
    LastSemicolon(raw, |raw|)
  }

  /** The last semicolon before position i, the first byte apart; the length if there is none. */
  function LastSemicolon(raw: seq<Byte>, i: nat): (k: nat)
    requires i <= |raw|
    ensures k <= |raw| && (raw != [] ==> k > 0)
    ensures k < |raw| ==> k < i && raw[k] == ';' as Byte
    ensures forall j :: (if k < |raw| then k else 0) < j < i ==> raw[j] != ';' as Byte
  {
    if i <= 1 then |raw|
    else if raw[i - 1] == ';' as Byte then i - 1
    else LastSemicolon(raw, i - 1)
  }

  /** The name a component is compared with. */
  function FileName(raw: seq<Byte>): (r: string)
    ensures '\0' !in r
  {
    if |raw| == 1 && raw[0] == 0 then "."
    else if |raw| == 1 && raw[0] == 1 then ".."
    else CString(Chars(raw[..VersionAt(raw)]))
  }

  /** A name and its version are told apart at the semicolon between them. */
  lemma VersionIsCut(name: seq<Byte>, version: seq<Byte>)
    requires name != [] && 0 !in name && ';' as Byte !in version
    ensures FileName(name + [';' as Byte] + version) == Chars(name)
  {
    var raw := name + [';' as Byte] + version;
    forall i | |name| < i < |raw| ensures raw[i] != ';' as Byte {
      assert raw[i] in version;
    }
    assert raw[..|name|] == name && raw[|name|] == ';' as Byte && VersionAt(raw) == |name|;
    CharsHaveNoNul(name);
    WholeString(Chars(name));
  }

  /** The names of one byte 0 and 1 are those of the directory itself and of its parent, section 6.8.2
      of ECMA-119; any other name without a version is taken as it is. */
  lemma NameWithoutVersion(raw: seq<Byte>)
    requires raw != [] && ';' as Byte !in raw && (0 !in raw || raw == [0])
    ensures FileName(raw) == if raw == [0] then "." else if raw == [1] then ".." else Chars(raw)
  {
    assert raw[..|raw|] == raw;
    assert forall i :: 0 <= i < |raw| ==> raw[i] in raw;
    assert VersionAt(raw) == |raw|;
    if raw != [0] {
      CharsHaveNoNul(raw);
      WholeString(Chars(raw));
    }
  }

  lemma WholeString(s: string)
    requires '\0' !in s
    ensures CString(s) == s
  {
    IndexOfIs(s, '\0', |s|);
  }

  // ---- alternate names -------------------------------------------------------------------

  /** rr and susp_skip of the device, and where the System Use entries of a record are: by block and
      offset of the record, the areas they lie in. */
  datatype Names = Names(rr: bool, skip: Byte, areas: map<(Word, nat), seq<Area>>)

  /** Names without Rock Ridge. */
  predicate Plain(names: Names) {
    !names.rr
  }

  /** Where the System Use area begins in a record: behind the name, padded to an even length. */
  function SuaOffset(namelen: Byte): nat {
    HEADER + namelen + 1 - namelen % 2
  }

  /** The name an NM entry gives; none if it holds no characters. */
  function AltName(nm: Option<seq<Byte>>): (r: Option<string>)
    ensures r.Some? ==> '\0' !in r.value
  {
    if nm == None || |nm.value| < 5 then None
    else
      var e := nm.value;
      if e[4] / 2 % 2 == 1 then Some(".")
      else if e[4] / 4 % 2 == 1 then Some("..")
      else if |e| > 5 then Some(CString(Chars(e[5..])))
      else None
  }

  /** An NM entry with the given flags and name, as the Rock Ridge protocol lays it out. */
  function NmEntry(flags: Byte, name: seq<Byte>): seq<Byte>
    requires |name| <= 250
  {
    ['N' as Byte, 'M' as Byte, 5 + |name|, 1, flags] + name
  }

  /** Bit 1 of the flags stands for the directory itself, bit 2 for its parent; else the name counts. */
  lemma AltNameReads(flags: Byte, name: seq<Byte>)
    requires |name| <= 250 && 0 !in name
    ensures IsEntry(NmEntry(flags, name)) && HasSig(NmEntry(flags, name), 'N', 'M')
    ensures AltName(Some(NmEntry(flags, name)))
         == if flags / 2 % 2 == 1 then Some(".") else if flags / 4 % 2 == 1 then Some("..")
            else if name == [] then None else Some(Chars(name))
  {
    assert NmEntry(flags, name)[5..] == name;
    CharsHaveNoNul(name);
    WholeString(Chars(name));
  }

  /** The areas of a record are as the code reads them, and its NM entries have their flags. */
  ghost predicate Described(m: Medium, names: Names, block: Word, offset: nat) {
    (block, offset) in names.areas
    && var chain, p := names.areas[(block, offset)], block * SECTOR + offset;
       var o := SuaOffset(FlatByte(m, p + NAME_LENGTH));
       && Linked(m, chain) && chain[0].block == block && chain[0].offset == offset + o + names.skip
       && chain[0].size == Wrap(FlatByte(m, p) as int - o)
       && forall e :: e in Visited(m, chain) ==> |e| >= 2 && (HasSig(e, 'N', 'M') ==> |e| >= 5)
  }

  /** The alternate name of a record. */
  ghost function Alias(m: Medium, names: Names, block: Word, offset: nat): Option<string> {
    if names.rr && Described(m, names, block, offset)
    then AltName(First(Visited(m, names.areas[(block, offset)]), 'N', 'M'))
    else None
  }

  // ---- the records of a directory --------------------------------------------------------

  function EntryOf(header: seq<Byte>, name: string): Entry
    requires |header| == HEADER
  {
    Entry(name, header[FLAGS], Be32(header, EXTENT), Be32(header, SIZE))
  }

  /** The record at an offset. */
  ghost function EntryAt(m: Medium, names: Names, block: Word, offset: nat): Entry {
    var p := block * SECTOR + offset;
    EntryOf(Flat(m, p, HEADER),
            match Alias(m, names, block, offset)
            case Some(name) => name
            case None => FileName(Flat(m, p + HEADER, FlatByte(m, p + NAME_LENGTH))))
  }

  function NextSectorFrom(offset: nat): (r: nat)
    ensures offset < r <= offset + SECTOR && r % SECTOR == 0
  {
    (offset / SECTOR + 1) * SECTOR
  }

  /** The records met from an offset on; a record length of zero leads to the next sector. */
  ghost function Entries(m: Medium, names: Names, block: Word, size: int, offset: nat): seq<Entry>
    decreases size - offset
  {
    if offset >= size then []
    else
      var len := FlatByte(m, block * SECTOR + offset);
      if len == 0 then Entries(m, names, block, size, NextSectorFrom(offset))
      else [EntryAt(m, names, block, offset)] + Entries(m, names, block, size, offset + len)
  }

  /** With Rock Ridge, the System Use areas of those records are in order. */
  ghost predicate AllDescribed(m: Medium, names: Names, block: Word, size: int, offset: nat)
    decreases size - offset
  {
    offset >= size
    || var len := FlatByte(m, block * SECTOR + offset);
       if len == 0 then AllDescribed(m, names, block, size, NextSectorFrom(offset))
       else Described(m, names, block, offset) && AllDescribed(m, names, block, size, offset + len)
  }

  /** A record as section 9.1 of ECMA-119 lays it out: its length first, its name behind the header. */
  predicate IsRecord(r: seq<Byte>) {
    HEADER < |r| && r[0] == |r| && HEADER + r[NAME_LENGTH] <= |r|
  }

  function RecordEntry(r: seq<Byte>): Entry
    requires IsRecord(r)
  {
    EntryOf(r[..HEADER], FileName(r[HEADER..HEADER + r[NAME_LENGTH]]))
  }

  /** A record from its fields, section 9.1 of ECMA-119; numbers stand in both byte orders. */
  function Record(extent: Word, size: Word, flags: Byte, raw: seq<Byte>, use: seq<Byte>): seq<Byte>
    requires HEADER + |raw| + |use| < 256 && raw != []
  {
    [HEADER + |raw| + |use|, 0] + LeBytes(extent) + BeBytes(extent) + LeBytes(size) + BeBytes(size)
    + [0, 0, 0, 0, 0, 0, 0, flags, 0, 0, 1, 0, 0, 1, |raw|] + raw + use
  }

  /** The code reads a record back as the fields it was made from. */
  lemma RecordReads(extent: Word, size: Word, flags: Byte, raw: seq<Byte>, use: seq<Byte>)
    requires HEADER + |raw| + |use| < 256 && raw != []
    ensures var r := Record(extent, size, flags, raw, use);
            IsRecord(r) && RecordEntry(r) == Entry(FileName(raw), flags, extent, size)
  {
    hide FileName, LeBytes, BeBytes;
    var r := Record(extent, size, flags, raw, use);
    assert r[HEADER..HEADER + |raw|] == raw;
    var h := r[..HEADER];
    SameBe32(h, EXTENT, BeBytes(extent));
    SameBe32(h, SIZE, BeBytes(size));
  }

  /** The System Use area of a record begins behind the name, padded to an even position, as section
      9.1.12 of ECMA-119 has it. */
  lemma UseIsRead(extent: Word, size: Word, flags: Byte, raw: seq<Byte>, use: seq<Byte>)
    requires raw != [] && HEADER + |raw| + 1 + |use| < 256
    ensures var pad: seq<Byte> := if |raw| % 2 == 0 then [0] else [];
            var r := Record(extent, size, flags, raw, pad + use);
            SuaOffset(r[NAME_LENGTH]) <= |r| && r[SuaOffset(r[NAME_LENGTH])..] == use
  {
    hide LeBytes, BeBytes;
    var pad: seq<Byte> := if |raw| % 2 == 0 then [0] else [];
    var r := Record(extent, size, flags, raw, pad + use);
    assert r[NAME_LENGTH] == |raw|;
    assert r[HEADER + |raw|..] == pad + use;
    assert r[HEADER + |raw| + |pad|..] == r[HEADER + |raw|..][|pad|..];
  }

  lemma SameBe32(s: seq<Byte>, at: nat, b: seq<Byte>)
    requires at + 4 <= |s| && |b| == 4 && forall i :: 0 <= i < 4 ==> s[at + i] == b[i]
    ensures Be32(s, at) == Be32(b, 0)
  {
    assert s[at + 0] == b[0] && s[at + 1] == b[1] && s[at + 2] == b[2] && s[at + 3] == b[3];
  }

  predicate AllRecords(rs: seq<seq<Byte>>) {
    forall r :: r in rs ==> IsRecord(r)
  }

  /** A record at its place in a directory: with Rock Ridge, an NM entry of its own may rename it. */
  ghost function Named(m: Medium, names: Names, block: Word, offset: nat, r: seq<Byte>): Entry
    requires IsRecord(r)
  {
    match Alias(m, names, block, offset)
    case Some(name) => RecordEntry(r).(name := name)
    case None => RecordEntry(r)
  }

  /** The records of sector k. */
  ghost function SectorEntries(m: Medium, names: Names, block: Word, k: nat, rs: seq<seq<Byte>>): seq<Entry>
    requires AllRecords(rs)
  {
    seq(|rs|, i requires 0 <= i < |rs| => Named(m, names, block, k * SECTOR + |Joined(rs[..i])|, rs[i]))
  }

  /** A sector of a directory as section 6.8.1 of ECMA-119 has it: records from its first byte on, one
      behind the other and none cut off, then zeros. */
  predicate SectorHolds(s: Sector, rs: seq<seq<Byte>>) {
    AllRecords(rs) && |Joined(rs)| <= SECTOR && s == Joined(rs) + seq(SECTOR - |Joined(rs)|, _ => 0)
  }

  /** A directory with the given records in each of its sectors. */
  ghost predicate DirectoryAt(m: Medium, block: Word, sectors: seq<seq<seq<Byte>>>) {
    forall k :: 0 <= k < |sectors| ==> SectorHolds(m.sectors(Wrap(block + k)), sectors[k])
  }

  /** The records of the directory from sector k on. */
  ghost function AllEntries(m: Medium, names: Names, block: Word, sectors: seq<seq<seq<Byte>>>, k: nat): seq<Entry>
    requires forall rs :: rs in sectors ==> AllRecords(rs)
    decreases |sectors| - k
  {
    if k >= |sectors| then []
    else
      assert sectors[k] in sectors;
      SectorEntries(m, names, block, k, sectors[k]) + AllEntries(m, names, block, sectors, k + 1)
  }

  /** Record i of a sector, found on the disc. */
  lemma RecordOnDisc(m: Medium, block: Word, sectors: seq<seq<seq<Byte>>>, k: nat, i: nat)
    requires DirectoryAt(m, block, sectors) && k < |sectors| && i < |sectors[k]|
    ensures var r, o := sectors[k][i], |Joined(sectors[k][..i])|;
            && IsRecord(r) && o + |r| <= SECTOR && |Joined(sectors[k][..i + 1])| == o + |r|
            && Flat(m, block * SECTOR + k * SECTOR + o, |r|) == r
  {
    hide Wrap, Flat, IsRecord, Joined, SectorHolds;
    var rs := sectors[k];
    var r, o := rs[i], |Joined(rs[..i])|;
    assert SectorHolds(m.sectors(Wrap(block + k)), rs);
    RecordInSector(m.sectors(Wrap(block + k)), rs, i);
    FlatInSector(m, block + k, o, |r|);
    SectorSum(block, k);
  }

  lemma SectorSum(block: nat, k: nat)
    ensures (block + k) * SECTOR == block * SECTOR + k * SECTOR
  {
  }

  lemma RecordInSector(s: Sector, rs: seq<seq<Byte>>, i: nat)
    requires SectorHolds(s, rs) && i < |rs|
    ensures var r, o := rs[i], |Joined(rs[..i])|;
            IsRecord(r) && o + |r| <= SECTOR && |Joined(rs[..i + 1])| == o + |r| && s[o..o + |r|] == r
  {
    hide IsRecord, Joined;
    var r := rs[i];
    assert r in rs;
    JoinedAround(rs, i);
    SliceOf(Joined(rs[..i]), r, Joined(rs[i + 1..]) + seq<Byte>(SECTOR - |Joined(rs)|, _ => 0));
    assert s == Joined(rs[..i]) + r + (Joined(rs[i + 1..]) + seq<Byte>(SECTOR - |Joined(rs)|, _ => 0));
  }

  /** Behind the last record of a sector that is not full there is a zero. */
  lemma PaddingOnDisc(m: Medium, block: Word, sectors: seq<seq<seq<Byte>>>, k: nat)
    requires DirectoryAt(m, block, sectors) && k < |sectors|
    ensures var o := |Joined(sectors[k])|;
            o <= SECTOR && (o < SECTOR ==> FlatByte(m, block * SECTOR + k * SECTOR + o) == 0)
  {
    hide Wrap, Flat;
    var o := |Joined(sectors[k])|;
    var s := m.sectors(Wrap(block + k));
    assert SectorHolds(s, sectors[k]);
    if o < SECTOR {
      FlatAt(m, block + k, o, 0);
      assert (block + k) * SECTOR + o + 0 == block * SECTOR + k * SECTOR + o;
    }
  }

  lemma RecordRead(m: Medium, names: Names, block: Word, offset: nat, r: seq<Byte>)
    requires IsRecord(r) && Flat(m, block * SECTOR + offset, |r|) == r
    ensures FlatByte(m, block * SECTOR + offset) == |r|
    ensures EntryAt(m, names, block, offset) == Named(m, names, block, offset, r)
  {
    hide FlatByte, Alias;
    var p := block * SECTOR + offset;
    var n := r[NAME_LENGTH];
    assert FlatByte(m, p + 0) == r[0] && FlatByte(m, p + NAME_LENGTH) == n;
    FlatConcat(m, p, HEADER, |r| - HEADER);
    FlatConcat(m, p + HEADER, n, |r| - HEADER - n);
    assert Flat(m, p, HEADER) == r[..HEADER];
    assert Flat(m, p + HEADER, n) == r[HEADER..HEADER + n];
  }

  /** Entries with no CE entry among them, so that they all lie in one area. */
  predicate OneArea(es: seq<seq<Byte>>) {
    es != [] && forall e :: e in es ==> IsEntry(e) && !HasSig(e, 'C', 'E') && (HasSig(e, 'N', 'M') ==> |e| >= 5)
  }

  lemma {:induction false} StopBehind(es: seq<seq<Byte>>, i: nat)
    requires OneArea(es) && i < |es| && forall j :: 0 <= j <= i ==> |es[j]| >= 2 && !HasSig(es[j], 'S', 'T')
    ensures StopAt(es) > i && !StopsAtCe(es)
  {
    hide HasSig, IsEntry;
    NoneStopsAtCe(es);
    if i > 0 {
      StopBehind(es[1..], i - 1);
    }
  }

  lemma NoneStopsAtCe(es: seq<seq<Byte>>)
    requires OneArea(es)
    ensures !StopsAtCe(es)
  {
    hide StopAt;
    if StopAt(es) < |es| {
      assert es[StopAt(es)] in es;
    }
  }

  /** Behind its name a record has the byte to be skipped, if there is one, and then these entries and
      nothing else. */
  ghost predicate HasUse(m: Medium, names: Names, block: Word, offset: nat, r: seq<Byte>, es: seq<seq<Byte>>)
    requires IsRecord(r)
  {
    var o := SuaOffset(r[NAME_LENGTH]);
    && Flat(m, block * SECTOR + offset, |r|) == r && OneArea(es)
    && names.rr && names.skip <= 1 && o + names.skip <= |r| && r[o + names.skip..] == Joined(es)
    && offset + o + names.skip < TWO32 && (block, offset) in names.areas
    && names.areas[(block, offset)] == [Area(block, offset + o + names.skip, |r| - o, es)]
  }

  /** Such a record meets what the code relies on. */
  lemma UseIsDescribed(m: Medium, names: Names, block: Word, offset: nat, r: seq<Byte>, es: seq<seq<Byte>>)
    requires IsRecord(r) && HasUse(m, names, block, offset, r, es)
    ensures Described(m, names, block, offset)
    ensures Visited(m, names.areas[(block, offset)]) == es[..StopAt(es)]
  {
    hide FlatByte, Flat, StopAt, StopsAtCe, Joined;
    PartOnDisc(m, block * SECTOR + offset, r, SuaOffset(r[NAME_LENGTH]) + names.skip, names.skip);
    NoneStopsAtCe(es);
    UseIsArea(m, names.areas[(block, offset)][0]);
    assert Visited(m, names.areas[(block, offset)]) == es[..StopAt(es)];
  }

  /** The bytes of a record from position k on, and any number of bytes behind it. */
  lemma PartOnDisc(m: Medium, p: nat, r: seq<Byte>, k: nat, more: nat)
    requires IsRecord(r) && Flat(m, p, |r|) == r && k <= |r|
    ensures FlatByte(m, p) == r[0] && FlatByte(m, p + NAME_LENGTH) == r[NAME_LENGTH]
    ensures Flat(m, p + k, |r| - k + more)[..|r| - k] == r[k..]
  {
    hide FlatByte;
    assert FlatByte(m, p + 0) == r[0] && FlatByte(m, p + NAME_LENGTH) == r[NAME_LENGTH];
    FlatConcat(m, p, k, |r| - k);
    assert Flat(m, p + k, |r| - k) == r[k..];
    FlatConcat(m, p + k, |r| - k, more);
  }

  lemma UseIsArea(m: Medium, a: Area)
    requires OneArea(a.entries) && |Joined(a.entries)| <= a.size <= |Joined(a.entries)| + 1
    requires Flat(m, a.block * SECTOR + a.offset, a.size)[..|Joined(a.entries)|] == Joined(a.entries)
    ensures AreaAt(m, a)
  {
    hide Flat, Joined;
  }

  /** With Rock Ridge, a record whose first NM entry is built from flags and a name is met under that
      name, with its own extent, size and flags. */
  lemma NmRenames(m: Medium, names: Names, block: Word, offset: nat, r: seq<Byte>, es: seq<seq<Byte>>,
                  i: nat, flags: Byte, name: seq<Byte>)
    requires IsRecord(r) && HasUse(m, names, block, offset, r, es)
    requires i < |es| && |name| <= 250 && 0 !in name && es[i] == NmEntry(flags, name)
    requires forall j :: 0 <= j < i ==> |es[j]| >= 2 && !HasSig(es[j], 'N', 'M') && !HasSig(es[j], 'S', 'T')
    ensures EntryAt(m, names, block, offset)
         == RecordEntry(r).(name := if flags / 2 % 2 == 1 then "." else if flags / 4 % 2 == 1 then ".."
                                    else if name != [] then Chars(name)
                                    else FileName(r[HEADER..HEADER + r[NAME_LENGTH]]))
  {
    hide Described, Visited, StopAt, Joined, Flat, FlatByte, FileName, AltName;
    UseIsDescribed(m, names, block, offset, r, es);
    AltNameReads(flags, name);
    NmFound(es, i);
    RecordRead(m, names, block, offset, r);
  }

  /** The first NM entry is the one looked up, if no ST entry comes before. */
  lemma NmFound(es: seq<seq<Byte>>, i: nat)
    requires OneArea(es) && i < |es| && |es[i]| >= 2 && HasSig(es[i], 'N', 'M')
    requires forall j :: 0 <= j < i ==> |es[j]| >= 2 && !HasSig(es[j], 'N', 'M') && !HasSig(es[j], 'S', 'T')
    ensures First(es[..StopAt(es)], 'N', 'M') == Some(es[i])
  {
    hide First, StopAt;
    StopBehind(es, i);
    var seen := es[..StopAt(es)];
    assert forall e :: e in seen ==> e in es;
    FirstIsFirst(seen, 'N', 'M');
    assert seen[i] == es[i] && seen[i] in seen;
  }

  /** From record i of sector k on, a scan meets the records left in that sector and all later ones. */
  ghost predicate MeetsRest(m: Medium, names: Names, block: Word, sectors: seq<seq<seq<Byte>>>, k: nat, i: nat)
    requires k < |sectors| && i <= |sectors[k]| && forall rs :: rs in sectors ==> AllRecords(rs)
  {
    Entries(m, names, block, |sectors| * SECTOR, k * SECTOR + |Joined(sectors[k][..i])|)
    == SectorEntries(m, names, block, k, sectors[k])[i..] + AllEntries(m, names, block, sectors, k + 1)
  }

  /** A scan of a well laid out directory meets each of its records once and in order, across the
      padding of every sector. */
  lemma {:induction false} ScanMeetsAll(m: Medium, names: Names, block: Word, sectors: seq<seq<seq<Byte>>>, k: nat, i: nat)
    requires DirectoryAt(m, block, sectors) && k < |sectors| && i <= |sectors[k]|
    ensures forall rs :: rs in sectors ==> AllRecords(rs)
    ensures MeetsRest(m, names, block, sectors, k, i)
    decreases |sectors| - k, |sectors[k]| - i
  {
    hide *;
    AllAreRecords(m, block, sectors);
    if i < |sectors[k]| {
      ScanMeetsAll(m, names, block, sectors, k, i + 1);
      MeetsRecord(m, names, block, sectors, k, i);
    } else {
      if k + 1 < |sectors| {
        ScanMeetsAll(m, names, block, sectors, k + 1, 0);
      }
      MeetsPadding(m, names, block, sectors, k);
    }
  }

  lemma MeetsRecord(m: Medium, names: Names, block: Word, sectors: seq<seq<seq<Byte>>>, k: nat, i: nat)
    requires DirectoryAt(m, block, sectors) && k < |sectors| && i < |sectors[k]|
    requires forall rs :: rs in sectors ==> AllRecords(rs)
    requires MeetsRest(m, names, block, sectors, k, i + 1)
    ensures MeetsRest(m, names, block, sectors, k, i)
  {
    hide Wrap, Flat, FlatByte, IsRecord, DirectoryAt, EntryAt, Named, Joined, AllEntries, Entries, AllRecords;
    var rs := sectors[k];
    assert rs in sectors;
    var r, o := rs[i], |Joined(rs[..i])|;
    RecordOnDisc(m, block, sectors, k, i);
    assert block * SECTOR + (k * SECTOR + o) == block * SECTOR + k * SECTOR + o;
    RecordRead(m, names, block, k * SECTOR + o, r);
    ScanStep(m, names, block, |sectors|, k, o, r);
    var es, rest := SectorEntries(m, names, block, k, rs), AllEntries(m, names, block, sectors, k + 1);
    assert es[i..] + rest == [es[i]] + (es[i + 1..] + rest);
  }

  lemma MeetsPadding(m: Medium, names: Names, block: Word, sectors: seq<seq<seq<Byte>>>, k: nat)
    requires DirectoryAt(m, block, sectors) && k < |sectors|
    requires forall rs :: rs in sectors ==> AllRecords(rs)
    requires k + 1 < |sectors| ==> MeetsRest(m, names, block, sectors, k + 1, 0)
    ensures MeetsRest(m, names, block, sectors, k, |sectors[k]|)
  {
    hide Wrap, Flat, FlatByte, IsRecord, DirectoryAt, EntryAt, Named, Joined, AllEntries, Entries, AllRecords;
    var rs, n := sectors[k], |sectors|;
    assert rs in sectors;
    assert rs[..|rs|] == rs && |SectorEntries(m, names, block, k, rs)[|rs|..]| == 0;
    PaddingOnDisc(m, block, sectors, k);
    ScanSkips(m, names, block, n, k, |Joined(rs)|);
    if k + 1 < n {
      NextSectorEntries(m, names, block, sectors, k + 1);
    } else {
      NoEntries(m, names, block, sectors);
      ScanEnds(m, names, block, n);
    }
  }

  lemma ScanEnds(m: Medium, names: Names, block: Word, n: nat)
    ensures Entries(m, names, block, n * SECTOR, n * SECTOR) == []
  {
  }

  lemma AllAreRecords(m: Medium, block: Word, sectors: seq<seq<seq<Byte>>>)
    requires DirectoryAt(m, block, sectors)
    ensures forall rs :: rs in sectors ==> AllRecords(rs)
  {
    forall rs | rs in sectors ensures AllRecords(rs) {
      var k :| 0 <= k < |sectors| && sectors[k] == rs;
      assert SectorHolds(m.sectors(Wrap(block + k)), sectors[k]);
    }
  }

  lemma ScanStep(m: Medium, names: Names, block: Word, n: nat, k: nat, o: nat, r: seq<Byte>)
    requires IsRecord(r) && k < n && o + |r| <= SECTOR
    requires FlatByte(m, block * SECTOR + k * SECTOR + o) == |r|
    ensures Entries(m, names, block, n * SECTOR, k * SECTOR + o)
         == [EntryAt(m, names, block, k * SECTOR + o)] + Entries(m, names, block, n * SECTOR, k * SECTOR + (o + |r|))
  {
    hide FlatByte, EntryAt;
    assert block * SECTOR + (k * SECTOR + o) == block * SECTOR + k * SECTOR + o;
    assert k * SECTOR + o + |r| == k * SECTOR + (o + |r|);
  }

  lemma ScanSkips(m: Medium, names: Names, block: Word, n: nat, k: nat, o: nat)
    requires k < n && o <= SECTOR
    requires o < SECTOR ==> FlatByte(m, block * SECTOR + k * SECTOR + o) == 0
    ensures Entries(m, names, block, n * SECTOR, k * SECTOR + o) == Entries(m, names, block, n * SECTOR, (k + 1) * SECTOR)
  {
    hide FlatByte, EntryAt, NextSectorFrom;
    if o < SECTOR {
      NextAfter(k, o);
      assert block * SECTOR + (k * SECTOR + o) == block * SECTOR + k * SECTOR + o;
      assert k * SECTOR + o < n * SECTOR;
    } else {
      assert k * SECTOR + o == (k + 1) * SECTOR;
    }
  }

  lemma NextAfter(k: nat, o: nat)
    requires o < SECTOR
    ensures NextSectorFrom(k * SECTOR + o) == (k + 1) * SECTOR
  {
    InSector(k, o);
  }

  lemma NextSectorEntries(m: Medium, names: Names, block: Word, sectors: seq<seq<seq<Byte>>>, k: nat)
    requires k < |sectors| && forall rs :: rs in sectors ==> AllRecords(rs)
    ensures AllRecords(sectors[k])
    ensures AllEntries(m, names, block, sectors, k)
         == SectorEntries(m, names, block, k, sectors[k])[0..] + AllEntries(m, names, block, sectors, k + 1)
    ensures |Joined(sectors[k][..0])| == 0
  {
    hide AllRecords;
    assert sectors[k] in sectors;
    var es := SectorEntries(m, names, block, k, sectors[k]);
    assert es[0..] == es;
  }

  lemma NoEntries(m: Medium, names: Names, block: Word, sectors: seq<seq<seq<Byte>>>)
    requires forall rs :: rs in sectors ==> AllRecords(rs)
    ensures AllEntries(m, names, block, sectors, |sectors|) == []
  {
  }

  /** The same from the start of the directory. */
  lemma DirectoryIsRead(m: Medium, names: Names, block: Word, sectors: seq<seq<seq<Byte>>>)
    requires DirectoryAt(m, block, sectors)
    ensures forall rs :: rs in sectors ==> AllRecords(rs)
    ensures Entries(m, names, block, |sectors| * SECTOR, 0) == AllEntries(m, names, block, sectors, 0)
  {
    hide Entries, DirectoryAt, AllRecords;
    AllAreRecords(m, block, sectors);
    if sectors == [] {
      ScanEnds(m, names, block, 0);
      NoEntries(m, names, block, sectors);
    } else {
      ScanMeetsAll(m, names, block, sectors, 0, 0);
      NextSectorEntries(m, names, block, sectors, 0);
    }
  }

  // ---- System Use areas of a whole directory ---------------------------------------------

  /** The System Use areas of every record of a directory are in order. */
  ghost predicate RecordsDescribed(m: Medium, names: Names, block: Word, sectors: seq<seq<seq<Byte>>>) {
    forall k, i :: 0 <= k < |sectors| && 0 <= i < |sectors[k]|
                   ==> Described(m, names, block, k * SECTOR + |Joined(sectors[k][..i])|)
  }

  /** Then a scan from any record finds them in order. */
  lemma {:induction false} ScanDescribed(m: Medium, names: Names, block: Word, sectors: seq<seq<seq<Byte>>>, k: nat, i: nat)
    requires DirectoryAt(m, block, sectors) && RecordsDescribed(m, names, block, sectors)
    requires k < |sectors| && i <= |sectors[k]|
    ensures AllDescribed(m, names, block, |sectors| * SECTOR, k * SECTOR + |Joined(sectors[k][..i])|)
    decreases |sectors| - k, |sectors[k]| - i
  {
    hide DirectoryAt, Described, IsRecord, Flat, FlatByte, Joined, AllDescribed;
    var n := |sectors|;
    if i < |sectors[k]| {
      var r, o := sectors[k][i], |Joined(sectors[k][..i])|;
      RecordOnDisc(m, block, sectors, k, i);
      assert block * SECTOR + (k * SECTOR + o) == block * SECTOR + k * SECTOR + o;
      RecordRead(m, names, block, k * SECTOR + o, r);
      ScanDescribed(m, names, block, sectors, k, i + 1);
      DescribedStep(m, names, block, n, k, o, r);
    } else {
      assert sectors[k][..i] == sectors[k];
      PaddingOnDisc(m, block, sectors, k);
      if k + 1 < n {
        JoinedNone(sectors[k + 1]);
        ScanDescribed(m, names, block, sectors, k + 1, 0);
      } else {
        DescribedEnd(m, names, block, n);
      }
      DescribedSkips(m, names, block, n, k, |Joined(sectors[k])|);
    }
  }

  lemma JoinedNone(rs: seq<seq<Byte>>)
    ensures |Joined(rs[..0])| == 0
  {
  }

  lemma DescribedEnd(m: Medium, names: Names, block: Word, n: nat)
    ensures AllDescribed(m, names, block, n * SECTOR, n * SECTOR)
  {
  }

  lemma DescribedStep(m: Medium, names: Names, block: Word, n: nat, k: nat, o: nat, r: seq<Byte>)
    requires IsRecord(r) && FlatByte(m, block * SECTOR + k * SECTOR + o) == |r|
    requires Described(m, names, block, k * SECTOR + o)
    requires AllDescribed(m, names, block, n * SECTOR, k * SECTOR + (o + |r|))
    ensures AllDescribed(m, names, block, n * SECTOR, k * SECTOR + o)
  {
    hide FlatByte, Described;
    assert block * SECTOR + (k * SECTOR + o) == block * SECTOR + k * SECTOR + o;
    assert k * SECTOR + o + |r| == k * SECTOR + (o + |r|);
  }

  lemma DescribedSkips(m: Medium, names: Names, block: Word, n: nat, k: nat, o: nat)
    requires k < n && o <= SECTOR && AllDescribed(m, names, block, n * SECTOR, (k + 1) * SECTOR)
    requires o < SECTOR ==> FlatByte(m, block * SECTOR + k * SECTOR + o) == 0
    ensures AllDescribed(m, names, block, n * SECTOR, k * SECTOR + o)
  {
    hide FlatByte, Described, NextSectorFrom;
    if o < SECTOR {
      NextAfter(k, o);
      assert block * SECTOR + (k * SECTOR + o) == block * SECTOR + k * SECTOR + o;
    } else {
      assert k * SECTOR + o == (k + 1) * SECTOR;
    }
  }

  lemma DirectoryDescribed(m: Medium, names: Names, block: Word, sectors: seq<seq<seq<Byte>>>)
    requires DirectoryAt(m, block, sectors) && RecordsDescribed(m, names, block, sectors)
    ensures AllDescribed(m, names, block, |sectors| * SECTOR, 0)
  {
    hide AllDescribed;
    if sectors == [] {
      DescribedEnd(m, names, block, 0);
    } else {
      JoinedNone(sectors[0]);
      ScanDescribed(m, names, block, sectors, 0, 0);
    }
  }
}
