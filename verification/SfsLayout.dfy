/**
 How the blocks of an SFS volume are laid out in src/sfs.h, field by field, and that the reader
 takes each field from its place.
 */
module SfsLayout {
  import opened Options
  import opened Sequences
  import opened Words
  import opened SfsVolume
  import opened SfsTree
  import opened SfsFile
  import opened SfsDir

  // ---- parts of a block ------------------------------------------------------------------

  /** The part stands in s from a position on. */
  predicate StandsAt(s: seq<Byte>, at: nat, part: seq<Byte>) {
    at + |part| <= |s| && s[at..at + |part|] == part
  }

  lemma StandsWithin(s: seq<Byte>, at: nat, part: seq<Byte>, k: nat, piece: seq<Byte>)
    requires StandsAt(s, at, part) && StandsAt(part, k, piece)
    ensures StandsAt(s, at + k, piece)
  {
    var p := s[at + k..at + k + |piece|];
    forall i | 0 <= i < |p| ensures p[i] == piece[i] {
      assert s[at..at + |part|][k + i] == s[at + (k + i)];
      assert part[k..k + |piece|][i] == part[k + i];
    }
  }

  lemma StandsInside(s: seq<Byte>, at: nat, part: seq<Byte>)
    requires StandsAt(s, at, part)
    ensures at + |part| <= |s|
  {
  }

  lemma StandsBetween(a: seq<Byte>, b: seq<Byte>, c: seq<Byte>)
    ensures StandsAt(a + b + c, |a|, b)
  {
  }

  lemma StandsFirst(a: seq<Byte>, b: seq<Byte>)
    ensures StandsAt(a + b, 0, a) && StandsAt(a + b, |a|, b)
  {
  }

  lemma StandsInPrefix(s: seq<Byte>, part: seq<Byte>)
    requires part <= s
    ensures StandsAt(s, 0, part)
  {
  }

  /** A word of a block is that of any part of it that holds it whole. */
  lemma WordOfPart(s: seq<Byte>, at: nat, part: seq<Byte>, k: nat)
    requires StandsAt(s, at, part)
    ensures k + 4 <= |part| ==> at + k + 4 <= |s| && Be32(s, at + k) == Be32(part, k)
    ensures k + 2 <= |part| ==> at + k + 2 <= |s| && Be16(s, at + k) == Be16(part, k)
  {
    forall i | 0 <= i < |part| ensures s[at + i] == part[i] {
      assert s[at..at + |part|][i] == s[at + i];
    }
  }

  lemma WordOfWord(s: seq<Byte>, k: nat, w: Word)
    requires StandsAt(s, k, BeBytes(w))
    ensures k + 4 <= |s| && Be32(s, k) == w
  {
    hide BeBytes;
    WordOfPart(s, k, BeBytes(w), 0);
  }

  // ---- entries of one size ---------------------------------------------------------------

  /** Items of one width, each with the same bytes behind it. */
  function Spaced(items: seq<seq<Byte>>, gap: seq<Byte>): seq<Byte> {
    if items == [] then [] else items[0] + gap + Spaced(items[1..], gap)
  }

  /** Where item i begins. */
  function Offset(i: nat, stride: nat): nat {
    i * stride
  }

  lemma NextOffset(i: nat, stride: nat)
    ensures Offset(i + 1, stride) == stride + Offset(i, stride)
  {
  }

  lemma FirstOffset(stride: nat)
    ensures Offset(0, stride) == 0
  {
  }

  lemma PositionIsOffset(i: nat, stride: nat)
    ensures Position(i, stride) == NODES + Offset(i, stride)
  {
  }

  lemma {:induction false} SpacedAt(items: seq<seq<Byte>>, gap: seq<Byte>, width: nat, stride: nat, i: nat)
    requires (forall x :: x in items ==> |x| == width) && i < |items| && stride == width + |gap|
    ensures StandsAt(Spaced(items, gap), Offset(i, stride), items[i])
    decreases i
  {
    hide Offset, StandsAt;
    var first, rest := items[0], Spaced(items[1..], gap);
    assert first in items;
    if i == 0 {
      FirstOffset(stride);
      StandsFirst(first, gap);
      StandsFirst(first + gap, rest);
      StandsWithin(first + gap + rest, 0, first + gap, 0, first);
    } else {
      SpacedAt(items[1..], gap, width, stride, i - 1);
      NextOffset(i - 1, stride);
      StandsFirst(first + gap, rest);
      StandsWithin(first + gap + rest, stride, rest, Offset(i - 1, stride), items[i]);
    }
  }

  lemma {:induction false} SpacedLength(items: seq<seq<Byte>>, gap: seq<Byte>, width: nat, stride: nat)
    requires (forall x :: x in items ==> |x| == width) && stride == width + |gap|
    ensures |Spaced(items, gap)| == Offset(|items|, stride)
  {
    hide Offset;
    if items == [] {
      FirstOffset(stride);
    } else {
      assert items[0] in items;
      SpacedLength(items[1..], gap, width, stride);
      NextOffset(|items| - 1, stride);
    }
  }

  // ---- nodes of the extent tree ----------------------------------------------------------

  /** struct SfsExtentBNode. */
  function RecordBytes(r: Record): (s: seq<Byte>)
    requires r.blocks < 0x1_0000
    ensures |s| == 14
  {
    BeBytes(r.key) + BeBytes(r.next) + BeBytes(r.prev) + Be16Bytes(r.blocks)
  }

  /** struct BNode. */
  function BranchBytes(key: Word, data: Word): (s: seq<Byte>)
    ensures |s| == 8
  {
    BeBytes(key) + BeBytes(data)
  }

  /** struct SfsBNodeContainer: a block header, the number of entries, whether it is a leaf, the
      size of an entry, and the entries. */
  function ContainerBytes(header: seq<Byte>, leaf: Byte, items: seq<seq<Byte>>, width: nat, gap: seq<Byte>, rest: seq<Byte>)
    : seq<Byte>
    requires |items| < 0x1_0000 && width + |gap| < 0x100
  {
    header + Be16Bytes(|items|) + [leaf, width + |gap|] + Spaced(items, gap) + rest
  }

  lemma ContainerReads(header: seq<Byte>, leaf: Byte, items: seq<seq<Byte>>, width: nat, gap: seq<Byte>, rest: seq<Byte>)
    requires |header| == 12 && 1 <= |items| < 0x1_0000 && width + |gap| < 0x100
    requires (forall x :: x in items ==> |x| == width) && width >= if leaf != 0 then 14 else 8
    ensures var s := ContainerBytes(header, leaf, items, width, gap, rest);
            && Header(s, |items|, leaf != 0)
            && forall i :: 0 <= i < |items| ==> StandsAt(s, Position(i, s[15]), items[i])
  {
    var s := ContainerBytes(header, leaf, items, width, gap, rest);
    var body, stride := Spaced(items, gap), width + |gap|;
    SpacedLength(items, gap, width, stride);
    ContainerParts(header, leaf, items, width, gap, rest);
    PositionIsOffset(|items|, stride);
    hide ContainerBytes, Be16, Offset, Position, Spaced;
    assert Header(s, |items|, leaf != 0);
    hide StandsAt;
    forall i | 0 <= i < |items| ensures StandsAt(s, Position(i, stride), items[i]) {
      SpacedAt(items, gap, width, stride, i);
      PositionIsOffset(i, stride);
      StandsWithin(s, NODES, body, Offset(i, stride), items[i]);
    }
  }

  lemma ContainerParts(header: seq<Byte>, leaf: Byte, items: seq<seq<Byte>>, width: nat, gap: seq<Byte>, rest: seq<Byte>)
    requires |header| == 12 && |items| < 0x1_0000 && width + |gap| < 0x100
    ensures var s, body := ContainerBytes(header, leaf, items, width, gap, rest), Spaced(items, gap);
            && |s| >= NODES && StandsAt(s, NODES, body)
            && Be16(s, 12) == |items| && s[14] == leaf && s[15] == width + |gap|
  {
    hide Spaced;
    var s, count := ContainerBytes(header, leaf, items, width, gap, rest), Be16Bytes(|items|);
    StandsBetween(header + count + [leaf, width + |gap|], Spaced(items, gap), rest);
    assert s[12] == count[0] && s[13] == count[1];
  }

  /** The bytes of a record are read back as its fields. */
  lemma RecordReads(s: seq<Byte>, at: nat, r: Record)
    requires r.blocks < 0x1_0000 && StandsAt(s, at, RecordBytes(r))
    ensures at + 14 <= |s| && RecordAt(s, at) == r
  {
    hide BeBytes, Be16Bytes, Be32, Be16;
    var b := RecordBytes(r);
    WordOfWord(b, 0, r.key);
    WordOfWord(b, 4, r.next);
    WordOfWord(b, 8, r.prev);
    WordOfPart(b, 12, Be16Bytes(r.blocks), 0);
    hide RecordBytes;
    WordOfPart(s, at, b, 0);
    WordOfPart(s, at, b, 4);
    WordOfPart(s, at, b, 8);
    WordOfPart(s, at, b, 12);
  }

  lemma BranchReads(s: seq<Byte>, at: nat, key: Word, data: Word)
    requires StandsAt(s, at, BranchBytes(key, data))
    ensures at + 8 <= |s| && Be32(s, at) == key && Be32(s, at + 4) == data
  {
    hide BeBytes, Be32, Be16;
    var b := BranchBytes(key, data);
    WordOfWord(b, 0, key);
    WordOfWord(b, 4, data);
    hide BranchBytes;
    WordOfPart(s, at, b, 0);
    WordOfPart(s, at, b, 4);
  }

  predicate ShortExtents(recs: seq<Record>) {
    forall r :: r in recs ==> r.blocks < 0x1_0000
  }

  function RecordItems(recs: seq<Record>): (items: seq<seq<Byte>>)
    requires ShortExtents(recs)
    ensures |items| == |recs| && forall i :: 0 <= i < |items| ==> items[i] == RecordBytes(recs[i])
  {
    seq(|recs|, i requires 0 <= i < |recs| => RecordBytes(recs[i]))
  }

  function BranchItems(keys: seq<Word>, kids: seq<Tree>): (items: seq<seq<Byte>>)
    requires |keys| == |kids|
    ensures |items| == |keys| && forall i :: 0 <= i < |items| ==> items[i] == BranchBytes(keys[i], kids[i].block)
  {
    seq(|keys|, i requires 0 <= i < |keys| => BranchBytes(keys[i], kids[i].block))
  }

  /** The bytes of a block around the entries. */
  datatype Frame = Frame(header: seq<Byte>, leaf: Byte, gap: seq<Byte>, rest: seq<Byte>)

  predicate FrameFits(f: Frame, count: nat, leaf: bool) {
    |f.header| == 12 && (f.leaf != 0 <==> leaf) && |f.gap| < 0x100 - 14 && 1 <= count < 0x1_0000
  }

  function LeafBytes(f: Frame, recs: seq<Record>): seq<Byte>
    requires FrameFits(f, |recs|, true) && ShortExtents(recs)
  {
    ContainerBytes(f.header, f.leaf, RecordItems(recs), 14, f.gap, f.rest)
  }

  function NodeBytes(f: Frame, keys: seq<Word>, kids: seq<Tree>): seq<Byte>
    requires FrameFits(f, |keys|, false) && |keys| == |kids|
  {
    ContainerBytes(f.header, f.leaf, BranchItems(keys, kids), 8, f.gap, f.rest)
  }

  /** A leaf block made of any records stores these records, and no others. */
  lemma LeafIsStored(f: Frame, recs: seq<Record>, recs': seq<Record>)
    requires FrameFits(f, |recs|, true) && ShortExtents(recs)
    ensures LeafStored(LeafBytes(f, recs), recs') <==> recs' == recs
  {
    hide RecordBytes, ContainerBytes, Position, StandsAt, RecordAt;
    var s := LeafBytes(f, recs);
    ContainerReads(f.header, f.leaf, RecordItems(recs), 14, f.gap, f.rest);
    forall i | 0 <= i < |recs|
      ensures Position(i, s[15]) + 14 <= |s| && RecordAt(s, Position(i, s[15])) == recs[i]
    {
      RecordReads(s, Position(i, s[15]), recs[i]);
    }
    if LeafStored(s, recs') {
      SameCount(s, |recs|, |recs'|, true);
    }
  }

  lemma SameCount(s: seq<Byte>, n: nat, n': nat, leaf: bool)
    requires Header(s, n, leaf) && Header(s, n', leaf)
    ensures n == n'
  {
  }

  lemma NodeIsStored(f: Frame, keys: seq<Word>, kids: seq<Tree>)
    requires FrameFits(f, |keys|, false) && |keys| == |kids|
    ensures NodeStored(NodeBytes(f, keys, kids), keys, kids)
  {
    hide BranchBytes, ContainerBytes, Position, StandsAt, Be32;
    var s := NodeBytes(f, keys, kids);
    ContainerReads(f.header, f.leaf, BranchItems(keys, kids), 8, f.gap, f.rest);
    forall i | 0 <= i < |keys|
      ensures Position(i, s[15]) + 8 <= |s|
      ensures Be32(s, Position(i, s[15])) == keys[i] && Be32(s, Position(i, s[15]) + 4) == kids[i].block
    {
      BranchReads(s, Position(i, s[15]), keys[i], kids[i].block);
    }
  }

  /** The volume holds a block of this layout for each node of the tree. */
  ghost predicate Written(v: Volume, t: Tree)
    decreases t
  {
    match t
    case Leaf(b, recs) =>
      ShortExtents(recs) && exists f :: FrameFits(f, |recs|, true) && v.read(b) == LeafBytes(f, recs)
    case Node(b, keys, kids) =>
      && |keys| == |kids|
      && (exists f :: FrameFits(f, |keys|, false) && v.read(b) == NodeBytes(f, keys, kids))
      && forall i :: 0 <= i < |kids| ==> Flatten(kids[i]) != [] && Flatten(kids[i])[0].key == keys[i] && Written(v, kids[i])
  }

  /** The reader finds the tree in it. */
  lemma {:induction false} WrittenIsStored(v: Volume, t: Tree)
    requires ValidVolume(v) && Written(v, t)
    ensures Stored(v, t)
    decreases t
  {
    hide NodeStored, LeafStored, Flatten, ContainerBytes;
    match t {
      case Leaf(b, recs) =>
        var f :| FrameFits(f, |recs|, true) && v.read(b) == LeafBytes(f, recs);
        LeafIsStored(f, recs, recs);
      case Node(b, keys, kids) =>
        var f :| FrameFits(f, |keys|, false) && v.read(b) == NodeBytes(f, keys, kids);
        NodeIsStored(f, keys, kids);
        forall i | 0 <= i < |kids| ensures Stored(v, kids[i]) {
          WrittenIsStored(v, kids[i]);
        }
    }
  }

  /** A file of such a volume is the concatenation of its extents in the order of their next fields,
      each the blocks from its key on. */
  lemma FileIsChain(v: Volume, t: Tree, data: Word, list: seq<Record>, size: nat)
    requires ValidVolume(v) && Written(v, t) && Sorted(Flatten(t)) && Flatten(t) != [] && IsChain(Flatten(t), data, list)
    ensures GoodTree(v, t.block, t) && FileBytes(v, Flatten(t), data, size) == Clip(Concat(v, list), size)
  {
    hide FileBytes, Concat, Written, Stored, Flatten, Clip;
    WrittenIsStored(v, t);
    FileBytesIsConcat(v, Flatten(t), data, list, size);
  }

  // ---- object containers -----------------------------------------------------------------

  lemma ContainerIdIsName()
    ensures Chars(BeBytes(OBJC)) == "OBJC"
  {
    hide Chars, BeBytes;
    SpeltAs(OBJC, "OBJC");
  }

  /** The fields of an object that the reader does not look at, and its padding byte. */
  datatype Unread = Unread(owners: seq<Byte>, protection: Word, date: Word, pad: Byte)

  /** The fields of struct SfsObject in front of its strings. */
  function FixedBytes(o: Object, u: Unread): (s: seq<Byte>)
    requires |u.owners| == 4
    ensures |s| == NAME
  {
    u.owners + BeBytes(o.node) + BeBytes(u.protection) + BeBytes(o.first) + BeBytes(o.second) + BeBytes(u.date) + [o.bits]
  }

  /** An object: its fields, two terminated strings, and a byte more if their lengths ask for it. */
  function ObjectBytes(o: Object, u: Unread): (s: seq<Byte>)
    requires |u.owners| == 4
    ensures |s| == Size(o)
  {
    var s := FixedBytes(o, u) + (o.name + [0]) + (o.comment + [0]);
    if |s| % 2 == 1 then s + [u.pad] else s
  }

  predicate CleanObject(o: Object) {
    o.node != 0 && 0 !in o.name && 0 !in o.comment
  }

  lemma FixedReads(s: seq<Byte>, at: nat, o: Object, u: Unread)
    requires |u.owners| == 4 && StandsAt(s, at, FixedBytes(o, u))
    ensures at + NAME <= |s|
    ensures Be32(s, at + 4) == o.node && Be32(s, at + 12) == o.first && Be32(s, at + 16) == o.second && s[at + 24] == o.bits
  {
    hide BeBytes, Be32, Be16;
    var b := FixedBytes(o, u);
    WordOfWord(b, 4, o.node);
    WordOfWord(b, 12, o.first);
    WordOfWord(b, 16, o.second);
    assert b[24] == o.bits;
    hide FixedBytes;
    WordOfPart(s, at, b, 4);
    WordOfPart(s, at, b, 12);
    WordOfPart(s, at, b, 16);
    assert s[at..at + NAME][24] == s[at + 24];
  }

  lemma StringReads(s: seq<Byte>, at: nat, text: seq<Byte>)
    requires StandsAt(s, at, text + [0]) && 0 !in text
    ensures StringAt(s, at, text)
  {
    forall i | 0 <= i <= |text| ensures s[at + i] == (text + [0])[i] {
      assert s[at..at + |text| + 1][i] == s[at + i];
    }
  }

  lemma ObjectStarts(o: Object, u: Unread)
    requires |u.owners| == 4
    ensures FixedBytes(o, u) + (o.name + [0]) + (o.comment + [0]) <= ObjectBytes(o, u)
  {
    hide FixedBytes;
  }

  lemma ObjectParts(o: Object, u: Unread)
    requires |u.owners| == 4
    ensures var b, n := ObjectBytes(o, u), |o.name| + 1;
            && StandsAt(b, 0, FixedBytes(o, u)) && StandsAt(b, NAME, o.name + [0])
            && StandsAt(b, NAME + n, o.comment + [0])
  {
    var a, x, y := FixedBytes(o, u), o.name + [0], o.comment + [0];
    var all := a + x + y;
    hide FixedBytes, StandsAt, ObjectBytes;
    ObjectStarts(o, u);
    StandsInPrefix(ObjectBytes(o, u), all);
    StandsFirst(a + x, y);
    StandsFirst(a, x);
    StandsWithin(all, 0, a + x, 0, a);
    StandsWithin(all, 0, a + x, |a|, x);
    StandsWithin(ObjectBytes(o, u), 0, all, 0, a);
    StandsWithin(ObjectBytes(o, u), 0, all, |a|, x);
    StandsWithin(ObjectBytes(o, u), 0, all, |a + x|, y);
  }

  /** The bytes of an object are read back as its fields. */
  lemma ObjectReads(s: seq<Byte>, at: nat, o: Object, u: Unread)
    requires |u.owners| == 4 && CleanObject(o) && StandsAt(s, at, ObjectBytes(o, u))
    ensures ObjectAt(s, at, o)
  {
    hide FixedBytes, Be32, StringAt, ObjectBytes, Size, StandsAt;
    var b, n := ObjectBytes(o, u), |o.name| + 1;
    StandsInside(s, at, b);
    ObjectParts(o, u);
    StandsWithin(s, at, b, 0, FixedBytes(o, u));
    StandsWithin(s, at, b, NAME, o.name + [0]);
    StandsWithin(s, at, b, NAME + n, o.comment + [0]);
    FixedReads(s, at, o, u);
    StringReads(s, at + NAME, o.name);
    StringReads(s, at + NAME + n, o.comment);
  }

  predicate CleanObjects(os: seq<Object>, us: seq<Unread>) {
    |os| == |us| && (forall u :: u in us ==> |u.owners| == 4) && forall o :: o in os ==> CleanObject(o)
  }

  /** The objects one behind the other, and the fields of a node number zero. */
  function Packed(os: seq<Object>, us: seq<Unread>, end: seq<Byte>): seq<Byte>
    requires CleanObjects(os, us)
  {
    if os == [] then end + [0, 0, 0, 0] else ObjectBytes(os[0], us[0]) + Packed(os[1..], us[1..], end)
  }

  lemma {:induction false} PackedReads(s: seq<Byte>, at: nat, os: seq<Object>, us: seq<Unread>, end: seq<Byte>)
    requires CleanObjects(os, us) && |end| == 4 && StandsAt(s, at, Packed(os, us, end))
    ensures ObjectsAt(s, at, os)
    decreases os
  {
    hide ObjectBytes, ObjectAt, CleanObject, StandsAt, Be32;
    var b := Packed(os, us, end);
    if os == [] {
      StandsFirst(end, [0, 0, 0, 0]);
      StandsWithin(s, at, b, 4, [0, 0, 0, 0]);
      assert BeBytes(0) == [0, 0, 0, 0];
      WordOfWord(s, at + 4, 0);
    } else {
      var first, rest := ObjectBytes(os[0], us[0]), Packed(os[1..], us[1..], end);
      StandsFirst(first, rest);
      StandsWithin(s, at, b, 0, first);
      StandsWithin(s, at, b, |first|, rest);
      ObjectReads(s, at, os[0], us[0]);
      PackedReads(s, at + |first|, os[1..], us[1..], end);
    }
  }

  /** What the reader does not look at in the words of struct SfsObjectContainer. */
  datatype Head = Head(sum: Word, own: Word, parent: Word, previous: Word)

  /** The words of struct SfsObjectContainer in front of its objects. */
  function HeadBytes(h: Head, next: Word): (s: seq<Byte>)
    ensures |s| == OBJECTS
  {
    BeBytes(OBJC) + BeBytes(h.sum) + BeBytes(h.own) + BeBytes(h.parent) + BeBytes(next) + BeBytes(h.previous)
  }

  lemma HeadReads(s: seq<Byte>, h: Head, next: Word)
    requires StandsAt(s, 0, HeadBytes(h, next))
    ensures |s| >= OBJECTS && Be32(s, 0) == OBJC && Be32(s, 16) == next
  {
    hide BeBytes, Be32, Be16;
    var b := HeadBytes(h, next);
    WordOfWord(b, 0, OBJC);
    WordOfWord(b, 16, next);
    hide HeadBytes;
    WordOfPart(s, 0, b, 0);
    WordOfPart(s, 0, b, 16);
  }

  /** An object container with these objects, naming the next one. */
  predicate IsContainer(s: seq<Byte>, os: seq<Object>, next: Word, h: Head, us: seq<Unread>, end: seq<Byte>) {
    CleanObjects(os, us) && |end| == 4 && HeadBytes(h, next) + Packed(os, us, end) <= s
  }

  ghost predicate HoldsObjects(s: seq<Byte>, os: seq<Object>, next: Word) {
    exists h, us, end :: IsContainer(s, os, next, h, us, end)
  }

  lemma HoldsReads(s: seq<Byte>, os: seq<Object>, next: Word)
    requires HoldsObjects(s, os, next)
    ensures |s| >= OBJECTS && Be32(s, 0) == OBJC && Be32(s, 16) == next && ObjectsAt(s, OBJECTS, os)
  {
    hide IsContainer, ObjectsAt, Be32;
    var h, us, end :| IsContainer(s, os, next, h, us, end);
    ContainerIsRead(s, os, next, h, us, end);
  }

  lemma ContainerIsRead(s: seq<Byte>, os: seq<Object>, next: Word, h: Head, us: seq<Unread>, end: seq<Byte>)
    requires IsContainer(s, os, next, h, us, end)
    ensures |s| >= OBJECTS && Be32(s, 0) == OBJC && Be32(s, 16) == next && ObjectsAt(s, OBJECTS, os)
  {
    hide HeadBytes, Packed, ObjectsAt, Be32, CleanObjects, StandsAt;
    var head, body := HeadBytes(h, next), Packed(os, us, end);
    StandsInPrefix(s, head + body);
    StandsFirst(head, body);
    StandsWithin(s, 0, head + body, 0, head);
    StandsWithin(s, 0, head + body, |head|, body);
    HeadReads(s, h, next);
    PackedReads(s, OBJECTS, os, us, end);
  }

  /** The volume holds a directory: its containers from a block on, each naming the next one. */
  ghost predicate DirWritten(v: Volume, block: Word, cs: seq<seq<Object>>)
    requires ValidVolume(v)
    decreases cs
  {
    if cs == [] then block == 0
    else block != 0 && Accepted(v.read(block))
         && exists next: Word :: HoldsObjects(v.read(block), cs[0], next) && DirWritten(v, next, cs[1..])
  }

  /** The reader goes through exactly these containers and objects. */
  lemma {:induction false} DirIsChain(v: Volume, block: Word, cs: seq<seq<Object>>)
    requires ValidVolume(v) && DirWritten(v, block, cs)
    ensures DirChain(v, block, cs)
    decreases cs
  {
    hide HoldsObjects, ObjectsAt, Be32, Accepted;
    if cs != [] {
      var next: Word :| HoldsObjects(v.read(block), cs[0], next) && DirWritten(v, next, cs[1..]);
      HoldsReads(v.read(block), cs[0], next);
      DirIsChain(v, next, cs[1..]);
    }
  }
}
