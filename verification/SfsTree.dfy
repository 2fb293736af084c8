/**
 The B+-tree of extents of an SFS volume. get_bnode descends from the root by scanning each node
 downwards; the result is that of a linear search over the records of all leaves.
 */
module SfsTree {
  import opened Options
  import opened Words
  import opened SfsVolume

  /** An extent: blocks blocks from block number key; next is the key of the following extent. */
  datatype Record = Record(key: Word, next: Word, prev: Word, blocks: nat)

  datatype Tree =
    | Leaf(block: Word, recs: seq<Record>)
    | Node(block: Word, keys: seq<Word>, kids: seq<Tree>)

  // ---- the records of a tree, and searching them -----------------------------------------

  function Flatten(t: Tree): seq<Record>
    decreases t, 0
  {
    match t
    case Leaf(_, recs) => recs
    case Node(_, _, kids) => FlattenAll(kids)
  }

  function FlattenAll(kids: seq<Tree>): seq<Record>
    decreases kids, 1
  {
    if kids == [] then [] else Flatten(kids[0]) + FlattenAll(kids[1..])
  }

  predicate Sorted(recs: seq<Record>) {
    forall i, j :: 0 <= i < j < |recs| ==> recs[i].key < recs[j].key
  }

  /** The linear search: the last record whose key is at most key. */
  function Lookup(recs: seq<Record>, key: Word): Option<Record> {
    if recs == [] then None
    else if recs[|recs| - 1].key <= key then Some(recs[|recs| - 1])
    else Lookup(recs[..|recs| - 1], key)
  }

  /** On sorted records, Lookup gives the greatest key at most key, and the key itself if present. */
  lemma {:induction false} LookupIsGreatest(recs: seq<Record>, key: Word)
    requires Sorted(recs)
    ensures match Lookup(recs, key)
            case None => forall r :: r in recs ==> r.key > key
            case Some(b) => b in recs && b.key <= key && forall r :: r in recs && r.key <= key ==> r.key <= b.key
    ensures forall r :: r in recs && r.key == key ==> Lookup(recs, key) == Some(r)
  {
    if recs != [] {
      var n := |recs| - 1;
      assert recs == recs[..n] + [recs[n]];
      LookupIsGreatest(recs[..n], key);
    }
  }

  /** Records with greater keys behind, and any records in front, do not affect the search. */
  lemma {:induction false} LookupMiddle(a: seq<Record>, m: seq<Record>, b: seq<Record>, key: Word)
    requires m != [] && m[0].key <= key && forall r :: r in b ==> r.key > key
    ensures Lookup(a + m + b, key) == Lookup(m, key)
    decreases |b|, |m|
  {
    var all := a + m + b;
    if b != [] {
      var n := |b| - 1;
      assert all[|all| - 1] == b[n] && b[n] in b;
      assert all[..|all| - 1] == a + m + b[..n];
      LookupMiddle(a, m, b[..n], key);
    } else {
      var n := |m| - 1;
      assert all == a + m;
      assert all[|all| - 1] == m[n];
      if m[n].key > key {
        assert all[..|all| - 1] == a + m[..n] + [];
        LookupMiddle(a, m[..n], [], key);
      }
    }
  }

  lemma {:induction false} FlattenConcat(a: seq<Tree>, b: seq<Tree>)
    ensures FlattenAll(a + b) == FlattenAll(a) + FlattenAll(b)
  {
    if a == [] {
      assert a + b == b;
    } else {
      assert (a + b)[1..] == a[1..] + b;
      FlattenConcat(a[1..], b);
    }
  }

  // ---- trees on a volume -----------------------------------------------------------------

  const NODES := 16

  function Position(i: nat, stride: nat): nat {
    NODES + i * stride
  }

  lemma PositionFits(i: nat, count: nat, stride: nat, limit: nat)
    requires i < count && Position(count, stride) <= limit
    ensures Position(i, stride) + stride <= limit
  {
    if i + 1 < count {
      assert (count - 1) * stride == count * stride - stride;
      PositionFits(i, count - 1, stride, limit);
    } else {
      assert count * stride == i * stride + stride;
    }
  }

  function RecordAt(s: seq<Byte>, at: nat): Record
    requires at + 14 <= |s|
  {
    Record(Be32(s, at), Be32(s, at + 4), Be32(s, at + 8), Be16(s, at + 12))
  }

  /** The header of a node with the given number of entries, each stride bytes long, inside the block. */
  predicate Header(s: seq<Byte>, count: nat, leaf: bool) {
    && |s| >= NODES && Be16(s, 12) == count >= 1 && (s[14] != 0 <==> leaf)
    && s[15] >= (if leaf then 14 else 8) && Position(count, s[15]) <= |s|
  }

  ghost predicate LeafStored(s: seq<Byte>, recs: seq<Record>) {
    Header(s, |recs|, true)
    && forall i :: 0 <= i < |recs| ==> Position(i, s[15]) + 14 <= |s| && RecordAt(s, Position(i, s[15])) == recs[i]
  }

  ghost predicate NodeStored(s: seq<Byte>, keys: seq<Word>, kids: seq<Tree>) {
    Header(s, |keys|, false) && |keys| == |kids|
    && (forall i :: 0 <= i < |keys| ==>
          && Position(i, s[15]) + 8 <= |s|
          && Be32(s, Position(i, s[15])) == keys[i] && Be32(s, Position(i, s[15]) + 4) == kids[i].block)
  }

  /** The volume holds the tree: nodes are not empty and each separator is the first key below it. */
  ghost predicate Stored(v: Volume, t: Tree)
    requires ValidVolume(v)
    decreases t
  {
    match t
    case Leaf(b, recs) => LeafStored(v.read(b), recs)
    case Node(b, keys, kids) =>
      NodeStored(v.read(b), keys, kids)
      && forall i :: 0 <= i < |kids| ==> Flatten(kids[i]) != [] && Flatten(kids[i])[0].key == keys[i] && Stored(v, kids[i])
  }

  /** The last key at most key; the scan of the source has no lower stop, so there must be one. */
  function LastAtMost(keys: seq<Word>, key: Word): (i: nat)
    requires keys != [] && keys[0] <= key
    ensures i < |keys| && keys[i] <= key && forall j :: i < j < |keys| ==> keys[j] > key
  {
    if keys[|keys| - 1] <= key then |keys| - 1 else LastAtMost(keys[..|keys| - 1], key)
  }

  /** Every block met on the way down passes the checksum test. */
  ghost predicate Readable(v: Volume, t: Tree, key: Word)
    requires ValidVolume(v) && Stored(v, t) && Flatten(t) != [] && Flatten(t)[0].key <= key
    decreases t
  {
    Accepted(v.read(t.block))
    && (t.Node? ==> (FirstKey(t); Readable(v, t.kids[LastAtMost(t.keys, key)], key)))
  }

  /** The first key of a node is its first separator. */
  lemma FirstKey(t: Tree)
    requires t.Node? && |t.keys| == |t.kids| > 0 && Flatten(t.kids[0]) != [] && Flatten(t.kids[0])[0].key == t.keys[0]
    ensures Flatten(t) != [] && Flatten(t)[0].key == t.keys[0]
  {
  }

  // ---- one step down ---------------------------------------------------------------------

  /** Searching the whole node is searching the child the scan selects. */
  lemma DescendKeeps(v: Volume, t: Tree, key: Word)
    requires ValidVolume(v) && Stored(v, t) && t.Node? && Sorted(Flatten(t)) && t.keys != [] && t.keys[0] <= key
    ensures var kid := t.kids[LastAtMost(t.keys, key)];
            Lookup(Flatten(t), key) == Lookup(Flatten(kid), key) && Sorted(Flatten(kid))
  {
    hide Lookup, NodeStored, Sorted, FlattenAll, LastAtMost;
    KidsMatch(v, t);
    var i := LastAtMost(t.keys, key);
    FlattenSplit(t.kids, i);
    var a, m, b := FlattenAll(t.kids[..i]), Flatten(t.kids[i]), FlattenAll(t.kids[i + 1..]);
    if i + 1 < |t.kids| {
      FlattenFirst(t.kids[i + 1..]);
    } else {
      FlattenNone(t.kids[i + 1..]);
    }
    SortedParts(a, m, b, key);
    LookupMiddle(a, m, b, key);
  }

  lemma FlattenSplit(kids: seq<Tree>, i: nat)
    requires i < |kids|
    ensures FlattenAll(kids) == FlattenAll(kids[..i]) + Flatten(kids[i]) + FlattenAll(kids[i + 1..])
  {
    var rest := kids[i..];
    assert kids == kids[..i] + rest;
    FlattenConcat(kids[..i], rest);
    assert rest[1..] == kids[i + 1..];
  }

  lemma FlattenFirst(kids: seq<Tree>)
    requires kids != [] && Flatten(kids[0]) != []
    ensures FlattenAll(kids) != [] && FlattenAll(kids)[0] == Flatten(kids[0])[0]
  {
  }

  lemma FlattenNone(kids: seq<Tree>)
    requires kids == []
    ensures FlattenAll(kids) == []
  {
  }

  lemma SortedParts(a: seq<Record>, m: seq<Record>, b: seq<Record>, key: Word)
    requires Sorted(a + m + b) && (b != [] ==> b[0].key > key)
    ensures Sorted(m) && forall r :: r in b ==> r.key > key
  {
    var all := a + m + b;
    forall j, k | 0 <= j < k < |m| ensures m[j].key < m[k].key {
      assert all[|a| + j] == m[j] && all[|a| + k] == m[k];
    }
    forall r | r in b ensures r.key > key {
      var j :| 0 <= j < |b| && b[j] == r;
      assert all[|a| + |m| + j] == b[j] && all[|a| + |m|] == b[0];
    }
  }

  lemma KidsMatch(v: Volume, t: Tree)
    requires ValidVolume(v) && Stored(v, t) && t.Node?
    ensures |t.keys| == |t.kids| > 0
  {
  }

  // ---- what a node block shows -----------------------------------------------------------

  /** The keys of the entries of one node. */
  function KeysOf(t: Tree): seq<Word> {
    match t
    case Leaf(_, recs) => seq(|recs|, i requires 0 <= i < |recs| => recs[i].key)
    case Node(_, keys, _) => keys
  }

  /** Clearing the checksum field changes nothing behind it. */
  lemma ZeroedReads(s: seq<Byte>, at: nat)
    requires |s| >= 8 && at >= 8
    ensures at < |s| ==> Zeroed(s)[at] == s[at]
    ensures at + 2 <= |s| ==> Be16(Zeroed(s), at) == Be16(s, at)
    ensures at + 4 <= |s| ==> Be32(Zeroed(s), at) == Be32(s, at)
  {
  }

  lemma LookupIs(recs: seq<Record>, i: nat, key: Word)
    requires i < |recs| && recs[i].key <= key && forall j :: i < j < |recs| ==> recs[j].key > key
    ensures Lookup(recs, key) == Some(recs[i])
  {
    assert recs == recs[..i] + [recs[i]] + recs[i + 1..];
    LookupMiddle(recs[..i], [recs[i]], recs[i + 1..], key);
  }

  lemma LeafFacts(t: Tree, key: Word, s: seq<Byte>, z: seq<Byte>)
    requires t.Leaf? && LeafStored(s, t.recs) && z == Zeroed(s) && t.recs[0].key <= key
    ensures NodeShows(z, KeysOf(t)) && z[14] != 0 && KeysOf(t)[0] <= key
    ensures var i := LastAtMost(KeysOf(t), key);
            Position(i, z[15]) + 14 <= |z| && Lookup(t.recs, key) == Some(RecordAt(z, Position(i, z[15])))
  {
    hide Lookup, Be32, Be16;
    var stride := s[15];
    ZeroedReads(s, 12);
    ZeroedReads(s, 14);
    ZeroedReads(s, 15);
    forall j | 0 <= j < |t.recs| ensures RecordAt(z, Position(j, stride)) == t.recs[j] {
      var at := Position(j, stride);
      ZeroedReads(s, at);
      ZeroedReads(s, at + 4);
      ZeroedReads(s, at + 8);
      ZeroedReads(s, at + 12);
    }
    var i := LastAtMost(KeysOf(t), key);
    forall j | i < j < |t.recs| ensures t.recs[j].key > key {
      assert KeysOf(t)[j] > key;
    }
    LookupIs(t.recs, i, key);
  }

  lemma NodeFacts(t: Tree, key: Word, s: seq<Byte>, z: seq<Byte>)
    requires t.Node? && NodeStored(s, t.keys, t.kids) && z == Zeroed(s) && t.keys[0] <= key
    ensures NodeShows(z, t.keys) && z[14] == 0
    ensures var i := LastAtMost(t.keys, key);
            Position(i, z[15]) + 8 <= |z| && Be32(z, Position(i, z[15]) + 4) == t.kids[i].block
  {
    hide Be32, Be16;
    var stride := s[15];
    ZeroedReads(s, 12);
    ZeroedReads(s, 14);
    ZeroedReads(s, 15);
    forall j | 0 <= j < |t.keys|
      ensures Be32(z, Position(j, stride)) == t.keys[j] && Be32(z, Position(j, stride) + 4) == t.kids[j].block
    {
      ZeroedReads(s, Position(j, stride));
      ZeroedReads(s, Position(j, stride) + 4);
    }
  }

  /** The keys of a node, as the scan reads them from the block. */
  predicate NodeShows(z: seq<Byte>, keys: seq<Word>) {
    && |z| >= NODES && Be16(z, 12) == |keys| > 0
    && z[15] >= 8 && Position(|keys|, z[15]) <= |z|
    && forall j :: 0 <= j < |keys| ==> Position(j, z[15]) + 4 <= |z| && Be32(z, Position(j, z[15])) == keys[j]
  }

  // ---- the search ------------------------------------------------------------------------

  /** The scan of one node, downwards from its last entry. */
  method ScanNode(buffer: array<Byte>, key: Word, ghost keys: seq<Word>) returns (i: nat)
    requires NodeShows(buffer[..], keys) && keys[0] <= key
    ensures i == LastAtMost(keys, key)
  {
    i := buffer[12] as int * 0x100 + buffer[13] - 1;
    var at := ReadBe32(buffer, Position(i, buffer[15]));
    while at > key
      invariant 0 <= i < |keys| && at == keys[i]
      invariant forall j :: i < j < |keys| ==> keys[j] > key
      decreases i
    {
      i := i - 1;
      at := ReadBe32(buffer, Position(i, buffer[15]));
    }
  }

  /**
   get_bnode: the position, in a block read last, of the record for key; None if a block fails the
   checksum test.
   */
  method GetBNode(v: Volume, root: Word, key: Word, ghost t: Tree) returns (buffer: array<Byte>, pos: Option<nat>)
    requires ValidVolume(v) && Stored(v, t) && t.block == root
    requires Sorted(Flatten(t)) && Flatten(t) != [] && Flatten(t)[0].key <= key
    ensures fresh(buffer)
    ensures pos.Some? <==> Readable(v, t, key)
    ensures pos.Some? ==> pos.value + 14 <= buffer.Length
                          && Lookup(Flatten(t), key) == Some(RecordAt(buffer[..], pos.value))
  {
    hide Lookup, FlattenAll, Sorted, NodeStored, LeafStored, LastAtMost, Be32, Be16, Expected, Zeroed;
    buffer := new Byte[v.blocksize];
    var next := root;
    ghost var cur := t;
    while true
      invariant Stored(v, cur) && cur.block == next
      invariant Sorted(Flatten(cur)) && Flatten(cur) != [] && Flatten(cur)[0].key <= key
      invariant Lookup(Flatten(cur), key) == Lookup(Flatten(t), key)
      invariant Readable(v, cur, key) == Readable(v, t, key)
      decreases cur
    {
      LoadSector(v, next, buffer);
      var sum := CalcChecksum(buffer);
      if sum == 0 {
        return buffer, None;
      }
      ghost var s := v.read(next);
      if cur.Leaf? {
        LeafFacts(cur, key, s, buffer[..]);
      } else {
        KidsMatch(v, cur);
        FirstKey(cur);
        NodeFacts(cur, key, s, buffer[..]);
      }
      var i := ScanNode(buffer, key, KeysOf(cur));
      if buffer[14] != 0 {
        return buffer, Some(Position(i, buffer[15]));
      }
      next := ReadBe32(buffer, Position(i, buffer[15]) + 4);
      DescendKeeps(v, cur, key);
      cur := cur.kids[i];
    }
  }
}
