/** Loading a file of an SFS volume: sfs_loadfile copies extent after extent, cut to the file size. */
module SfsFile {
  import opened Options
  import opened Words
  import opened SfsVolume
  import opened SfsTree

  function Clip(s: seq<Byte>, n: nat): (r: seq<Byte>)
    ensures |r| <= n && r <= s && (|s| <= n || |r| == n)
  {
    if |s| <= n then s else s[..n]
  }

  /** The n blocks from start; block numbers wrap around at 2^32. */
  function ExtentBytes(v: Volume, start: Word, n: nat): seq<Byte> {
    if n == 0 then [] else ExtentBytes(v, start, n - 1) + v.read(Wrap(start + n - 1))
  }

  lemma {:induction false} ExtentLength(v: Volume, start: Word, n: nat)
    requires ValidVolume(v)
    ensures |ExtentBytes(v, start, n)| == n * v.blocksize
  {
    if n > 0 {
      ExtentLength(v, start, n - 1);
      assert n * v.blocksize == (n - 1) * v.blocksize + v.blocksize;
    }
  }

  /** The blocks of an extent follow one another on the volume. */
  lemma {:induction false} ExtentBlockAt(v: Volume, start: Word, n: nat, k: nat)
    requires ValidVolume(v) && k < n && start + k < TWO32
    ensures var at, s := |ExtentBytes(v, start, k)|, ExtentBytes(v, start, n);
            at + v.blocksize <= |s| && s[at..at + v.blocksize] == v.read(start + k)
  {
    var at, s, last := |ExtentBytes(v, start, k)|, ExtentBytes(v, start, n - 1), v.read(Wrap(start + n - 1));
    if k < n - 1 {
      ExtentBlockAt(v, start, n - 1, k);
      assert (s + last)[at..at + v.blocksize] == s[at..at + v.blocksize];
    } else {
      assert (s + last)[|s|..|s| + |last|] == last;
    }
  }

  /** No extent is empty, and every extent number but 0 is the key of a record. */
  ghost predicate Closed(recs: seq<Record>, first: Word) {
    HasExtent(recs, first) && forall r :: r in recs ==> r.blocks >= 1 && HasExtent(recs, r.next)
  }

  ghost predicate HasExtent(recs: seq<Record>, next: Word) {
    next != 0 ==> exists r :: r in recs && r.key == next
  }

  /** At most want bytes of the extents chained from next, in chain order; the chain may be cyclic. */
  ghost function FileBytes(v: Volume, recs: seq<Record>, next: Word, want: nat): (r: seq<Byte>)
    ensures |r| <= want
    decreases want
  {
    if next == 0 || want == 0 || Lookup(recs, next) == None then [] else
      var rec := Lookup(recs, next).value;
      var chunk := Clip(ExtentBytes(v, next, rec.blocks), want);
      if chunk == [] then [] else chunk + FileBytes(v, recs, rec.next, want - |chunk|)
  }

  // ---- the simple form: one concatenation, cut once --------------------------------------

  /** list is the whole chain of extents from next to 0. */
  ghost predicate IsChain(recs: seq<Record>, next: Word, list: seq<Record>)
    decreases list
  {
    if list == [] then next == 0
    else next != 0 && list[0] in recs && list[0].key == next && list[0].blocks >= 1
         && IsChain(recs, list[0].next, list[1..])
  }

  ghost function Concat(v: Volume, list: seq<Record>): seq<Byte> {
    if list == [] then [] else ExtentBytes(v, list[0].key, list[0].blocks) + Concat(v, list[1..])
  }

  /** A file is the concatenation of its extents, cut to the file size. */
  lemma {:induction false} FileBytesIsConcat(v: Volume, recs: seq<Record>, next: Word, list: seq<Record>, want: nat)
    requires ValidVolume(v) && Sorted(recs) && IsChain(recs, next, list)
    ensures FileBytes(v, recs, next, want) == Clip(Concat(v, list), want)
    decreases list
  {
    hide ExtentBytes, Lookup, Sorted, Clip;
    if list == [] || want == 0 {
      ClipNone(Concat(v, list), want);
    } else {
      var rec := list[0];
      var all, rest := ExtentBytes(v, next, rec.blocks), Concat(v, list[1..]);
      LookupIsGreatest(recs, next);
      ExtentNotEmpty(v, next, rec.blocks);
      ClipConcat(all, rest, want);
      FileBytesIsConcat(v, recs, rec.next, list[1..], want - |Clip(all, want)|);
    }
  }

  lemma ClipNone(s: seq<Byte>, n: nat)
    ensures s == [] || n == 0 ==> Clip(s, n) == []
  {
  }

  lemma ExtentNotEmpty(v: Volume, start: Word, n: nat)
    requires ValidVolume(v) && n >= 1
    ensures ExtentBytes(v, start, n) != []
  {
  }

  lemma ClipConcat(a: seq<Byte>, b: seq<Byte>, n: nat)
    ensures Clip(a + b, n) == Clip(a, n) + Clip(b, n - |Clip(a, n)|)
    ensures a != [] && n > 0 ==> Clip(a, n) != []
  {
  }

  // ---- the loops -------------------------------------------------------------------------

  /** What the file buffer holds once done has been copied to its start. */
  ghost predicate Holds(filebuffer: array?<Byte>, before: seq<Byte>, done: seq<Byte>)
    reads filebuffer
  {
    filebuffer != null ==> |done| <= |before| && filebuffer[..] == done + before[|done|..]
  }

  /** Copies the first tocopy bytes of a block behind those copied before. */
  method CopyBlock(buffer: array<Byte>, tocopy: nat, filebuffer: array?<Byte>, readed: nat,
                   ghost before: seq<Byte>, ghost done: seq<Byte>)
    requires tocopy <= buffer.Length && buffer != filebuffer
    requires filebuffer != null ==> readed + tocopy <= filebuffer.Length == |before|
    requires Holds(filebuffer, before, done) && readed == |done|
    modifies if filebuffer == null then {} else {filebuffer}
    ensures Holds(filebuffer, before, done + buffer[..tocopy])
  {
    if filebuffer != null {
      forall i | 0 <= i < tocopy {
        filebuffer[readed + i] := buffer[i];
      }
      assert filebuffer[..] == done + buffer[..tocopy] + before[readed + tocopy..];
    }
  }

  lemma NoBlocks(v: Volume, start: Word, room: nat)
    ensures Clip(ExtentBytes(v, start, 0), room) == []
  {
  }

  /** One more block of an extent, as far as there is room. */
  lemma BlockClipped(v: Volume, start: Word, i: nat, room: nat, copied: seq<Byte>, tocopy: nat)
    requires ValidVolume(v) && copied == Clip(ExtentBytes(v, start, i), room)
    requires tocopy == if room - |copied| >= v.blocksize then v.blocksize else room - |copied|
    ensures Clip(ExtentBytes(v, start, i + 1), room) == copied + v.read(Wrap(start + i))[..tocopy]
  {
    hide Wrap;
    ClipConcat(ExtentBytes(v, start, i), v.read(Wrap(start + i)), room);
  }

  lemma Regroup(a: seq<Byte>, b: seq<Byte>, c: seq<Byte>)
    ensures a + b + c == a + (b + c)
  {
  }

  /** One extent: every block of it is read, the bytes past the file size are not copied. */
  method CopyExtent(v: Volume, next: Word, blocks: nat, size: nat, buffer: array<Byte>, filebuffer: array?<Byte>,
                    readed0: nat, ghost before: seq<Byte>, ghost done: seq<Byte>)
    returns (readed: nat)
    requires ValidVolume(v) && buffer.Length == v.blocksize && buffer != filebuffer
    requires filebuffer != null ==> filebuffer.Length == |before| >= size
    requires readed0 == |done| <= size && Holds(filebuffer, before, done)
    modifies buffer, if filebuffer == null then {} else {filebuffer}
    ensures var all := done + Clip(ExtentBytes(v, next, blocks), size - |done|);
            readed == |all| && Holds(filebuffer, before, all)
  {
    hide Holds, Wrap, ExtentBytes, Clip;
    readed := readed0;
    NoBlocks(v, next, size - |done|);
    ghost var room := size - |done|;
    ghost var copied: seq<Byte> := [];
    var i := 0;
    assert done + copied == done;
    while i < blocks
      invariant 0 <= i <= blocks
      invariant copied == Clip(ExtentBytes(v, next, i), room)
      invariant readed == |done + copied| <= size && Holds(filebuffer, before, done + copied)
    {
      LoadSector(v, Wrap(next + i), buffer);
      var tocopy := if size - readed >= v.blocksize then v.blocksize else size - readed;
      CopyBlock(buffer, tocopy, filebuffer, readed, before, done + copied);
      BlockClipped(v, next, i, room, copied, tocopy);
      Regroup(done, copied, buffer[..tocopy]);
      copied := copied + buffer[..tocopy];
      readed := readed + tocopy;
      i := i + 1;
    }
  }

  /** Every node of the tree passes the checksum test. */
  ghost predicate AllAccepted(v: Volume, t: Tree)
    requires ValidVolume(v)
    decreases t
  {
    Accepted(v.read(t.block)) && (t.Node? ==> forall i :: 0 <= i < |t.kids| ==> AllAccepted(v, t.kids[i]))
  }

  lemma {:induction false} AcceptedIsReadable(v: Volume, t: Tree, key: Word)
    requires ValidVolume(v) && Stored(v, t) && Flatten(t) != [] && Flatten(t)[0].key <= key && AllAccepted(v, t)
    ensures Readable(v, t, key)
    decreases t
  {
    hide NodeStored, LeafStored, FlattenAll;
    if t.Node? {
      KidsMatch(v, t);
      FirstKey(t);
      AcceptedIsReadable(v, t.kids[LastAtMost(t.keys, key)], key);
    }
  }

  /** The extent tree of a volume as a file reader needs it. */
  ghost predicate GoodTree(v: Volume, root: Word, t: Tree) {
    ValidVolume(v) && Stored(v, t) && t.block == root && Sorted(Flatten(t)) && Flatten(t) != []
  }

  /** Each extent met until want bytes are read or the chain ends can be looked up, and none is empty. */
  ghost predicate Loadable(v: Volume, t: Tree, next: Word, want: nat)
    requires GoodTree(v, t.block, t)
    decreases want
  {
    next == 0 || want == 0
    || (Flatten(t)[0].key <= next && Readable(v, t, next)
        && (LookupIsGreatest(Flatten(t), next);
            var rec := Lookup(Flatten(t), next).value;
            rec.blocks >= 1
            && (ExtentNotEmpty(v, next, rec.blocks);
                Loadable(v, t, rec.next, want - |Clip(ExtentBytes(v, next, rec.blocks), want)|))))
  }

  /** A volume whose tree is sound and closed under the chains of its extents can be loaded from. */
  lemma {:induction false} ClosedIsLoadable(v: Volume, t: Tree, first: Word, next: Word, want: nat)
    requires GoodTree(v, t.block, t) && AllAccepted(v, t) && Closed(Flatten(t), first) && HasExtent(Flatten(t), next)
    ensures Loadable(v, t, next, want)
    decreases want
  {
    hide ExtentBytes, Stored, AllAccepted, Readable, Sorted, Flatten, Lookup, Closed, HasExtent, GoodTree;
    if next != 0 && want != 0 {
      ExtentFound(v, t.block, t, first, next);
      var rec := Lookup(Flatten(t), next).value;
      ClosedIsLoadable(v, t, first, rec.next, want - |Clip(ExtentBytes(v, next, rec.blocks), want)|);
    }
  }

  /** What one round of the loop relies on and leaves. */
  lemma NextExtent(v: Volume, root: Word, t: Tree, next: Word, want: nat)
    requires GoodTree(v, root, t) && Loadable(v, t, next, want) && next != 0 && want != 0
    ensures Flatten(t)[0].key <= next && Readable(v, t, next) && Lookup(Flatten(t), next).Some?
    ensures var rec := Lookup(Flatten(t), next).value;
            var chunk := Clip(ExtentBytes(v, next, rec.blocks), want);
            && chunk != [] && Loadable(v, t, rec.next, want - |chunk|)
            && FileBytes(v, Flatten(t), next, want) == chunk + FileBytes(v, Flatten(t), rec.next, want - |chunk|)
  {
    hide ExtentBytes, Stored, Readable, Sorted, Flatten, Lookup;
    LookupIsGreatest(Flatten(t), next);
    ExtentNotEmpty(v, next, Lookup(Flatten(t), next).value.blocks);
  }

  /** What is read and what the extents from next on still give make up all. */
  ghost predicate Yields(v: Volume, recs: seq<Record>, next: Word, size: nat, done: seq<Byte>, all: seq<Byte>) {
    |done| <= size && done + FileBytes(v, recs, next, size - |done|) == all
  }

  lemma YieldsAll(v: Volume, recs: seq<Record>, next: Word, size: nat)
    ensures Yields(v, recs, next, size, [], FileBytes(v, recs, next, size))
  {
    hide FileBytes;
    assert [] + FileBytes(v, recs, next, size) == FileBytes(v, recs, next, size);
  }

  lemma YieldsNoMore(v: Volume, recs: seq<Record>, next: Word, size: nat, done: seq<Byte>, all: seq<Byte>)
    requires Yields(v, recs, next, size, done, all) && (next == 0 || size == |done|)
    ensures done == all
  {
  }

  lemma YieldsOn(v: Volume, recs: seq<Record>, next: Word, next': Word, size: nat,
                 done: seq<Byte>, chunk: seq<Byte>, all: seq<Byte>)
    requires Yields(v, recs, next, size, done, all) && |done + chunk| <= size
    requires FileBytes(v, recs, next, size - |done|) == chunk + FileBytes(v, recs, next', size - |done + chunk|)
    ensures Yields(v, recs, next', size, done + chunk, all)
  {
    hide FileBytes;
    assert done + chunk + FileBytes(v, recs, next', size - |done + chunk|)
        == done + (chunk + FileBytes(v, recs, next', size - |done + chunk|));
  }

  /** Between rounds: what has been read is in place, and what is left can be read. */
  ghost predicate Going(v: Volume, root: Word, t: Tree, next: Word, size: nat, filebuffer: array?<Byte>,
                        before: seq<Byte>, done: seq<Byte>, all: seq<Byte>)
    reads filebuffer
  {
    && GoodTree(v, root, t) && |done| <= size && Holds(filebuffer, before, done)
    && (filebuffer != null ==> filebuffer.Length == |before| >= size)
    && Loadable(v, t, next, size - |done|) && Yields(v, Flatten(t), next, size, done, all)
  }

  /** One round of the loop of sfs_loadfile: look the extent up and copy it. */
  method CopyNext(v: Volume, root: Word, next: Word, size: nat, buffer: array<Byte>, filebuffer: array?<Byte>,
                  readed: nat, ghost t: Tree, ghost before: seq<Byte>, ghost done: seq<Byte>, ghost all: seq<Byte>)
    returns (readed': nat, next': Word, ghost done': seq<Byte>)
    requires Going(v, root, t, next, size, filebuffer, before, done, all)
    requires buffer.Length == v.blocksize && buffer != filebuffer && next != 0 && readed == |done| < size
    modifies buffer, if filebuffer == null then {} else {filebuffer}
    ensures Going(v, root, t, next', size, filebuffer, before, done', all)
    ensures readed < readed' == |done'| <= size
  {
    hide Lookup, ExtentBytes, Loadable, Stored, Holds, Flatten, Sorted, Readable, FileBytes, Yields;
    NextExtent(v, root, t, next, size - |done|);
    var sebn, pos := GetBNode(v, root, next, t);
    var at := pos.value;
    var blocks := sebn[at + 12] as int * 0x100 + sebn[at + 13];
    next' := ReadBe32(sebn, at + 4);
    ghost var rec := RecordAt(sebn[..], at);
    ghost var chunk := Clip(ExtentBytes(v, next, rec.blocks), size - |done|);
    done' := done + chunk;
    readed' := CopyExtent(v, next, blocks, size, buffer, filebuffer, readed, before, done);
    YieldsOn(v, Flatten(t), next, next', size, done, chunk, all);
  }

  /** The extents of a file, for a file whose first extent is data; filebuffer may be null. */
  method CopyFile(v: Volume, root: Word, data: Word, size: Word, filebuffer: array?<Byte>, ghost t: Tree)
    returns (readed: nat)
    requires GoodTree(v, root, t) && Loadable(v, t, data, size)
    requires filebuffer != null ==> filebuffer.Length >= size
    modifies if filebuffer == null then {} else {filebuffer}
    ensures var bytes := FileBytes(v, Flatten(t), data, size);
            readed == |bytes| && Holds(filebuffer, old(Content(filebuffer)), bytes)
  {
    assert ValidVolume(v);
    hide *;
    var buffer := new Byte[v.blocksize];
    ghost var before := Content(filebuffer);
    ghost var done: seq<Byte> := [];
    var next := data;
    readed := 0;
    ghost var all := FileBytes(v, Flatten(t), data, size);
    GoingFirst(v, root, t, data, size, filebuffer);
    while next != 0 && readed < size
      invariant readed == |done| <= size && Going(v, root, t, next, size, filebuffer, before, done, all)
      decreases size - readed
    {
      readed, next, done := CopyNext(v, root, next, size, buffer, filebuffer, readed, t, before, done, all);
    }
    GoingLast(v, root, t, next, size, filebuffer, before, done, all);
  }

  lemma GoingFirst(v: Volume, root: Word, t: Tree, data: Word, size: nat, filebuffer: array?<Byte>)
    requires GoodTree(v, root, t) && Loadable(v, t, data, size) && (filebuffer != null ==> filebuffer.Length >= size)
    ensures Going(v, root, t, data, size, filebuffer, Content(filebuffer), [], FileBytes(v, Flatten(t), data, size))
  {
    hide Loadable, GoodTree, Yields, Flatten, FileBytes;
    YieldsAll(v, Flatten(t), data, size);
    HoldsNothing(filebuffer);
  }

  lemma GoingLast(v: Volume, root: Word, t: Tree, next: Word, size: nat, filebuffer: array?<Byte>,
                  before: seq<Byte>, done: seq<Byte>, all: seq<Byte>)
    requires Going(v, root, t, next, size, filebuffer, before, done, all) && (next == 0 || size == |done|)
    ensures done == all && Holds(filebuffer, before, all)
  {
    hide Loadable, GoodTree, Flatten, Holds;
    YieldsNoMore(v, Flatten(t), next, size, done, all);
  }

  ghost function Content(filebuffer: array?<Byte>): (s: seq<Byte>)
    reads filebuffer
    ensures filebuffer != null ==> |s| == filebuffer.Length
  {
    if filebuffer == null then [] else filebuffer[..]
  }

  lemma HoldsNothing(filebuffer: array?<Byte>)
    ensures Holds(filebuffer, Content(filebuffer), [])
  {
  }

  /** An extent number of a closed tree is found exactly, and its extent is not empty. */
  lemma ExtentFound(v: Volume, root: Word, t: Tree, first: Word, next: Word)
    requires GoodTree(v, root, t) && AllAccepted(v, t) && Closed(Flatten(t), first)
    requires HasExtent(Flatten(t), next) && next != 0
    ensures Flatten(t)[0].key <= next && Readable(v, t, next)
    ensures Lookup(Flatten(t), next).Some?
    ensures var rec := Lookup(Flatten(t), next).value;
            rec.blocks >= 1 && rec.key == next && HasExtent(Flatten(t), rec.next) && ExtentBytes(v, next, rec.blocks) != []
  {
    hide Lookup, ExtentBytes, Stored, AllAccepted, Readable;
    var recs := Flatten(t);
    LookupIsGreatest(recs, next);
    var rec := Lookup(recs, next).value;
    var k :| 0 <= k < |recs| && recs[k].key == next;
    assert k > 0 ==> recs[0].key < recs[k].key;
    AcceptedIsReadable(v, t, next);
    ExtentNotEmpty(v, next, rec.blocks);
  }
}
