/** Directories of an SFS volume: object containers, packed objects, and the path walk of sfs_find. */
module SfsDir {
  import opened Options
  import opened Sequences
  import opened Words
  import opened Support
  import opened Paths
  import opened SfsVolume
  import opened SfsTree
  import opened SfsFile

  const OBJC: Word := 0x4F424A43
  const OBJECTS := 24
  const NAME := 25

  /** first and second are the union of the C structure: data and size of a file, hash table and
      first directory block of a directory. */
  datatype Object = Object(node: Word, first: Word, second: Word, bits: Byte, name: seq<Byte>, comment: seq<Byte>)

  predicate IsDir(o: Object) {
    o.bits / 128 % 2 == 1
  }

  // ---- packed objects --------------------------------------------------------------------

  /** Bytes an object takes: fixed part, two terminated strings, and padding to an even length. */
  function Size(o: Object): nat {
    var n := NAME + |o.name| + 1 + |o.comment| + 1;
    n + n % 2
  }

  /** A string and its terminator stand at the position. */
  predicate StringAt(s: seq<Byte>, at: nat, text: seq<Byte>) {
    at + |text| < |s| && 0 !in text && s[at + |text|] == 0 && forall i :: 0 <= i < |text| ==> s[at + i] == text[i]
  }

  predicate ObjectAt(s: seq<Byte>, at: nat, o: Object) {
    && at + Size(o) <= |s| && o.node != 0
    && Be32(s, at + 4) == o.node && Be32(s, at + 12) == o.first && Be32(s, at + 16) == o.second && s[at + 24] == o.bits
    && StringAt(s, at + NAME, o.name) && StringAt(s, at + NAME + |o.name| + 1, o.comment)
  }

  /** The objects are packed one behind the other, closed by one whose object node is zero. */
  predicate ObjectsAt(s: seq<Byte>, at: nat, os: seq<Object>)
    decreases os
  {
    if os == [] then at + 8 <= |s| && Be32(s, at + 4) == 0
    else ObjectAt(s, at, os[0]) && ObjectsAt(s, at + Size(os[0]), os[1..])
  }

  /** sfs_nextobject skips exactly the object, whatever the padding byte holds. */
  method NextObject(buffer: array<Byte>, o: nat, ghost obj: Object) returns (next: nat)
    requires ObjectAt(buffer[..], o, obj)
    ensures next == o + Size(obj)
  {
    ghost var s := buffer[..];
    ghost var n, c := |obj.name|, |obj.comment|;
    ghost var second := o + NAME + n + 1;
    var p, i := o + NAME, 2;
    while i > 0
      invariant 0 <= i <= 2
      invariant i == 2 ==> o + NAME <= p <= o + NAME + n
      invariant i == 1 ==> second <= p <= second + c
      invariant i == 0 ==> p == second + c + 1
      decreases i, second + c + 1 - p
    {
      assert i == 2 && p < o + NAME + n ==> s[p] == obj.name[p - o - NAME];
      assert i == 1 && p < second + c ==> s[p] == obj.comment[p - second];
      if buffer[p] == 0 {
        i := i - 1;
      }
      p := p + 1;
    }
    if (p - o) % 2 == 1 {
      p := p + 1;
    }
    next := p;
  }

  /** The characters of a terminated string. */
  method StringOf(buffer: array<Byte>, at: nat, ghost text: seq<Byte>) returns (r: string)
    requires StringAt(buffer[..], at, text)
    ensures r == Chars(text)
  {
    ghost var s := buffer[..];
    forall i | 0 <= i < |text| ensures text[i] != 0 {
      assert text[i] in text;
    }
    var p := at;
    r := "";
    while buffer[p] != 0
      invariant at <= p <= at + |text| && r == Chars(text[..p - at])
      invariant p < at + |text| ==> s[p] == text[p - at] != 0
      decreases at + |text| - p
    {
      r := r + [buffer[p] as char];
      p := p + 1;
    }
    assert text[..p - at] == text;
  }

  // ---- one directory ---------------------------------------------------------------------

  /**
   The object containers chained from next, in order. A block that fails the checksum test or is no
   object container ends the chain like a next of zero.
   */
  ghost predicate DirChain(v: Volume, next: Word, cs: seq<seq<Object>>)
    requires ValidVolume(v)
    decreases cs
  {
    if next == 0 || !Accepted(v.read(next)) || Be32(v.read(next), 0) != OBJC then cs == []
    else cs != [] && ObjectsAt(v.read(next), OBJECTS, cs[0]) && DirChain(v, Be32(v.read(next), 16), cs[1..])
  }

  predicate Matches(o: Object, name: string, dirOnly: bool) {
    EqualFold(Chars(o.name), name) && (dirOnly ==> IsDir(o))
  }

  function FirstMatch(os: seq<Object>, name: string, dirOnly: bool): Option<Object> {
    if os == [] then None
    else if Matches(os[0], name, dirOnly) then Some(os[0])
    else FirstMatch(os[1..], name, dirOnly)
  }

  /** The first object with the name, up to case, and with bit 7 of its bits set if a directory is
      asked for. */
  ghost predicate IsFirst(os: seq<Object>, name: string, dirOnly: bool, o: Object) {
    exists k :: 0 <= k < |os| && os[k] == o && EqualFold(Chars(o.name), name) && (dirOnly ==> o.bits >= 128)
                && forall j :: 0 <= j < k && EqualFold(Chars(os[j].name), name) ==> dirOnly && os[j].bits < 128
  }

  lemma OneFirst(os: seq<Object>, name: string, dirOnly: bool, o: Object, o': Object)
    requires IsFirst(os, name, dirOnly, o) && IsFirst(os, name, dirOnly, o')
    ensures o == o'
  {
    hide EqualFold, Chars;
  }

  /** FirstMatch is what its name says. */
  lemma FirstMatchIsFirst(os: seq<Object>, name: string, dirOnly: bool)
    ensures match FirstMatch(os, name, dirOnly)
            case None => forall o :: o in os && EqualFold(Chars(o.name), name) ==> dirOnly && o.bits < 128
            case Some(o) => IsFirst(os, name, dirOnly, o)
  {
    hide EqualFold, FirstMatch, Chars;
    FirstMatches(os, name, dirOnly);
  }

  lemma {:induction false} FirstMatches(os: seq<Object>, name: string, dirOnly: bool)
    ensures match FirstMatch(os, name, dirOnly)
            case None => forall o :: o in os ==> !Matches(o, name, dirOnly)
            case Some(o) => exists k :: 0 <= k < |os| && os[k] == o && Matches(o, name, dirOnly)
                                        && forall j :: 0 <= j < k ==> !Matches(os[j], name, dirOnly)
  {
    hide Matches;
    if os != [] {
      FirstMatches(os[1..], name, dirOnly);
      if !Matches(os[0], name, dirOnly) && FirstMatch(os, name, dirOnly).Some? {
        var o := FirstMatch(os, name, dirOnly).value;
        var k :| 0 <= k < |os[1..]| && os[1..][k] == o && forall j :: 0 <= j < k ==> !Matches(os[1..][j], name, dirOnly);
        assert os[k + 1] == o;
        forall j | 0 <= j < k + 1 ensures !Matches(os[j], name, dirOnly) {
          assert j > 0 ==> os[j] == os[1..][j - 1];
        }
      }
    }
  }

  lemma {:induction false} FirstMatchConcat(a: seq<Object>, b: seq<Object>, name: string, dirOnly: bool)
    ensures FirstMatch(a + b, name, dirOnly)
         == if FirstMatch(a, name, dirOnly).Some? then FirstMatch(a, name, dirOnly) else FirstMatch(b, name, dirOnly)
  {
    if a == [] {
      assert a + b == b;
    } else {
      assert (a + b)[1..] == a[1..] + b;
      FirstMatchConcat(a[1..], b, name, dirOnly);
    }
  }

  /** What sfs_findobject returns: a buffer and the position of the object in it. */
  ghost predicate Found(buffer: array<Byte>, pos: Option<nat>, o: Option<Object>)
    reads buffer
  {
    match o
    case None => pos == None
    case Some(obj) => pos.Some? && ObjectAt(buffer[..], pos.value, obj)
  }

  /** The scan of one container. */
  method ScanObjects(buffer: array<Byte>, name: string, dirOnly: bool, ghost os: seq<Object>)
    returns (pos: Option<nat>)
    requires ObjectsAt(buffer[..], OBJECTS, os) && '\0' !in name
    ensures Found(buffer, pos, FirstMatch(os, name, dirOnly))
  {
    hide EqualFold;
    var o: nat := OBJECTS;
    ghost var rest := os;
    var node := ReadBe32(buffer, o + 4);
    while node != 0
      invariant o + 8 <= buffer.Length && node == Be32(buffer[..], o + 4)
      invariant ObjectsAt(buffer[..], o, rest)
      invariant FirstMatch(rest, name, dirOnly) == FirstMatch(os, name, dirOnly)
      decreases rest
    {
      ghost var obj := rest[0];
      var text := StringOf(buffer, o + NAME, obj.name);
      CharsHaveNoNul(obj.name);
      var diff := StrCaseCmp(text, name);
      if diff == 0 && (!dirOnly || buffer[o + 24] / 128 % 2 == 1) {
        return Some(o);
      }
      o := NextObject(buffer, o, obj);
      rest := rest[1..];
      node := ReadBe32(buffer, o + 4);
    }
    return None;
  }

  lemma ObjectZeroed(s: seq<Byte>, at: nat, o: Object)
    requires at >= 8 && |s| >= 8 && ObjectAt(s, at, o)
    ensures ObjectAt(Zeroed(s), at, o)
  {
    hide Be32;
    ZeroedReads(s, at + 4);
    ZeroedReads(s, at + 12);
    ZeroedReads(s, at + 16);
  }

  lemma {:induction false} ObjectsZeroed(s: seq<Byte>, at: nat, os: seq<Object>)
    requires at >= 8 && |s| >= 8 && ObjectsAt(s, at, os)
    ensures ObjectsAt(Zeroed(s), at, os)
    decreases os
  {
    hide ObjectAt, Be32;
    if os == [] {
      ZeroedReads(s, at + 4);
    } else {
      ObjectZeroed(s, at, os[0]);
      ObjectsZeroed(s, at + Size(os[0]), os[1..]);
    }
  }

  /** What the reader sees of a container after the checksum test. */
  lemma ContainerShows(v: Volume, next: Word, cs: seq<seq<Object>>)
    requires ValidVolume(v) && DirChain(v, next, cs) && next != 0
    ensures var z := Zeroed(v.read(next));
            && Be32(z, 0) == Be32(v.read(next), 0) && Be32(z, 16) == Be32(v.read(next), 16)
            && (Accepted(v.read(next)) && Be32(z, 0) == OBJC
                ==> cs != [] && ObjectsAt(z, OBJECTS, cs[0]) && DirChain(v, Be32(z, 16), cs[1..]))
            && (!(Accepted(v.read(next)) && Be32(z, 0) == OBJC) ==> cs == [])
  {
    hide Expected, ObjectsAt;
    var s := v.read(next);
    ZeroedReads(s, 16);
    if cs != [] {
      ObjectsZeroed(s, OBJECTS, cs[0]);
    }
  }

  /** sfs_findobject in the directory whose first block is next. */
  method FindObject(v: Volume, first: Word, name: string, dirOnly: bool, ghost cs: seq<seq<Object>>)
    returns (buffer: array<Byte>, pos: Option<nat>)
    requires ValidVolume(v) && DirChain(v, first, cs) && '\0' !in name
    ensures fresh(buffer) && Found(buffer, pos, FirstMatch(Joined(cs), name, dirOnly))
  {
    hide DirChain, FirstMatch, ObjectsAt, Matches, Expected, Be32;
    buffer := new Byte[v.blocksize];
    var next := first;
    ghost var rest := cs;
    while next != 0
      invariant DirChain(v, next, rest)
      invariant FirstMatch(Joined(rest), name, dirOnly) == FirstMatch(Joined(cs), name, dirOnly)
      decreases rest
    {
      ContainerShows(v, next, rest);
      LoadSector(v, next, buffer);
      var sum := CalcChecksum(buffer);
      if sum == 0 {
        NoObjects(name, dirOnly);
        return buffer, None;
      }
      var id := ReadBe32(buffer, 0);
      if id != OBJC {
        NoObjects(name, dirOnly);
        return buffer, None;
      }
      pos := ScanObjects(buffer, name, dirOnly, rest[0]);
      FirstMatchConcat(rest[0], Joined(rest[1..]), name, dirOnly);
      if pos.Some? {
        return buffer, pos;
      }
      next := ReadBe32(buffer, 16);
      rest := rest[1..];
    }
    ChainEnds(v, rest);
    NoObjects(name, dirOnly);
    return buffer, None;
  }

  lemma NoObjects(name: string, dirOnly: bool)
    ensures FirstMatch(Joined([]), name, dirOnly) == None
  {
  }

  lemma ChainEnds(v: Volume, cs: seq<seq<Object>>)
    requires ValidVolume(v) && DirChain(v, 0, cs)
    ensures cs == []
  {
  }

  // ---- paths -----------------------------------------------------------------------------

  /** The directories of a volume by their first block: every directory in one of them is there too. */
  ghost predicate GoodDirs(v: Volume, dirs: map<Word, seq<seq<Object>>>) {
    && ValidVolume(v)
    && (forall b :: b in dirs ==> DirChain(v, b, dirs[b]))
    && (forall b, o :: b in dirs && o in Joined(dirs[b]) && IsDir(o) ==> o.second in dirs)
  }

  /** The meaning of a path: a first match in each directory, of directories only but for the last. */
  ghost function Walk(v: Volume, dirs: map<Word, seq<seq<Object>>>, block: Word, parts: seq<string>): Option<Object>
    requires GoodDirs(v, dirs) && block in dirs && parts != []
    decreases parts
  {
    var os := Joined(dirs[block]);
    if |parts| == 1 then FirstMatch(os, parts[0], false) else
      var o := FirstMatch(os, parts[0], true);
      if o == None then None else
        FirstMatches(os, parts[0], true);
        Walk(v, dirs, o.value.second, parts[1..])
  }

  /** Component by component, the object that comes first in its directory: the first directory is the
      one at block, each further one that of the object before, which is a directory. */
  ghost predicate IsTrail(dirs: map<Word, seq<seq<Object>>>, block: Word, parts: seq<string>, trail: seq<Object>) {
    |trail| == |parts| && forall k :: 0 <= k < |parts| ==> IsStep(dirs, block, parts, trail, k)
  }

  ghost predicate IsStep(dirs: map<Word, seq<seq<Object>>>, block: Word, parts: seq<string>, trail: seq<Object>, k: nat)
    requires k < |parts| == |trail|
  {
    var dir := if k == 0 then block else trail[k - 1].second;
    dir in dirs && IsFirst(Joined(dirs[dir]), parts[k], k < |parts| - 1, trail[k])
  }

  lemma TrailStep(dirs: map<Word, seq<seq<Object>>>, block: Word, parts: seq<string>, o: Object, trail: seq<Object>)
    requires |parts| > 1 && |trail| == |parts| - 1
    ensures IsTrail(dirs, block, parts, [o] + trail)
       <==> block in dirs && IsFirst(Joined(dirs[block]), parts[0], true, o) && IsTrail(dirs, o.second, parts[1..], trail)
  {
    hide IsFirst, Joined;
    var all := [o] + trail;
    assert IsStep(dirs, block, parts, all, 0) <==> block in dirs && IsFirst(Joined(dirs[block]), parts[0], true, o);
    forall k: nat | k < |trail|
      ensures IsStep(dirs, block, parts, all, k + 1) <==> IsStep(dirs, o.second, parts[1..], trail, k)
    {
    }
    if IsTrail(dirs, block, parts, all) {
      forall k: nat | k < |trail| ensures IsStep(dirs, o.second, parts[1..], trail, k) {
        assert IsStep(dirs, block, parts, all, k + 1);
      }
    }
    if IsStep(dirs, block, parts, all, 0) && IsTrail(dirs, o.second, parts[1..], trail) {
      forall k | 0 <= k < |parts| ensures IsStep(dirs, block, parts, all, k) {
        if k > 0 {
          assert IsStep(dirs, o.second, parts[1..], trail, k - 1);
        }
      }
    }
  }

  lemma LastStepOnly(dirs: map<Word, seq<seq<Object>>>, block: Word, name: string, o: Object)
    ensures IsTrail(dirs, block, [name], [o]) <==> block in dirs && IsFirst(Joined(dirs[block]), name, false, o)
  {
    hide IsFirst, Joined;
    assert IsTrail(dirs, block, [name], [o]) <==> IsStep(dirs, block, [name], [o], 0);
  }

  ghost predicate Leads(dirs: map<Word, seq<seq<Object>>>, block: Word, parts: seq<string>, o: Object) {
    exists trail :: IsTrail(dirs, block, parts, trail) && trail != [] && trail[|trail| - 1] == o
  }

  /** A path names an object exactly if such a trail leads to it. */
  lemma {:induction false} WalkIffTrail(v: Volume, dirs: map<Word, seq<seq<Object>>>, block: Word, parts: seq<string>,
                                        o: Object)
    requires GoodDirs(v, dirs) && block in dirs && parts != []
    ensures Walk(v, dirs, block, parts) == Some(o)
       <==> Leads(dirs, block, parts, o)
    decreases |parts|
  {
    hide FirstMatch, Joined, IsFirst, IsTrail, DirChain;
    var os := Joined(dirs[block]);
    if |parts| == 1 {
      assert parts == [parts[0]];
      FirstMatchIsFirst(os, parts[0], false);
      LastTrail(dirs, block, parts[0], o);
    } else {
      FirstMatchIsFirst(os, parts[0], true);
      FirstMatches(os, parts[0], true);
      var first := FirstMatch(os, parts[0], true);
      if first.Some? {
        WalkIffTrail(v, dirs, first.value.second, parts[1..], o);
        TrailThrough(dirs, block, parts, first.value, o);
      } else {
        NoTrail(dirs, block, parts);
      }
    }
  }

  lemma LastTrail(dirs: map<Word, seq<seq<Object>>>, block: Word, name: string, o: Object)
    requires block in dirs
    ensures Leads(dirs, block, [name], o) <==> FirstMatch(Joined(dirs[block]), name, false) == Some(o)
  {
    hide IsFirst, Joined, FirstMatch;
    var os := Joined(dirs[block]);
    FirstMatchIsFirst(os, name, false);
    var found := FirstMatch(os, name, false);
    if found == Some(o) {
      LastStepOnly(dirs, block, name, o);
      assert IsTrail(dirs, block, [name], [o]);
    }
    if Leads(dirs, block, [name], o) {
      var trail :| IsTrail(dirs, block, [name], trail) && trail != [] && trail[|trail| - 1] == o;
      assert trail == [o];
      LastStepOnly(dirs, block, name, o);
      FoundIs(os, name, false, o);
    }
  }

  /** What comes first is what is found. */
  lemma FoundIs(os: seq<Object>, name: string, dirOnly: bool, o: Object)
    requires IsFirst(os, name, dirOnly, o)
    ensures FirstMatch(os, name, dirOnly) == Some(o)
  {
    hide FirstMatch, EqualFold, Chars;
    FirstMatchIsFirst(os, name, dirOnly);
    assert o in os;
    OneFirst(os, name, dirOnly, o, FirstMatch(os, name, dirOnly).value);
  }

  lemma TrailThrough(dirs: map<Word, seq<seq<Object>>>, block: Word, parts: seq<string>, first: Object, o: Object)
    requires |parts| > 1 && block in dirs && FirstMatch(Joined(dirs[block]), parts[0], true) == Some(first)
    ensures Leads(dirs, block, parts, o) <==> Leads(dirs, first.second, parts[1..], o)
  {
    hide IsFirst, Joined, FirstMatch, IsTrail;
    FirstMatchIsFirst(Joined(dirs[block]), parts[0], true);
    if Leads(dirs, first.second, parts[1..], o) {
      var rest :| IsTrail(dirs, first.second, parts[1..], rest) && rest != [] && rest[|rest| - 1] == o;
      TrailLength(dirs, first.second, parts[1..], rest);
      TrailStep(dirs, block, parts, first, rest);
      assert ([first] + rest)[|rest|] == o;
    }
    if Leads(dirs, block, parts, o) {
      var trail :| IsTrail(dirs, block, parts, trail) && trail != [] && trail[|trail| - 1] == o;
      TrailLength(dirs, block, parts, trail);
      assert trail == [trail[0]] + trail[1..];
      TrailStep(dirs, block, parts, trail[0], trail[1..]);
      FoundIs(Joined(dirs[block]), parts[0], true, trail[0]);
      assert trail[1..][|trail| - 2] == o;
    }
  }

  lemma TrailLength(dirs: map<Word, seq<seq<Object>>>, block: Word, parts: seq<string>, trail: seq<Object>)
    requires IsTrail(dirs, block, parts, trail)
    ensures |trail| == |parts|
  {
  }

  lemma NoTrail(dirs: map<Word, seq<seq<Object>>>, block: Word, parts: seq<string>)
    requires |parts| > 1 && block in dirs && FirstMatch(Joined(dirs[block]), parts[0], true) == None
    ensures forall trail :: !IsTrail(dirs, block, parts, trail)
  {
    hide IsFirst, Joined, FirstMatch, IsTrail;
    forall trail ensures !IsTrail(dirs, block, parts, trail) {
      if IsTrail(dirs, block, parts, trail) {
        TrailLength(dirs, block, parts, trail);
        assert trail == [trail[0]] + trail[1..];
        TrailStep(dirs, block, parts, trail[0], trail[1..]);
        FoundIs(Joined(dirs[block]), parts[0], true, trail[0]);
      }
    }
  }

  /** The components sfs_find looks up: one leading slash is skipped. */
  function Parts(filename: string): (r: seq<string>)
    ensures r != []
  {
    Split(if filename != "" && filename[0] == '/' then filename[1..] else filename)
  }

  lemma LeadingSlashIsSkipped(path: string)
    ensures Parts("/" + path) == Split(path)
    ensures path == "" || path[0] != '/' ==> Parts(path) == Split(path)
  {
    assert ("/" + path)[1..] == path;
  }

  /** sfs_find from the directory at rootBlock. */
  method Find(v: Volume, rootBlock: Word, path: string, ghost dirs: map<Word, seq<seq<Object>>>)
    returns (buffer: array<Byte>, pos: Option<nat>)
    requires GoodDirs(v, dirs) && rootBlock in dirs && '\0' !in path
    ensures fresh(buffer) && Found(buffer, pos, Walk(v, dirs, rootBlock, Parts(path)))
  {
    hide FirstMatch, DirChain, IndexOf, Joined, Found, Be32;
    var filename := path;
    if filename != "" && filename[0] == '/' {
      filename := filename[1..];
    }
    var root := rootBlock;
    var k := StrChr(filename, '/');
    while k < |filename|
      invariant k == IndexOf(filename, '/') && '\0' !in filename && root in dirs
      invariant Walk(v, dirs, root, Split(filename)) == Walk(v, dirs, rootBlock, Parts(path))
      decreases |filename|
    {
      var directory := filename[..k];
      buffer, pos := FindObject(v, root, directory, true, dirs[root]);
      ghost var os := Joined(dirs[root]);
      FirstMatches(os, directory, true);
      FoundNext(buffer, pos, FirstMatch(os, directory, true));
      if pos == None {
        return buffer, None;
      }
      root := ReadBe32(buffer, pos.value + 16);
      filename := filename[k + 1..];
      k := StrChr(filename, '/');
    }
    buffer, pos := FindObject(v, root, filename, false, dirs[root]);
  }

  /** What may be read from the object found. */
  lemma FoundNext(buffer: array<Byte>, pos: Option<nat>, o: Option<Object>)
    requires Found(buffer, pos, o)
    ensures pos.Some? <==> o.Some?
    ensures pos.Some? ==> pos.value + 20 <= buffer.Length && Be32(buffer[..], pos.value + 12) == o.value.first
                          && Be32(buffer[..], pos.value + 16) == o.value.second
    ensures o == None ==> Found(buffer, None, None)
  {
  }

  /** sfs_loadfile: -1 if the path names nothing, else the number of bytes loaded. */
  method LoadFile(v: Volume, rootBlock: Word, treeRoot: Word, path: string, filebuffer: array?<Byte>,
                  ghost dirs: map<Word, seq<seq<Object>>>, ghost t: Tree)
    returns (result: int)
    requires GoodDirs(v, dirs) && rootBlock in dirs && '\0' !in path && GoodTree(v, treeRoot, t)
    requires var o := Walk(v, dirs, rootBlock, Parts(path));
             o.Some? ==> Loadable(v, t, o.value.first, o.value.second)
                         && (filebuffer != null ==> filebuffer.Length >= o.value.second)
    modifies if filebuffer == null then {} else {filebuffer}
    ensures match Walk(v, dirs, rootBlock, Parts(path))
            case None => result == -1 && Content(filebuffer) == old(Content(filebuffer))
            case Some(o) =>
              var bytes := FileBytes(v, Flatten(t), o.first, o.second);
              result == |bytes| && Holds(filebuffer, old(Content(filebuffer)), bytes)
  {
    hide *;
    var buffer, pos := Find(v, rootBlock, path, dirs);
    FoundNext(buffer, pos, Walk(v, dirs, rootBlock, Parts(path)));
    if pos == None {
      return -1;
    }
    var data := ReadBe32(buffer, pos.value + 12);
    var size := ReadBe32(buffer, pos.value + 16);
    result := CopyFile(v, treeRoot, data, size, filebuffer, t);
  }
}
