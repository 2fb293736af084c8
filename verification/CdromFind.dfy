/** Finding and loading a file: fs_cdrom_find_file and fs_cdrom_load_file of src/cdrom.c. */
module CdromFind {
  import opened Options
  import opened Words
  import opened Support
  import opened Paths
  import opened CdromRead
  import opened CdromDrive
  import opened CdromSusp
  import opened CdromDir

  const MAX_DEPTH := 8

  // ---- what a path means -----------------------------------------------------------------

  /** The test for a component: by name, and a directory for all but the last, none for that. */
  predicate Wanted(e: Entry, name: string, last: bool) {
    EqualFold(name, e.name) && if last then e.flags % 4 != 2 else e.flags % 4 == 2
  }

  function FirstMatch(es: seq<Entry>, name: string, last: bool): Option<Entry> {
    if es == [] then None
    else if Wanted(es[0], name, last) then Some(es[0])
    else FirstMatch(es[1..], name, last)
  }

  /** The first record with the name, up to case, that is a directory in sight or, for the last
      component, anything else. */
  lemma FirstMatchIsFirst(es: seq<Entry>, name: string, last: bool)
    ensures match FirstMatch(es, name, last)
            case None => forall e :: e in es && EqualFold(name, e.name) ==> (e.flags % 4 == 2 <==> last)
            case Some(e) =>
              exists i :: 0 <= i < |es| && es[i] == e && EqualFold(name, e.name) && (e.flags % 4 == 2 <==> !last)
                          && forall j :: 0 <= j < i && EqualFold(name, es[j].name) ==> (es[j].flags % 4 == 2 <==> last)
  {
    hide EqualFold, FirstMatch;
    FirstWanted(es, name, last);
  }

  lemma {:induction false} FirstWanted(es: seq<Entry>, name: string, last: bool)
    ensures match FirstMatch(es, name, last)
            case None => forall e :: e in es ==> !Wanted(e, name, last)
            case Some(e) => exists i :: 0 <= i < |es| && es[i] == e && Wanted(e, name, last)
                                        && forall j :: 0 <= j < i ==> !Wanted(es[j], name, last)
  {
    hide Wanted;
    if es != [] && !Wanted(es[0], name, last) {
      FirstWanted(es[1..], name, last);
      var r := FirstMatch(es[1..], name, last);
      if r.Some? {
        var i :| 0 <= i < |es[1..]| && es[1..][i] == r.value && Wanted(r.value, name, last)
                 && forall j :: 0 <= j < i ==> !Wanted(es[1..][j], name, last);
        assert es[i + 1] == r.value;
      }
    } else if es != [] {
      assert es[0] == FirstMatch(es, name, last).value;
    }
  }

  /** First matches folded over the components, from the directory with the given extent and size. */
  ghost function FindPath(m: Medium, names: Names, block: Word, size: Word, path: seq<string>): Option<(Word, Word)>
    decreases |path|
  {
    if path == [] then Some((block, size))
    else
      match FirstMatch(Entries(m, names, block, Signed(size), 0), path[0], |path| == 1)
      case None => None
      case Some(e) => FindPath(m, names, e.extent, e.size, path[1..])
  }

  /** The directories of a disc by their first block, each sector's records listed. A directory record
      gives the block and the size of another one of them. */
  ghost predicate GoodDirs(m: Medium, names: Names, dirs: map<Word, seq<seq<seq<Byte>>>>) {
    && (forall b :: b in dirs ==> DirectoryAt(m, b, dirs[b]) && forall rs :: rs in dirs[b] ==> AllRecords(rs))
    && (forall b, e :: b in dirs && e in AllEntries(m, names, b, dirs[b], 0) && e.flags % 4 == 2
                       ==> e.extent in dirs && HasSize(dirs[e.extent], e.size))
  }

  predicate HasSize(sectors: seq<seq<seq<Byte>>>, size: Word) {
    size == |sectors| * SECTOR && size < 0x8000_0000
  }

  /** The meaning of a path on such a disc. */
  ghost function Walk(m: Medium, names: Names, dirs: map<Word, seq<seq<seq<Byte>>>>, block: Word, path: seq<string>)
    : Option<(Word, Word)>
    requires GoodDirs(m, names, dirs) && block in dirs && path != []
    decreases |path|
  {
    match FirstMatch(AllEntries(m, names, block, dirs[block], 0), path[0], |path| == 1)
    case None => None
    case Some(e) =>
      if |path| == 1 then Some((e.extent, e.size))
      else
        FirstMatchIsFirst(AllEntries(m, names, block, dirs[block], 0), path[0], false);
        Walk(m, names, dirs, e.extent, path[1..])
  }

  /** What the code finds by stepping through bytes is what the records of the directories say, by their
      own names or, with Rock Ridge, by those of their NM entries. */
  lemma {:induction false} FindPathIsWalk(m: Medium, names: Names, dirs: map<Word, seq<seq<seq<Byte>>>>,
                                          block: Word, size: Word, path: seq<string>)
    requires GoodDirs(m, names, dirs) && block in dirs && HasSize(dirs[block], size) && path != []
    ensures FindPath(m, names, block, size, path) == Walk(m, names, dirs, block, path)
    decreases |path|
  {
    hide Entries, DirectoryAt, AllEntries, AllRecords, FirstMatch;
    var es := AllEntries(m, names, block, dirs[block], 0);
    DirectoryIsRead(m, names, block, dirs[block]);
    var found := FirstMatch(es, path[0], |path| == 1);
    FirstMatchIsFirst(es, path[0], |path| == 1);
    if found.Some? && |path| > 1 {
      FindPathIsWalk(m, names, dirs, found.value.extent, found.value.size, path[1..]);
    }
  }

  // ---- hidden directories ----------------------------------------------------------------

  /** The kind of a record by section 9.1.6 of ECMA-119: bit 1 of the flags alone marks a directory;
      bit 0 marks what is hidden. */
  predicate WantedByKind(e: Entry, name: string, last: bool) {
    EqualFold(name, e.name) && e.flags / 2 % 2 == if last then 0 else 1
  }

  predicate IsHiddenDirectory(e: Entry) {
    e.flags % 4 == 3
  }

  function FirstByKind(es: seq<Entry>, name: string, last: bool): (r: Option<Entry>)
    ensures r.Some? ==> r.value in es && WantedByKind(r.value, name, last)
  {
    if es == [] then None
    else if WantedByKind(es[0], name, last) then Some(es[0])
    else FirstByKind(es[1..], name, last)
  }

  /** The record either way of telling directories chooses. */
  function Choice(es: seq<Entry>, name: string, last: bool, byKind: bool): Option<Entry> {
    if byKind then FirstByKind(es, name, last) else FirstMatch(es, name, last)
  }

  /** The first record with the name that one of both ways would choose: for the last component the
      code's way chooses more, for the others the standard's. */
  function FirstEither(es: seq<Entry>, name: string, last: bool): Option<Entry> {
    Choice(es, name, last, !last)
  }

  lemma KindsDiffer(e: Entry, name: string, last: bool)
    ensures !IsHiddenDirectory(e) ==> (Wanted(e, name, last) <==> WantedByKind(e, name, last))
    ensures IsHiddenDirectory(e) ==> !(if last then WantedByKind(e, name, last) else Wanted(e, name, last))
    ensures IsHiddenDirectory(e) ==>
              ((if last then Wanted(e, name, last) else WantedByKind(e, name, last)) <==> EqualFold(name, e.name))
  {
    hide EqualFold;
  }

  /** Both ways choose the same record exactly if the first in question is no hidden directory. */
  lemma {:induction false} ChoicesAgreeIff(es: seq<Entry>, name: string, last: bool)
    ensures FirstMatch(es, name, last) == FirstByKind(es, name, last)
       <==> match FirstEither(es, name, last) case None => true case Some(e) => !IsHiddenDirectory(e)
    decreases |es|
  {
    hide Wanted, WantedByKind, IsHiddenDirectory;
    if es != [] {
      KindsDiffer(es[0], name, last);
      FirstWanted(es, name, last);
      ChoicesAgreeIff(es[1..], name, last);
    }
  }

  /** Hidden directories are directories of the disc like the others. */
  ghost predicate WholeDirs(m: Medium, names: Names, dirs: map<Word, seq<seq<seq<Byte>>>>) {
    GoodDirs(m, names, dirs)
    && forall b, e :: b in dirs && e in AllEntries(m, names, b, dirs[b], 0) && IsHiddenDirectory(e) ==> e.extent in dirs
  }

  /** The records a path leads over, up to the first component without one. */
  ghost function Trace(m: Medium, names: Names, dirs: map<Word, seq<seq<seq<Byte>>>>, block: Word, path: seq<string>,
                       byKind: bool): seq<Entry>
    requires WholeDirs(m, names, dirs) && block in dirs && path != []
    decreases |path|
  {
    var es := AllEntries(m, names, block, dirs[block], 0);
    match Choice(es, path[0], |path| == 1, byKind)
    case None => []
    case Some(e) =>
      if |path| == 1 then [e]
      else
        ChoiceIsDirectory(es, path[0], byKind);
        [e] + Trace(m, names, dirs, e.extent, path[1..], byKind)
  }

  lemma ChoiceIsDirectory(es: seq<Entry>, name: string, byKind: bool)
    requires Choice(es, name, false, byKind).Some?
    ensures var e := Choice(es, name, false, byKind).value;
            e in es && (e.flags % 4 == 2 || IsHiddenDirectory(e))
  {
    hide EqualFold;
    FirstMatchIsFirst(es, name, false);
  }

  /** On the way no hidden directory is the first record in question. */
  ghost predicate MeetsNoHidden(m: Medium, names: Names, dirs: map<Word, seq<seq<seq<Byte>>>>, block: Word,
                                path: seq<string>)
    requires WholeDirs(m, names, dirs) && block in dirs && path != []
    decreases |path|
  {
    var es := AllEntries(m, names, block, dirs[block], 0);
    match FirstEither(es, path[0], |path| == 1)
    case None => true
    case Some(e) =>
      !IsHiddenDirectory(e)
      && (|path| == 1
          || (ChoiceIsDirectory(es, path[0], true);
              MeetsNoHidden(m, names, dirs, e.extent, path[1..])))
  }

  /** The code walks over the same records as a walk that tells directories by bit 1 alone, exactly
      if no hidden directory is in question on the way. */
  lemma {:induction false} DescendedIffVisible(m: Medium, names: Names, dirs: map<Word, seq<seq<seq<Byte>>>>, block: Word,
                                               path: seq<string>)
    requires WholeDirs(m, names, dirs) && block in dirs && path != []
    ensures Trace(m, names, dirs, block, path, false) == Trace(m, names, dirs, block, path, true)
       <==> MeetsNoHidden(m, names, dirs, block, path)
    decreases |path|
  {
    hide AllEntries, FirstMatch, FirstByKind, IsHiddenDirectory, AllRecords, DirectoryAt, HasSize;
    var es := AllEntries(m, names, block, dirs[block], 0);
    ChoicesAgreeIff(es, path[0], |path| == 1);
    if |path| > 1 && FirstByKind(es, path[0], false).Some? {
      ChoiceIsDirectory(es, path[0], true);
      var e := FirstByKind(es, path[0], false).value;
      LeadsToDirectory(m, names, dirs, block, e);
      DescendedIffVisible(m, names, dirs, e.extent, path[1..]);
      SameTail(e, Trace(m, names, dirs, e.extent, path[1..], false), Trace(m, names, dirs, e.extent, path[1..], true));
    }
  }

  lemma LeadsToDirectory(m: Medium, names: Names, dirs: map<Word, seq<seq<seq<Byte>>>>, block: Word, e: Entry)
    requires WholeDirs(m, names, dirs) && block in dirs && e in AllEntries(m, names, block, dirs[block], 0)
    requires e.flags % 4 == 2 || IsHiddenDirectory(e)
    ensures e.extent in dirs
  {
    hide AllEntries, DirectoryAt, AllRecords, HasSize;
  }

  lemma SameTail<T>(e: T, a: seq<T>, b: seq<T>)
    ensures [e] + a == [e] + b <==> a == b
  {
    assert ([e] + a)[1..] == a && ([e] + b)[1..] == b;
  }

  /** Walk gives what the last record says, if every component has one. */
  lemma {:induction false} WalkIsTrace(m: Medium, names: Names, dirs: map<Word, seq<seq<seq<Byte>>>>, block: Word,
                                       path: seq<string>)
    requires WholeDirs(m, names, dirs) && block in dirs && path != []
    ensures var t := Trace(m, names, dirs, block, path, false);
            && |t| <= |path|
            && Walk(m, names, dirs, block, path)
               == if |t| == |path| then Some((t[|t| - 1].extent, t[|t| - 1].size)) else None
    decreases |path|
  {
    hide AllEntries, FirstMatch, FirstByKind, IsHiddenDirectory;
    var es := AllEntries(m, names, block, dirs[block], 0);
    var found := FirstMatch(es, path[0], |path| == 1);
    if |path| > 1 && found.Some? {
      ChoiceIsDirectory(es, path[0], false);
      LeadsToDirectory(m, names, dirs, block, found.value);
      WalkIsTrace(m, names, dirs, found.value.extent, path[1..]);
    }
  }

  /** An input: the one record with the name is a hidden directory. Nothing is found below it, and its
      own extent is loaded as if it were a file. */
  lemma HiddenDirectoryIsFile(m: Medium, names: Names, dirs: map<Word, seq<seq<seq<Byte>>>>, block: Word,
                              e: Entry, name: string, rest: seq<string>)
    requires GoodDirs(m, names, dirs) && block in dirs && rest != []
    requires e in AllEntries(m, names, block, dirs[block], 0) && IsHiddenDirectory(e) && EqualFold(name, e.name)
    requires forall x :: x in AllEntries(m, names, block, dirs[block], 0) && EqualFold(name, x.name) ==> x == e
    ensures Walk(m, names, dirs, block, [name] + rest) == None
    ensures Walk(m, names, dirs, block, [name]) == Some((e.extent, e.size))
  {
    hide AllEntries, AllRecords, DirectoryAt, HasSize, EqualFold, FirstMatch, IsHiddenDirectory;
    OnlyHidden(AllEntries(m, names, block, dirs[block], 0), e, name);
  }

  lemma OnlyHidden(es: seq<Entry>, e: Entry, name: string)
    requires e in es && IsHiddenDirectory(e) && EqualFold(name, e.name)
    requires forall x :: x in es && EqualFold(name, x.name) ==> x == e
    ensures FirstMatch(es, name, false) == None && FirstMatch(es, name, true) == Some(e)
  {
    hide EqualFold, FirstMatch;
    FirstMatchIsFirst(es, name, false);
    FirstMatchIsFirst(es, name, true);
  }

  function Relative(path: string): string {
    if path != "" && path[0] == '/' then path[1..] else path
  }

  /** One slash in front of a path changes nothing in what it names. */
  lemma LeadingSlashIsSkipped(path: string)
    requires path == "" || path[0] != '/'
    ensures Elements(Relative("/" + path)) == Elements(Relative(path)) == Elements(path)
  {
    assert ("/" + path)[1..] == path;
  }

  // ---- splitting the path in place -------------------------------------------------------

  /** A NUL-terminated string at a position. */
  predicate HoldsAt(buf: seq<char>, p: nat, s: string) {
    p + |s| < |buf| && '\0' !in s && buf[p..p + |s|] == s && buf[p + |s|] == '\0'
  }

  lemma HoldsLonger(a: seq<char>, b: seq<char>, p: nat, s: string)
    requires HoldsAt(a, p, s) && a <= b
    ensures HoldsAt(b, p, s)
  {
    assert b[..|a|][p..p + |s|] == b[p..p + |s|];
  }

  /** Every component is in place. */
  predicate AllHeld(buf: seq<char>, starts: seq<nat>, names: seq<string>) {
    |starts| == |names| && forall k :: 0 <= k < |names| ==> HoldsAt(buf, starts[k], names[k])
  }

  method SplitPath(filename: string) returns (local: array<char>, elements: array<nat>, depth: nat)
    requires '\0' !in filename && |Elements(filename)| <= MAX_DEPTH + 1
    ensures fresh(local) && fresh(elements) && depth == |Elements(filename)| <= elements.Length
    ensures AllHeld(local[..], elements[..depth], Elements(filename))
  {
    hide Elements, AllHeld;
    elements := new nat[MAX_DEPTH + 1];
    local := new char[|filename| + 1](i requires 0 <= i => At(filename, i));
    elements[0] := 0;
    depth := 1;
    var i := 0;
    ghost var start: nat, done: seq<string> := 0, [];
    NoneHeld(local[..start], elements[..depth - 1]);
    assert local[start..] == filename + ['\0'] && filename[start..] == filename;
    while i < |filename| - 1
      invariant 0 <= start <= i <= |filename| && depth == |done| + 1 && (filename != "" ==> i < |filename|)
      invariant Elements(filename) == done + Elements(filename[start..])
      invariant elements[depth - 1] == start && AllHeld(local[..start], elements[..depth - 1], done)
      invariant local[start..] == filename[start..] + ['\0']
      invariant forall j :: start <= j < i ==> filename[j] != '/'
    {
      assert local[start..][i - start] == filename[i];
      if local[i] == '/' {
        ElementsStep(filename, start, i);
        ghost var buf, held := local[..], elements[..depth - 1];
        assert buf[..start] == local[..start] && buf[start..] == local[start..];
        local[i] := '\0';
        elements[depth] := i + 1;
        assert elements[..depth] == held + [start];
        CutHeld(buf, filename, start, i, held, done);
        assert local[..] == buf[i := '\0'] && local[..i + 1] == local[..][..i + 1] && local[i + 1..] == local[..][i + 1..];
        done := done + [filename[start..i]];
        depth := depth + 1;
        start := i + 1;
      }
      i := i + 1;
    }
    ElementsEnd(filename, start);
    ghost var buf, held := local[..], elements[..depth - 1];
    assert buf[..start] == local[..start] && buf[start..] == local[start..];
    assert elements[..depth] == held + [start];
    LastHeld(buf, filename, start, held, done);
  }

  lemma NoneHeld(buf: seq<char>, starts: seq<nat>)
    requires |starts| == 0
    ensures AllHeld(buf, starts, [])
  {
  }

  /** A slash turned into a terminator completes the component before it. */
  lemma CutHeld(buf: seq<char>, filename: string, start: nat, i: nat, starts: seq<nat>, done: seq<string>)
    requires start <= i < |filename| - 1 && |buf| == |filename| + 1 && '\0' !in filename
    requires AllHeld(buf[..start], starts, done) && buf[start..] == filename[start..] + ['\0']
    ensures var cut := buf[i := '\0'];
            && AllHeld(cut[..i + 1], starts + [start], done + [filename[start..i]])
            && cut[i + 1..] == filename[i + 1..] + ['\0']
  {
    hide AllHeld;
    var cut, name := buf[i := '\0'], filename[start..i];
    PartsOfCut(buf, start, i, '\0');
    TextAtCut(filename, start, i);
    NextHeld(cut[..i + 1], start, starts, done, name);
  }

  lemma PartsOfCut(buf: seq<char>, start: nat, i: nat, c: char)
    requires start <= i < |buf|
    ensures var cut := buf[i := c];
            && cut[..i + 1][..start] == buf[..start] && cut[..i + 1][start..i] == buf[start..][..i - start]
            && cut[i + 1..] == buf[start..][i + 1 - start..]
  {
  }

  lemma TextAtCut(filename: string, start: nat, i: nat)
    requires start <= i < |filename|
    ensures var text := filename[start..] + ['\0'];
            text[..i - start] == filename[start..i] && text[i + 1 - start..] == filename[i + 1..] + ['\0']
  {
  }

  lemma LastHeld(buf: seq<char>, filename: string, start: nat, starts: seq<nat>, done: seq<string>)
    requires start <= |filename| && |buf| == |filename| + 1 && '\0' !in filename
    requires AllHeld(buf[..start], starts, done) && buf[start..] == filename[start..] + ['\0']
    ensures AllHeld(buf, starts + [start], done + [filename[start..]])
  {
    hide AllHeld;
    var name := filename[start..];
    assert buf[start..|buf| - 1] == buf[start..][..|name|] == name && buf[start..][|name|] == '\0';
    NextHeld(buf, start, starts, done, name);
  }

  /** One more component behind those in place. */
  lemma NextHeld(buf: seq<char>, start: nat, starts: seq<nat>, done: seq<string>, name: string)
    requires start + |name| + 1 == |buf| && AllHeld(buf[..start], starts, done)
    requires '\0' !in name && buf[start..|buf| - 1] == name && buf[|buf| - 1] == '\0'
    ensures AllHeld(buf, starts + [start], done + [name])
  {
    forall k | 0 <= k < |done| ensures HoldsAt(buf, starts[k], done[k]) {
      HoldsLonger(buf[..start], buf, starts[k], done[k]);
    }
  }

  lemma ElementsStep(filename: string, start: nat, i: nat)
    requires start <= i < |filename| - 1 && filename[i] == '/'
    requires forall j :: start <= j < i ==> filename[j] != '/'
    ensures Elements(filename[start..]) == [filename[start..i]] + Elements(filename[i + 1..])
    ensures |Elements(filename[i + 1..])| > 0
  {
    var s := filename[start..];
    IndexOfIs(s, '/', i - start);
    assert s[..i - start] == filename[start..i] && s[i - start + 1..] == filename[i + 1..];
  }

  lemma ElementsEnd(filename: string, start: nat)
    requires start <= |filename| && forall j :: start <= j < |filename| - 1 ==> filename[j] != '/'
    ensures Elements(filename[start..]) == [filename[start..]]
  {
    var s := filename[start..];
    var k := IndexOf(s, '/');
    assert k < |s| ==> s[k] == filename[start + k];
  }

  // ---- reading ---------------------------------------------------------------------------

  lemma CStringCut(s: string, k: nat)
    requires k < |s| && s[k] == '\0'
    ensures CString(s) == CString(s[..k])
  {
    var n := IndexOf(s[..k], '\0');
    assert n < k ==> s[n] == '\0';
    IndexOfIs(s, '\0', n);
    assert s[..k][..n] == s[..n];
  }

  /** The name of the record whose name starts at an offset. */
  method ReadName(cd: Cdrom, block: Word, nameoffset: Word, namelen: Byte) returns (ok: bool, fname: string)
    requires cd.Valid() && Coherent(cd.medium, cd.State())
    modifies cd, cd.tmpbuf
    ensures cd.Valid() && Coherent(cd.medium, cd.State()) && old(cd.calls) <= cd.calls
    ensures ok <==> NoFailure(cd.medium, old(cd.calls), cd.calls)
    ensures ok ==> fname == FileName(Flat(cd.medium, block * SECTOR + nameoffset, namelen))
    ensures '\0' !in fname
  {
    hide Flat, Coherent, NoFailure, IndexOf, CString;
    var name := new Byte[namelen + 1];
    fname := "";
    ok := ReadFlat(cd, block, nameoffset, namelen, name);
    if !ok {
      return;
    }
    name[namelen] := 0;
    ghost var raw := Flat(cd.medium, block * SECTOR + nameoffset, namelen);
    assert name[..] == raw + [0];
    var i: nat := namelen;
    while i > 0 && name[i] != ';' as Byte
      invariant 0 <= i <= namelen && name[..] == raw + [0]
      invariant forall j :: i < j < |raw| ==> raw[j] != ';' as Byte
      decreases i
    {
      i := i - 1;
    }
    ghost var k := VersionAt(raw);
    if i > 0 {
      assert i == k;
      name[i] := 0;
    }
    assert name[..] == (raw + [0])[k := 0];
    NameCut(name[..], raw, k);
    if namelen == 1 && name[0] == 0 {
      fname := ".";
    } else if namelen == 1 && name[0] == 1 {
      fname := "..";
    } else {
      fname := CString(Chars(name[..]));
    }
  }

  lemma NameCut(buf: seq<Byte>, raw: seq<Byte>, k: nat)
    requires k <= |raw| && buf == (raw + [0])[k := 0]
    ensures CString(Chars(buf)) == CString(Chars(raw[..k]))
  {
    hide CString;
    CStringCut(Chars(buf), k);
    assert Chars(buf)[..k] == Chars(raw[..k]);
  }

  // ---- one directory ---------------------------------------------------------------------

  /** The names without those of NM entries. */
  function Own(names: Names): Names {
    names.(rr := false)
  }

  ghost predicate OneOfNames(m: Medium, names: Names, block: Word, offset: nat, fname: string) {
    fname == EntryAt(m, names, block, offset).name || fname == EntryAt(m, Own(names), block, offset).name
  }

  /** The name a record is compared by: from an NM entry with Rock Ridge, else its own. A read that
      fails while an NM entry is looked for counts as there being none. */
  method NameOf(cd: Cdrom, names: Names, block: Word, offset: nat, len: Byte, namelen: Byte)
    returns (ok: bool, fname: string)
    requires cd.Valid() && Coherent(cd.medium, cd.State()) && offset < 0x8000_0000
    requires names.rr ==> Described(cd.medium, names, block, offset)
    requires len == FlatByte(cd.medium, block * SECTOR + offset)
    requires namelen == FlatByte(cd.medium, block * SECTOR + offset + NAME_LENGTH)
    modifies cd, cd.tmpbuf
    ensures cd.Valid() && Coherent(cd.medium, cd.State()) && old(cd.calls) <= cd.calls
    ensures if Plain(names) then ok <==> NoFailure(cd.medium, old(cd.calls), cd.calls)
            else NoFailure(cd.medium, old(cd.calls), cd.calls) ==> ok
    ensures NoFailure(cd.medium, old(cd.calls), cd.calls) ==> fname == EntryAt(cd.medium, names, block, offset).name
    ensures ok ==> OneOfNames(cd.medium, names, block, offset, fname)
    ensures '\0' !in fname
  {
    hide Flat, Coherent, NoFailure, FlatByte, FileName, Linked, Visited, First, Be32, Wrap, AltName;
    ghost var before := cd.calls;
    if names.rr {
      var suaOff := SuaOffset(namelen);
      var suaSize := Wrap(len as int - suaOff);
      var nm := GetEntry(cd, block, offset + suaOff + names.skip, suaSize, 'N', 'M', names.areas[(block, offset)]);
      FirstHasFlags(Visited(cd.medium, names.areas[(block, offset)]));
      var alt := AltName(nm);
      assert AltName(None) == None by { NoAltName(); }
      if alt.Some? {
        return true, alt.value;
      }
    }
    ghost var between := cd.calls;
    assert block * SECTOR + offset + HEADER == block * SECTOR + (offset + HEADER);
    ok, fname := ReadName(cd, block, offset + HEADER, namelen);
    SplitCalls(cd.medium, before, between, cd.calls);
  }

  lemma NoAltName()
    ensures AltName(None) == None
  {
  }

  /** The scan of one directory from an offset on. */
  method Scan(cd: Cdrom, names: Names, block: Word, size: int, start: nat, name: string, last: bool)
    returns (ok: bool, found: Option<Entry>, offset: nat)
    requires cd.Valid() && Coherent(cd.medium, cd.State()) && '\0' !in name && size < 0x8000_0000
    requires names.rr ==> AllDescribed(cd.medium, names, block, size, start)
    modifies cd, cd.tmpbuf
    ensures cd.Valid() && Coherent(cd.medium, cd.State()) && old(cd.calls) <= cd.calls
    ensures if Plain(names) then ok <==> NoFailure(cd.medium, old(cd.calls), cd.calls)
            else NoFailure(cd.medium, old(cd.calls), cd.calls) ==> ok
    ensures NoFailure(cd.medium, old(cd.calls), cd.calls) ==>
              found == FirstMatch(Entries(cd.medium, names, block, size, start), name, last)
    ensures ok && found == None ==> offset >= size
    ensures found.Some? ==> Lists(Entries(cd.medium, names, block, size, start),
                                  Entries(cd.medium, Own(names), block, size, start), found.value, name, last)
  {
    hide Flat, Coherent, FlatByte, Be32, EqualFold, NoFailure, Lists, EntryAt, Wanted, FirstMatch;
    hide Described, Behind, OneOfNames, Entries;
    var dirent := new Byte[HEADER];
    found, offset := None, start;
    ghost var m, c0 := cd.medium, cd.calls;
    ghost var es := Entries(m, names, block, size, start);
    AtStart(m, names, block, size, start);
    SplitCalls(m, c0, c0, c0);
    while found == None && offset < size
      invariant cd.Valid() && Coherent(m, cd.State()) && c0 <= cd.calls
      invariant Plain(names) ==> NoFailure(m, c0, cd.calls)
      invariant names.rr ==> AllDescribed(m, names, block, size, offset)
      invariant found == None ==> Behind(m, names, block, size, start, offset)
      invariant NoFailure(m, c0, cd.calls) ==>
                  FirstMatch(es, name, last)
                  == if found.Some? then found else FirstMatch(Entries(m, names, block, size, offset), name, last)
      invariant found.Some? ==> Lists(es, Entries(m, Own(names), block, size, start), found.value, name, last)
      decreases size - offset
    {
      ghost var c1 := cd.calls;
      ok := ReadFlat(cd, block, offset, HEADER, dirent);
      SplitCalls(m, c0, c1, cd.calls);
      if !ok {
        return;
      }
      ghost var p := block * SECTOR + offset;
      HeaderBytes(m, p, dirent[..]);
      if dirent[0] == 0 {
        BehindSkip(m, names, block, size, start, offset);
        offset := NextSectorFrom(offset);
        continue;
      }
      ghost var c2 := cd.calls;
      var fname;
      ok, fname := NameOf(cd, names, block, offset, dirent[0], dirent[NAME_LENGTH]);
      SplitCalls(m, c0, c2, cd.calls);
      if !ok {
        return;
      }
      var e := Entry(fname, dirent[FLAGS], Be32(dirent[..], EXTENT), Be32(dirent[..], SIZE));
      EntryHeader(m, names, block, offset, dirent[..]);
      EntriesStep(m, names, block, size, offset, name, last);
      var diff := Differs(name, fname);
      WantedIs(e, name, last);
      if !diff {
        var kind := dirent[FLAGS] % 4;
        if (!last && kind == 2) || (last && kind != 2) {
          found := Some(e);
          ListsHere(m, names, block, size, start, offset, dirent[..], e, name, last);
        }
      }
      BehindNext(m, names, block, size, start, offset);
      offset := offset + dirent[0];
    }
    ok := true;
    if found == None {
      ScanOver(m, names, block, size, offset, name, last);
    }
  }

  /** es ends with rest. */
  ghost predicate Ends(es: seq<Entry>, rest: seq<Entry>) {
    |rest| <= |es| && es[|es| - |rest|..] == rest
  }

  lemma EndsNext(es: seq<Entry>, rest: seq<Entry>)
    requires Ends(es, rest) && rest != []
    ensures Ends(es, rest[1..])
  {
    assert es[|es| - |rest| + 1..] == es[|es| - |rest|..][1..];
  }

  /** What a scan has still to meet from an offset on is the end of what it meets in all. */
  ghost predicate Behind(m: Medium, names: Names, block: Word, size: int, start: nat, offset: nat) {
    && Ends(Entries(m, names, block, size, start), Entries(m, names, block, size, offset))
    && Ends(Entries(m, Own(names), block, size, start), Entries(m, Own(names), block, size, offset))
  }

  lemma AtStart(m: Medium, names: Names, block: Word, size: int, start: nat)
    ensures Behind(m, names, block, size, start, start)
  {
    hide Entries;
  }

  lemma BehindSkip(m: Medium, names: Names, block: Word, size: int, start: nat, offset: nat)
    requires Behind(m, names, block, size, start, offset) && offset < size && FlatByte(m, block * SECTOR + offset) == 0
    ensures Behind(m, names, block, size, start, NextSectorFrom(offset))
    ensures Entries(m, names, block, size, offset) == Entries(m, names, block, size, NextSectorFrom(offset))
    ensures AllDescribed(m, names, block, size, offset) ==> AllDescribed(m, names, block, size, NextSectorFrom(offset))
  {
    hide FlatByte, EntryAt, Ends, NextSectorFrom;
  }

  lemma BehindNext(m: Medium, names: Names, block: Word, size: int, start: nat, offset: nat)
    requires Behind(m, names, block, size, start, offset) && offset < size && FlatByte(m, block * SECTOR + offset) != 0
    ensures Behind(m, names, block, size, start, offset + FlatByte(m, block * SECTOR + offset))
  {
    hide Entries, EntryAt, FlatByte;
    EntriesStep(m, names, block, size, offset, "", true);
    EntriesStep(m, Own(names), block, size, offset, "", true);
    EndsNext(Entries(m, names, block, size, start), Entries(m, names, block, size, offset));
    EndsNext(Entries(m, Own(names), block, size, start), Entries(m, Own(names), block, size, offset));
  }

  lemma ListsHere(m: Medium, names: Names, block: Word, size: int, start: nat, offset: nat, header: seq<Byte>,
                  e: Entry, name: string, last: bool)
    requires Behind(m, names, block, size, start, offset) && offset < size && FlatByte(m, block * SECTOR + offset) != 0
    requires header == Flat(m, block * SECTOR + offset, HEADER) && |header| == HEADER
    requires e == Entry(e.name, header[FLAGS], Be32(header, EXTENT), Be32(header, SIZE))
    requires OneOfNames(m, names, block, offset, e.name) && Wanted(e, name, last)
    ensures Lists(Entries(m, names, block, size, start), Entries(m, Own(names), block, size, start), e, name, last)
  {
    hide Entries, EntryAt, FlatByte, Flat, Be32, Wanted, Lists, Ends;
    EntryHeader(m, names, block, offset, header);
    EntryHeader(m, Own(names), block, offset, header);
    EntriesStep(m, names, block, size, offset, name, last);
    EntriesStep(m, Own(names), block, size, offset, name, last);
    ListsNext(Entries(m, names, block, size, start), Entries(m, Own(names), block, size, start),
              Entries(m, names, block, size, offset), Entries(m, Own(names), block, size, offset), e, name, last);
  }

  /** The directory has a record like e, which has one of its names; e is what is wanted. */
  ghost predicate Lists(es: seq<Entry>, own: seq<Entry>, e: Entry, name: string, last: bool) {
    (exists e' :: e' in es && e == e'.(name := e.name)) && (e in es || e in own) && Wanted(e, name, last)
  }

  lemma ListsNext(es: seq<Entry>, own: seq<Entry>, rest: seq<Entry>, rest': seq<Entry>, e: Entry, name: string, last: bool)
    requires Ends(es, rest) && rest != [] && e == rest[0].(name := e.name) && Wanted(e, name, last)
    requires Ends(own, rest') && rest' != [] && (e == rest[0] || e == rest'[0])
    ensures Lists(es, own, e, name, last)
  {
    hide Wanted;
    assert es[|es| - |rest|] == es[|es| - |rest|..][0] == rest[0];
    assert own[|own| - |rest'|] == own[|own| - |rest'|..][0] == rest'[0];
    assert rest[0] in es && rest'[0] in own;
  }

  lemma WantedIs(e: Entry, name: string, last: bool)
    ensures Wanted(e, name, last) <==> EqualFold(name, e.name) && if last then e.flags % 4 != 2 else e.flags % 4 == 2
  {
  }

  lemma {:induction false} FirstHasFlags(es: seq<seq<Byte>>)
    requires forall e :: e in es ==> |e| >= 2 && (HasSig(e, 'N', 'M') ==> |e| >= 5)
    ensures First(es, 'N', 'M').Some? ==> |First(es, 'N', 'M').value| >= 5
    decreases |es|
  {
    if es != [] {
      assert es[0] in es;
      FirstHasFlags(es[1..]);
    }
  }

  lemma EntryHeader(m: Medium, names: Names, block: Word, offset: nat, header: seq<Byte>)
    requires header == Flat(m, block * SECTOR + offset, HEADER) && |header| == HEADER
    ensures var e := EntryAt(m, names, block, offset);
            e == Entry(e.name, header[FLAGS], Be32(header, EXTENT), Be32(header, SIZE))
  {
    hide Flat, Be32, Alias;
  }

  method Differs(name: string, fname: string) returns (diff: bool)
    requires '\0' !in name && '\0' !in fname
    ensures diff <==> !EqualFold(name, fname)
  {
    var d := StrCaseCmp(name, fname);
    diff := d != 0;
  }

  lemma HeaderBytes(m: Medium, p: nat, header: seq<Byte>)
    requires |header| == HEADER && header == Flat(m, p, HEADER)
    ensures header[0] == FlatByte(m, p) && header[NAME_LENGTH] == FlatByte(m, p + NAME_LENGTH)
  {
    hide FlatByte;
    assert header[0] == FlatByte(m, p + 0);
  }

  lemma EntriesStep(m: Medium, names: Names, block: Word, size: int, offset: nat, name: string, last: bool)
    requires offset < size && FlatByte(m, block * SECTOR + offset) != 0
    ensures var e := EntryAt(m, names, block, offset);
            var rest := Entries(m, names, block, size, offset + FlatByte(m, block * SECTOR + offset));
            && Entries(m, names, block, size, offset) == [e] + rest
            && FirstMatch(Entries(m, names, block, size, offset), name, last)
               == if Wanted(e, name, last) then Some(e) else FirstMatch(rest, name, last)
  {
    hide FlatByte, EntryAt, Wanted;
    var e := EntryAt(m, names, block, offset);
    var rest := Entries(m, names, block, size, offset + FlatByte(m, block * SECTOR + offset));
    assert ([e] + rest)[1..] == rest;
  }

  lemma ScanOver(m: Medium, names: Names, block: Word, size: int, offset: nat, name: string, last: bool)
    requires offset >= size
    ensures Entries(m, names, block, size, offset) == [] && FirstMatch([], name, last) == None
  {
  }

  // ---- the whole path --------------------------------------------------------------------

  lemma PathStep(m: Medium, names: Names, block: Word, size: Word, path: seq<string>, j: nat)
    requires j < |path|
    ensures var found := FirstMatch(Entries(m, names, block, Signed(size), 0), path[j], j + 1 == |path|);
            FindPath(m, names, block, size, path[j..])
            == match found case None => None case Some(e) => FindPath(m, names, e.extent, e.size, path[j + 1..])
  {
    hide Entries, FirstMatch, Signed;
    assert path[j..][0] == path[j] && path[j..][1..] == path[j + 1..];
  }

  /** With Rock Ridge: directories, by extent and size, whose records are in order and lead to no others. */
  ghost predicate Covered(m: Medium, names: Names, dirs: set<(Word, Word)>) {
    forall d :: d in dirs ==> IsCovered(m, names, dirs, d.0, d.1)
  }

  ghost predicate IsCovered(m: Medium, names: Names, dirs: set<(Word, Word)>, block: Word, size: Word) {
    AllDescribed(m, names, block, Signed(size), 0)
    && forall e :: e in Entries(m, names, block, Signed(size), 0) && e.flags % 4 == 2 ==> (e.extent, e.size) in dirs
  }

  /** The directories of a well laid out disc, with their sizes. */
  ghost function Listed(dirs: map<Word, seq<seq<seq<Byte>>>>): set<(Word, Word)>
    requires forall b :: b in dirs ==> |dirs[b]| * SECTOR < 0x8000_0000
  {
    set b | b in dirs :: (b, (|dirs[b]| * SECTOR) as Word)
  }

  /** They are covered if the System Use areas of all their records are in order. */
  lemma GoodDirsAreCovered(m: Medium, names: Names, dirs: map<Word, seq<seq<seq<Byte>>>>)
    requires GoodDirs(m, names, dirs) && forall b :: b in dirs ==> |dirs[b]| * SECTOR < 0x8000_0000
    requires forall b :: b in dirs ==> RecordsDescribed(m, names, b, dirs[b])
    ensures Covered(m, names, Listed(dirs))
  {
    hide DirectoryAt, AllEntries, AllRecords, RecordsDescribed, AllDescribed, Entries;
    forall d | d in Listed(dirs) ensures IsCovered(m, names, Listed(dirs), d.0, d.1) {
      var b := d.0;
      DirectoryIsRead(m, names, b, dirs[b]);
      DirectoryDescribed(m, names, b, dirs[b]);
      assert Signed(d.1) == |dirs[b]| * SECTOR;
    }
  }

  /** A record of that directory, taken by either of its names, is no directory, is called name and gives the size. */
  ghost predicate FileIn(m: Medium, names: Names, block: Word, dirsize: Word, name: string, size: Word) {
    exists e :: (e in Entries(m, names, block, Signed(dirsize), 0) || e in Entries(m, Own(names), block, Signed(dirsize), 0))
                && Wanted(e, name, true) && e.size == size
  }

  /** Some directory has such a record. */
  ghost predicate Known(m: Medium, names: Names, dirs: set<(Word, Word)>, name: string, size: Word) {
    exists d :: d in dirs && FileIn(m, names, d.0, d.1, name, size)
  }

  lemma KnownHere(m: Medium, names: Names, dirs: set<(Word, Word)>, block: Word, size: Word, e: Entry, name: string)
    requires (block, size) in dirs
    requires Lists(Entries(m, names, block, Signed(size), 0), Entries(m, Own(names), block, Signed(size), 0), e, name, true)
    ensures Known(m, names, dirs, name, e.size)
  {
    hide Entries, Wanted;
    var d := (block, size);
    assert FileIn(m, names, d.0, d.1, name, e.size);
  }

  lemma NextCovered(m: Medium, names: Names, dirs: set<(Word, Word)>, block: Word, size: Word, e: Entry, name: string)
    requires Covered(m, names, dirs) && (block, size) in dirs
    requires Lists(Entries(m, names, block, Signed(size), 0), Entries(m, Own(names), block, Signed(size), 0), e, name, false)
    ensures (e.extent, e.size) in dirs
  {
    hide Entries, AllDescribed;
    assert IsCovered(m, names, dirs, (block, size).0, (block, size).1);
  }

  lemma CoveredHere(m: Medium, names: Names, dirs: set<(Word, Word)>, block: Word, size: Word)
    requires Covered(m, names, dirs) && (block, size) in dirs
    ensures AllDescribed(m, names, block, Signed(size), 0)
  {
    hide AllDescribed, Entries;
    assert IsCovered(m, names, dirs, (block, size).0, (block, size).1);
  }

  lemma DescribedOver(m: Medium, names: Names, block: Word, size: int, offset: nat)
    requires offset >= size
    ensures AllDescribed(m, names, block, size, offset)
  {
  }

  lemma ReadsBack(buf: seq<char>, p: nat, s: string)
    requires HoldsAt(buf, p, s)
    ensures p <= |buf| && CString(buf[p..]) == s
  {
    IndexOfIs(buf[p..], '\0', |s|);
    assert buf[p..][..|s|] == s;
    forall i | 0 <= i < |s| ensures buf[p..][i] != '\0' {
      assert buf[p..][i] == s[i] && s[i] in s;
    }
  }

  lemma SignedBack(w: Word)
    ensures Wrap(Signed(w)) == w && Signed(w) < 0x8000_0000 && Signed(0) == 0
  {
  }

  /** The file a path names, from the directory the volume descriptor gives: its block and size, and
      zero if there is none, if its size is zero, or, without Rock Ridge, if a call of block_read failed. */
  method FindFile(cd: Cdrom, names: Names, rootBlock: Word, rootSize: Word, path: string, ghost dirs: set<(Word, Word)>)
    returns (r: int, fblock: Word, fsize: Word)
    requires cd.Valid() && Coherent(cd.medium, cd.State())
    requires '\0' !in path && |Elements(Relative(path))| <= MAX_DEPTH + 1
    requires names.rr ==> Covered(cd.medium, names, dirs) && (rootBlock, rootSize) in dirs
    modifies cd, cd.tmpbuf
    ensures cd.Valid() && Coherent(cd.medium, cd.State()) && old(cd.calls) <= cd.calls
    ensures r == Signed(fsize)
    ensures Plain(names) && !NoFailure(cd.medium, old(cd.calls), cd.calls) ==> r == 0
    ensures names.rr && r != 0 ==> Known(cd.medium, names, dirs, BaseName(path), fsize)
    ensures NoFailure(cd.medium, old(cd.calls), cd.calls) ==>
              match FindPath(cd.medium, names, rootBlock, rootSize, Elements(Relative(path)))
              case None => r == 0
              case Some((block, size)) => fblock == block && fsize == size && r == Signed(size)
  {
    hide FindPath, Entries, FirstMatch, Coherent, Elements, NoFailure, AllDescribed, Covered, Lists, Known;
    hide Signed, Wrap, AllHeld, Relative, CString;
    var filename := Unslashed(path);
    ghost var parts := Elements(filename);
    var local, elements, depth := SplitPath(filename);
    ghost var texts, starts := local[..], elements[..depth];
    var block, size, found := rootBlock, Signed(rootSize), false;
    var offset: nat := 0;
    ghost var m, c0, w := cd.medium, cd.calls, rootSize;
    ghost var all := FindPath(m, names, rootBlock, rootSize, parts);
    r, fblock, fsize := 0, 0, 0;
    SplitCalls(m, c0, c0, c0);
    assert parts[0..] == parts;
    SignedBack(w);
    var j := 0;
    while j < depth
      invariant 0 <= j <= depth && cd.Valid() && Coherent(m, cd.State()) && c0 <= cd.calls
      invariant Plain(names) ==> NoFailure(m, c0, cd.calls)
      invariant local[..] == texts && elements[..depth] == starts
      invariant size == Signed(w) < 0x8000_0000
      invariant j == 0 || found ==>
                  offset == 0 && (NoFailure(m, c0, cd.calls) ==> all == FindPath(m, names, block, w, parts[j..]))
      invariant j > 0 && !found ==> offset >= size && (NoFailure(m, c0, cd.calls) ==> all == None)
      invariant names.rr && (j == 0 || found) && j < depth ==> (block, w) in dirs
      invariant names.rr && j == depth && found ==> Known(m, names, dirs, BaseName(path), w)
    {
      Component(texts, starts, parts, j);
      assert elements[..depth][j] == elements[j] && local[..][elements[j]..] == local[elements[j]..];
      var name := CString(local[elements[j]..]);
      ghost var before := cd.calls;
      if j == 0 || found {
        PathStep(m, names, block, w, parts, j);
        if names.rr {
          CoveredHere(m, names, dirs, block, w);
        }
      } else {
        ScanOver(m, names, block, size, offset, name, j + 1 == depth);
        DescribedOver(m, names, block, size, offset);
      }
      var ok, e, next := Scan(cd, names, block, size, offset, name, j + 1 == depth);
      SplitCalls(m, c0, before, cd.calls);
      if !ok {
        return;
      }
      if e.Some? && j > 0 && !found {
        NotListed(Entries(m, Own(names), block, size, offset), e.value, name, j + 1 == depth);
      }
      if e.Some? && names.rr {
        if j + 1 < depth {
          NextCovered(m, names, dirs, block, w, e.value, name);
        } else {
          KnownHere(m, names, dirs, block, w, e.value, name);
        }
      }
      offset, found := next, e.Some?;
      if found {
        block, size, offset := e.value.extent, Signed(e.value.size), 0;
        w := e.value.size;
        SignedBack(w);
      }
      j := j + 1;
    }
    if found {
      PathEnds(m, names, block, w, parts, j);
      SignedBack(w);
      fblock, fsize, r := block, Wrap(size), size;
    }
  }

  /** The last component. */
  function BaseName(path: string): string {
    var parts := Elements(Relative(path));
    parts[|parts| - 1]
  }

  lemma NotListed(own: seq<Entry>, e: Entry, name: string, last: bool)
    ensures !Lists([], own, e, name, last)
  {
  }

  method Unslashed(path: string) returns (filename: string)
    requires '\0' !in path
    ensures filename == Relative(path) && '\0' !in filename
  {
    filename := path;
    if filename != "" && filename[0] == '/' {
      filename := filename[1..];
    }
  }

  lemma Component(texts: seq<char>, starts: seq<nat>, names: seq<string>, j: nat)
    requires AllHeld(texts, starts, names) && j < |names|
    ensures j < |starts| && starts[j] <= |texts| && CString(texts[starts[j]..]) == names[j] && '\0' !in names[j]
  {
    ReadsBack(texts, starts[j], names[j]);
  }

  lemma PathEnds(m: Medium, names: Names, block: Word, size: Word, path: seq<string>, j: nat)
    requires j == |path|
    ensures FindPath(m, names, block, size, path[j..]) == Some((block, size))
  {
  }

  /** fs_cdrom_load_file: the size found is reported even if reading the content fails. */
  method LoadFile(cd: Cdrom, names: Names, rootBlock: Word, rootSize: Word, path: string, buffer: array<Byte>,
                  ghost dirs: set<(Word, Word)>) returns (result: int)
    requires cd.Valid() && Coherent(cd.medium, cd.State()) && buffer != cd.tmpbuf
    requires '\0' !in path && |Elements(Relative(path))| <= MAX_DEPTH + 1
    requires names.rr ==> Covered(cd.medium, names, dirs) && (rootBlock, rootSize) in dirs
    requires var file := FindPath(cd.medium, names, rootBlock, rootSize, Elements(Relative(path)));
             file.Some? ==> file.value.1 <= buffer.Length
    requires names.rr && FailsLater(cd.medium, cd.calls) ==>
               forall size: Word :: Known(cd.medium, names, dirs, BaseName(path), size) ==> size <= buffer.Length
    modifies cd, cd.tmpbuf, buffer
    ensures cd.Valid() && Coherent(cd.medium, cd.State()) && old(cd.calls) <= cd.calls
    ensures NoFailure(cd.medium, old(cd.calls), cd.calls) ==>
              match FindPath(cd.medium, names, rootBlock, rootSize, Elements(Relative(path)))
              case None => result == 0 && buffer[..] == old(buffer[..])
              case Some((block, size)) =>
                result == Signed(size)
                && buffer[..] == Flat(cd.medium, block * SECTOR, size) + old(buffer[size..])
  {
    hide Coherent, Flat, FindPath, NoFailure, Elements, Covered, Known, FailsLater;
    ghost var m, first := cd.medium, cd.calls;
    var r, fblock, size := FindFile(cd, names, rootBlock, rootSize, path, dirs);
    SignedBack(size);
    ghost var before := cd.calls;
    if !FailsLater(m, first) {
      NeverFails(m, first, before);
    }
    assert r != 0 ==> size <= buffer.Length by {
      if names.rr && !FailsLater(m, first) {
        assert NoFailure(m, first, before);
      } else if !names.rr {
        assert Plain(names);
      }
    }
    if r != 0 {
      var ok := ReadFlat(cd, fblock, 0, size, buffer);
    } else {
      NoBytes(cd.medium, fblock * SECTOR, buffer[..]);
    }
    SplitCalls(cd.medium, old(cd.calls), before, cd.calls);
    result := Signed(size);
  }

  /** Some call of block_read from the given number on fails. */
  ghost predicate FailsLater(m: Medium, first: nat) {
    exists k :: first <= k && m.fails(k)
  }

  lemma NeverFails(m: Medium, first: nat, end: nat)
    requires !FailsLater(m, first)
    ensures NoFailure(m, first, end)
  {
  }

  lemma NoBytes(m: Medium, p: nat, s: seq<Byte>)
    ensures Flat(m, p, 0) + s == s
  {
  }
}
