/**
 The System Use entries behind a directory record: iterate_entries, my_iteration and get_entry of
 src/cdrom.c. Entries lie in areas; a CE entry leads to a further area.
 */
module CdromSusp {
  import opened Options
  import opened Sequences
  import opened Words
  import opened CdromRead
  import opened CdromDrive

  // ---- areas -----------------------------------------------------------------------------

  const CE_LENGTH := 28

  /** A stretch of the disc and the entries in it. */
  datatype Area = Area(block: Word, offset: Word, size: Word, entries: seq<seq<Byte>>)

  predicate HasSig(e: seq<Byte>, a: char, b: char)
    requires |e| >= 2
  {
    e[0] as char == a && e[1] as char == b
  }

  /** An entry gives its own length; a CE entry has room for its fields. */
  predicate IsEntry(e: seq<Byte>) {
    |e| >= 4 && e[2] == |e| && (HasSig(e, 'C', 'E') ==> |e| >= CE_LENGTH)
  }

  /** The entries stand one behind the other, with at most one byte of padding. */
  ghost predicate AreaAt(m: Medium, a: Area) {
    && a.entries != [] && (forall e :: e in a.entries ==> IsEntry(e))
    && |Joined(a.entries)| <= a.size <= |Joined(a.entries)| + 1
    && Flat(m, a.block * SECTOR + a.offset, a.size)[..|Joined(a.entries)|] == Joined(a.entries)
  }

  /** The area a CE entry leads to. */
  predicate LeadsTo(ce: seq<Byte>, a: Area)
    requires |ce| >= CE_LENGTH
  {
    Be32(ce, 8) == a.block && Be32(ce, 16) == a.offset && Be32(ce, 24) == a.size
  }

  /** The first CE or ST entry, or the number of entries. */
  function StopAt(es: seq<seq<Byte>>): (k: nat)
    requires forall e :: e in es ==> IsEntry(e)
    ensures k <= |es|
  {
    if es == [] then 0
    else
      assert IsEntry(es[0]);
      if HasSig(es[0], 'C', 'E') || HasSig(es[0], 'S', 'T') then 0 else 1 + StopAt(es[1..])
  }

  predicate StopsAtCe(es: seq<seq<Byte>>)
    requires forall e :: e in es ==> IsEntry(e)
  {
    StopAt(es) < |es| && IsEntry(es[StopAt(es)]) && HasSig(es[StopAt(es)], 'C', 'E')
  }

  /** Areas in the order in which CE entries lead to them. */
  ghost predicate Linked(m: Medium, chain: seq<Area>)
    decreases |chain|
  {
    chain != [] && AreaAt(m, chain[0])
    && if StopsAtCe(chain[0].entries)
       then Linked(m, chain[1..]) && LeadsTo(chain[0].entries[StopAt(chain[0].entries)], chain[1])
       else |chain| == 1
  }

  // ---- which entries are looked at -------------------------------------------------------

  /** The entries before the first CE or ST entry of each area. */
  ghost function Visited(m: Medium, chain: seq<Area>): seq<seq<Byte>>
    requires Linked(m, chain)
    decreases |chain|
  {
    var es := chain[0].entries;
    es[..StopAt(es)] + if StopsAtCe(es) then Visited(m, chain[1..]) else []
  }

  /** Up to an ST entry, the entries that are no CE entries. */
  function Recorded(es: seq<seq<Byte>>): seq<seq<Byte>>
    requires forall e :: e in es ==> IsEntry(e)
  {
    if es == [] then []
    else
      assert IsEntry(es[0]);
      if HasSig(es[0], 'S', 'T') then []
      else if HasSig(es[0], 'C', 'E') then Recorded(es[1..])
      else [es[0]] + Recorded(es[1..])
  }

  /** All entries, an area being finished before the one it is continued in, as section 5.1 of the
      System Use Sharing Protocol has it. */
  ghost function Standard(m: Medium, chain: seq<Area>): seq<seq<Byte>>
    requires Linked(m, chain)
    decreases |chain|
  {
    var es := chain[0].entries;
    Recorded(es) + if StopsAtCe(es) then Standard(m, chain[1..]) else []
  }

  /** Nothing but further CE entries, or an ST entry, behind the CE entry followed. */
  predicate NothingBehind(es: seq<seq<Byte>>)
    requires forall e :: e in es ==> IsEntry(e)
  {
    StopsAtCe(es) ==> Recorded(es[StopAt(es)..]) == []
  }

  lemma RecordedStep(es: seq<seq<Byte>>)
    requires (forall e :: e in es ==> IsEntry(e)) && es != []
    ensures IsEntry(es[0])
    ensures StopAt(es) == (if HasSig(es[0], 'C', 'E') || HasSig(es[0], 'S', 'T') then 0 else 1 + StopAt(es[1..]))
    ensures StopAt(es) > 0 ==> Recorded(es) == [es[0]] + Recorded(es[1..])
    ensures HasSig(es[0], 'S', 'T') ==> Recorded(es) == []
  {
    hide HasSig;
    assert es[0] in es;
  }

  lemma {:induction false} RecordedSplit(es: seq<seq<Byte>>)
    requires forall e :: e in es ==> IsEntry(e)
    ensures Recorded(es) == es[..StopAt(es)] + Recorded(es[StopAt(es)..])
    ensures !StopsAtCe(es) ==> Recorded(es[StopAt(es)..]) == []
    decreases |es|
  {
    hide HasSig, IsEntry, StopAt;
    if es == [] {
      assert es[StopAt(es)..] == es;
    } else {
      RecordedStep(es);
      if StopAt(es) > 0 {
        var k := StopAt(es[1..]);
        RecordedSplit(es[1..]);
        assert es[1..][k..] == es[k + 1..] && es[..k + 1] == [es[0]] + es[1..][..k];
        assert k < |es[1..]| ==> es[1..][k] == es[k + 1];
      } else {
        assert es[0..] == es;
      }
    }
  }

  /** Following a CE entry at once loses exactly the entries behind it: the code sees every entry, in
      the standard's order, if and only if no area has any there. */
  lemma {:induction false} VisitsAllIff(m: Medium, chain: seq<Area>)
    requires Linked(m, chain)
    ensures |Visited(m, chain)| <= |Standard(m, chain)|
    ensures Visited(m, chain) == Standard(m, chain)
            <==> forall a :: a in chain ==> (forall e :: e in a.entries ==> IsEntry(e)) && NothingBehind(a.entries)
    decreases |chain|
  {
    hide AreaAt, IsEntry, Recorded, StopAt, LeadsTo, HasSig;
    Entries0(m, chain);
    var a := chain[0];
    var es := a.entries;
    RecordedSplit(es);
    assert chain == [a] + chain[1..];
    assert a in chain;
    if StopsAtCe(es) {
      VisitsAllIff(m, chain[1..]);
      SameEnds(es[..StopAt(es)], Recorded(es[StopAt(es)..]), Visited(m, chain[1..]), Standard(m, chain[1..]));
    } else {
      assert |chain[1..]| == 0;
    }
  }

  lemma Entries0(m: Medium, chain: seq<Area>)
    requires Linked(m, chain)
    ensures forall e :: e in chain[0].entries ==> IsEntry(e)
  {
  }

  lemma SameEnds(a: seq<seq<Byte>>, lost: seq<seq<Byte>>, v: seq<seq<Byte>>, s: seq<seq<Byte>>)
    requires |v| <= |s|
    ensures a + v == a + lost + s <==> lost == [] && v == s
  {
    if a + v == a + lost + s {
      assert |lost| == 0 && |v| == |s|;
      assert v == (a + v)[|a|..] && s == (a + lost + s)[|a|..];
    }
  }

  /** A CE entry as section 5.1 of the System Use Sharing Protocol lays it out, numbers in both byte orders. */
  function CeEntry(block: Word, offset: Word, size: Word): (e: seq<Byte>)
    ensures |e| == CE_LENGTH && e[0] as char == 'C' && e[1] as char == 'E' && e[2] == CE_LENGTH
    ensures Be32(e, 8) == block && Be32(e, 16) == offset && Be32(e, 24) == size
  {
    var e := ['C' as Byte, 'E' as Byte, CE_LENGTH, 1] + LeBytes(block) + BeBytes(block) + LeBytes(offset) + BeBytes(offset)
             + LeBytes(size) + BeBytes(size);
    assert e[8..12] == BeBytes(block) && e[16..20] == BeBytes(offset) && e[24..28] == BeBytes(size);
    SameWord(e, 8, BeBytes(block), 0);
    SameWord(e, 16, BeBytes(offset), 0);
    SameWord(e, 24, BeBytes(size), 0);
    e
  }

  function StEntry(): seq<Byte> {
    ['S' as Byte, 'T' as Byte, 4, 1]
  }

  /** A sector that begins with the given bytes. */
  function SectorWith(s: seq<Byte>): Sector
    requires |s| <= SECTOR
  {
    s + seq(SECTOR - |s|, _ => 0)
  }

  lemma AreaOnDisc(m: Medium, a: Area)
    requires a.offset == 0 && a.entries != [] && forall e :: e in a.entries ==> IsEntry(e)
    requires a.size == |Joined(a.entries)| <= SECTOR && m.sectors(a.block) == SectorWith(Joined(a.entries))
    ensures AreaAt(m, a)
  {
    hide Flat, Joined, IsEntry;
    FlatInSector(m, a.block, 0, a.size);
  }

  lemma LostBehindCe(ce: seq<Byte>, e: seq<Byte>)
    requires IsEntry(ce) && HasSig(ce, 'C', 'E') && IsEntry(e) && HasSig(e, 'N', 'M')
    ensures (forall x :: x in [ce, e] ==> IsEntry(x)) && Joined([ce, e]) == ce + e
    ensures StopAt([ce, e]) == 0 && StopsAtCe([ce, e]) && Recorded([ce, e]) == [e]
  {
    JoinedOne(e);
    assert [ce, e][1..] == [e];
    RecordedStep([e]);
    assert |[e][1..]| == 0;
  }

  lemma NothingFromSt()
    ensures IsEntry(StEntry()) && StopAt([StEntry()]) == 0 && !StopsAtCe([StEntry()]) && Recorded([StEntry()]) == []
    ensures Joined([StEntry()]) == StEntry()
  {
    JoinedOne(StEntry());
  }

  lemma LastArea(m: Medium, a: Area)
    requires AreaAt(m, a) && a.entries == [StEntry()]
    ensures Linked(m, [a]) && Visited(m, [a]) == [] && Standard(m, [a]) == []
  {
    hide AreaAt, StEntry, StopAt, StopsAtCe, Recorded;
    NothingFromSt();
  }

  lemma LinkedArea(m: Medium, a: Area, b: Area, ce: seq<Byte>, e: seq<Byte>)
    requires AreaAt(m, a) && a.entries == [ce, e] && Linked(m, [b]) && Visited(m, [b]) == [] && Standard(m, [b]) == []
    requires IsEntry(ce) && HasSig(ce, 'C', 'E') && IsEntry(e) && HasSig(e, 'N', 'M') && LeadsTo(ce, b)
    ensures Linked(m, [a, b]) && Visited(m, [a, b]) == [] && Standard(m, [a, b]) == [e]
  {
    hide AreaAt, StopAt, StopsAtCe, Recorded, LeadsTo, IsEntry, HasSig;
    LostBehindCe(ce, e);
    assert [a, b][1..] == [b] && |a.entries[..0]| == 0;
  }

  lemma CeLeadsTo(a: Area)
    ensures var ce := CeEntry(a.block, a.offset, a.size);
            |ce| == CE_LENGTH && IsEntry(ce) && HasSig(ce, 'C', 'E') && LeadsTo(ce, a)
  {
    hide CeEntry, Be32;
  }

  lemma LengthFits(e: seq<Byte>)
    requires IsEntry(e)
    ensures |e| < 256
  {
  }

  /** An input: an NM entry behind a CE entry is never looked at, though the standard counts it. */
  lemma EntryIsLost(nm: seq<Byte>) returns (m: Medium, chain: seq<Area>)
    requires IsEntry(nm) && HasSig(nm, 'N', 'M')
    ensures Linked(m, chain) && Visited(m, chain) == [] && Standard(m, chain) == [nm]
  {
    hide AreaAt, CeEntry, StEntry, Joined, StopAt, StopsAtCe, Recorded, IsEntry, HasSig, SectorWith;
    hide Be32, Linked, Visited, Standard, LeadsTo;
    var st := StEntry();
    NothingFromSt();
    LengthFits(st);
    LengthFits(nm);
    var second := Area(1, 0, |st|, [st]);
    var ce := CeEntry(second.block, second.offset, second.size);
    CeLeadsTo(second);
    LostBehindCe(ce, nm);
    var first := Area(0, 0, |ce + nm|, [ce, nm]);
    var s, s' := SectorWith(ce + nm), SectorWith(st);
    m := Medium(w => if w == 0 then s else s', _ => false);
    AreaOnDisc(m, first);
    AreaOnDisc(m, second);
    LastArea(m, second);
    LinkedArea(m, first, second, ce, nm);
    chain := [first, second];
  }

  // ---- the lookup ------------------------------------------------------------------------

  function First(es: seq<seq<Byte>>, a: char, b: char): Option<seq<Byte>> {
    if es == [] then None
    else if |es[0]| >= 2 && HasSig(es[0], a, b) then Some(es[0])
    else First(es[1..], a, b)
  }

  /** The first entry whose two first bytes are those of the signature. */
  lemma {:induction false} FirstIsFirst(es: seq<seq<Byte>>, a: char, b: char)
    requires forall e :: e in es ==> |e| >= 2
    ensures match First(es, a, b)
            case None => forall e :: e in es ==> e[0] as char != a || e[1] as char != b
            case Some(e) => exists i :: 0 <= i < |es| && es[i] == e && e[0] as char == a && e[1] as char == b
                                        && forall j :: 0 <= j < i ==> es[j][0] as char != a || es[j][1] as char != b
  {
    if es != [] {
      var rest := es[1..];
      assert es == [es[0]] + rest;
      FirstIsFirst(rest, a, b);
      var r := First(rest, a, b);
      if r.Some? && !HasSig(es[0], a, b) {
        var i :| 0 <= i < |rest| && rest[i] == r.value
                 && forall j :: 0 <= j < i ==> rest[j][0] as char != a || rest[j][1] as char != b;
        assert es[i + 1] == r.value;
      }
    }
  }

  /** What is left to look at from entry i of the first area on. */
  ghost function Left(m: Medium, chain: seq<Area>, i: nat): seq<seq<Byte>>
    requires Linked(m, chain) && i <= StopAt(chain[0].entries)
  {
    var es := chain[0].entries;
    es[i..StopAt(es)] + if StopsAtCe(es) then Visited(m, chain[1..]) else []
  }

  lemma LeftStarts(m: Medium, chain: seq<Area>)
    requires Linked(m, chain)
    ensures Left(m, chain, 0) == Visited(m, chain)
  {
  }

  /** At an entry: it stops the area, or it is the next to look at. */
  lemma LeftAt(m: Medium, chain: seq<Area>, i: nat, a: char, b: char)
    requires Linked(m, chain) && i <= StopAt(chain[0].entries) && i < |chain[0].entries|
    ensures var e := chain[0].entries[i];
            && IsEntry(e)
            && (HasSig(e, 'C', 'E') ==> |chain| > 1 && Linked(m, chain[1..]) && LeadsTo(e, chain[1])
                                        && Left(m, chain, i) == Visited(m, chain[1..]))
            && (HasSig(e, 'S', 'T') ==> First(Left(m, chain, i), a, b) == None)
            && (!HasSig(e, 'C', 'E') && !HasSig(e, 'S', 'T') ==>
                  i < StopAt(chain[0].entries)
                  && First(Left(m, chain, i), a, b)
                     == if HasSig(e, a, b) then Some(e) else First(Left(m, chain, i + 1), a, b))
  {
    hide AreaAt, LeadsTo, Visited;
    Entries0(m, chain);
    var es := chain[0].entries;
    assert IsEntry(es[i]);
    StopIsFirst(es, i);
    if i < StopAt(es) {
      assert Left(m, chain, i)[1..] == Left(m, chain, i + 1) && Left(m, chain, i)[0] == es[i];
    } else if HasSig(es[i], 'C', 'E') {
      assert |es[i..i]| == 0 && Left(m, chain, i) == Visited(m, chain[1..]);
    }
  }

  lemma {:induction false} StopIsFirst(es: seq<seq<Byte>>, i: nat)
    requires (forall e :: e in es ==> IsEntry(e)) && i < |es| && i <= StopAt(es)
    ensures IsEntry(es[i]) && (i == StopAt(es) <==> HasSig(es[i], 'C', 'E') || HasSig(es[i], 'S', 'T'))
    decreases i
  {
    assert IsEntry(es[i]) && IsEntry(es[0]);
    if i > 0 {
      StopIsFirst(es[1..], i - 1);
    }
  }

  lemma LeftEnds(m: Medium, chain: seq<Area>, i: nat)
    requires Linked(m, chain) && i == |chain[0].entries| && i <= StopAt(chain[0].entries)
    ensures Left(m, chain, i) == []
  {
  }

  /** The buffer holds the first area of the chain, and the pointer is at its entry i. */
  ghost predicate AtEntry(m: Medium, s: seq<Byte>, chain: seq<Area>, i: nat, ptr: nat) {
    && Linked(m, chain) && chain != []
    && var es := chain[0].entries;
       && |s| == chain[0].size && |Joined(es)| <= |s| <= |Joined(es)| + 1 && s[..|Joined(es)|] == Joined(es)
       && i <= StopAt(es) && ptr == |Joined(es[..i])|
  }

  lemma AtFirst(m: Medium, chain: seq<Area>)
    requires Linked(m, chain)
    ensures var a := chain[0];
            AtEntry(m, Flat(m, a.block * SECTOR + a.offset, a.size), chain, 0, 0) && |a.entries| > 0
  {
  }

  /** The bytes at the pointer are the entry, and its length leads to the next one. */
  lemma EntryBytes(m: Medium, s: seq<Byte>, chain: seq<Area>, i: nat, ptr: nat)
    requires AtEntry(m, s, chain, i, ptr) && i < |chain[0].entries|
    ensures var e := chain[0].entries[i];
            && IsEntry(e) && ptr + |e| <= |s| && s[ptr..ptr + |e|] == e
            && (i < StopAt(chain[0].entries) ==> AtEntry(m, s, chain, i + 1, ptr + |e|))
            && (ptr + |e| < |s| - 1 <==> i + 1 < |chain[0].entries|)
  {
    hide Linked, Flat, HasSig, StopAt;
    var es := chain[0].entries;
    Entries0(m, chain);
    var e := es[i];
    assert IsEntry(e);
    JoinedSplit(es, i);
    JoinedSplit(es, i + 1);
    JoinedSplit(es[..i + 1], i);
    JoinedOne(e);
    assert es[..i + 1][..i] == es[..i] && es[..i + 1][i..] == [e];
    assert Joined(es) == Joined(es[..i]) + e + Joined(es[i + 1..]);
    SliceOfPrefix(s, |Joined(es)|, ptr, ptr + |e|);
    if i + 1 < |es| {
      assert IsEntry(es[i + 1..][0]);
    } else {
      assert |es[i + 1..]| == 0;
    }
  }

  lemma SliceOfPrefix(s: seq<Byte>, n: nat, p: nat, q: nat)
    requires p <= q <= n <= |s|
    ensures s[p..q] == s[..n][p..q]
  {
  }

  /** Reading one area. */
  method ReadArea(cd: Cdrom, block: Word, offset: Word, size: Word, ghost chain: seq<Area>)
    returns (ok: bool, sua: array<Byte>)
    requires cd.Valid() && Coherent(cd.medium, cd.State())
    requires Linked(cd.medium, chain) && block == chain[0].block && offset == chain[0].offset && size == chain[0].size
    modifies cd, cd.tmpbuf
    ensures cd.Valid() && Coherent(cd.medium, cd.State()) && old(cd.calls) <= cd.calls && fresh(sua)
    ensures ok <==> NoFailure(cd.medium, old(cd.calls), cd.calls)
    ensures ok ==> AtEntry(cd.medium, sua[..], chain, 0, 0) && |chain[0].entries| > 0
  {
    hide Coherent, Linked, AtEntry, Flat, NoFailure;
    sua := new Byte[size];
    ok := ReadFlat(cd, block, offset, size, sua);
    assert ok ==> sua[..] == Flat(cd.medium, block * SECTOR + offset, size);
    AtFirst(cd.medium, chain);
  }

  /** The fields of a CE entry. */
  lemma CeFields(s: seq<Byte>, ptr: nat, e: seq<Byte>, a: Area)
    requires IsEntry(e) && HasSig(e, 'C', 'E') && LeadsTo(e, a) && ptr + |e| <= |s| && s[ptr..ptr + |e|] == e
    ensures Be32(s, ptr + 8) == a.block && Be32(s, ptr + 16) == a.offset && Be32(s, ptr + 24) == a.size
  {
    SameWord(s, ptr, e, 8);
    SameWord(s, ptr, e, 16);
    SameWord(s, ptr, e, 24);
  }

  lemma SameWord(s: seq<Byte>, ptr: nat, e: seq<Byte>, at: nat)
    requires ptr + |e| <= |s| && s[ptr..ptr + |e|] == e && at + 4 <= |e|
    ensures Be32(s, ptr + at) == Be32(e, at)
  {
    var cut := s[ptr..ptr + |e|];
    assert cut[at] == s[ptr + at] && cut[at + 1] == s[ptr + at + 1];
    assert cut[at + 2] == s[ptr + at + 2] && cut[at + 3] == s[ptr + at + 3];
  }

  lemma SameSig(s: seq<Byte>, ptr: nat, e: seq<Byte>)
    requires IsEntry(e) && ptr + |e| <= |s| && s[ptr..ptr + |e|] == e
    ensures s[ptr] == e[0] && s[ptr + 1] == e[1] && s[ptr + 2] == |e|
  {
    assert s[ptr..ptr + |e|][0] == s[ptr] && s[ptr..ptr + |e|][1] == s[ptr + 1] && s[ptr..ptr + |e|][2] == s[ptr + 2];
  }

  /** The state of the loop: what is still wanted is the first match among the entries left. */
  ghost predicate Looking(m: Medium, s: seq<Byte>, chain: seq<Area>, i: nat, ptr: nat,
                          wanted: Option<seq<Byte>>, a: char, b: char) {
    AtEntry(m, s, chain, i, ptr) && wanted == First(Left(m, chain, i), a, b)
  }

  predicate SigAt(s: seq<Byte>, ptr: nat, a: char, b: char)
    requires ptr + 1 < |s|
  {
    s[ptr] as char == a && s[ptr + 1] as char == b
  }

  /** What the bytes at the pointer decide. */
  lemma EntryHere(m: Medium, s: seq<Byte>, chain: seq<Area>, i: nat, ptr: nat,
                  wanted: Option<seq<Byte>>, a: char, b: char)
    requires Looking(m, s, chain, i, ptr, wanted, a, b) && i < |chain[0].entries|
    ensures ptr + 3 < |s| && ptr + s[ptr + 2] <= |s|
    ensures SigAt(s, ptr, 'C', 'E') ==>
              && ptr + CE_LENGTH <= |s| && |chain| > 1 && Linked(m, chain[1..])
              && Be32(s, ptr + 8) == chain[1].block && Be32(s, ptr + 16) == chain[1].offset
              && Be32(s, ptr + 24) == chain[1].size && wanted == First(Visited(m, chain[1..]), a, b)
    ensures SigAt(s, ptr, 'S', 'T') ==> wanted == None
    ensures !SigAt(s, ptr, 'C', 'E') && !SigAt(s, ptr, 'S', 'T') ==>
              if SigAt(s, ptr, a, b) then wanted == Some(s[ptr..ptr + s[ptr + 2]])
              else Looking(m, s, chain, i + 1, ptr + s[ptr + 2], wanted, a, b)
                   && (ptr + s[ptr + 2] < |s| - 1 <==> i + 1 < |chain[0].entries|)
  {
    hide AreaAt, LeadsTo, Visited, Left, First, Be32, Linked, Joined, StopAt, StopsAtCe;
    EntryBytes(m, s, chain, i, ptr);
    var e := chain[0].entries[i];
    SameSig(s, ptr, e);
    LeftAt(m, chain, i, a, b);
    if HasSig(e, 'C', 'E') {
      CeFields(s, ptr, e, chain[1]);
    }
  }

  /** get_entry: the first entry with the signature among those visited; nothing if a read fails. */
  method GetEntry(cd: Cdrom, block: Word, offset: Word, size: Word, a: char, b: char, ghost chain: seq<Area>)
    returns (r: Option<seq<Byte>>)
    requires cd.Valid() && Coherent(cd.medium, cd.State())
    requires Linked(cd.medium, chain) && block == chain[0].block && offset == chain[0].offset && size == chain[0].size
    modifies cd, cd.tmpbuf
    ensures cd.Valid() && Coherent(cd.medium, cd.State()) && old(cd.calls) <= cd.calls
    ensures r == if NoFailure(cd.medium, old(cd.calls), cd.calls) then First(Visited(cd.medium, chain), a, b) else None
  {
    hide AreaAt, LeadsTo, Visited, Left, First, Be32, Linked, Joined, StopAt, StopsAtCe, Coherent, NoFailure;
    var ok, sua := ReadArea(cd, block, offset, size, chain);
    if !ok {
      return None;
    }
    ghost var m, rest, i: nat := cd.medium, chain, 0;
    ghost var wanted := First(Visited(m, chain), a, b);
    LeftStarts(m, chain);
    var ptr: nat, end: nat, more := 0, size, true;
    while more
      invariant cd.Valid() && Coherent(m, cd.State()) && old(cd.calls) <= cd.calls && fresh(sua)
      invariant NoFailure(m, old(cd.calls), cd.calls) && end == sua.Length
      invariant Looking(m, sua[..], rest, i, ptr, wanted, a, b) && (more <==> i < |rest[0].entries|)
      decreases |rest|, |rest[0].entries| - i, if more then 1 else 0
    {
      EntryHere(m, sua[..], rest, i, ptr, wanted, a, b);
      ghost var rest0, i0 := rest, i;
      while SigAt(sua[..], ptr, 'C', 'E')
        invariant cd.Valid() && Coherent(m, cd.State()) && old(cd.calls) <= cd.calls && fresh(sua)
        invariant NoFailure(m, old(cd.calls), cd.calls) && end == sua.Length && ptr + 3 < end
        invariant Looking(m, sua[..], rest, i, ptr, wanted, a, b) && i < |rest[0].entries|
        invariant |rest| < |rest0| || (rest == rest0 && i == i0)
        decreases |rest|
      {
        EntryHere(m, sua[..], rest, i, ptr, wanted, a, b);
        var block', offset', size' := Be32(sua[..], ptr + 8), Be32(sua[..], ptr + 16), Be32(sua[..], ptr + 24);
        rest, i := rest[1..], 0;
        ghost var before := cd.calls;
        ok, sua := ReadArea(cd, block', offset', size', rest);
        SplitCalls(m, old(cd.calls), before, cd.calls);
        if !ok {
          return None;
        }
        ptr, end := 0, size';
        LeftStarts(m, rest);
        EntryHere(m, sua[..], rest, i, ptr, wanted, a, b);
      }
      EntryHere(m, sua[..], rest, i, ptr, wanted, a, b);
      if SigAt(sua[..], ptr, 'S', 'T') {
        return None;
      }
      if SigAt(sua[..], ptr, a, b) {
        return Some(sua[ptr..ptr + sua[ptr + 2]]);
      }
      ptr := ptr + sua[ptr + 2];
      i := i + 1;
      more := ptr < end - 1;
    }
    NothingLeft(m, rest, i, a, b);
    r := None;
  }

  lemma NothingLeft(m: Medium, chain: seq<Area>, i: nat, a: char, b: char)
    requires Linked(m, chain) && i == |chain[0].entries| && i <= StopAt(chain[0].entries)
    ensures First(Left(m, chain, i), a, b) == None
  {
    LeftEnds(m, chain, i);
  }
}
