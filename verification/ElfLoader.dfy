/** The ELF loader of src/elf.c over the memory it writes, proved against ElfModule. */
module ElfLoader {
  import opened Options
  import opened Sequences
  import opened ElfHeap
  import opened ElfReloc
  import opened ElfModule

  const MAX_BSS_SECTIONS := 1024

  /** The static state of src/elf.c: ptr_rw, ptr_ro, the BSS tracker, and physical memory. */
  class Loader {
    const mem: array<bv8>
    const tracker: array<(nat, nat)>
    var ptrRw: nat
    var ptrRo: nat
    var bss: nat
    ghost var chunks: seq<Chunk>

    constructor (memory: array<bv8>, entries: array<(nat, nat)>)
      requires memory.Length == LIMIT && entries.Length == MAX_BSS_SECTIONS
      requires forall i :: 0 <= i < entries.Length ==> entries[i] == (0, 0)
      ensures mem == memory && tracker == entries
      ensures IsValid() && State() == Load(INITIAL, mem[..], [])
    {
      mem, tracker := memory, entries;
      ptrRw, ptrRo, bss, chunks := PHYS_BASE, PHYS_BASE, 0, [];
    }

    /** Entries behind the live ones are zero, and at least one is. */
    ghost predicate IsValid()
      reads this, mem, tracker
    {
      && mem.Length == LIMIT && tracker.Length == MAX_BSS_SECTIONS && bss < MAX_BSS_SECTIONS
      && (forall i :: bss <= i < tracker.Length ==> tracker[i] == (0, 0))
      && Valid(Heap(ptrRw, ptrRo, chunks))
    }

    ghost function State(): Load
      requires bss <= tracker.Length
      reads this, mem, tracker
    {
      Load(Heap(ptrRw, ptrRo, chunks), mem[..], tracker[..bss])
    }

    /** memcpy and bzero. */
    method Copy(data: seq<bv8>, from: nat, at: nat, size: nat)
      requires from + size <= |data| && at + size <= mem.Length
      modifies mem
      ensures mem[..] == Overwrite(old(mem[..]), at, data[from..from + size])
    {
      forall i | 0 <= i < size {
        mem[at + i] := data[from + i];
      }
    }

    method BZero(at: nat, size: nat)
      requires at + size <= mem.Length
      modifies mem
      ensures mem[..] == Overwrite(old(mem[..]), at, seq(size, _ => 0))
    {
      hide Overwrite;
      var d := 0;
      NoZeros(mem[..], at);
      while d < size
        invariant 0 <= d <= size
        invariant mem[..] == Overwrite(old(mem[..]), at, seq(d, _ => 0))
      {
        ZeroStep(old(mem[..]), at, d);
        mem[at + d] := 0;
        d := d + 1;
      }
    }

    ghost function HeapNow(): Heap
      reads this
    {
      Heap(ptrRw, ptrRo, chunks)
    }

    /** The allocation of load_hunk. */
    method TakeChunk(s: Section) returns (ptr: nat)
      requires Valid(HeapNow()) && s.size > 0 && Fits(HeapNow(), s.size, s.align, s.write)
      modifies this`ptrRw, this`ptrRo, this`chunks
      ensures HeapNow() == Alloc(old(HeapNow()), s.size, s.align, s.write) && Valid(HeapNow())
      ensures |chunks| == |old(chunks)| + 1 && ptr == chunks[|old(chunks)|].addr && ptr + s.size <= LIMIT
    {
      hide And, AlignDown, AlignMask, Valid;
      ghost var h := HeapNow();
      InAddressSpace(h);
      assert s.align > 0;
      hide PowerOfTwo;
      AllocKeeps(h, s.size, s.align, s.write);
      if s.write {
        MaskIsAlignDown(ptrRw - s.size - s.align + 1, s.align);
        ptr := And(ptrRw - s.size - s.align + 1, AlignMask(s.align));
        ptrRw := ptr;
      } else {
        MaskIsAlignDown(ptrRo + s.align - 1, s.align);
        ptrRo := And(ptrRo + s.align - 1, AlignMask(s.align));
        ptr := ptrRo;
        ptrRo := ptrRo + s.size;
      }
      chunks := chunks + [Chunk(ptr, s.size, s.align, s.write)];
      ChunkFits(HeapNow(), |h.chunks|);
    }

    method Track(addr: nat, length: nat)
      requires tracker.Length == MAX_BSS_SECTIONS && bss + 1 < MAX_BSS_SECTIONS
      requires forall i :: bss <= i < tracker.Length ==> tracker[i] == (0, 0)
      modifies this`bss, tracker
      ensures bss == old(bss) + 1 && tracker[..bss] == old(tracker[..bss]) + [(addr, length)]
      ensures forall i :: bss <= i < tracker.Length ==> tracker[i] == (0, 0)
    {
      tracker[bss] := (addr, length);
      bss := bss + 1;
    }

    /** load_hunk: the section gets memory and content; the header with its address is returned. */
    method LoadHunk(image: Image, s: Section) returns (s': Section)
      requires IsValid() && Loadable(State(), image, s) && !IsTable(s) && s.alloc
      requires s.size > 0 && s.kind == SHT_NOBITS ==> bss + 1 < MAX_BSS_SECTIONS
      modifies this, mem, tracker
      ensures IsValid() && (State(), s') == LoadOne(old(State()), image, s)
      ensures bss == old(bss) + if s.size > 0 && s.kind == SHT_NOBITS then 1 else 0
    {
      hide Alloc, Fits, Valid, Overwrite, Virtual;
      if s.size == 0 {
        return s;
      }
      var ptr := TakeChunk(s);
      s' := s.(addr := ptr);
      if s.kind != SHT_NOBITS {
        Copy(image.data, s.offset, ptr, s.size);
      } else {
        BZero(ptr, s.size);
        Track(Virtual(ptr), s.size);
      }
    }

    // ---- relocation ----------------------------------------------------------------------

    method Store(at: nat, bytes: seq<bv8>)
      requires at + |bytes| <= mem.Length
      modifies mem
      ensures mem[..] == Overwrite(old(mem[..]), at, bytes)
    {
      forall i | 0 <= i < |bytes| {
        mem[at + i] := bytes[i];
      }
    }

    /** The switch over relocation kinds; false for an unknown one. */
    method PatchField(at: nat, kind: nat, s: bv32, addend: bv32, virtoffset: bv32) returns (ok: bool)
      requires mem.Length == LIMIT && at + Width(kind) <= LIMIT
      modifies mem
      ensures ok <==> Known(kind)
      ensures mem[..] == Patch(old(mem[..]), Fix(at, kind, s, addend, virtoffset))
    {
      hide Target, Distance, Bytes32, Bytes16, Word32, Branch, Ha;
      ghost var f := Fix(at, kind, s, addend, virtoffset);
      ghost var before := mem[..];
      ok := true;
      if kind == ADDR32 {
        Store(at, Bytes32(Target(s, addend, virtoffset)));
      } else if kind == ADDR16_LO {
        Store(at, Bytes16(Lo(Target(s, addend, virtoffset))));
      } else if kind == ADDR16_HA {
        Store(at, Bytes16(Ha(Target(s, addend, virtoffset))));
      } else if kind == REL24 {
        Store(at, Bytes32(Branch(Word32(mem[at..at + 4]), Distance(s, addend, at))));
      } else if kind == REL32 {
        Store(at, Bytes32(Distance(s, addend, at)));
      } else {
        ok := kind == NONE;
        assert before == before[..at] + [] + before[at..];
      }
    }

    /** One entry of relocate, its symbol being resolved. */
    method PatchNext(at: nat, kind: nat, s: bv32, addend: bv32, virtoffset: bv32,
                     ghost before: seq<bv8>, ghost done: seq<Fix>)
      returns (ok: bool)
      requires mem.Length == LIMIT == |before| && at + Width(kind) <= LIMIT
      requires AllInRange(done) && mem[..] == Patches(before, done)
      modifies mem
      ensures ok <==> Known(kind)
      ensures var done' := if ok then done + [Fix(at, kind, s, addend, virtoffset)] else done;
              AllInRange(done') && mem[..] == Patches(before, done')
    {
      hide Patches, Patch;
      ghost var f := Fix(at, kind, s, addend, virtoffset);
      ghost var now := mem[..];
      ok := PatchField(at, kind, s, addend, virtoffset);
      if ok {
        assert forall g :: g in done + [f] ==> InRange(LIMIT, g);
        PatchesConcat(before, done, [f]);
        OnePatch(now, f);
      } else {
        UnknownPatch(now, f);
      }
    }

    /** relocate: patches up to the first entry that fails. */
    method Relocate(shs: array<Section>, i: nat) returns (ok: bool)
      requires mem.Length == LIMIT && i < shs.Length && Clean(shs[..]) && Relocates(shs[..], shs[i])
      requires mem as object != shs
      modifies mem
      ensures ok == FixesOf(old(shs[..]), i).1 && AllInRange(FixesOf(old(shs[..]), i).0)
      ensures mem[..] == Patches(old(mem[..]), FixesOf(old(shs[..]), i).0)
    {
      hide Patches, Patch, Resolve, FieldBytes, Clean, AllGoodRela, FixList, Known;
      ghost var headers := shs[..];
      RelaFacts(headers, i);
      var relos, base := shs[i].relos, shs[shs[i].info].addr;
      var symtab := shs[shs[i].link].symbols;
      ghost var before := mem[..];
      ghost var done: seq<Fix> := [];
      ghost var all := FixList(headers, symtab, base, relos, None);
      var cache: Option<nat> := None;
      var n := 0;
      NoPatches(before);
      assert relos[0..] == relos && [] + all.0 == all.0;
      while n < |relos|
        invariant 0 <= n <= |relos| && shs[..] == headers
        invariant AllInRange(done) && mem[..] == Patches(before, done)
        invariant all == (done + FixList(headers, symtab, base, relos[n..], cache).0,
                          FixList(headers, symtab, base, relos[n..], cache).1)
      {
        var e := relos[n];
        assert e in relos && WellIndexed(headers, symtab, e);
        FixListStep(headers, symtab, base, relos[n..], cache);
        assert relos[n..][1..] == relos[n + 1..];
        var sym := symtab[e.sym];
        var sysBase := TestCached(e.sym, sym, cache);
        var resolved := Resolve(shs[..], sym, sysBase);
        assert done + [] == done;
        if resolved == None {
          return false;
        }
        var (s, virtoffset) := resolved.value;
        ok := PatchNext(base + e.offset, e.kind, s, e.addend, virtoffset, before, done);
        if !ok {
          return false;
        }
        if sym.shindex == SHN_ABS && sysBase {
          cache := Some(e.sym);
        }
        ghost var f := Fix(base + e.offset, e.kind, s, e.addend, virtoffset);
        Regroup(done, f, FixList(headers, symtab, base, relos[n + 1..], cache).0);
        done := done + [f];
        n := n + 1;
      }
      FixListEnds(headers, symtab, base, cache);
      assert done + [] == done;
      ok := true;
    }

    // ---- a whole module ------------------------------------------------------------------

    /** The first loop of load_elf_file. */
    method PlaceAll(image: Image, shs: array<Section>)
      requires IsValid() && AllLoadable(State(), image, shs[..]) && bss + BssCount(shs[..]) < MAX_BSS_SECTIONS
      requires mem as object != shs && tracker as object != shs
      modifies this, mem, tracker, shs
      ensures IsValid() && bss == old(bss) + BssCount(old(shs[..]))
      ensures (State(), shs[..]) == LoadAll(old(State()), image, old(shs[..]))
    {
      hide LoadAll, LoadOne, AllLoadable, Loadable, Valid, BssCount;
      ghost var l, given := State(), shs[..];
      PlaceStart(l, image, given);
      var i := 0;
      while i < shs.Length
        invariant 0 <= i <= shs.Length && shs[i..] == given[i..]
        invariant IsValid() && bss == old(bss) + BssCount(given[..i])
        invariant AllLoadable(l, image, given[..i]) && (State(), shs[..i]) == LoadAll(l, image, given[..i])
      {
        assert shs[i..][0] == given[i];
        PlaceStep(l, image, given, i);
        ghost var done := shs[..i];
        var s := shs[i];
        if IsTable(s) {
          shs[i] := s.(addr := image.base + s.offset);
        } else if s.alloc {
          s := LoadHunk(image, s);
          shs[i] := s;
        }
        assert (State(), shs[i]) == LoadOne(LoadAll(l, image, given[..i]).0, image, given[i]) by {
          Unplaced(LoadAll(l, image, given[..i]).0, image, given[i]);
        }
        assert shs[..i] == done && shs[..i + 1] == done + [shs[i]];
        i := i + 1;
      }
      assert given[..i] == given && shs[..i] == shs[..];
    }

    /** The second loop of load_elf_file; false at the first section that fails. */
    method RelocateAll(image: Image, shs: array<Section>) returns (ok: bool)
      requires mem.Length == LIMIT && Clean(shs[..]) && mem as object != shs
      modifies mem, shs
      ensures AllInRange(RelocateFrom(old(shs[..]), image, 0).0)
      ensures var (fs, all, final) := RelocateFrom(old(shs[..]), image, 0);
              ok == all && shs[..] == final && mem[..] == Patches(old(mem[..]), fs)
    {
      hide Patches, CleanRela, GoodRela, FixesOf, RelocateFrom, Opened;
      ghost var before, done: seq<Fix> := mem[..], [];
      ghost var (fs, all, final) := RelocateFrom(shs[..], image, 0);
      FixesInRange(shs[..], image, 0);
      NoPatches(before);
      assert [] + fs == fs;
      var i := 0;
      while i < shs.Length
        invariant 0 <= i <= shs.Length && Clean(shs[..])
        invariant AllInRange(done) && mem[..] == Patches(before, done)
        invariant var rest := RelocateFrom(shs[..], image, i);
                  fs == done + rest.0 && all == rest.1 && final == rest.2
      {
        RelocateStep(shs[..], image, i);
        if shs[i].kind == SHT_RELA && shs[shs[i].info].addr != 0 {
          ghost var headers := shs[..];
          shs[i] := shs[i].(addr := image.base + shs[i].offset);
          assert shs[..] == Opened(headers, image, i) by {
            OpenedIs(headers, image, i);
          }
          if shs[i].addr == 0 {
            assert done + [] == done;
            return false;
          }
          ghost var own := FixesOf(shs[..], i).0;
          ghost var now := mem[..];
          ok := Relocate(shs, i);
          assert AllInRange(done + own);
          PatchesConcat(before, done, own);
          if !ok {
            return;
          }
          RegroupAll(done, own, RelocateFrom(shs[..], image, i + 1).0);
          done := done + own;
        }
        i := i + 1;
      }
      RelocateEnds(shs[..], image);
      assert done + [] == done;
      ok := true;
    }

    /** load_elf_file, up to the registration of the module. */
    method LoadElf(image: Image, shs: array<Section>) returns (ok: bool)
      requires IsValid() && Acceptable(State(), image, shs[..]) && bss + BssCount(shs[..]) < MAX_BSS_SECTIONS
      requires mem as object != shs && tracker as object != shs
      modifies this, mem, tracker, shs
      ensures IsValid() && bss == old(bss) + BssCount(old(shs[..]))
      ensures (State(), ok, shs[..]) == ElfModule.LoadElf(old(State()), image, old(shs[..]))
    {
      hide LoadAll, AllLoadable, Clean, RelocateFrom, Patches, BssCount, WellFormed, Valid;
      PlacedIsClean(State(), image, shs[..]);
      PlaceAll(image, shs);
      ok := RelocateAll(image, shs);
    }

    /** The walk over the tracker before the kernel is entered: entries up to the first at address 0. */
    method ListBss() returns (entries: seq<(nat, nat)>)
      requires IsValid()
      ensures entries <= State().bss && forall e :: e in entries ==> e.0 != 0
      ensures |entries| < bss ==> tracker[|entries|].0 == 0
      ensures entries == State().bss <==> forall e :: e in State().bss ==> e.0 != 0
    {
      var i := 0;
      while tracker[i].0 != 0
        invariant 0 <= i <= bss
        invariant forall j :: 0 <= j < i ==> tracker[j].0 != 0
        decreases bss - i
      {
        assert i < bss;
        i := i + 1;
      }
      entries := tracker[..i];
      if i < bss {
        assert tracker[..bss][i] == tracker[i];
      }
    }
  }

  lemma NoZeros(mem: seq<bv8>, at: nat)
    requires at <= |mem|
    ensures Overwrite(mem, at, seq(0, _ => 0)) == mem
  {
  }

  lemma ZeroStep(mem: seq<bv8>, at: nat, d: nat)
    requires at + d < |mem|
    ensures Overwrite(mem, at, seq(d, _ => 0))[at + d := 0] == Overwrite(mem, at, seq(d + 1, _ => 0))
  {
    var p, q := Overwrite(mem, at, seq(d, _ => 0))[at + d := 0], Overwrite(mem, at, seq(d + 1, _ => 0));
    forall i | 0 <= i < |mem| ensures p[i] == q[i] {
    }
  }

  /** How many sections of a module the BSS tracker lists. */
  function BssCount(shs: seq<Section>): nat {
    if shs == [] then 0
    else
      var s := shs[|shs| - 1];
      BssCount(shs[..|shs| - 1]) + (if IsLoaded(s) && s.kind == SHT_NOBITS then 1 else 0)
  }

  lemma PlaceStart(l: Load, image: Image, shs: seq<Section>)
    requires Good(l)
    ensures AllLoadable(l, image, shs[..0]) && LoadAll(l, image, shs[..0]) == (l, []) && BssCount(shs[..0]) == 0
  {
  }

  lemma {:induction false} AllLoadablePrefix(l: Load, image: Image, shs: seq<Section>, i: nat)
    requires Good(l) && AllLoadable(l, image, shs) && i <= |shs|
    ensures AllLoadable(l, image, shs[..i])
    decreases |shs|
  {
    hide Loadable, LoadAll, Good;
    if i == |shs| {
      assert shs[..i] == shs;
    } else {
      AllLoadablePrefix(l, image, shs[..|shs| - 1], i);
      assert shs[..|shs| - 1][..i] == shs[..i];
    }
  }

  lemma {:induction false} BssCountGrows(shs: seq<Section>, i: nat)
    requires i <= |shs|
    ensures BssCount(shs[..i]) <= BssCount(shs)
    decreases |shs|
  {
    if i == |shs| {
      assert shs[..i] == shs;
    } else {
      BssCountGrows(shs[..|shs| - 1], i);
      assert shs[..|shs| - 1][..i] == shs[..i];
    }
  }

  lemma PlaceStep(l: Load, image: Image, shs: seq<Section>, i: nat)
    requires Good(l) && AllLoadable(l, image, shs) && i < |shs| && AllLoadable(l, image, shs[..i])
    ensures var (l1, done) := LoadAll(l, image, shs[..i]);
            && Loadable(l1, image, shs[i])
            && AllLoadable(l, image, shs[..i + 1])
            && LoadAll(l, image, shs[..i + 1])
               == (LoadOne(l1, image, shs[i]).0, done + [LoadOne(l1, image, shs[i]).1])
    ensures var more := if IsLoaded(shs[i]) && shs[i].kind == SHT_NOBITS then 1 else 0;
            BssCount(shs[..i + 1]) == BssCount(shs[..i]) + more && BssCount(shs[..i]) + more <= BssCount(shs)
  {
    hide LoadOne, Loadable, Good;
    AllLoadablePrefix(l, image, shs, i + 1);
    BssCountGrows(shs, i + 1);
    assert shs[..i + 1][..i] == shs[..i] && shs[..i + 1][i] == shs[i];
  }

  lemma Unplaced(l: Load, image: Image, s: Section)
    requires Good(l) && Loadable(l, image, s)
    ensures IsTable(s) ==> LoadOne(l, image, s) == (l, s.(addr := image.base + s.offset))
    ensures !IsTable(s) && !IsLoaded(s) ==> LoadOne(l, image, s) == (l, s)
  {
  }

  lemma OpenedIs(shs: seq<Section>, image: Image, i: nat)
    requires i < |shs|
    ensures Opened(shs, image, i) == shs[i := shs[i].(addr := image.base + shs[i].offset)]
  {
  }

  lemma RelocateStep(shs: seq<Section>, image: Image, i: nat)
    requires i < |shs| && Clean(shs)
    ensures AllGoodRela(shs) && (shs[i].kind == SHT_RELA ==> shs[i].info < |shs|)
    ensures !Relocates(shs, shs[i]) ==> RelocateFrom(shs, image, i) == RelocateFrom(shs, image, i + 1)
    ensures Relocates(shs, shs[i]) ==>
              var o := Opened(shs, image, i);
              && Clean(o) && Relocates(o, o[i])
              && (o[i].addr == 0 ==> RelocateFrom(shs, image, i) == ([], false, o))
              && (o[i].addr != 0 ==>
                    var (fs, ok) := FixesOf(o, i);
                    var rest := RelocateFrom(o, image, i + 1);
                    RelocateFrom(shs, image, i) == if ok then (fs + rest.0, rest.1, rest.2) else (fs, false, o))
  {
    hide FixesOf;
    if shs[i].kind == SHT_RELA {
      assert shs[i] in shs && GoodRela(shs, shs[i]);
    }
    if Relocates(shs, shs[i]) {
      OpenedStaysClean(shs, image, i);
      OpensItself(shs, image, i);
    }
  }

  lemma RelocateEnds(shs: seq<Section>, image: Image)
    requires AllGoodRela(shs)
    ensures RelocateFrom(shs, image, |shs|) == ([], true, shs)
  {
  }

  lemma RegroupAll(done: seq<Fix>, own: seq<Fix>, rest: seq<Fix>)
    ensures done + (own + rest) == (done + own) + rest
  {
  }

  lemma Regroup(done: seq<Fix>, f: Fix, rest: seq<Fix>)
    ensures done + ([f] + rest) == (done + [f]) + rest
  {
  }

  lemma OnePatch(mem: seq<bv8>, f: Fix)
    requires InRange(|mem|, f)
    ensures Patches(mem, [f]) == Patch(mem, f)
  {
    hide Patch;
    assert [f][1..] == [];
    NoPatches(Patch(mem, f));
  }

  lemma UnknownPatch(mem: seq<bv8>, f: Fix)
    requires InRange(|mem|, f) && !Known(f.kind)
    ensures Patch(mem, f) == mem
  {
  }

  lemma RelaFacts(shs: seq<Section>, i: nat)
    requires i < |shs| && Clean(shs) && Relocates(shs, shs[i])
    ensures var s := shs[i];
            && s.link < |shs| && s.info < |shs|
            && (forall e :: e in s.relos ==> WellIndexed(shs, shs[s.link].symbols, e)
                                             && shs[s.info].addr + e.offset + Width(e.kind) <= LIMIT)
            && FixesOf(shs, i) == FixList(shs, shs[s.link].symbols, shs[s.info].addr, s.relos, None)
            && AllInRange(FixesOf(shs, i).0)
  {
    hide FixList;
    assert shs[i] in shs && GoodRela(shs, shs[i]) && CleanRela(shs, shs[i]);
    FixesOfWithin(shs, i);
  }

  lemma FixListStep(shs: seq<Section>, symtab: seq<Symbol>, base: nat, relos: seq<Relo>, cache: Option<nat>)
    requires (forall e :: e in relos ==> WellIndexed(shs, symtab, e)) && relos != []
    ensures var e := relos[0];
            && WellIndexed(shs, symtab, e)
            && var sym := symtab[e.sym];
               var sysBase := TestCached(e.sym, sym, cache);
               var all := FixList(shs, symtab, base, relos, cache);
               match Resolve(shs, sym, sysBase)
               case None => all == ([], false)
               case Some((s, virt)) =>
                 if !Known(e.kind) then all == ([], false) else
                   var cache' := if sym.shindex == SHN_ABS && sysBase then Some(e.sym) else cache;
                   var rest := FixList(shs, symtab, base, relos[1..], cache');
                   all == ([Fix(base + e.offset, e.kind, s, e.addend, virt)] + rest.0, rest.1)
  {
    assert WellIndexed(shs, symtab, relos[0]);
  }

  lemma FixListEnds(shs: seq<Section>, symtab: seq<Symbol>, base: nat, cache: Option<nat>)
    ensures FixList(shs, symtab, base, [], cache) == ([], true)
  {
  }
}
