/**
 What load_elf_file of src/elf.c makes of one module: placing and copying its sections, then
 resolving its relocation entries. Headers, symbols and entries are given decoded.
 */
module ElfModule {
  import opened Options
  import opened Sequences
  import opened ElfHeap
  import opened ElfReloc

  const SHT_SYMTAB := 2
  const SHT_STRTAB := 3
  const SHT_RELA := 4
  const SHT_NOBITS := 8

  const SHN_UNDEF := 0
  const SHN_ABS := 0xFFF1
  const SHN_COMMON := 0xFFF2

  /** KERNEL_VIRT_BASE - KERNEL_PHYS_BASE. */
  const VIRT: bv32 := 0xFF00_0000
  const VIRT_SHIFT: nat := VIRT_BASE - PHYS_BASE
  const VIRT_BASE: nat := 0xFF80_0000

  datatype Symbol = Symbol(name: string, value: bv32, size: nat, shindex: nat)

  datatype Relo = Relo(offset: nat, sym: nat, kind: nat, addend: bv32)

  /** A section header with, for a symbol table or a relocation section, its decoded content. */
  datatype Section = Section(
    kind: nat, write: bool, alloc: bool, exec: bool, addr: nat, offset: nat, size: nat,
    link: nat, info: nat, align: nat, symbols: seq<Symbol>, relos: seq<Relo>)

  /** The file buffer: its address and bytes. */
  datatype Image = Image(base: nat, data: seq<bv8>)

  predicate IsTable(s: Section) {
    s.kind == SHT_SYMTAB || s.kind == SHT_STRTAB
  }

  predicate IsLoaded(s: Section) {
    !IsTable(s) && s.alloc && s.size > 0
  }

  // ---- first pass: placing and copying ---------------------------------------------------

  /** The state all modules share: the allocator, memory, and the BSS tracker's live entries. */
  datatype Load = Load(heap: Heap, mem: seq<bv8>, bss: seq<(nat, nat)>)

  ghost predicate Good(l: Load) {
    Valid(l.heap) && |l.mem| == LIMIT
  }

  predicate Loadable(l: Load, image: Image, s: Section) {
    IsLoaded(s) ==> Fits(l.heap, s.size, s.align, s.write) && (s.kind != SHT_NOBITS ==> s.offset + s.size <= |image.data|)
  }

  function Content(image: Image, s: Section): (r: seq<bv8>)
    requires s.kind != SHT_NOBITS ==> s.offset + s.size <= |image.data|
    ensures |r| == s.size
  {
    if s.kind == SHT_NOBITS then seq(s.size, _ => 0) else image.data[s.offset..s.offset + s.size]
  }

  function Virtual(addr: nat): nat {
    (addr + VIRT_SHIFT) % LIMIT
  }

  function LoadOne(l: Load, image: Image, s: Section): (r: (Load, Section))
    requires Good(l) && Loadable(l, image, s)
    ensures Good(r.0)
  {
    if IsTable(s) then (l, s.(addr := image.base + s.offset))
    else if s.alloc && s.size > 0 then
      AllocKeeps(l.heap, s.size, s.align, s.write);
      var h := Alloc(l.heap, s.size, s.align, s.write);
      var addr := h.chunks[|l.heap.chunks|].addr;
      assert InPlace(h, h.chunks[|l.heap.chunks|]);
      (Load(h, Overwrite(l.mem, addr, Content(image, s)),
            if s.kind == SHT_NOBITS then l.bss + [(Virtual(addr), s.size)] else l.bss),
       s.(addr := addr))
    else (l, s)
  }

  /** The sections of a module can be loaded in order. */
  ghost predicate AllLoadable(l: Load, image: Image, shs: seq<Section>)
    requires Good(l)
    decreases |shs|, 0
  {
    shs == [] || (AllLoadable(l, image, shs[..|shs| - 1])
                  && Loadable(LoadAll(l, image, shs[..|shs| - 1]).0, image, shs[|shs| - 1]))
  }

  ghost function LoadAll(l: Load, image: Image, shs: seq<Section>): (r: (Load, seq<Section>))
    requires Good(l) && AllLoadable(l, image, shs)
    ensures Good(r.0) && |r.1| == |shs|
    decreases |shs|, 1
  {
    if shs == [] then (l, []) else
      var (l1, done) := LoadAll(l, image, shs[..|shs| - 1]);
      var (l2, s) := LoadOne(l1, image, shs[|shs| - 1]);
      (l2, done + [s])
  }

  /** How many of the sections take memory. */
  function LoadedCount(shs: seq<Section>): nat {
    if shs == [] then 0 else LoadedCount(shs[..|shs| - 1]) + (if IsLoaded(shs[|shs| - 1]) then 1 else 0)
  }

  function ChunkOf(s: Section): Chunk {
    Chunk(s.addr, s.size, s.align, s.write)
  }

  /** Section k of a loaded module has its own chunk, after those of the sections before it. */
  ghost predicate HasChunk(l: Load, l': Load, shs: seq<Section>, placed: seq<Section>, k: nat)
    requires k < |shs| == |placed|
  {
    var at := |l.heap.chunks| + LoadedCount(shs[..k]);
    placed[k] == shs[k].(addr := placed[k].addr)
    && (IsLoaded(shs[k]) ==> at < |l'.heap.chunks| && l'.heap.chunks[at] == ChunkOf(placed[k]))
  }

  lemma LoadOneKeeps(l: Load, image: Image, s: Section)
    requires Good(l) && Loadable(l, image, s)
    ensures var (l', s') := LoadOne(l, image, s);
            && s' == s.(addr := s'.addr)
            && l.heap.chunks <= l'.heap.chunks
            && (if IsLoaded(s) then l'.heap.chunks == l.heap.chunks + [ChunkOf(s')] && s'.addr + s.size <= LIMIT
                                    && l'.mem == Overwrite(l.mem, s'.addr, Content(image, s))
                else l' == l)
            && l'.bss == l.bss + (if IsLoaded(s) && s.kind == SHT_NOBITS then [(Virtual(s'.addr), s.size)] else [])
  {
    if IsLoaded(s) {
      AllocKeeps(l.heap, s.size, s.align, s.write);
      var h := Alloc(l.heap, s.size, s.align, s.write);
      assert h.chunks == h.chunks[..|l.heap.chunks|] + [h.chunks[|l.heap.chunks|]];
      assert InPlace(h, h.chunks[|l.heap.chunks|]);
    }
  }

  /** After the first pass, section by section: every section that takes memory has its own chunk. */
  lemma {:induction false} LoadAllChunks(l: Load, image: Image, shs: seq<Section>)
    requires Good(l) && AllLoadable(l, image, shs)
    ensures var (l', placed) := LoadAll(l, image, shs);
            && l.heap.chunks <= l'.heap.chunks && |l'.heap.chunks| == |l.heap.chunks| + LoadedCount(shs)
            && forall k :: 0 <= k < |shs| ==> HasChunk(l, l', shs, placed, k)
    decreases |shs|
  {
    hide LoadOne, Good, Loadable;
    if shs != [] {
      var n := |shs| - 1;
      var init, s := shs[..n], shs[n];
      LoadAllChunks(l, image, init);
      var (l1, done) := LoadAll(l, image, init);
      LoadOneKeeps(l1, image, s);
      var (l', placed) := LoadAll(l, image, shs);
      forall k | 0 <= k < |shs| ensures HasChunk(l, l', shs, placed, k) {
        if k < n {
          assert HasChunk(l, l1, init, done, k);
          assert init[..k] == shs[..k] && placed[k] == done[k];
        } else {
          assert shs[..k] == init;
        }
      }
    }
  }

  lemma OverwriteAt(mem: seq<bv8>, at: nat, bytes: seq<bv8>)
    requires at + |bytes| <= |mem|
    ensures Overwrite(mem, at, bytes)[at..at + |bytes|] == bytes
  {
  }

  lemma OverwriteFrame(mem: seq<bv8>, at: nat, bytes: seq<bv8>, lo: nat, hi: nat)
    requires at + |bytes| <= |mem| && lo <= hi <= |mem| && (at + |bytes| <= lo || hi <= at)
    ensures Overwrite(mem, at, bytes)[lo..hi] == mem[lo..hi]
  {
    var p, q := Overwrite(mem, at, bytes)[lo..hi], mem[lo..hi];
    forall i | 0 <= i < |p| ensures p[i] == q[i] {
    }
  }

  lemma ChunksApart(h: Heap, i: nat, j: nat)
    requires Valid(h) && i < j < |h.chunks|
    ensures var a, b := h.chunks[i], h.chunks[j];
            a.addr + a.size <= LIMIT && b.addr + b.size <= LIMIT && (a.addr + a.size <= b.addr || b.addr + b.size <= a.addr)
  {
    assert !Overlap(h.chunks[i], h.chunks[j]);
    assert InPlace(h, h.chunks[i]) && InPlace(h, h.chunks[j]);
  }

  /** After the first pass each section holds its file bytes, or zeros for NOBITS. */
  lemma {:induction false} LoadAllContent(l: Load, image: Image, shs: seq<Section>, k: nat)
    requires Good(l) && AllLoadable(l, image, shs) && k < |shs| && IsLoaded(shs[k])
    ensures var (l', placed) := LoadAll(l, image, shs);
            && placed[k].addr + shs[k].size <= LIMIT
            && (shs[k].kind != SHT_NOBITS ==> shs[k].offset + shs[k].size <= |image.data|)
            && l'.mem[placed[k].addr..placed[k].addr + shs[k].size] == Content(image, shs[k])
    decreases |shs|
  {
    hide LoadOne, Loadable, Overwrite, Content, Valid;
    var n := |shs| - 1;
    var init, s := shs[..n], shs[n];
    var (l1, done) := LoadAll(l, image, init);
    var (l', placed) := LoadAll(l, image, shs);
    LoadOneKeeps(l1, image, s);
    if k == n {
      LoadableData(l1, image, s);
      OverwriteAt(l1.mem, placed[k].addr, Content(image, s));
    } else {
      LoadAllContent(l, image, init, k);
      if IsLoaded(s) {
        LoadableData(l1, image, s);
        LoadAllChunks(l, image, init);
        assert HasChunk(l, l1, init, done, k);
        var at := |l.heap.chunks| + LoadedCount(init[..k]);
        ChunksApart(l'.heap, at, |l1.heap.chunks|);
        OverwriteFrame(l1.mem, placed[n].addr, Content(image, s), placed[k].addr, placed[k].addr + shs[k].size);
      }
    }
  }

  lemma LoadableData(l: Load, image: Image, s: Section)
    requires Loadable(l, image, s) && IsLoaded(s)
    ensures s.kind != SHT_NOBITS ==> s.offset + s.size <= |image.data|
  {
  }

  predicate Away(c: Chunk, lo: nat, hi: nat) {
    c.addr + c.size <= lo || hi <= c.addr
  }

  /** No chunk from index first on meets the range. */
  predicate AllAway(chunks: seq<Chunk>, first: nat, lo: nat, hi: nat) {
    forall j :: first <= j < |chunks| ==> Away(chunks[j], lo, hi)
  }

  /** Memory outside the new chunks is as before, the chunks of earlier modules in particular. */
  lemma {:induction false} LoadAllFrame(l: Load, image: Image, shs: seq<Section>, lo: nat, hi: nat)
    requires Good(l) && AllLoadable(l, image, shs) && lo <= hi <= LIMIT
    requires AllAway(LoadAll(l, image, shs).0.heap.chunks, |l.heap.chunks|, lo, hi)
    ensures LoadAll(l, image, shs).0.mem[lo..hi] == l.mem[lo..hi]
    decreases |shs|
  {
    hide LoadOne, Loadable, Overwrite, Content, Valid;
    if shs != [] {
      var n := |shs| - 1;
      var init, s := shs[..n], shs[n];
      var (l1, done) := LoadAll(l, image, init);
      var (l', placed) := LoadAll(l, image, shs);
      LoadOneKeeps(l1, image, s);
      LoadAllChunks(l, image, init);
      assert l1.heap.chunks <= l'.heap.chunks;
      forall j | |l.heap.chunks| <= j < |l1.heap.chunks| ensures Away(l1.heap.chunks[j], lo, hi) {
        assert l1.heap.chunks[j] == l'.heap.chunks[j];
      }
      LoadAllFrame(l, image, init, lo, hi);
      if IsLoaded(s) {
        LoadableData(l1, image, s);
        assert l'.heap.chunks[|l1.heap.chunks|] == ChunkOf(placed[n]);
        assert Away(l'.heap.chunks[|l1.heap.chunks|], lo, hi);
        OverwriteFrame(l1.mem, placed[n].addr, Content(image, s), lo, hi);
      }
    }
  }

  // ---- the BSS tracker -------------------------------------------------------------------

  /** The entries for the non-empty allocated NOBITS sections of a module, in section order. */
  function BssOf(placed: seq<Section>): seq<(nat, nat)> {
    if placed == [] then []
    else
      var s := placed[|placed| - 1];
      BssOf(placed[..|placed| - 1])
      + (if s.kind == SHT_NOBITS && s.alloc && s.size > 0 then [((s.addr + 0xFF00_0000) % LIMIT, s.size)] else [])
  }

  /** The tracker lists exactly those sections, module after module. */
  lemma {:induction false} TrackerIsBss(l: Load, image: Image, shs: seq<Section>)
    requires Good(l) && AllLoadable(l, image, shs)
    ensures var (l', placed) := LoadAll(l, image, shs);
            l'.bss == l.bss + BssOf(placed)
    decreases |shs|
  {
    hide *;
    if shs == [] {
      NoBss(l, image, shs);
    } else {
      var n := |shs| - 1;
      LoadablePrefix(l, image, shs);
      TrackerIsBss(l, image, shs[..n]);
      BssStep(l, image, shs);
    }
  }

  lemma NoBss(l: Load, image: Image, shs: seq<Section>)
    requires Good(l) && AllLoadable(l, image, shs) && shs == []
    ensures LoadAll(l, image, shs).0.bss == l.bss + BssOf(LoadAll(l, image, shs).1)
  {
  }

  lemma LoadablePrefix(l: Load, image: Image, shs: seq<Section>)
    requires Good(l) && AllLoadable(l, image, shs) && shs != []
    ensures AllLoadable(l, image, shs[..|shs| - 1])
  {
  }

  lemma BssStep(l: Load, image: Image, shs: seq<Section>)
    requires Good(l) && AllLoadable(l, image, shs) && shs != [] && AllLoadable(l, image, shs[..|shs| - 1])
    requires var (l1, done) := LoadAll(l, image, shs[..|shs| - 1]);
             l1.bss == l.bss + BssOf(done)
    ensures LoadAll(l, image, shs).0.bss == l.bss + BssOf(LoadAll(l, image, shs).1)
  {
    hide LoadOne, Loadable, Good, Virtual, BssOf, IsLoaded;
    var n := |shs| - 1;
    var (l1, done) := LoadAll(l, image, shs[..n]);
    LoadOneKeeps(l1, image, shs[n]);
    var s := LoadOne(l1, image, shs[n]).1;
    SameLoaded(shs[n], s);
    BssAppend(done, s);
  }

  lemma BssAppend(done: seq<Section>, s: Section)
    ensures BssOf(done + [s])
         == BssOf(done) + (if IsLoaded(s) && s.kind == SHT_NOBITS then [(Virtual(s.addr), s.size)] else [])
  {
    assert (done + [s])[..|done|] == done;
  }

  lemma SameLoaded(s: Section, s': Section)
    requires s' == s.(addr := s'.addr)
    ensures IsLoaded(s') == IsLoaded(s)
  {
  }

  /** The one physical address that is mapped to virtual address 0. */
  const ZERO_AT := 0x0100_0000

  lemma VirtualZeroIff(addr: nat)
    requires addr < LIMIT
    ensures Virtual(addr) == 0 <==> addr == ZERO_AT
  {
  }

  /** No tracker entry of a module has address 0 exactly if no tracked section starts at ZERO_AT. */
  lemma {:induction false} NoZeroEntryIff(placed: seq<Section>)
    requires forall s :: s in placed && IsLoaded(s) ==> s.addr < LIMIT
    ensures (forall e :: e in BssOf(placed) ==> e.0 != 0)
       <==> forall s :: s in placed && IsLoaded(s) && s.kind == SHT_NOBITS ==> s.addr != ZERO_AT
    decreases |placed|
  {
    hide Virtual, IsLoaded;
    if placed != [] {
      var n := |placed| - 1;
      assert placed == placed[..n] + [placed[n]];
      NoZeroEntryIff(placed[..n]);
      BssAppend(placed[..n], placed[n]);
      if IsLoaded(placed[n]) {
        VirtualZeroIff(placed[n].addr);
      }
    }
  }

  // ---- second pass: resolving entries ----------------------------------------------------

  /** The cached test for the SysBase symbol: a name test until one is found, then an identity test. */
  function TestCached(index: nat, sym: Symbol, cache: Option<nat>): bool {
    (cache == None && sym.name == "SysBase") || cache == Some(index)
  }

  predicate WellIndexed(shs: seq<Section>, symtab: seq<Symbol>, r: Relo) {
    r.sym < |symtab| && (symtab[r.sym].shindex in {SHN_UNDEF, SHN_ABS, SHN_COMMON} || symtab[r.sym].shindex < |shs|)
  }

  function InSection(addr: nat, value: bv32): bv32 {
    Address(addr) + value
  }

  /** Symbol value and virtual offset; None for undefined and common symbols. */
  function Resolve(shs: seq<Section>, sym: Symbol, sysBase: bool): Option<(bv32, bv32)>
    requires sym.shindex in {SHN_UNDEF, SHN_ABS, SHN_COMMON} || sym.shindex < |shs|
  {
    if sym.shindex == SHN_UNDEF || sym.shindex == SHN_COMMON then None
    else if sym.shindex == SHN_ABS then (if sysBase then Some((4, 0)) else Some((sym.value, VIRT)))
    else Some((InSection(shs[sym.shindex].addr, sym.value), VIRT))
  }

  /** The fixes of one relocation section up to the first entry that stops it, and whether none does. */
  function FixList(shs: seq<Section>, symtab: seq<Symbol>, base: nat, relos: seq<Relo>, cache: Option<nat>)
    : (r: (seq<Fix>, bool))
    requires forall e :: e in relos ==> WellIndexed(shs, symtab, e)
    decreases |relos|
  {
    if relos == [] then ([], true) else
      var e := relos[0];
      assert WellIndexed(shs, symtab, e);
      var sym := symtab[e.sym];
      var sysBase := TestCached(e.sym, sym, cache);
      match Resolve(shs, sym, sysBase)
      case None => ([], false)
      case Some((s, virt)) =>
        if !Known(e.kind) then ([], false) else
          var cache' := if sym.shindex == SHN_ABS && sysBase then Some(e.sym) else cache;
          var (fs, ok) := FixList(shs, symtab, base, relos[1..], cache');
          ([Fix(base + e.offset, e.kind, s, e.addend, virt)] + fs, ok)
  }

  /** The same with the name of every absolute symbol tested. */
  function FixListByName(shs: seq<Section>, symtab: seq<Symbol>, base: nat, relos: seq<Relo>): (r: (seq<Fix>, bool))
    requires forall e :: e in relos ==> WellIndexed(shs, symtab, e)
    decreases |relos|
  {
    if relos == [] then ([], true) else
      var e := relos[0];
      assert WellIndexed(shs, symtab, e);
      match Resolve(shs, symtab[e.sym], symtab[e.sym].name == "SysBase")
      case None => ([], false)
      case Some((s, virt)) =>
        if !Known(e.kind) then ([], false) else
          var (fs, ok) := FixListByName(shs, symtab, base, relos[1..]);
          ([Fix(base + e.offset, e.kind, s, e.addend, virt)] + fs, ok)
  }

  predicate IsSysBase(symtab: seq<Symbol>, i: nat) {
    i < |symtab| && symtab[i].shindex == SHN_ABS && symtab[i].name == "SysBase"
  }

  /** The entry ends the resolving of its section, whatever its symbol is called. */
  predicate Stops(shs: seq<Section>, symtab: seq<Symbol>, e: Relo)
    requires WellIndexed(shs, symtab, e)
  {
    Resolve(shs, symtab[e.sym], false) == None || !Known(e.kind)
  }

  /** The entries that are resolved: those in front of the first one that stops the list. */
  function Met(shs: seq<Section>, symtab: seq<Symbol>, relos: seq<Relo>): (r: seq<Relo>)
    requires forall e :: e in relos ==> WellIndexed(shs, symtab, e)
    ensures r <= relos
    decreases |relos|
  {
    if relos == [] || Stops(shs, symtab, relos[0]) then [] else [relos[0]] + Met(shs, symtab, relos[1..])
  }

  /** All absolute SysBase symbols of these entries are one and the same, the cached one if there is one. */
  ghost predicate OneSysBase(symtab: seq<Symbol>, met: seq<Relo>, cache: Option<nat>) {
    && (forall e :: e in met && IsSysBase(symtab, e.sym) ==> cache == None || cache == Some(e.sym))
    && (forall e, e' :: e in met && e' in met && IsSysBase(symtab, e.sym) && IsSysBase(symtab, e'.sym)
                        ==> e.sym == e'.sym)
  }

  /** The symbol remembered behind an entry that is resolved. */
  function Remembered(symtab: seq<Symbol>, e: Relo, cache: Option<nat>): Option<nat> {
    if IsSysBase(symtab, e.sym) then Some(e.sym) else cache
  }

  lemma OneSysBaseStep(symtab: seq<Symbol>, e: Relo, rest: seq<Relo>, cache: Option<nat>)
    ensures OneSysBase(symtab, [e] + rest, cache)
       <==> (IsSysBase(symtab, e.sym) ==> cache == None || cache == Some(e.sym))
            && OneSysBase(symtab, rest, Remembered(symtab, e, cache))
  {
    hide IsSysBase;
    var met := [e] + rest;
    assert forall x :: x in met <==> x == e || x in rest;
    assert e in met;
  }

  /**
   The cached test resolves a list as the test of every name does, exactly if all absolute SysBase
   symbols met before the first entry that stops the list are one and the same.
   */
  lemma {:induction false} CacheIsNameTestIff(shs: seq<Section>, symtab: seq<Symbol>, base: nat, relos: seq<Relo>,
                                              cache: Option<nat>)
    requires forall e :: e in relos ==> WellIndexed(shs, symtab, e)
    requires cache.Some? ==> IsSysBase(symtab, cache.value)
    ensures FixList(shs, symtab, base, relos, cache) == FixListByName(shs, symtab, base, relos)
       <==> OneSysBase(symtab, Met(shs, symtab, relos), cache)
    decreases |relos|
  {
    if relos != [] && !Stops(shs, symtab, relos[0]) {
      var e, rest := relos[0], relos[1..];
      assert WellIndexed(shs, symtab, e);
      OneSysBaseStep(symtab, e, Met(shs, symtab, rest), cache);
      CacheIsNameTestIff(shs, symtab, base, rest, Remembered(symtab, e, cache));
      assert forall x :: x in rest ==> x in relos;
      if IsSysBase(symtab, e.sym) && cache.Some? && cache.value != e.sym {
        FixesDiffer(shs, symtab, base, relos, cache);
      } else {
        FixesContinue(shs, symtab, base, relos, cache);
      }
    }
  }

  lemma FixesDiffer(shs: seq<Section>, symtab: seq<Symbol>, base: nat, relos: seq<Relo>, cache: Option<nat>)
    requires (forall e :: e in relos ==> WellIndexed(shs, symtab, e)) && relos != [] && !Stops(shs, symtab, relos[0])
    requires IsSysBase(symtab, relos[0].sym) && cache.Some? && cache.value != relos[0].sym
    ensures FixList(shs, symtab, base, relos, cache) != FixListByName(shs, symtab, base, relos)
  {
    var e := relos[0];
    assert WellIndexed(shs, symtab, e);
    assert FixList(shs, symtab, base, relos, cache).0[0].virt == VIRT;
    assert FixListByName(shs, symtab, base, relos).0[0].virt == 0;
  }

  lemma FixesContinue(shs: seq<Section>, symtab: seq<Symbol>, base: nat, relos: seq<Relo>, cache: Option<nat>)
    requires (forall e :: e in relos ==> WellIndexed(shs, symtab, e)) && relos != [] && !Stops(shs, symtab, relos[0])
    requires (forall e :: e in relos[1..] ==> WellIndexed(shs, symtab, e))
    requires cache.Some? ==> IsSysBase(symtab, cache.value)
    requires IsSysBase(symtab, relos[0].sym) ==> cache == None || cache == Some(relos[0].sym)
    ensures FixList(shs, symtab, base, relos, cache) == FixListByName(shs, symtab, base, relos)
       <==> FixList(shs, symtab, base, relos[1..], Remembered(symtab, relos[0], cache))
            == FixListByName(shs, symtab, base, relos[1..])
  {
    var e, rest := relos[0], relos[1..];
    assert WellIndexed(shs, symtab, e);
    var sym := symtab[e.sym];
    var (fs, ok) := FixList(shs, symtab, base, rest, Remembered(symtab, e, cache));
    var (gs, good) := FixListByName(shs, symtab, base, rest);
    var at := Resolve(shs, sym, sym.name == "SysBase");
    var f := Fix(base + e.offset, e.kind, at.value.0, e.addend, at.value.1);
    assert FixList(shs, symtab, base, relos, cache) == ([f] + fs, ok);
    assert FixListByName(shs, symtab, base, relos) == ([f] + gs, good);
    assert ([f] + fs)[1..] == fs && ([f] + gs)[1..] == gs;
  }

  /** With at most one absolute symbol named SysBase, the cached test is the name test. */
  lemma CacheIsNameTest(shs: seq<Section>, symtab: seq<Symbol>, base: nat, relos: seq<Relo>)
    requires forall e :: e in relos ==> WellIndexed(shs, symtab, e)
    requires forall i, j :: IsSysBase(symtab, i) && IsSysBase(symtab, j) ==> i == j
    ensures FixList(shs, symtab, base, relos, None) == FixListByName(shs, symtab, base, relos)
  {
    CacheIsNameTestIff(shs, symtab, base, relos, None);
  }

  /** With two, the second one met is taken for an ordinary absolute symbol. */
  lemma SecondSysBaseIsOrdinary(shs: seq<Section>, symtab: seq<Symbol>, base: nat, a: Relo, b: Relo)
    requires IsSysBase(symtab, a.sym) && IsSysBase(symtab, b.sym) && a.sym != b.sym && Known(a.kind) && Known(b.kind)
    ensures FixList(shs, symtab, base, [a, b], None)
         == ([Fix(base + a.offset, a.kind, 4, a.addend, 0),
              Fix(base + b.offset, b.kind, symtab[b.sym].value, b.addend, VIRT)], true)
  {
    var rest := [b];
    assert [a, b][1..] == rest;
    assert !TestCached(b.sym, symtab[b.sym], Some(a.sym));
    assert Resolve(shs, symtab[b.sym], false) == Some((symtab[b.sym].value, VIRT));
    assert FixList(shs, symtab, base, rest[1..], Some(a.sym)) == ([], true);
    var f := Fix(base + b.offset, b.kind, symtab[b.sym].value, b.addend, VIRT);
    assert [f] + [] == [f];
    assert FixList(shs, symtab, base, rest, Some(a.sym)) == ([f], true);
    assert TestCached(a.sym, symtab[a.sym], None);
    assert Resolve(shs, symtab[a.sym], true) == Some((4, 0));
    assert [Fix(base + a.offset, a.kind, 4, a.addend, 0)] + [f] == [Fix(base + a.offset, a.kind, 4, a.addend, 0), f];
  }

  // ---- second pass: all relocation sections ----------------------------------------------

  /** Links and indices of a relocation section are in range, and its target is neither a table nor
      another relocation section. */
  predicate GoodRela(shs: seq<Section>, s: Section) {
    s.link < |shs| && s.info < |shs| && !IsTable(shs[s.info]) && shs[s.info].kind != SHT_RELA
    && forall e :: e in s.relos ==> WellIndexed(shs, shs[s.link].symbols, e)
  }

  /** Every entry patches a field inside the target section. */
  predicate FieldsInside(shs: seq<Section>, s: Section)
    requires s.info < |shs|
  {
    forall e :: e in s.relos ==> e.offset + Width(e.kind) <= shs[s.info].size
  }

  predicate Relocates(shs: seq<Section>, s: Section) {
    s.kind == SHT_RELA && s.info < |shs| && shs[s.info].addr != 0
  }

  /** The table a relocation section is read from is at its place in the file. */
  function Opened(shs: seq<Section>, image: Image, i: nat): seq<Section>
    requires i < |shs|
  {
    shs[i := shs[i].(addr := image.base + shs[i].offset)]
  }

  predicate AllGoodRela(shs: seq<Section>) {
    forall s :: s in shs && s.kind == SHT_RELA ==> GoodRela(shs, s)
  }

  lemma OpenedStaysGood(shs: seq<Section>, image: Image, i: nat)
    requires i < |shs| && AllGoodRela(shs) && shs[i].kind == SHT_RELA
    ensures AllGoodRela(Opened(shs, image, i))
  {
    var o := Opened(shs, image, i);
    forall s | s in o && s.kind == SHT_RELA ensures GoodRela(o, s) {
      var k :| 0 <= k < |o| && o[k] == s;
      assert shs[k] in shs && GoodRela(shs, shs[k]);
      forall e | e in s.relos ensures WellIndexed(o, o[s.link].symbols, e) {
        assert WellIndexed(shs, shs[s.link].symbols, e);
      }
    }
  }

  /** The fixes of relocation section i. */
  function FixesOf(shs: seq<Section>, i: nat): (r: (seq<Fix>, bool))
    requires i < |shs| && AllGoodRela(shs) && shs[i].kind == SHT_RELA
  {
    assert shs[i] in shs && GoodRela(shs, shs[i]);
    FixList(shs, shs[shs[i].link].symbols, shs[shs[i].info].addr, shs[i].relos, None)
  }

  /** The fixes of sections i on, in section order, up to the first that fails; and whether none does. */
  function RelocateFrom(shs: seq<Section>, image: Image, i: nat): (r: (seq<Fix>, bool, seq<Section>))
    requires i <= |shs| && AllGoodRela(shs)
    decreases |shs| - i
  {
    if i == |shs| then ([], true, shs)
    else if !Relocates(shs, shs[i]) then RelocateFrom(shs, image, i + 1)
    else
      OpenedStaysGood(shs, image, i);
      var o := Opened(shs, image, i);
      if o[i].addr == 0 then ([], false, o) else
        var (fs, ok) := FixesOf(o, i);
        if !ok then (fs, false, o) else
          var (rest, done, o') := RelocateFrom(o, image, i + 1);
          (fs + rest, done, o')
  }

  // ---- a whole module --------------------------------------------------------------------

  /** Relocation sections take no memory, and those that apply patch inside sections that do. */
  predicate CleanRela(shs: seq<Section>, s: Section) {
    s.kind == SHT_RELA ==>
      !s.alloc && (Relocates(shs, s) ==> IsLoaded(shs[s.info]) && FieldsInside(shs, s)
                                         && shs[s.info].addr + shs[s.info].size <= LIMIT)
  }

  predicate Clean(shs: seq<Section>) {
    AllGoodRela(shs) && forall s :: s in shs ==> CleanRela(shs, s)
  }

  lemma OpenedStaysClean(shs: seq<Section>, image: Image, i: nat)
    requires i < |shs| && Clean(shs) && shs[i].kind == SHT_RELA
    ensures Clean(Opened(shs, image, i))
    ensures forall j :: 0 <= j < |shs| && IsLoaded(shs[j]) ==> Opened(shs, image, i)[j] == shs[j]
  {
    OpenedStaysGood(shs, image, i);
    var o := Opened(shs, image, i);
    assert shs[i] in shs && CleanRela(shs, shs[i]);
    forall s | s in o && s.kind == SHT_RELA ensures CleanRela(o, s) {
      var k :| 0 <= k < |o| && o[k] == s;
      assert shs[k] in shs && CleanRela(shs, shs[k]) && GoodRela(shs, shs[k]);
    }
  }

  lemma {:induction false} FixListWithin(shs: seq<Section>, symtab: seq<Symbol>, base: nat, relos: seq<Relo>,
                                         cache: Option<nat>, size: nat)
    requires forall e :: e in relos ==> WellIndexed(shs, symtab, e) && e.offset + Width(e.kind) <= size
    ensures forall f :: f in FixList(shs, symtab, base, relos, cache).0 ==> Within(f, base, base + size)
    decreases |relos|
  {
    if relos != [] {
      var e := relos[0];
      assert WellIndexed(shs, symtab, e);
      var sym := symtab[e.sym];
      var cache' := if sym.shindex == SHN_ABS && TestCached(e.sym, sym, cache) then Some(e.sym) else cache;
      FixListWithin(shs, symtab, base, relos[1..], cache', size);
    }
  }

  lemma FixesOfWithin(shs: seq<Section>, i: nat)
    requires i < |shs| && Clean(shs) && Relocates(shs, shs[i])
    ensures var t := shs[shs[i].info];
            forall f :: f in FixesOf(shs, i).0 ==> Within(f, t.addr, t.addr + t.size) && InRange(LIMIT, f)
  {
    hide FixList;
    assert shs[i] in shs && CleanRela(shs, shs[i]) && GoodRela(shs, shs[i]);
    var t := shs[shs[i].info];
    FixListWithin(shs, shs[shs[i].link].symbols, t.addr, shs[i].relos, None, t.size);
  }

  /** The fixes that the sections from i on make to section k. */
  function OwnFrom(shs: seq<Section>, image: Image, i: nat, k: nat): seq<Fix>
    requires i <= |shs| && AllGoodRela(shs)
    decreases |shs| - i
  {
    if i == |shs| then []
    else if !Relocates(shs, shs[i]) then OwnFrom(shs, image, i + 1, k)
    else
      OpenedStaysGood(shs, image, i);
      var o := Opened(shs, image, i);
      if o[i].addr == 0 then [] else
        var (fs, ok) := FixesOf(o, i);
        (if shs[i].info == k then fs else []) + (if ok then OwnFrom(o, image, i + 1, k) else [])
  }

  /** The chunk of section k meets that of no other section. */
  predicate Alone(shs: seq<Section>, k: nat)
    requires k < |shs|
  {
    shs[k].addr + shs[k].size <= LIMIT
    && forall j :: 0 <= j < |shs| && j != k && IsLoaded(shs[j])
                   ==> Away(ChunkOf(shs[j]), shs[k].addr, shs[k].addr + shs[k].size)
  }

  /** In the memory of section k, all fixes amount to its own. */
  lemma {:induction false} OnlyOwnFixes(mem: seq<bv8>, mem': seq<bv8>, shs: seq<Section>, image: Image, i: nat, k: nat)
    requires i <= |shs| && Clean(shs) && k < |shs| && IsLoaded(shs[k]) && Alone(shs, k) && |mem| == |mem'| == LIMIT
    requires SameSlice(mem, mem', shs[k])
    ensures AllInRange(RelocateFrom(shs, image, i).0) && AllInRange(OwnFrom(shs, image, i, k))
    ensures SameSlice(Patches(mem, RelocateFrom(shs, image, i).0), Patches(mem', OwnFrom(shs, image, i, k)), shs[k])
    decreases |shs| - i
  {
    hide FixesOf, Patches, Clean, Alone, IsLoaded, AllGoodRela, SameSlice, IsTable, InRange;
    if i == |shs| {
      NoPatches(mem);
      NoPatches(mem');
    } else if !Relocates(shs, shs[i]) {
      OnlyOwnFixes(mem, mem', shs, image, i + 1, k);
    } else {
      var o := Opened(shs, image, i);
      OpenedStaysClean(shs, image, i);
      StillAlone(shs, image, i, k);
      if o[i].addr == 0 {
        NoPatches(mem);
        NoPatches(mem');
      } else {
        var (fs, ok) := FixesOf(o, i);
        OwnStep(mem, mem', o, i, k);
        var own := if o[i].info == k then fs else [];
        NoPatches(mem');
        if ok {
          OnlyOwnFixes(Patches(mem, fs), Patches(mem', own), o, image, i + 1, k);
          PatchesConcat(mem, fs, RelocateFrom(o, image, i + 1).0);
          PatchesConcat(mem', own, OwnFrom(o, image, i + 1, k));
        } else {
          assert own + [] == own;
        }
      }
    }
  }

  lemma StillAlone(shs: seq<Section>, image: Image, i: nat, k: nat)
    requires i < |shs| && Clean(shs) && Relocates(shs, shs[i]) && k < |shs| && IsLoaded(shs[k]) && Alone(shs, k)
    ensures var o := Opened(shs, image, i);
            o[k] == shs[k] && Alone(o, k) && Relocates(o, o[i])
  {
    assert shs[i] in shs && CleanRela(shs, shs[i]);
    OpenedStaysClean(shs, image, i);
  }

  predicate AllInRange(fs: seq<Fix>) {
    forall f :: f in fs ==> InRange(LIMIT, f)
  }

  /** Two memories agree on the section. */
  predicate SameSlice(mem: seq<bv8>, mem': seq<bv8>, s: Section) {
    |mem| == |mem'| == LIMIT && s.addr + s.size <= LIMIT
    && mem[s.addr..s.addr + s.size] == mem'[s.addr..s.addr + s.size]
  }

  lemma NoPatches(mem: seq<bv8>)
    ensures Patches(mem, []) == mem
  {
  }

  /** One relocation section either patches section k, in the same way in both memories, or leaves it. */
  lemma OwnStep(mem: seq<bv8>, mem': seq<bv8>, o: seq<Section>, i: nat, k: nat)
    requires i < |o| && Clean(o) && Relocates(o, o[i]) && k < |o| && IsLoaded(o[k]) && Alone(o, k)
    requires SameSlice(mem, mem', o[k])
    ensures var fs := FixesOf(o, i).0;
            && AllInRange(fs)
            && SameSlice(Patches(mem, fs), if o[i].info == k then Patches(mem', fs) else mem', o[k])
  {
    hide FixesOf, Patches;
    var fs, t := FixesOf(o, i).0, o[o[i].info];
    var lo, hi := o[k].addr, o[k].addr + o[k].size;
    assert o[i] in o && CleanRela(o, o[i]);
    FixesOfWithin(o, i);
    if o[i].info == k {
      PatchesWithin(mem, mem', fs, lo, hi);
    } else {
      assert Away(ChunkOf(t), lo, hi);
      forall f | f in fs ensures Outside(f, lo, hi) {
        assert Within(f, t.addr, t.addr + t.size);
      }
      PatchesOutside(mem, fs, lo, hi);
    }
  }

  /** What the loader asks of the headers: good relocation sections with fields inside their targets,
      and an address of zero in every section that gets none. */
  predicate WellFormed(shs: seq<Section>) {
    && AllGoodRela(shs)
    && (forall s :: s in shs && s.kind == SHT_RELA ==> !s.alloc && s.info < |shs| && FieldsInside(shs, s))
    && (forall s :: s in shs && !IsTable(s) && !IsLoaded(s) ==> s.addr == 0)
  }

  ghost predicate Acceptable(l: Load, image: Image, shs: seq<Section>) {
    Good(l) && AllLoadable(l, image, shs) && WellFormed(shs)
  }

  lemma PlacedFacts(l: Load, image: Image, shs: seq<Section>, k: nat)
    requires Good(l) && AllLoadable(l, image, shs) && k < |shs|
    ensures var (l', placed) := LoadAll(l, image, shs);
            && placed[k] == shs[k].(addr := placed[k].addr) && IsLoaded(placed[k]) == IsLoaded(shs[k])
            && |l.heap.chunks| <= |l'.heap.chunks|
            && (IsLoaded(shs[k]) ==> placed[k].addr + placed[k].size <= LIMIT
                                     && ChunkOf(placed[k]) in l'.heap.chunks[|l.heap.chunks|..])
  {
    hide Valid, LoadAll;
    var (l', placed) := LoadAll(l, image, shs);
    LoadAllChunks(l, image, shs);
    assert HasChunk(l, l', shs, placed, k);
    SameLoaded(shs[k], placed[k]);
    if IsLoaded(shs[k]) {
      var at := |l.heap.chunks| + LoadedCount(shs[..k]);
      ChunkFits(l'.heap, at);
      assert l'.heap.chunks[|l.heap.chunks|..][LoadedCount(shs[..k])] == l'.heap.chunks[at];
    }
  }

  lemma ChunkFits(h: Heap, i: nat)
    requires Valid(h) && i < |h.chunks|
    ensures h.chunks[i].addr + h.chunks[i].size <= LIMIT && h.chunks[i].size > 0
  {
    assert InPlace(h, h.chunks[i]);
  }

  lemma UnloadedStays(l: Load, image: Image, shs: seq<Section>, k: nat)
    requires Good(l) && AllLoadable(l, image, shs) && k < |shs| && !IsLoaded(shs[k]) && !IsTable(shs[k])
    ensures LoadAll(l, image, shs).1[k].addr == shs[k].addr
    decreases |shs|
  {
    var n := |shs| - 1;
    if k < n {
      UnloadedStays(l, image, shs[..n], k);
    }
  }

  lemma PlacedIsClean(l: Load, image: Image, shs: seq<Section>)
    requires Acceptable(l, image, shs)
    ensures Clean(LoadAll(l, image, shs).1)
  {
    hide LoadAll, Good, AllLoadable;
    var placed := LoadAll(l, image, shs).1;
    forall k | 0 <= k < |shs|
      ensures placed[k].kind == SHT_RELA ==> GoodRela(placed, placed[k]) && CleanRela(placed, placed[k])
    {
      PlacedFacts(l, image, shs, k);
      var s := shs[k];
      assert s in shs;
      if s.kind == SHT_RELA {
        PlacedFacts(l, image, shs, s.info);
        PlacedFacts(l, image, shs, s.link);
        forall e | e in s.relos ensures WellIndexed(placed, placed[s.link].symbols, e) {
          assert WellIndexed(shs, shs[s.link].symbols, e);
        }
        if !IsLoaded(shs[s.info]) {
          UnloadedStays(l, image, shs, s.info);
          assert shs[s.info] in shs;
        }
      }
    }
  }

  lemma PlacedIsAlone(l: Load, image: Image, shs: seq<Section>, k: nat)
    requires Good(l) && AllLoadable(l, image, shs) && k < |shs| && IsLoaded(shs[k])
    ensures Alone(LoadAll(l, image, shs).1, k)
  {
    hide LoadAll, Valid, AllLoadable;
    var (l', placed) := LoadAll(l, image, shs);
    LoadAllChunks(l, image, shs);
    PlacedFacts(l, image, shs, k);
    forall j | 0 <= j < |shs| && j != k && IsLoaded(placed[j])
      ensures Away(ChunkOf(placed[j]), placed[k].addr, placed[k].addr + placed[k].size)
    {
      PlacedFacts(l, image, shs, j);
      assert HasChunk(l, l', shs, placed, k) && HasChunk(l, l', shs, placed, j);
      var a, b := |l.heap.chunks| + LoadedCount(shs[..k]), |l.heap.chunks| + LoadedCount(shs[..j]);
      if k < j {
        CountGrows(shs, k, j);
        ChunksApart(l'.heap, a, b);
      } else {
        CountGrows(shs, j, k);
        ChunksApart(l'.heap, b, a);
      }
    }
  }

  lemma {:induction false} CountGrows(shs: seq<Section>, j: nat, k: nat)
    requires j < k <= |shs| && IsLoaded(shs[j])
    ensures LoadedCount(shs[..j]) < LoadedCount(shs[..k])
    decreases k
  {
    assert shs[..k][..k - 1] == shs[..k - 1];
    if j < k - 1 {
      CountGrows(shs, j, k - 1);
    }
  }

  lemma {:induction false} FixesInRange(shs: seq<Section>, image: Image, i: nat)
    requires i <= |shs| && Clean(shs)
    ensures AllInRange(RelocateFrom(shs, image, i).0)
    decreases |shs| - i
  {
    hide FixesOf, Clean, AllGoodRela, InRange;
    if i < |shs| {
      if Relocates(shs, shs[i]) {
        var o := Opened(shs, image, i);
        OpenedStaysClean(shs, image, i);
        OpensItself(shs, image, i);
        FixesOfWithin(o, i);
        FixesInRange(o, image, i + 1);
      } else {
        FixesInRange(shs, image, i + 1);
      }
    }
  }

  lemma OpensItself(shs: seq<Section>, image: Image, i: nat)
    requires i < |shs| && Clean(shs) && Relocates(shs, shs[i])
    ensures Relocates(Opened(shs, image, i), Opened(shs, image, i)[i])
  {
    assert shs[i] in shs && GoodRela(shs, shs[i]);
  }

  /** load_elf_file: the shared state after it, whether it succeeded, and the headers it leaves. */
  ghost function LoadElf(l: Load, image: Image, shs: seq<Section>): (r: (Load, bool, seq<Section>))
    requires Acceptable(l, image, shs)
    ensures Good(r.0)
  {
    var (l1, placed) := LoadAll(l, image, shs);
    PlacedIsClean(l, image, shs);
    FixesInRange(placed, image, 0);
    var (fs, ok, final) := RelocateFrom(placed, image, 0);
    (l1.(mem := Patches(l1.mem, fs)), ok, final)
  }

  /** Each section that is allocated, not empty and no table ends up as its file bytes (zeros for
      NOBITS) patched by its own entries only. */
  lemma SectionLoaded(l: Load, image: Image, shs: seq<Section>, k: nat)
    requires Acceptable(l, image, shs) && k < |shs|
    requires shs[k].kind != SHT_SYMTAB && shs[k].kind != SHT_STRTAB && shs[k].alloc && shs[k].size > 0
    ensures var (l1, placed) := LoadAll(l, image, shs);
            var (lo, hi) := (placed[k].addr, placed[k].addr + shs[k].size);
            && Clean(placed) && hi <= LIMIT && (shs[k].kind != SHT_NOBITS ==> shs[k].offset + shs[k].size <= |image.data|)
            && l1.mem[lo..hi] == (if shs[k].kind == SHT_NOBITS then seq(shs[k].size, _ => 0)
                                  else image.data[shs[k].offset..shs[k].offset + shs[k].size])
            && AllInRange(OwnFrom(placed, image, 0, k))
            && LoadElf(l, image, shs).0.mem[lo..hi] == Patches(l1.mem, OwnFrom(placed, image, 0, k))[lo..hi]
  {
    hide LoadAll, AllLoadable, WellFormed, Clean, RelocateFrom, OwnFrom, Patches, AllInRange, LoadElf;
    LoadedFromContent(l, image, shs, k);
  }

  lemma LoadedFromContent(l: Load, image: Image, shs: seq<Section>, k: nat)
    requires Acceptable(l, image, shs) && k < |shs| && IsLoaded(shs[k])
    ensures var (l1, placed) := LoadAll(l, image, shs);
            var (lo, hi) := (placed[k].addr, placed[k].addr + shs[k].size);
            && Clean(placed) && hi <= LIMIT && (shs[k].kind != SHT_NOBITS ==> shs[k].offset + shs[k].size <= |image.data|)
            && l1.mem[lo..hi] == Content(image, shs[k])
            && AllInRange(OwnFrom(placed, image, 0, k))
            && LoadElf(l, image, shs).0.mem[lo..hi] == Patches(l1.mem, OwnFrom(placed, image, 0, k))[lo..hi]
  {
    hide LoadAll, AllLoadable, WellFormed, Clean, Alone, RelocateFrom, OwnFrom, Patches, IsLoaded;
    var (l1, placed) := LoadAll(l, image, shs);
    PlacedIsClean(l, image, shs);
    LoadAllContent(l, image, shs, k);
    PlacedFacts(l, image, shs, k);
    PlacedIsAlone(l, image, shs, k);
    OnlyOwnFixes(l1.mem, l1.mem, placed, image, 0, k);
  }

  /** Memory that no new chunk covers is untouched by the whole load. */
  lemma LoadElfFrame(l: Load, image: Image, shs: seq<Section>, lo: nat, hi: nat)
    requires Acceptable(l, image, shs) && lo <= hi <= LIMIT
    requires AllAway(LoadAll(l, image, shs).0.heap.chunks, |l.heap.chunks|, lo, hi)
    ensures LoadElf(l, image, shs).0.mem[lo..hi] == l.mem[lo..hi]
  {
    hide LoadAll, AllLoadable, WellFormed, RelocateFrom, Patches, Valid;
    var (l1, placed) := LoadAll(l, image, shs);
    PlacedIsClean(l, image, shs);
    LoadAllFrame(l, image, shs, lo, hi);
    FixesInRange(placed, image, 0);
    forall j | 0 <= j < |placed| && IsLoaded(placed[j]) ensures Away(ChunkOf(placed[j]), lo, hi) {
      PlacedFacts(l, image, shs, j);
      var chunks := l1.heap.chunks[|l.heap.chunks|..];
      var i :| 0 <= i < |chunks| && chunks[i] == ChunkOf(placed[j]);
      assert l1.heap.chunks[|l.heap.chunks| + i] == chunks[i];
    }
    FixesOutside(placed, image, 0, lo, hi);
    PatchesOutside(l1.mem, RelocateFrom(placed, image, 0).0, lo, hi);
  }

  lemma {:induction false} FixesOutside(shs: seq<Section>, image: Image, i: nat, lo: nat, hi: nat)
    requires i <= |shs| && Clean(shs)
    requires forall j :: 0 <= j < |shs| && IsLoaded(shs[j]) ==> Away(ChunkOf(shs[j]), lo, hi)
    ensures forall f :: f in RelocateFrom(shs, image, i).0 ==> Outside(f, lo, hi)
    decreases |shs| - i
  {
    hide FixesOf, AllGoodRela;
    if i < |shs| {
      if Relocates(shs, shs[i]) {
        var o := Opened(shs, image, i);
        OpenedStaysClean(shs, image, i);
        OpensItself(shs, image, i);
        FixesOfWithin(o, i);
        assert o[i] in o && CleanRela(o, o[i]);
        FixesOutside(o, image, i + 1, lo, hi);
      } else {
        FixesOutside(shs, image, i + 1, lo, hi);
      }
    }
  }

  // ---- modules in sequence ---------------------------------------------------------------

  ghost predicate AllAcceptable(l: Load, mods: seq<(Image, seq<Section>)>)
    decreases |mods|
  {
    mods == [] || (Acceptable(l, mods[0].0, mods[0].1)
                   && AllAcceptable(LoadElf(l, mods[0].0, mods[0].1).0, mods[1..]))
  }

  /** Loading a kernel and its modules one after the other. */
  ghost function LoadMany(l: Load, mods: seq<(Image, seq<Section>)>): Load
    requires AllAcceptable(l, mods)
    decreases |mods|
  {
    if mods == [] then l else LoadMany(LoadElf(l, mods[0].0, mods[0].1).0, mods[1..])
  }

  /** Whatever is loaded later, the memory of every chunk handed out before stays as it is. */
  lemma {:induction false} EarlierModulesStay(l: Load, mods: seq<(Image, seq<Section>)>, i: nat)
    requires Good(l) && AllAcceptable(l, mods) && i < |l.heap.chunks|
    ensures var c := l.heap.chunks[i];
            var r := LoadMany(l, mods);
            && Good(r) && l.heap.chunks <= r.heap.chunks && c.addr + c.size <= LIMIT
            && r.mem[c.addr..c.addr + c.size] == l.mem[c.addr..c.addr + c.size]
    decreases |mods|
  {
    hide LoadAll, Acceptable, Valid;
    ChunkFits(l.heap, i);
    if mods != [] {
      var (image, shs) := mods[0];
      var c := l.heap.chunks[i];
      AcceptableParts(l, image, shs);
      var (l1, placed) := LoadAll(l, image, shs);
      LoadAllChunks(l, image, shs);
      forall j | |l.heap.chunks| <= j < |l1.heap.chunks| ensures Away(l1.heap.chunks[j], c.addr, c.addr + c.size) {
        ChunksApart(l1.heap, i, j);
        assert l1.heap.chunks[i] == c;
      }
      LoadElfFrame(l, image, shs, c.addr, c.addr + c.size);
      EarlierModulesStay(LoadElf(l, image, shs).0, mods[1..], i);
    }
  }

  /** The tracked sections of all modules, module after module. */
  ghost function BssOfMany(l: Load, mods: seq<(Image, seq<Section>)>): seq<(nat, nat)>
    requires AllAcceptable(l, mods)
    decreases |mods|
  {
    if mods == [] then [] else
      AcceptableParts(l, mods[0].0, mods[0].1);
      BssOf(LoadAll(l, mods[0].0, mods[0].1).1) + BssOfMany(LoadElf(l, mods[0].0, mods[0].1).0, mods[1..])
  }

  /** Over any sequence of modules the tracker lists exactly these, in the order they were loaded. */
  lemma {:induction false} TrackerOverModules(l: Load, mods: seq<(Image, seq<Section>)>)
    requires AllAcceptable(l, mods)
    ensures LoadMany(l, mods).bss == l.bss + BssOfMany(l, mods)
    decreases |mods|
  {
    hide LoadAll, Acceptable, BssOf;
    if mods != [] {
      var (image, shs) := mods[0];
      AcceptableParts(l, image, shs);
      TrackerIsBss(l, image, shs);
      TrackerOverModules(LoadElf(l, image, shs).0, mods[1..]);
    }
  }

  lemma AcceptableParts(l: Load, image: Image, shs: seq<Section>)
    requires Acceptable(l, image, shs)
    ensures Good(l) && AllLoadable(l, image, shs)
  {
  }
}
