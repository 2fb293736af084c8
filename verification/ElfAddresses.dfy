/**
 The addresses in the fields of loaded modules: what the fields that relocation entries name hold
 once all modules are loaded, from load_elf_file and relocate_section of src/elf.c.
 */
module ElfAddresses {
  import opened Options
  import opened ElfHeap
  import opened ElfReloc
  import opened ElfModule

  /** Absolute, or in a section that takes memory. */
  predicate Addressed(shs: seq<Section>, sym: Symbol) {
    sym.shindex == SHN_ABS
    || (sym.shindex !in {SHN_UNDEF, SHN_COMMON} && sym.shindex < |shs| && IsLoaded(shs[sym.shindex]))
  }

  /** Unless the symbol is an absolute SysBase of several. */
  ghost predicate Unmistaken(symtab: seq<Symbol>, sym: nat) {
    IsSysBase(symtab, sym) ==> forall i :: IsSysBase(symtab, i) ==> i == sym
  }

  /** The symbol's value and the distance to add to it. */
  function Meaning(shs: seq<Section>, sym: Symbol): (bv32, bv32)
    requires Addressed(shs, sym)
  {
    Resolve(shs, sym, sym.name == "SysBase").value
  }

  predicate IsEntry(shs: seq<Section>, r: nat, n: nat) {
    && r < |shs| && shs[r].kind == SHT_RELA && shs[r].info < |shs| && shs[shs[r].info].addr != 0
    && GoodRela(shs, shs[r]) && n < |shs[r].relos|
    && shs[r].relos[n].sym < |shs[shs[r].link].symbols|
  }

  /** Entry n of relocation section r patches a section that takes memory, other than at address 0,
      for a symbol with an address. */
  ghost predicate Applies(shs: seq<Section>, r: nat, n: nat) {
    && IsEntry(shs, r, n) && IsLoaded(shs[shs[r].info])
    && var e, symtab := shs[r].relos[n], shs[shs[r].link].symbols;
    Addressed(shs, symtab[e.sym]) && Unmistaken(symtab, e.sym)
  }

  /** What the entry asks for. */
  ghost function Wanted(shs: seq<Section>, r: nat, n: nat): Fix
    requires Applies(shs, r, n)
  {
    var e := shs[r].relos[n];
    var (s, virt) := Meaning(shs, shs[shs[r].link].symbols[e.sym]);
    Fix(shs[shs[r].info].addr + e.offset, e.kind, s, e.addend, virt)
  }

  /** A list without an entry that stops it gives one fix for each entry. */
  lemma {:induction false} FixListHas(shs: seq<Section>, symtab: seq<Symbol>, base: nat, relos: seq<Relo>,
                                      cache: Option<nat>, n: nat)
    requires (forall e :: e in relos ==> WellIndexed(shs, symtab, e)) && FixList(shs, symtab, base, relos, cache).1
    requires cache.Some? ==> IsSysBase(symtab, cache.value)
    requires n < |relos| && relos[n].sym < |symtab|
    requires Addressed(shs, symtab[relos[n].sym]) && Unmistaken(symtab, relos[n].sym)
    ensures var (s, virt) := Meaning(shs, symtab[relos[n].sym]);
            Fix(base + relos[n].offset, relos[n].kind, s, relos[n].addend, virt)
            in FixList(shs, symtab, base, relos, cache).0
    ensures Known(relos[n].kind)
    decreases n
  {
    var e := relos[0];
    assert WellIndexed(shs, symtab, e);
    if n > 0 {
      var sysBase := TestCached(e.sym, symtab[e.sym], cache);
      var cache' := if symtab[e.sym].shindex == SHN_ABS && sysBase then Some(e.sym) else cache;
      FixListHas(shs, symtab, base, relos[1..], cache', n - 1);
    }
  }

  /** A load that succeeds makes the fix of each entry. */
  lemma {:induction false} OwnHas(shs: seq<Section>, image: Image, i: nat, r: nat, n: nat)
    requires i <= r && Clean(shs) && Applies(shs, r, n)
    requires RelocateFrom(shs, image, i).1
    ensures Wanted(shs, r, n) in OwnFrom(shs, image, i, shs[r].info) && Known(shs[r].relos[n].kind)
    decreases r - i
  {
    hide FixList, FixesOf, Clean, Applies, Wanted, GoodRela;
    SectionOf(shs, r, n);
    if !Relocates(shs, shs[i]) {
      OwnHas(shs, image, i + 1, r, n);
    } else {
      var o := Opened(shs, image, i);
      OpenedStaysClean(shs, image, i);
      StillWanted(shs, image, i, r, n);
      if i == r {
        OwnFixes(o, r, n);
      } else {
        OwnHas(o, image, i + 1, r, n);
      }
    }
  }

  lemma SectionOf(shs: seq<Section>, r: nat, n: nat)
    requires Applies(shs, r, n) && Clean(shs)
    ensures r < |shs| && shs[r].info < |shs| && Relocates(shs, shs[r]) && n < |shs[r].relos| && AllGoodRela(shs)
    ensures shs[shs[r].info].kind != SHT_RELA
  {
  }

  lemma OwnFixes(shs: seq<Section>, r: nat, n: nat)
    requires Clean(shs) && Applies(shs, r, n) && FixesOf(shs, r).1
    ensures Wanted(shs, r, n) in FixesOf(shs, r).0 && Known(shs[r].relos[n].kind)
  {
    hide FixList, Meaning, Addressed, Unmistaken;
    assert shs[r] in shs;
    FixListHas(shs, shs[shs[r].link].symbols, shs[shs[r].info].addr, shs[r].relos, None, n);
  }

  lemma StillWanted(shs: seq<Section>, image: Image, i: nat, r: nat, n: nat)
    requires Clean(shs) && Applies(shs, r, n) && i < |shs| && Relocates(shs, shs[i])
    ensures var o := Opened(shs, image, i);
            && Applies(o, r, n) && Wanted(o, r, n) == Wanted(shs, r, n)
            && o[r].info == shs[r].info && o[r].relos == shs[r].relos && o[o[r].info] == shs[shs[r].info]
  {
    hide Clean, AllGoodRela, IsSysBase, IsLoaded, Meaning, Addressed, WellIndexed;
    OpenedStaysClean(shs, image, i);
    SectionOf(shs, r, n);
    OpenedEntry(shs, image, i, r, n);
    SameMeaning(shs, image, i, shs[shs[r].link].symbols[shs[r].relos[n].sym]);
  }

  lemma OpenedEntry(shs: seq<Section>, image: Image, i: nat, r: nat, n: nat)
    requires Clean(shs) && IsEntry(shs, r, n) && i < |shs| && Relocates(shs, shs[i])
    ensures IsEntry(Opened(shs, image, i), r, n)
  {
    hide WellIndexed;
    var o := Opened(shs, image, i);
    OpenedStaysClean(shs, image, i);
    assert o[r] in o && GoodRela(o, o[r]);
  }

  lemma SameMeaning(shs: seq<Section>, image: Image, i: nat, sym: Symbol)
    requires Clean(shs) && i < |shs| && Relocates(shs, shs[i]) && Addressed(shs, sym)
    ensures Addressed(Opened(shs, image, i), sym) && Meaning(Opened(shs, image, i), sym) == Meaning(shs, sym)
  {
    hide Clean, IsLoaded, Resolve, Relocates;
    OpenedIsRela(shs, image, i);
    var o := Opened(shs, image, i);
    OpenedStaysClean(shs, image, i);
    if sym.shindex != SHN_ABS {
      assert o[sym.shindex] == shs[sym.shindex];
    }
    SameResolve(shs, o, sym, sym.name == "SysBase");
  }

  lemma OpenedIsRela(shs: seq<Section>, image: Image, i: nat)
    requires i < |shs| && Clean(shs) && Relocates(shs, shs[i])
    ensures shs[i].kind == SHT_RELA && |Opened(shs, image, i)| == |shs|
  {
  }

  lemma SameResolve(shs: seq<Section>, o: seq<Section>, sym: Symbol, sysBase: bool)
    requires |o| == |shs| && Addressed(shs, sym) && (sym.shindex != SHN_ABS ==> o[sym.shindex] == shs[sym.shindex])
    ensures Resolve(o, sym, sysBase) == Resolve(shs, sym, sysBase)
  {
    hide IsLoaded, InSection;
  }

  /** An address counted from the start of a section. */
  function Above(start: bv32, value: bv32): bv32 {
    start + value
  }

  /** The value of a symbol: counted from where its section has been loaded, or absolute, that of
      SysBase being 4 whatever its table says. */
  predicate HasValue(shs: seq<Section>, sym: Symbol, s: bv32)
    requires Addressed(shs, sym)
  {
    if sym.shindex != SHN_ABS then s == Above(Address(shs[sym.shindex].addr), sym.value)
    else if sym.name == "SysBase" then s == 4
    else s == sym.value
  }

  /** What the bytes at address p hold for S = s and A = a, virt being added where virtual addresses
      are meant; was are the bytes before. The kinds are R_PPC_ADDR32, R_PPC_ADDR16_HA, R_PPC_ADDR16_LO,
      R_PPC_REL32 and R_PPC_REL24 by the numbers of the System V ABI. */
  predicate IsRight(mem: seq<bv8>, p: nat, kind: nat, s: bv32, a: bv32, virt: bv32, was: seq<bv8>)
    requires p + Width(kind) <= |mem| && |was| == Width(kind)
  {
    var field, t, gap := mem[p..p + Width(kind)], Target(s, a, virt), Gap(s, a, Address(p));
    && (kind == 1 ==> Word32(field) == t)
    && (kind == 6 ==> Half(field) == Ha(t))
    && (kind == 4 ==> Half(field) == Lo(t))
    && (kind == 26 ==> Word32(field) == gap)
    && (kind == 10 ==>
          && (Displacement(Word32(field)) == gap <==> ReachableBy24(gap))
          && Word32(field) & 0xFC00_0003 == Word32(was) & 0xFC00_0003)
  }

  lemma PatchIsRight(mem: seq<bv8>, fs: seq<Fix>, i: nat)
    requires (forall f :: f in fs ==> InRange(|mem|, f)) && PairwiseApart(fs) && i < |fs|
    ensures var f := fs[i];
            IsRight(Patches(mem, fs), f.at, f.kind, f.s, f.a, f.virt, Field(mem, f))
  {
    hide Patches, Bytes16, Word32, Half, Ha, Lo, Address, Displacement, ReachableBy24, Bytes32, Branch, Target, Gap;
    var f := fs[i];
    var t, gap, was := Target(f.s, f.a, f.virt), Gap(f.s, f.a, Address(f.at)), Field(mem, f);
    PatchedField(mem, fs, i);
    HalfOfHa(t);
    HalfOfLo(t);
    WordOfBytes(t);
    WordOfBytes(gap);
    if f.kind == REL24 {
      WordOfBytes(Branch(Word32(was), gap));
      BranchReachesIff(Word32(was), gap);
      BranchKeeps(Word32(was), gap);
    }
  }

  /** A wanted fix has the value of its symbol; virtual addresses are meant unless that is SysBase. */
  lemma WantedHasValue(shs: seq<Section>, r: nat, n: nat)
    requires Applies(shs, r, n)
    ensures var f, e := Wanted(shs, r, n), shs[r].relos[n];
            var sym := shs[shs[r].link].symbols[e.sym];
            && f.at == shs[shs[r].info].addr + e.offset && f.kind == e.kind && f.a == e.addend
            && HasValue(shs, sym, f.s)
            && f.virt == if sym.shindex == SHN_ABS && sym.name == "SysBase" then 0 else VIRT
  {
    hide WellIndexed, IsLoaded, IsSysBase, Meaning, HasValue;
    MeaningIsValue(shs, shs[shs[r].link].symbols[shs[r].relos[n].sym]);
  }

  lemma MeaningIsValue(shs: seq<Section>, sym: Symbol)
    requires Addressed(shs, sym)
    ensures HasValue(shs, sym, Meaning(shs, sym).0)
    ensures Meaning(shs, sym).1 == if sym.shindex == SHN_ABS && sym.name == "SysBase" then 0 else VIRT
  {
    hide Meaning, Addressed, HasValue, InSection;
    AbsoluteMeaning(shs, sym);
    if sym.shindex != SHN_ABS {
      SectionMeaning(shs, sym);
      SectionValue(shs, sym, InSection(shs[sym.shindex].addr, sym.value));
    } else {
      AbsoluteValue(shs, sym);
    }
  }

  lemma SectionValue(shs: seq<Section>, sym: Symbol, s: bv32)
    requires Addressed(shs, sym) && sym.shindex != SHN_ABS && s == InSection(shs[sym.shindex].addr, sym.value)
    ensures HasValue(shs, sym, s)
  {
    hide InSection, Address, IsLoaded, Above;
    ValueInSection(shs[sym.shindex].addr, sym.value);
  }

  lemma AbsoluteValue(shs: seq<Section>, sym: Symbol)
    requires Addressed(shs, sym) && sym.shindex == SHN_ABS
    ensures HasValue(shs, sym, if sym.name == "SysBase" then 4 else sym.value)
  {
  }

  lemma AbsoluteMeaning(shs: seq<Section>, sym: Symbol)
    requires Addressed(shs, sym)
    ensures sym.shindex == SHN_ABS ==> Meaning(shs, sym) == if sym.name == "SysBase" then (4, 0) else (sym.value, VIRT)
    ensures sym.shindex != SHN_ABS ==> sym.shindex < |shs|
  {
    hide InSection, IsLoaded;
  }

  lemma SectionMeaning(shs: seq<Section>, sym: Symbol)
    requires Addressed(shs, sym) && sym.shindex != SHN_ABS
    ensures Meaning(shs, sym) == (InSection(shs[sym.shindex].addr, sym.value), VIRT)
  {
    hide InSection, IsLoaded;
  }

  lemma ValueInSection(addr: nat, value: bv32)
    ensures InSection(addr, value) == Above(Address(addr), value)
  {
  }

  lemma ChunkOfSection(l: Load, image: Image, shs: seq<Section>, k: nat)
    requires Acceptable(l, image, shs) && k < |shs| && IsLoaded(shs[k])
    ensures var (l1, placed) := LoadAll(l, image, shs);
            var at := |l.heap.chunks| + LoadedCount(shs[..k]);
            && at < |l1.heap.chunks| && l1.heap.chunks[at] == ChunkOf(placed[k]) && placed[k].size == shs[k].size
  {
    hide LoadAll, AllLoadable, WellFormed, Valid, IsLoaded;
    var (l1, placed) := LoadAll(l, image, shs);
    LoadAllChunks(l, image, shs);
    assert HasChunk(l, l1, shs, placed, k);
  }

  /** After all loads the memory of section k is as its own relocation entries have made it. */
  lemma LoadedStays(l: Load, image: Image, shs: seq<Section>, mods: seq<(Image, seq<Section>)>, k: nat)
    requires Acceptable(l, image, shs) && AllAcceptable(LoadElf(l, image, shs).0, mods)
    requires k < |shs| && IsLoaded(shs[k])
    ensures var (l1, placed) := LoadAll(l, image, shs);
            var r := LoadMany(LoadElf(l, image, shs).0, mods);
            var lo, hi := placed[k].addr, placed[k].addr + placed[k].size;
            && Clean(placed) && |r.mem| == |l1.mem| == LIMIT && hi <= LIMIT
            && AllInRange(OwnFrom(placed, image, 0, k))
            && r.mem[lo..hi] == Patches(l1.mem, OwnFrom(placed, image, 0, k))[lo..hi]
  {
    hide LoadAll, AllLoadable, WellFormed, RelocateFrom, OwnFrom, Patches, LoadMany, AllAcceptable, Valid;
    hide LoadElf, Clean, AllInRange, LoadedCount;
    SectionLoaded(l, image, shs, k);
    ChunkOfSection(l, image, shs, k);
    HeapOfLoad(l, image, shs);
    EarlierModulesStay(LoadElf(l, image, shs).0, mods, |l.heap.chunks| + LoadedCount(shs[..k]));
  }

  lemma HeapOfLoad(l: Load, image: Image, shs: seq<Section>)
    requires Acceptable(l, image, shs)
    ensures LoadElf(l, image, shs).0.heap == LoadAll(l, image, shs).0.heap
  {
  }

  lemma RelocationSucceeds(l: Load, image: Image, shs: seq<Section>)
    requires Acceptable(l, image, shs) && LoadElf(l, image, shs).1
    ensures var placed := LoadAll(l, image, shs).1;
            Clean(placed) && RelocateFrom(placed, image, 0).1
  {
    hide LoadAll, RelocateFrom;
    PlacedIsClean(l, image, shs);
  }

  /** The field lies in the section that the entry patches. */
  lemma WantedWithin(shs: seq<Section>, r: nat, n: nat)
    requires Clean(shs) && Applies(shs, r, n)
    ensures var t, f := shs[shs[r].info], Wanted(shs, r, n);
            Within(f, t.addr, t.addr + t.size) && f.kind == shs[r].relos[n].kind
  {
    assert shs[r] in shs && CleanRela(shs, shs[r]);
  }

  /** The fields that a module patches in section k are disjoint. */
  predicate DisjointFields(shs: seq<Section>, image: Image, k: nat) {
    AllGoodRela(shs) && PairwiseApart(OwnFrom(shs, image, 0, k))
  }

  lemma InfoIsSame(l: Load, image: Image, shs: seq<Section>, r: nat, n: nat)
    requires Good(l) && AllLoadable(l, image, shs) && Applies(LoadAll(l, image, shs).1, r, n)
    ensures var placed := LoadAll(l, image, shs).1;
            r < |placed| && placed[r].info < |shs| && IsLoaded(shs[placed[r].info])
  {
    hide LoadAll, AllLoadable, Good, Meaning, Unmistaken;
    PlacedFacts(l, image, shs, LoadAll(l, image, shs).1[r].info);
  }

  /**
   Once a module has been loaded, and whatever is loaded after it, every field that one of its
   relocation entries patches holds what the kind of the entry stands for, for the address of the
   entry's own symbol plus the addend, if the fields of its section are disjoint.
   */
  lemma EntryIsRight(l: Load, image: Image, shs: seq<Section>, mods: seq<(Image, seq<Section>)>, r: nat, n: nat)
    requires Acceptable(l, image, shs) && LoadElf(l, image, shs).1
    requires AllAcceptable(LoadElf(l, image, shs).0, mods)
    requires Applies(LoadAll(l, image, shs).1, r, n)
    requires DisjointFields(LoadAll(l, image, shs).1, image, LoadAll(l, image, shs).1[r].info)
    ensures var (l1, placed) := LoadAll(l, image, shs);
            var mem := LoadMany(LoadElf(l, image, shs).0, mods).mem;
            var e := placed[r].relos[n];
            var sym := placed[placed[r].link].symbols[e.sym];
            var p, w := placed[placed[r].info].addr + e.offset, Width(e.kind);
            var virt := if sym.shindex == SHN_ABS && sym.name == "SysBase" then 0 else VIRT;
            && Known(e.kind) && p + w <= |mem| == |l1.mem|
            && exists s :: HasValue(placed, sym, s)
                           && IsRight(mem, p, e.kind, s, e.addend, virt, l1.mem[p..p + w])
  {
    hide LoadAll, AllLoadable, WellFormed, Clean, Wanted, RelocateFrom, OwnFrom, Patches, LoadMany, LoadElf;
    hide AllAcceptable, IsRight, Valid, PairwiseApart, GoodRela, Width, HasValue, Addressed, Unmistaken, DisjointFields;
    var (l1, placed) := LoadAll(l, image, shs);
    FieldIsRight(l, image, shs, mods, r, n);
    WantedHasValue(placed, r, n);
    var f := Wanted(placed, r, n);
    assert Field(l1.mem, f) == l1.mem[f.at..f.at + Width(f.kind)];
  }

  lemma FieldIsRight(l: Load, image: Image, shs: seq<Section>, mods: seq<(Image, seq<Section>)>, r: nat, n: nat)
    requires Acceptable(l, image, shs) && LoadElf(l, image, shs).1
    requires AllAcceptable(LoadElf(l, image, shs).0, mods)
    requires Applies(LoadAll(l, image, shs).1, r, n)
    requires DisjointFields(LoadAll(l, image, shs).1, image, LoadAll(l, image, shs).1[r].info)
    ensures var (l1, placed) := LoadAll(l, image, shs);
            var f, mem := Wanted(placed, r, n), LoadMany(LoadElf(l, image, shs).0, mods).mem;
            && Known(f.kind) && |mem| == |l1.mem| && InRange(|mem|, f)
            && IsRight(mem, f.at, f.kind, f.s, f.a, f.virt, Field(l1.mem, f))
  {
    hide LoadAll, AllLoadable, WellFormed, Clean, Applies, Wanted, RelocateFrom, OwnFrom, Patches, LoadMany, LoadElf;
    hide AllAcceptable, IsRight, Valid, PairwiseApart, GoodRela, Width;
    var (l1, placed) := LoadAll(l, image, shs);
    InfoIsSame(l, image, shs, r, n);
    RelocationSucceeds(l, image, shs);
    var k := placed[r].info;
    var fs, f := OwnFrom(placed, image, 0, k), Wanted(placed, r, n);
    OwnHas(placed, image, 0, r, n);
    WantedWithin(placed, r, n);
    LoadedStays(l, image, shs, mods, k);
    var i :| 0 <= i < |fs| && fs[i] == f;
    PatchIsRight(l1.mem, fs, i);
    var mem := LoadMany(LoadElf(l, image, shs).0, mods).mem;
    RightThere(mem, Patches(l1.mem, fs), f, Field(l1.mem, f), placed[k].addr, placed[k].addr + placed[k].size);
  }

  /** An instruction pair patched for one symbol and addend computes its address after all loads. */
  lemma PairIsRight(l: Load, image: Image, shs: seq<Section>, mods: seq<(Image, seq<Section>)>,
                    r: nat, n: nat, r': nat, n': nat)
    requires Acceptable(l, image, shs) && LoadElf(l, image, shs).1
    requires AllAcceptable(LoadElf(l, image, shs).0, mods)
    requires var placed := LoadAll(l, image, shs).1;
             && Applies(placed, r, n) && Applies(placed, r', n')
             && DisjointFields(placed, image, placed[r].info) && DisjointFields(placed, image, placed[r'].info)
             && var e, e' := placed[r].relos[n], placed[r'].relos[n'];
             && e.kind == ADDR16_HA && e'.kind == ADDR16_LO && e.addend == e'.addend
             && placed[placed[r].link].symbols[e.sym] == placed[placed[r'].link].symbols[e'.sym]
    ensures var placed, mem := LoadAll(l, image, shs).1, LoadMany(LoadElf(l, image, shs).0, mods).mem;
            var e, e' := placed[r].relos[n], placed[r'].relos[n'];
            var sym := placed[placed[r].link].symbols[e.sym];
            var p, p' := placed[placed[r].info].addr + e.offset, placed[placed[r'].info].addr + e'.offset;
            var virt := if sym.shindex == SHN_ABS && sym.name == "SysBase" then 0 else VIRT;
            && p + 2 <= |mem| && p' + 2 <= |mem|
            && exists s :: HasValue(placed, sym, s)
                           && Joined(Half(mem[p..p + 2]), Half(mem[p'..p' + 2])) == Target(s, e.addend, virt)
  {
    hide LoadAll, AllLoadable, WellFormed, LoadMany, LoadElf, AllAcceptable, Valid, DisjointFields;
    hide Joined, Half, Target, Unmistaken, Addressed, HasValue, WellIndexed, IsRight;
    EntryIsRight(l, image, shs, mods, r, n);
    EntryIsRight(l, image, shs, mods, r', n');
    var (l1, placed) := LoadAll(l, image, shs);
    var mem, e := LoadMany(LoadElf(l, image, shs).0, mods).mem, placed[r].relos[n];
    var sym := placed[placed[r].link].symbols[e.sym];
    var p := placed[placed[r].info].addr + e.offset;
    var virt := if sym.shindex == SHN_ABS && sym.name == "SysBase" then 0 else VIRT;
    var s :| HasValue(placed, sym, s) && IsRight(mem, p, e.kind, s, e.addend, virt, l1.mem[p..p + 2]);
    var e' := placed[r'].relos[n'];
    var p' := placed[placed[r'].info].addr + e'.offset;
    var s' :| HasValue(placed, sym, s') && IsRight(mem, p', e'.kind, s', e.addend, virt, l1.mem[p'..p' + 2]);
    OneValue(placed, sym, s, s');
    HalvesJoin(mem, p, p', s, e.addend, virt, l1.mem[p..p + 2], l1.mem[p'..p' + 2]);
  }

  lemma HalvesJoin(mem: seq<bv8>, p: nat, p': nat, s: bv32, a: bv32, virt: bv32, was: seq<bv8>, was': seq<bv8>)
    requires p + 2 <= |mem| && p' + 2 <= |mem| && |was| == |was'| == 2
    requires IsRight(mem, p, ADDR16_HA, s, a, virt, was) && IsRight(mem, p', ADDR16_LO, s, a, virt, was')
    ensures Joined(Half(mem[p..p + 2]), Half(mem[p'..p' + 2])) == Target(s, a, virt)
  {
    hide Joined, Half, Ha, Lo, Target, Gap, Address;
    HalvesMakeAddress(Target(s, a, virt));
  }

  lemma OneValue(shs: seq<Section>, sym: Symbol, s: bv32, s': bv32)
    requires Addressed(shs, sym) && HasValue(shs, sym, s) && HasValue(shs, sym, s')
    ensures s == s'
  {
    hide Above;
  }

  lemma RightThere(mem: seq<bv8>, mem': seq<bv8>, f: Fix, was: seq<bv8>, lo: nat, hi: nat)
    requires lo <= hi <= |mem| == |mem'| && mem[lo..hi] == mem'[lo..hi] && Within(f, lo, hi)
    requires |was| == Width(f.kind) && IsRight(mem', f.at, f.kind, f.s, f.a, f.virt, was)
    ensures IsRight(mem, f.at, f.kind, f.s, f.a, f.virt, was)
  {
    hide Word32, Half, Displacement, ReachableBy24, Ha, Address;
    SameField(mem, mem', f, lo, hi);
  }
}
