/** How load_elf_file of src/elf.c registers a loaded module for the debugger: its bounds and symbols. */
module ElfRegister {
  import opened ElfHeap
  import opened ElfModule

  /** What a bounds or symbol entry is made for: an executable section with memory of its own. */
  predicate IsText(s: Section) {
    s.alloc && s.exec && s.addr != 0
  }

  /** The end of a section at its virtual address, in 32 bits. */
  function VirtualEnd(s: Section): nat {
    (Virtual(s.addr) + s.size) % LIMIT
  }

  /** The section does not reach the end of the address space. */
  predicate EndsInside(s: Section) {
    Virtual(s.addr) + s.size < LIMIT
  }

  /** m_lowest and m_highest bound every executable section, and each is one of their ends
      unless there are none. */
  ghost predicate IsHull(shs: seq<Section>, lowest: nat, highest: nat) {
    && (forall s :: s in shs && s.alloc && s.exec && s.addr != 0
                    ==> lowest <= Virtual(s.addr) && Virtual(s.addr) + s.size <= highest)
    && (lowest == LIMIT - 1 || exists s :: s in shs && s.alloc && s.exec && s.addr != 0 && lowest == Virtual(s.addr))
    && (highest == 0
        || exists s :: s in shs && s.alloc && s.exec && s.addr != 0 && highest == Virtual(s.addr) + s.size)
  }

  /** The loop over the headers. The bounds are a hull exactly when no section wraps around. */
  method Bounds(shs: seq<Section>) returns (lowest: nat, highest: nat)
    ensures IsHull(shs, lowest, highest) <==> forall s :: s in shs && IsText(s) ==> EndsInside(s)
    ensures lowest < LIMIT && highest < LIMIT
  {
    hide IsHull, Virtual, EndsInside;
    lowest, highest := LIMIT - 1, 0;
    NoHull(shs[..0]);
    var i := 0;
    while i < |shs|
      invariant 0 <= i <= |shs| && 0 <= lowest < LIMIT && 0 <= highest < LIMIT
      invariant (forall s :: s in shs[..i] && IsText(s) ==> EndsInside(s)) ==> IsHull(shs[..i], lowest, highest)
    {
      var s := shs[i];
      ghost var low, high := lowest, highest;
      if s.alloc && s.exec {
        if s.addr != 0 {
          var virt := Virtual(s.addr);
          if virt < lowest {
            lowest := virt;
          }
          if VirtualEnd(s) > highest {
            highest := VirtualEnd(s);
          }
        }
      }
      if forall s :: s in shs[..i + 1] && IsText(s) ==> EndsInside(s) {
        HullStep(shs, i, low, high, lowest, highest);
      }
      i := i + 1;
    }
    assert shs[..i] == shs;
    if IsHull(shs, lowest, highest) {
      HullEnds(shs, lowest, highest);
    }
  }

  lemma NoHull(shs: seq<Section>)
    requires shs == []
    ensures IsHull(shs, LIMIT - 1, 0)
  {
  }

  lemma HullEnds(shs: seq<Section>, lowest: nat, highest: nat)
    requires IsHull(shs, lowest, highest) && highest < LIMIT
    ensures forall s :: s in shs && IsText(s) ==> EndsInside(s)
  {
    hide Virtual;
  }

  lemma HullStep(shs: seq<Section>, i: nat, low: nat, high: nat, lowest: nat, highest: nat)
    requires i < |shs| && forall s :: s in shs[..i + 1] && IsText(s) ==> EndsInside(s)
    requires (forall s :: s in shs[..i] && IsText(s) ==> EndsInside(s)) ==> IsHull(shs[..i], low, high)
    requires var s := shs[i];
             && lowest == (if IsText(s) && Virtual(s.addr) < low then Virtual(s.addr) else low)
             && highest == (if IsText(s) && VirtualEnd(s) > high then VirtualEnd(s) else high)
    ensures IsHull(shs[..i + 1], lowest, highest)
  {
    hide Virtual;
    var was, now := shs[..i], shs[..i + 1];
    assert now == was + [shs[i]];
    assert shs[i] in now && forall s :: s in was ==> s in now;
    assert IsHull(was, low, high);
  }

  // ---- symbols ---------------------------------------------------------------------------

  datatype Entry = Entry(name: string, lowest: nat, highest: nat)

  function EntryOf(table: seq<Section>, st: Symbol): Entry
    requires st.shindex < |table|
  {
    var low := (Virtual(table[st.shindex].addr) + st.value as nat) % LIMIT;
    Entry(st.name, low, (low + st.size) % LIMIT)
  }

  predicate Indexed(table: seq<Section>, symtab: seq<Symbol>) {
    forall st :: st in symtab ==> st.shindex < |table|
  }

  /** The symbol list: an entry for each symbol of an executable section, the last symbol first. */
  function Entries(table: seq<Section>, symtab: seq<Symbol>): seq<Entry>
    requires Indexed(table, symtab)
  {
    if symtab == [] then []
    else
      var st, rest := symtab[|symtab| - 1], Entries(table, symtab[..|symtab| - 1]);
      assert st in symtab;
      if IsText(table[st.shindex]) then [EntryOf(table, st)] + rest else rest
  }

  lemma IndexedPrefix(table: seq<Section>, symtab: seq<Symbol>, j: nat)
    requires Indexed(table, symtab) && j <= |symtab|
    ensures Indexed(table, symtab[..j]) && (j < |symtab| ==> symtab[j].shindex < |table|)
  {
  }

  lemma EntriesGrow(table: seq<Section>, symtab: seq<Symbol>, j: nat)
    requires Indexed(table, symtab) && j < |symtab| && symtab[j].shindex < |table|
    requires Indexed(table, symtab[..j]) && Indexed(table, symtab[..j + 1])
    ensures Entries(table, symtab[..j + 1])
         == (var s := table[symtab[j].shindex];
             if s.alloc && s.exec && s.addr != 0 then [EntryOf(table, symtab[j])] else []) + Entries(table, symtab[..j])
  {
    hide EntryOf, Indexed;
    assert symtab[..j + 1][..j] == symtab[..j] && symtab[..j + 1][j] == symtab[j];
  }

  lemma NoSymbols(table: seq<Section>, symtab: seq<Symbol>)
    requires symtab == []
    ensures Entries(table, symtab) == []
  {
  }

  predicate IsSymtab(s: Section) {
    s.addr != 0 && s.kind == SHT_SYMTAB
  }

  /** Only the first symbol table is read. What a symbol's section index finds behind the header
      table is taken as a header, so table may be longer than the shnum headers of the module. */
  method Symbols(table: seq<Section>, shnum: nat) returns (list: seq<Entry>)
    requires shnum <= |table|
    requires forall i :: 0 <= i < shnum && IsSymtab(table[i]) ==> Indexed(table, table[i].symbols)
    ensures (forall i :: 0 <= i < shnum ==> table[i].addr == 0 || table[i].kind != SHT_SYMTAB) ==> list == []
    ensures forall i :: 0 <= i < shnum && table[i].addr != 0 && table[i].kind == SHT_SYMTAB
                        && (forall j :: 0 <= j < i ==> table[j].addr == 0 || table[j].kind != SHT_SYMTAB)
                        ==> Indexed(table, table[i].symbols) && list == Entries(table, table[i].symbols)
  {
    hide Indexed, Entries, EntryOf;
    list := [];
    var i := 0;
    while i < shnum
      invariant 0 <= i <= shnum && list == [] && forall j :: 0 <= j < i ==> !IsSymtab(table[j])
    {
      if table[i].addr != 0 && table[i].kind == SHT_SYMTAB {
        var symtab := table[i].symbols;
        var j := 0;
        IndexedPrefix(table, symtab, 0);
        NoSymbols(table, symtab[..0]);
        while j < |symtab|
          invariant 0 <= j <= |symtab| && Indexed(table, symtab[..j])
          invariant list == Entries(table, symtab[..j])
        {
          IndexedPrefix(table, symtab, j);
          IndexedPrefix(table, symtab, j + 1);
          EntriesGrow(table, symtab, j);
          if IsText(table[symtab[j].shindex]) {
            list := [EntryOf(table, symtab[j])] + list;
          }
          j := j + 1;
        }
        assert symtab[..j] == symtab;
        return;
      }
      i := i + 1;
    }
  }

  /** A symbol inside its executable section gets an entry inside the module's bounds. */
  lemma SymbolInHull(table: seq<Section>, shnum: nat, st: Symbol, lowest: nat, highest: nat)
    requires shnum <= |table| && IsHull(table[..shnum], lowest, highest) && highest < LIMIT
    requires st.shindex < shnum && table[st.shindex].alloc && table[st.shindex].exec && table[st.shindex].addr != 0
    requires st.value as nat + st.size <= table[st.shindex].size
    ensures var e := EntryOf(table, st);
            && lowest <= e.lowest <= e.highest <= highest && e.highest - e.lowest == st.size
            && e.name == st.name && e.lowest == (table[st.shindex].addr + 0xFF00_0000) % LIMIT + st.value as nat
  {
    hide Virtual;
    VirtualIs(table[st.shindex].addr);
    assert table[..shnum][st.shindex] == table[st.shindex];
  }

  lemma VirtualIs(addr: nat)
    ensures Virtual(addr) == (addr + 0xFF00_0000) % LIMIT
  {
  }

  predicate Inside(table: seq<Section>, shnum: nat, st: Symbol)
    requires st.shindex < |table|
  {
    IsText(table[st.shindex]) ==> st.shindex < shnum && st.value as nat + st.size <= table[st.shindex].size
  }

  /** With every symbol inside its section, the whole list lies inside the module's bounds. */
  lemma {:induction false} EntriesInHull(table: seq<Section>, shnum: nat, symtab: seq<Symbol>, lowest: nat, highest: nat)
    requires shnum <= |table| && IsHull(table[..shnum], lowest, highest) && highest < LIMIT
    requires Indexed(table, symtab) && forall st :: st in symtab ==> Inside(table, shnum, st)
    ensures forall e :: e in Entries(table, symtab) ==> lowest <= e.lowest <= e.highest <= highest
    decreases |symtab|
  {
    hide EntryOf, IsHull;
    if symtab != [] {
      var st := symtab[|symtab| - 1];
      assert st in symtab && Inside(table, shnum, st);
      EntriesInHull(table, shnum, symtab[..|symtab| - 1], lowest, highest);
      if IsText(table[st.shindex]) {
        SymbolInHull(table, shnum, st, lowest, highest);
      }
    }
  }

  lemma OneEntry(table: seq<Section>, st: Symbol)
    requires st.shindex < |table|
    ensures Entries(table, [st]) == if IsText(table[st.shindex]) then [EntryOf(table, st)] else []
  {
    assert [st][..0] == [];
  }

  /** A symbol behind the headers is listed or not, depending on what happens to lie there. */
  lemma BehindHeaders(headers: seq<Section>, st: Symbol) returns (a: seq<Section>, b: seq<Section>)
    requires |headers| <= st.shindex
    ensures |a| > st.shindex && |b| > st.shindex && headers <= a && headers <= b
    ensures |Entries(a, [st])| == 1 && Entries(b, [st]) == []
  {
    var text := Section(1, false, true, true, PHYS_BASE, 0, 1, 0, 0, 1, [], []);
    var n := st.shindex + 1 - |headers|;
    a := headers + seq(n, _ => text);
    b := headers + seq(n, _ => text.(alloc := false));
    OneEntry(a, st);
    OneEntry(b, st);
  }

  /**
   The entry of a symbol is determined by the headers of its module exactly if its section index is
   one of theirs. That of an absolute symbol, 0xFFF1, is not: it is looked up behind the headers.
   */
  lemma EntryIsDeterminedIff(headers: seq<Section>, st: Symbol)
    ensures (forall a, b :: headers <= a && headers <= b && Indexed(a, [st]) && Indexed(b, [st])
                            ==> Entries(a, [st]) == Entries(b, [st]))
       <==> st.shindex < |headers|
  {
    hide Entries;
    if st.shindex < |headers| {
      forall a, b | headers <= a && headers <= b && Indexed(a, [st]) && Indexed(b, [st])
        ensures Entries(a, [st]) == Entries(b, [st])
      {
        OneEntry(a, st);
        OneEntry(b, st);
      }
    } else {
      var a, b := BehindHeaders(headers, st);
      assert Indexed(a, [st]) && Indexed(b, [st]) && Entries(a, [st]) != Entries(b, [st]);
    }
  }
}
