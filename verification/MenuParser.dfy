/**
 The parsers fsm and kick_fsm of src/menu.c on linked menu_t objects, proved against the step
 function of MenuMachine. The ghost field live follows the ownership of an entry: it is set by
 entry_alloc and cleared by entry_free, which demands it.
 */
module MenuParser {
  import opened Options
  import opened Support
  import opened MenuText
  import opened MenuMachine

  /** menu_t: an entry of the menu, or its header, which alone uses defaultOs and delay. */
  class MenuItem {
    var title: string
    var kernel: Option<string>
    var other: Option<string>
    var append: Option<string>
    var initrd: Option<string>
    var dtb: Option<string>
    var modules: seq<string>
    var deviceType: int
    var deviceNum: int
    var partition: int
    var defaultOs: int
    var delay: int
    var next: MenuItem?
    ghost var live: bool

    constructor (t: string)
      ensures Value() == NewEntry(t) && next == null && live
    {
      title := t;
      kernel, other, append, initrd, dtb := None, None, None, None, None;
      modules := [];
      deviceType, deviceNum, partition := DEFAULT_TYPE, 0, 0;
      next := null;
      live := true;
    }

    ghost function Value(): Entry
      reads this
    {
      Entry(title, kernel, other, append, initrd, dtb, modules, deviceType, deviceNum, partition)
    }

    /** entry_free: an entry can be freed only once. */
    method Free()
      requires live
      modifies this`live
      ensures !live
    {
      live := false;
    }
  }

  // ---- the linked list -------------------------------------------------------------------

  /** The items reached from menu by next, in order. */
  ghost predicate IsList(menu: MenuItem, items: seq<MenuItem>)
    reads items`next
  {
    && items != [] && items[0] == menu
    && (forall i :: 0 <= i < |items| - 1 ==> items[i].next == items[i + 1])
    && Last(items).next == null
    && (forall i, j :: 0 <= i < j < |items| ==> items[i] != items[j])
  }

  function Last(items: seq<MenuItem>): MenuItem
    requires items != []
  {
    items[|items| - 1]
  }

  /** Walks to the end of the list and links the entry there. */
  method Append(menu: MenuItem, entry: MenuItem, ghost items: seq<MenuItem>)
    requires IsList(menu, items) && entry !in items && entry.next == null
    modifies Last(items)`next
    ensures IsList(menu, items + [entry])
  {
    var ptr := menu;
    ghost var i := 0;
    while ptr.next != null
      invariant 0 <= i < |items| && ptr == items[i]
      invariant ptr.next == if i == |items| - 1 then null else items[i + 1]
      decreases |items| - i
    {
      ptr := ptr.next;
      i := i + 1;
    }
    ptr.next := entry;
  }

  // ---- lines -----------------------------------------------------------------------------

  method StripLine(d: Dialect, raw: string) returns (line: string)
    ensures line == Stripped(d, raw)
  {
    if d == MenuLst {
      line := EatComments(raw);
    } else {
      var k := StrChr(raw, ';');
      line := raw[..k];
    }
    line := StrTrim(line);
  }

  /** State S: the ghost machine m takes the same step. */
  method OuterLine(d: Dialect, src: string, offset: nat, lineptr: string, ghost m: Machine)
    returns (more: bool, status: Status, offset': nat, lineptr': string)
    requires m.offset == offset <= |src| && m.lineptr == lineptr && m.status == S && m.result == None
    ensures more <==> offset < |src|
    ensures more ==> StepOuter(d, src, m)
                     == m.(status := status, offset := offset', lineptr := lineptr',
                           high := if m.high < offset' then offset' else m.high)
    ensures !more ==> status == S && offset' == offset && lineptr' == lineptr
  {
    status, lineptr' := S, lineptr;
    var raw, line, word;
    more, raw, offset' := GetLine(src, offset);
    if more {
      line := StripLine(d, raw);
      if line != "" {
        word := GetNextWord(line);
        if word == TitleWord(d) {
          status, lineptr' := TIT, line[|word|..];
        } else if d == MenuLst && word == "default" {
          status, lineptr' := DEF, line[|word|..];
        } else if d == MenuLst && word == "delay" {
          status, lineptr' := DLY, line[|word|..];
        }
      }
    }
  }

  /** State IN: the ghost machine m takes the same step. */
  method InnerLine(d: Dialect, src: string, offset: nat, lineptr: string, kernel: bool, ghost m: Machine)
    returns (status: Status, offset': nat, lineptr': string)
    requires 1 <= m.offset == offset <= |src| && m.lineptr == lineptr && m.kernel == kernel && m.status == IN
    ensures StepInner(d, src, m)
         == m.(status := status, offset := offset', lineptr := lineptr',
               high := if offset == |src| then m.high
                       else if m.high < LineEnd(src, offset) then LineEnd(src, offset) else m.high)
  {
    hide Stripped, Trim, Uncomment, IndexOf;
    status, lineptr', offset' := IN, lineptr, offset;
    var more, raw, line, word;
    more, raw, offset' := GetLine(src, offset);
    if !more {
      status := if kernel then AQ else RQ;
      return;
    }
    line := StripLine(d, raw);
    if line == "" {
      return;
    }
    word := GetNextWord(line);
    lineptr' := line[|word|..];
    status := InnerState(d, word);
    if status == IN {
      StrippedFits(d, raw);
      offset' := offset' - (|line| + 1);
      status := if kernel then A else R;
    }
  }

  /** States K, O, RD, DTB and M. */
  method StoreArgument(status: Status, lineptr: string, kernel: bool, entry: MenuItem, ghost m: Machine)
    returns (status': Status, kernel': bool)
    requires status in {K, O, RD, DTB, M}
    requires m.status == status && m.lineptr == lineptr && m.kernel == kernel && m.entry == entry.Value()
    modifies entry
    ensures entry.next == old(entry.next) && entry.live == old(entry.live)
    ensures StepArgument(m) == m.(status := status', kernel := kernel', entry := entry.Value())
  {
    hide Trim, IndexOf;
    var rest := StrTrim(lineptr);
    var word := GetNextWord(rest);
    status', kernel' := IN, kernel;
    if word == "" {
      return R, kernel;
    }
    if status == K {
      kernel' := true;
      entry.kernel := Some(word);
      rest := StrTrim(rest[|word|..]);
      if rest != "" {
        entry.append := Some(rest);
      }
    } else if status == O {
      kernel' := true;
      entry.other := Some(word);
    } else if status == RD {
      entry.initrd := Some(word);
    } else if status == DTB {
      entry.dtb := Some(word);
    } else {
      entry.modules := entry.modules + [word];
    }
  }

  /** State RT. */
  method SelectRoot(lineptr: string, entry: MenuItem, ghost m: Machine) returns (status: Status)
    requires m.lineptr == lineptr && m.entry == entry.Value() && m.status == RT
    modifies entry
    ensures entry.next == old(entry.next) && entry.live == old(entry.live)
    ensures StepRoot(m) == m.(status := status, entry := entry.Value())
  {
    hide Trim, IndexOf, Value, WordLen;
    var rest := StrTrim(lineptr);
    var word := GetNextWord(rest);
    rest := StrTrim(rest[|word|..]);
    assert word == Argument(lineptr) && rest == Remainder(lineptr);
    hide Argument, Remainder;
    status := IN;
    if word == "tftp" {
      entry.deviceType := TFTP_TYPE;
    } else if word == "cdrom" {
      entry.deviceType := CD_TYPE;
    } else if word == "ide" {
      var sep := StrChr(rest, ':');
      if sep == |rest| || sep + 1 == |rest| {
        return R;
      }
      var num := StrToL(rest[..sep]);
      var slot := StrToL(rest[sep + 1..]);
      entry.deviceType := IDE_TYPE;
      entry.deviceNum := num;
      entry.partition := Signed(slot - 1);
    } else {
      status := R;
    }
  }

  /** States DEF and DLY. */
  method ReadNumber(status: Status, lineptr: string, menu: MenuItem, ghost m: Machine)
    requires status in {DEF, DLY} && m.status == status && m.lineptr == lineptr
    requires m.defaultOs == menu.defaultOs && m.delay == menu.delay
    modifies menu`defaultOs, menu`delay
    ensures StepNumber(m) == m.(status := S, defaultOs := menu.defaultOs, delay := menu.delay)
  {
    if lineptr == "" {
      return;
    }
    var rest := StrTrim(lineptr);
    var word := GetNextWord(rest);
    if word == "" {
      return;
    }
    var num := StrToL(word);
    if status == DEF {
      menu.defaultOs := num;
    } else {
      menu.delay := num;
    }
  }

  // ---- the whole parser ------------------------------------------------------------------

  /** An entry exists that is neither linked nor freed yet. */
  predicate Pending(m: Machine) {
    m.result == None && InEntry(m.status)
  }

  /** The items of the menu before the parse with what they hold, and the entries made since. */
  datatype Ledger = Ledger(before: seq<MenuItem>, kept: seq<(Entry, bool)>,
                           linked: seq<MenuItem>, freed: set<MenuItem>, made: set<MenuItem>)

  ghost function Kept(items: seq<MenuItem>): seq<(Entry, bool)>
    reads items
  {
    seq(|items|, i requires 0 <= i < |items| reads items => (items[i].Value(), items[i].live))
  }

  /**
   Ownership: each entry made so far is linked once, with the values the machine gives it, or freed,
   or the one pending entry; the items that were there before keep their values.
   */
  ghost predicate Owns(m: Machine, menu: MenuItem, l: Ledger, entry: MenuItem?)
    reads l.before, l.made, entry, menu
  {
    && menu in l.before && (forall x :: x in l.linked ==> x in l.made)
    && IsList(menu, l.before + l.linked)
    && |l.linked| == |m.menu|
    && l.made == (set x | x in l.linked) + l.freed + (if Pending(m) then {entry} else {})
    && (forall i :: 0 <= i < |l.linked| ==> l.linked[i] in l.made && l.linked[i].Value() == m.menu[i] && l.linked[i].live)
    && (forall x :: x in l.freed ==> !x.live)
    && (forall x :: x in l.before ==> x !in l.made)
    && Kept(l.before) == l.kept
    && (Pending(m) ==> && entry != null && entry.live && entry.next == null && entry !in l.linked
                       && entry.Value() == m.entry)
    && menu.defaultOs == m.defaultOs && menu.delay == m.delay
  }

  /** State TIT. */
  method OpenEntry(lineptr: string, kernel: bool, menu: MenuItem, ghost m: Machine, ghost l: Ledger,
                   current: MenuItem?)
    returns (status: Status, kernel': bool, entry: MenuItem?, ghost l': Ledger)
    requires Owns(m, menu, l, current) && m.result == None && m.status == TIT
    requires m.lineptr == lineptr && m.kernel == kernel
    ensures l' == l.(made := l'.made) && fresh(l'.made - l.made)
    ensures Owns(StepTitle(m), menu, l', entry) && StepTitle(m).status == status && StepTitle(m).kernel == kernel'
  {
    hide Trim;
    var title := StrTrim(lineptr);
    status, kernel', entry, l' := S, kernel, current, l;
    if title != "" {
      status, kernel' := IN, false;
      entry := new MenuItem(title);
      l' := l.(made := l.made + {entry});
    }
  }

  /** States A and AQ; next is the machine behind them. */
  method LinkEntry(menu: MenuItem, entry: MenuItem, ghost m: Machine, ghost next: Machine, ghost l: Ledger)
    returns (ghost l': Ledger)
    requires Owns(m, menu, l, entry) && m.result == None && m.status in {A, AQ}
    requires next.menu == m.menu + [m.entry] && !Pending(next)
    requires next.defaultOs == m.defaultOs && next.delay == m.delay
    modifies l.before, l.made
    ensures l' == l.(linked := l.linked + [entry]) && Owns(next, menu, l', entry)
  {
    Append(menu, entry, l.before + l.linked);
    l' := l.(linked := l.linked + [entry]);
    assert l.before + l'.linked == l.before + l.linked + [entry];
  }

  /** States R and RQ; next is the machine behind them. */
  method FreeEntry(menu: MenuItem, entry: MenuItem, ghost m: Machine, ghost next: Machine, ghost l: Ledger)
    returns (ghost l': Ledger)
    requires Owns(m, menu, l, entry) && m.result == None && m.status in {R, RQ}
    requires next.menu == m.menu && !Pending(next)
    requires next.defaultOs == m.defaultOs && next.delay == m.delay
    modifies entry
    ensures l' == l.(freed := l.freed + {entry}) && Owns(next, menu, l', entry)
  {
    entry.Free();
    l' := l.(freed := l.freed + {entry});
  }

  /** States K, O, RD, DTB, M and RT. */
  method FillEntry(status: Status, lineptr: string, kernel: bool, menu: MenuItem, entry: MenuItem,
                   ghost m: Machine, ghost next: Machine, ghost l: Ledger)
    returns (status': Status, kernel': bool)
    requires Owns(m, menu, l, entry) && m.result == None && status in {K, O, RD, DTB, M, RT}
    requires m.status == status && m.lineptr == lineptr && m.kernel == kernel
    requires next == if status == RT then StepRoot(m) else StepArgument(m)
    modifies entry
    ensures Owns(next, menu, l, entry)
    ensures next == m.(status := status', kernel := kernel', entry := next.entry)
  {
    hide StepRoot, StepArgument, Value, IsList, Kept;
    FillStays(m);
    kernel' := kernel;
    ghost var items := l.before + l.linked;
    assert entry !in items && forall i :: 0 <= i < |l.linked| ==> l.linked[i] != entry;
    if status == RT {
      status' := SelectRoot(lineptr, entry, m);
    } else {
      status', kernel' := StoreArgument(status, lineptr, kernel, entry, m);
    }
  }

  /** A line inside an entry changes no more of the machine than this. */
  lemma FillStays(m: Machine)
    ensures m.status == RT ==> var next := StepRoot(m);
            next == m.(status := next.status, entry := next.entry) && next.status in {IN, R}
    ensures m.status in {K, O, RD, DTB, M} ==> var next := StepArgument(m);
            next == m.(status := next.status, kernel := next.kernel, entry := next.entry) && next.status in {IN, R}
  {
    hide RootDevice, Argument, Remainder;
  }

  /** Steps that touch no item leave the ownership as it is. */
  lemma OwnsStays(m: Machine, next: Machine, menu: MenuItem, l: Ledger, entry: MenuItem?)
    requires Owns(m, menu, l, entry) && Pending(next) == Pending(m) && next.menu == m.menu && next.entry == m.entry
    requires next.defaultOs == m.defaultOs && next.delay == m.delay
    ensures Owns(next, menu, l, entry)
  {
  }

  /** States DEF and DLY. */
  method NumberState(status: Status, lineptr: string, menu: MenuItem, entry: MenuItem?, ghost m: Machine, ghost l: Ledger)
    requires status in {DEF, DLY} && m.status == status && m.lineptr == lineptr && m.result == None
    requires Owns(m, menu, l, entry)
    modifies menu`defaultOs, menu`delay
    ensures Owns(StepNumber(m), menu, l, entry)
    ensures var next := StepNumber(m);
            next == m.(status := S, defaultOs := next.defaultOs, delay := next.delay)
  {
    hide Value, IsList;
    ghost var items := l.before + l.linked;
    ReadNumber(status, lineptr, menu, m);
    assert IsList(menu, items);
  }

  /** The local variables of a parser. */
  datatype Locals = Locals(status: Status, offset: nat, lineptr: string, kernel: bool, n: int, result: Option<int>)

  ghost function LocalsOf(m: Machine): Locals {
    Locals(m.status, m.offset, m.lineptr, m.kernel, m.n, m.result)
  }

  /** The states outside an entry. */
  method OuterStates(d: Dialect, src: string, v: Locals, menu: MenuItem, current: MenuItem?,
                     ghost m: Machine, ghost l: Ledger)
    returns (v': Locals, entry: MenuItem?, ghost l': Ledger)
    requires Inv(src, m) && LocalsOf(m) == v && v.result == None && !InEntry(v.status)
    requires Owns(m, menu, l, current)
    modifies l.before
    ensures LocalsOf(Step(d, src, m)) == v' && Owns(Step(d, src, m), menu, l', entry)
    ensures l' == l.(made := l'.made) && fresh(l'.made - l.made)
  {
    hide Inv, Owns, StepOuter, StepNumber, StepTitle;
    OwnsFacts(m, menu, l, current);
    InvOffset(src, m);
    v', entry, l' := v, current, l;
    if v.status == S {
      var more, status, offset, lineptr := OuterLine(d, src, v.offset, v.lineptr, m);
      v' := v.(status := status, offset := offset, lineptr := lineptr);
      if !more {
        v' := v'.(result := Some(if d == MenuLst then 1 else v.n));
      }
      OuterStays(d, src, m);
      OwnsStays(m, Step(d, src, m), menu, l, entry);
    } else if v.status == DEF || v.status == DLY {
      NumberState(v.status, v.lineptr, menu, entry, m, l);
      v' := v.(status := S);
    } else {
      var status, kernel;
      status, kernel, entry, l' := OpenEntry(v.lineptr, v.kernel, menu, m, l, current);
      v' := v.(status := status, kernel := kernel);
      TitleStays(m);
    }
  }

  /** The states inside an entry. */
  method InnerStates(d: Dialect, src: string, v: Locals, menu: MenuItem, entry: MenuItem?, ghost m: Machine, ghost l: Ledger)
    returns (v': Locals, ghost l': Ledger)
    requires Inv(src, m) && LocalsOf(m) == v && v.result == None && InEntry(v.status)
    requires Owns(m, menu, l, entry)
    modifies l.before, l.made
    ensures LocalsOf(Step(d, src, m)) == v' && Owns(Step(d, src, m), menu, l', entry)
    ensures l'.before == l.before && l'.kept == l.kept && l'.made == l.made
  {
    hide Inv, Owns, StepInner, StepRoot, StepArgument;
    OwnsFacts(m, menu, l, entry);
    InvOffset(src, m);
    ghost var next := Step(d, src, m);
    l' := l;
    if v.status == IN {
      var status, offset, lineptr := InnerLine(d, src, v.offset, v.lineptr, v.kernel, m);
      v' := v.(status := status, offset := offset, lineptr := lineptr);
      InnerStays(d, src, m);
      OwnsStays(m, next, menu, l, entry);
    } else if v.status == A || v.status == AQ {
      l' := LinkEntry(menu, entry, m, next, l);
      v' := if v.status == A then v.(n := v.n + 1, status := S) else v.(result := Some(1));
    } else if v.status == R || v.status == RQ {
      l' := FreeEntry(menu, entry, m, next, l);
      v' := if v.status == R then v.(status := S) else v.(result := Some(0));
    } else {
      var status, kernel := FillEntry(v.status, v.lineptr, v.kernel, menu, entry, m, next, l);
      v' := v.(status := status, kernel := kernel);
    }
  }

  /** fsm for MenuLst, kick_fsm for Kicklayout. */
  method Parse(d: Dialect, src: string, menu: MenuItem, ghost before: seq<MenuItem>)
    returns (n: int, ghost l: Ledger)
    requires IsList(menu, before)
    modifies before
    ensures l.before == before && l.kept == old(Kept(before)) && fresh(l.made)
    ensures var r := Run(d, src, Start(old(menu.defaultOs), old(menu.delay)));
            Some(n) == r.result && Owns(r, menu, l, null)
  {
    hide Run, Inv, Owns, IsList, Kept, Start, Step;
    var v := Locals(S, 0, "", false, 0, None);
    var entry: MenuItem? := null;
    ghost var m0 := Start(menu.defaultOs, menu.delay);
    ghost var m := m0;
    StartFields(menu.defaultOs, menu.delay);
    l := Ledger(before, Kept(before), [], {}, {});
    StartInv(src, menu.defaultOs, menu.delay);
    StartOwns(m0, menu, l);
    while v.result == None
      invariant Inv(src, m) && Run(d, src, m) == Run(d, src, m0) && LocalsOf(m) == v
      invariant l.before == before && l.kept == old(Kept(before)) && fresh(l.made)
      invariant Owns(m, menu, l, entry)
      decreases |src| - m.high, |src| - v.offset, Rank(v.status), v.result.None?
    {
      StepRuns(d, src, m);
      StepKeeps(d, src, m);
      if InEntry(v.status) {
        v, l := InnerStates(d, src, v, menu, entry, m, l);
      } else {
        v, entry, l := OuterStates(d, src, v, menu, entry, m, l);
      }
      m := Step(d, src, m);
    }
    RunEnds(d, src, m);
    NothingPending(m, menu, l, entry);
    n := v.result.value;
  }

  lemma StartFields(defaultOs: int, delay: int)
    ensures var m := Start(defaultOs, delay);
            m.status == S && m.offset == 0 && m.lineptr == "" && !m.kernel && m.n == 0 && m.result == None
  {
  }

  lemma StartOwns(m: Machine, menu: MenuItem, l: Ledger)
    requires IsList(menu, l.before) && m == Start(menu.defaultOs, menu.delay)
    requires l == Ledger(l.before, Kept(l.before), [], {}, {})
    ensures Owns(m, menu, l, null)
  {
    assert l.before + [] == l.before;
  }

  lemma OwnsFacts(m: Machine, menu: MenuItem, l: Ledger, entry: MenuItem?)
    requires Owns(m, menu, l, entry)
    ensures l.before != [] && menu in l.before && (forall x :: x in l.linked ==> x in l.made)
    ensures Pending(m) ==> entry != null && entry in l.made
  {
  }

  lemma NothingPending(m: Machine, menu: MenuItem, l: Ledger, entry: MenuItem?)
    requires Owns(m, menu, l, entry) && m.result.Some?
    ensures Owns(m, menu, l, null)
  {
  }

  lemma OuterStays(d: Dialect, src: string, m: Machine)
    requires m.offset <= |src| && m.status == S
    ensures StepOuter(d, src, m).status in {S, TIT, DEF, DLY} && StepOuter(d, src, m).menu == m.menu
    ensures m.offset == |src| ==> StepOuter(d, src, m) == m.(result := Some(if d == MenuLst then 1 else m.n))
  {
    hide Stripped, NextWord, AfterWord, OuterState;
  }

  lemma InnerStays(d: Dialect, src: string, m: Machine)
    requires 1 <= m.offset <= |src| && m.status == IN
    ensures var next := StepInner(d, src, m);
            InEntry(next.status) && next.menu == m.menu && next.entry == m.entry && next.result == m.result
  {
    hide Stripped, NextWord, AfterWord, InnerState;
  }

  lemma TitleStays(m: Machine)
    ensures var next := StepTitle(m);
            next == m.(status := next.status, kernel := next.kernel, entry := next.entry, started := next.started)
  {
  }
}
