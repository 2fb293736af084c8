/**
 The menu parsers fsm and kick_fsm of src/menu.c as one step function over values. The two source
 functions differ in comment character, keywords, the states they use and what they return;
 Dialect selects between them.
 */
module MenuMachine {
  import opened Options
  import opened Support
  import opened MenuText

  datatype Dialect = MenuLst | Kicklayout

  datatype Status = S | DEF | DLY | TIT | IN | RT | K | O | RD | DTB | M | A | R | AQ | RQ

  const DEFAULT_TYPE := 0
  const IDE_TYPE := 1
  const TFTP_TYPE := 2
  const CD_TYPE := 3

  datatype Entry = Entry(
    title: string,
    kernel: Option<string>,
    other: Option<string>,
    append: Option<string>,
    initrd: Option<string>,
    dtb: Option<string>,
    modules: seq<string>,
    deviceType: int,
    deviceNum: int,
    partition: int)

  /** entry_alloc, with the title its only caller in the parsers sets at once. */
  function NewEntry(title: string): Entry {
    Entry(title, None, None, None, None, None, [], DEFAULT_TYPE, 0, 0)
  }

  /**
   The local variables of a parser and the menu it fills. high is the furthest offset ever reached,
   started the offset behind the title line of entry, starts those of the linked entries: these
   three only serve to state properties. result is set when the parser returns.
   */
  datatype Machine = Machine(
    status: Status, offset: nat, lineptr: string, kernel: bool, entry: Entry, n: int,
    menu: seq<Entry>, defaultOs: int, delay: int, result: Option<int>,
    high: nat, started: nat, starts: seq<nat>)

  /** The start of a parse into a menu with the given header fields. */
  function Start(defaultOs: int, delay: int): Machine {
    Machine(S, 0, "", false, NewEntry(""), 0, [], defaultOs, delay, None, 0, 0, [])
  }

  // ---- keywords --------------------------------------------------------------------------

  function Stripped(d: Dialect, line: string): string {
    match d
    case MenuLst => Trim(Uncomment(line))
    case Kicklayout => Trim(line[..IndexOf(line, ';')])
  }

  function TitleWord(d: Dialect): string {
    if d == MenuLst then "title" else "LABEL"
  }

  /** The state a word selects outside an entry. */
  function OuterState(d: Dialect, word: string): (s: Status)
    ensures s in {S, TIT, DEF, DLY}
  {
    if word == TitleWord(d) then TIT
    else if d == MenuLst && word == "default" then DEF
    else if d == MenuLst && word == "delay" then DLY
    else S
  }

  /** The state a word selects inside an entry; IN stands for the title word, which is pushed back. */
  function InnerState(d: Dialect, word: string): (s: Status)
    ensures s in {IN, K, O, RT, RD, DTB, M, R}
  {
    if word == TitleWord(d) then IN
    else match d
      case MenuLst =>
        if word == "kernel" then K
        else if word == "other" then O
        else if word == "root" then RT
        else if word == "initrd" then RD
        else if word == "dtb" then DTB
        else if word == "module" then M
        else R
      case Kicklayout =>
        if word == "EXEC" then K
        else if word == "MODULE" then M
        else R
  }

  // ---- one step per state ----------------------------------------------------------------

  function StepOuter(d: Dialect, src: string, m: Machine): Machine
    requires m.offset <= |src|
  {
    if m.offset == |src| then m.(result := Some(if d == MenuLst then 1 else m.n)) else
      var e := LineEnd(src, m.offset);
      var line := Stripped(d, src[m.offset..e]);
      var m' := m.(offset := e, high := if m.high < e then e else m.high);
      if line == "" then m' else
        var state := OuterState(d, NextWord(line));
        m'.(status := state, lineptr := if state == S then m.lineptr else AfterWord(line))
  }

  /** Reads a line inside an entry; a title line ends the entry and is read again by state S. */
  function StepInner(d: Dialect, src: string, m: Machine): Machine
    requires 1 <= m.offset <= |src|
  {
    if m.offset == |src| then m.(status := if m.kernel then AQ else RQ) else
      var e := LineEnd(src, m.offset);
      var line := Stripped(d, src[m.offset..e]);
      var m' := m.(offset := e, high := if m.high < e then e else m.high);
      if line == "" then m' else
        var state := InnerState(d, NextWord(line));
        StrippedFits(d, src[m.offset..e]);
        if state == IN then
          m'.(offset := e - (|line| + 1), status := if m.kernel then A else R, lineptr := AfterWord(line))
        else m'.(status := state, lineptr := AfterWord(line))
  }

  lemma StrippedFits(d: Dialect, line: string)
    ensures |Stripped(d, line)| <= |line|
  {
    TrimSplits(Uncomment(line));
    TrimSplits(line[..IndexOf(line, ';')]);
  }

  function StepTitle(m: Machine): Machine {
    var title := Trim(m.lineptr);
    if title == "" then m.(status := S)
    else m.(status := IN, kernel := false, entry := NewEntry(title), started := m.high)
  }

  /** The first word of what is left of the line; empty if nothing is left. */
  function Argument(lineptr: string): string {
    NextWord(Trim(lineptr))
  }

  function Remainder(lineptr: string): string {
    Trim(AfterWord(Trim(lineptr)))
  }

  function StepNumber(m: Machine): Machine {
    var word := Argument(m.lineptr);
    if m.lineptr == "" || word == "" then m.(status := S)
    else if m.status == DEF then m.(status := S, defaultOs := Signed(Value(word)))
    else m.(status := S, delay := Signed(Value(word)))
  }

  /** The device a root line selects: type, number, partition. */
  function RootDevice(lineptr: string): Option<(int, int, int)> {
    var word, rest := Argument(lineptr), Remainder(lineptr);
    if word == "tftp" then Some((TFTP_TYPE, 0, 0))
    else if word == "cdrom" then Some((CD_TYPE, 0, 0))
    else if word == "ide" then
      var sep := IndexOf(rest, ':');
      if sep == |rest| || sep + 1 == |rest| then None
      else Some((IDE_TYPE, Signed(Value(rest[..sep])), Signed(Signed(Value(rest[sep + 1..])) - 1)))
    else None
  }

  function StepRoot(m: Machine): Machine {
    match RootDevice(m.lineptr)
    case None => m.(status := R)
    case Some((t, d, p)) =>
      if t == IDE_TYPE then m.(status := IN, entry := m.entry.(deviceType := t, deviceNum := d, partition := p))
      else m.(status := IN, entry := m.entry.(deviceType := t))
  }

  /** The states K, O, RD, DTB and M, which store the argument of the line. */
  function StepArgument(m: Machine): Machine {
    var word := Argument(m.lineptr);
    if word == "" then m.(status := R) else
      var m' := m.(status := IN, kernel := m.kernel || m.status == K || m.status == O);
      match m.status
      case K =>
        var rest := Remainder(m.lineptr);
        m'.(entry := m.entry.(kernel := Some(word), append := if rest == "" then m.entry.append else Some(rest)))
      case O => m'.(entry := m.entry.(other := Some(word)))
      case RD => m'.(entry := m.entry.(initrd := Some(word)))
      case DTB => m'.(entry := m.entry.(dtb := Some(word)))
      case _ => m'.(entry := m.entry.(modules := m.entry.modules + [word]))
  }

  function Linked(m: Machine): Machine {
    m.(menu := m.menu + [m.entry], starts := m.starts + [m.started])
  }

  function Step(d: Dialect, src: string, m: Machine): Machine
    requires Inv(src, m) && m.result == None
  {
    match m.status
    case S => StepOuter(d, src, m)
    case DEF | DLY => StepNumber(m)
    case TIT => StepTitle(m)
    case IN => StepInner(d, src, m)
    case RT => StepRoot(m)
    case K | O | RD | DTB | M => StepArgument(m)
    case A => Linked(m).(n := m.n + 1, status := S)
    case R => m.(status := S)
    case AQ => Linked(m).(result := Some(1))
    case RQ => m.(result := Some(0))
  }

  // ---- what every step keeps -------------------------------------------------------------

  predicate InEntry(s: Status) {
    s !in {S, DEF, DLY, TIT}
  }

  /** A non-empty title, and a kernel or another target to boot. */
  predicate Bootable(e: Entry) {
    e.title != "" && (e.kernel.Some? || e.other.Some?)
  }

  /** What state S has still to read before the furthest offset: nothing, the rest of the line that
      ends there, or the newline before that line and the line. */
  predicate PushedBack(src: string, offset: nat, high: nat)
    requires offset <= high <= |src|
  {
    offset < high ==>
      LineEnd(src, offset) == high
      || (src[offset] == '\n' && offset + 1 < high && LineEnd(src, offset + 1) == high)
  }

  predicate Inv(src: string, m: Machine) {
    && m.offset <= m.high <= |src|
    && PushedBack(src, m.offset, m.high)
    && (0 < m.high < |src| ==> src[m.high - 1] == '\n')
    && (m.status !in {S, A, R} ==> m.offset == m.high)
    && (m.status == TIT || InEntry(m.status) ==> 1 <= m.high)
    && (InEntry(m.status) ==> m.entry.title != "" && 0 < m.started <= m.high)
    && (m.status == A ==> m.started < m.high)
    && (InEntry(m.status) && m.kernel ==> Bootable(m.entry))
    && (m.status in {A, AQ} ==> m.kernel)
    && (forall e :: e in m.menu ==> Bootable(e))
    && |m.starts| == |m.menu|
    && (m.result == None ==> m.n == |m.menu|)
    && (forall i, j :: 0 <= i < j < |m.starts| ==> m.starts[i] < m.starts[j])
    && (forall x :: x in m.starts ==> x <= m.high)
    && (m.result == None ==> forall x :: x in m.starts ==> x < if InEntry(m.status) then m.started else m.high)
  }

  lemma StartInv(src: string, defaultOs: int, delay: int)
    ensures Inv(src, Start(defaultOs, delay))
  {
  }

  function Rank(s: Status): nat {
    match s
    case S => 0
    case A | R | AQ | RQ => 1
    case IN => 2
    case _ => 3
  }

  /** Nearer to the end of the parse: lines never reached yet count most, then text behind the
      offset, then the state. */
  predicate Closer(m': Machine, m: Machine) {
    m'.high > m.high || (m'.high == m.high && (m'.offset > m.offset
                                               || (m'.offset == m.offset && Rank(m'.status) < Rank(m.status))))
  }

  /** A step either comes nearer to the end of the parse or ends it. */
  predicate Advances(m': Machine, m: Machine) {
    if m'.result == None then Closer(m', m)
    else m'.high == m.high && m'.offset == m.offset && m'.status == m.status
  }

  lemma BareNewline(d: Dialect)
    ensures Stripped(d, "\n") == ""
  {
    IndexOfIs("\n", '#', 1);
    IndexOfIs("\n", ';', 1);
    TrimIs("\n", "\n", "", "");
  }

  /** A line read after a push-back ends at the furthest offset, or is the newline before such a line. */
  lemma ReadsOn(src: string, offset: nat, high: nat)
    requires offset <= high <= |src| && offset < |src| && PushedBack(src, offset, high)
    ensures var e := LineEnd(src, offset);
            && PushedBack(src, e, if e < high then high else e)
            && (offset < high && e != high ==> e == offset + 1 < high && src[offset..e] == "\n")
  {
    if offset < high && LineEnd(src, offset) != high {
      LineEndIs(src, offset, offset + 1);
    }
  }

  /** State S reads on towards high, or moves it. */
  lemma OuterKeeps(d: Dialect, src: string, m: Machine)
    requires Inv(src, m) && m.result == None && m.status == S
    ensures var m' := StepOuter(d, src, m);
            Inv(src, m') && Advances(m', m)
  {
    hide NextWord, AfterWord, Stripped, OuterState, PushedBack;
    if m.offset < |src| {
      ReadsOn(src, m.offset, m.high);
      BareNewline(d);
    }
  }

  /** What stays of a line after stripping, with the character behind it, fits into the line or
      is one longer; then the line is the last one, without a newline. */
  lemma PushBackRoom(d: Dialect, src: string, offset: nat)
    requires offset < |src|
    ensures var e := LineEnd(src, offset);
            var len := |Stripped(d, src[offset..e])|;
            len + 1 <= e - offset || (len == e - offset && e == |src| && src[e - 1] != '\n')
  {
    var e := LineEnd(src, offset);
    var raw := src[offset..e];
    StrippedFits(d, raw);
    if |Stripped(d, raw)| == |raw| {
      WholeLine(d, raw);
    }
  }

  lemma WholeLine(d: Dialect, raw: string)
    requires raw != "" && |Stripped(d, raw)| == |raw|
    ensures Stripped(d, raw) == raw && raw[|raw| - 1] != '\n'
  {
    TrimSplits(Uncomment(raw));
    TrimSplits(raw[..IndexOf(raw, ';')]);
  }

  /** State IN moves high with every line; a title line is pushed back to its own text or the newline before. */
  lemma InnerKeeps(d: Dialect, src: string, m: Machine)
    requires Inv(src, m) && m.result == None && m.status == IN
    ensures var m' := StepInner(d, src, m);
            Inv(src, m') && Advances(m', m)
  {
    hide NextWord, AfterWord, Stripped, InnerState, PushedBack;
    if m.offset < |src| {
      PushBackLands(d, src, m.offset);
      assert PushedBack(src, m.high, m.high) && PushedBack(src, LineEnd(src, m.offset), LineEnd(src, m.offset));
    }
  }

  lemma PushBackLands(d: Dialect, src: string, offset: nat)
    requires 0 < offset < |src| && src[offset - 1] == '\n'
    ensures var e := LineEnd(src, offset);
            var back := e - (|Stripped(d, src[offset..e])| + 1);
            offset - 1 <= back < e && PushedBack(src, back, e) && PushedBack(src, e, e)
  {
    hide Stripped;
    var e := LineEnd(src, offset);
    var back := e - (|Stripped(d, src[offset..e])| + 1);
    PushBackRoom(d, src, offset);
    if back < offset {
      LineEndIs(src, offset, e);
    } else {
      LineEndIs(src, back, e);
    }
  }

  lemma ArgumentKeeps(src: string, m: Machine)
    requires Inv(src, m) && m.result == None && m.status in {K, O, RD, DTB, M}
    ensures Inv(src, StepArgument(m)) && Advances(StepArgument(m), m)
  {
    ArgumentEffect(m);
    EntryKeeps(src, m, StepArgument(m));
  }

  lemma ArgumentEffect(m: Machine)
    requires m.status in {K, O, RD, DTB, M}
    ensures var m' := StepArgument(m);
            && m' == m.(status := m'.status, entry := m'.entry, kernel := m'.kernel) && m'.status in {IN, R}
            && m'.entry.title == m.entry.title
            && (m'.kernel && m.entry.title != "" && (m.kernel ==> Bootable(m.entry)) ==> Bootable(m'.entry))
  {
    hide Argument, Remainder;
  }

  /** Changing an entry in any way but its title keeps the invariant, if it stays bootable. */
  lemma EntryKeeps(src: string, m: Machine, m': Machine)
    requires Inv(src, m) && m.result == None && m.status in {K, O, RD, DTB, M, RT}
    requires m' == m.(status := m'.status, entry := m'.entry, kernel := m'.kernel) && m'.status in {IN, R}
    requires m'.entry.title == m.entry.title
    requires m'.kernel && m.entry.title != "" && (m.kernel ==> Bootable(m.entry)) ==> Bootable(m'.entry)
    ensures Inv(src, m') && Advances(m', m)
  {
    hide PushedBack, Bootable;
  }

  lemma NumberKeeps(src: string, m: Machine)
    requires Inv(src, m) && m.result == None && m.status in {DEF, DLY}
    ensures Inv(src, StepNumber(m)) && Advances(StepNumber(m), m)
  {
    hide Argument, PushedBack, Bootable;
  }

  lemma TitleKeeps(src: string, m: Machine)
    requires Inv(src, m) && m.result == None && m.status == TIT
    ensures Inv(src, StepTitle(m)) && Advances(StepTitle(m), m)
  {
    hide Trim, PushedBack;
  }

  lemma RootKeeps(src: string, m: Machine)
    requires Inv(src, m) && m.result == None && m.status == RT
    ensures Inv(src, StepRoot(m)) && Advances(StepRoot(m), m)
  {
    hide RootDevice, Inv;
    EntryKeeps(src, m, StepRoot(m));
  }

  lemma LinkKeeps(src: string, m: Machine)
    requires Inv(src, m) && m.result == None && m.status in {A, AQ}
    ensures Inv(src, if m.status == A then Linked(m).(n := m.n + 1, status := S) else Linked(m).(result := Some(1)))
  {
    hide PushedBack, Bootable;
    StartsGrow(m.starts, m.started);
    assert m.status == A ==> forall x :: x in m.starts + [m.started] ==> x < m.high;
  }

  lemma StartsGrow(starts: seq<nat>, next: nat)
    requires forall i, j :: 0 <= i < j < |starts| ==> starts[i] < starts[j]
    requires forall x :: x in starts ==> x < next
    ensures forall i, j :: 0 <= i < j < |starts + [next]| ==> (starts + [next])[i] < (starts + [next])[j]
  {
    assert forall i :: 0 <= i < |starts| ==> starts[i] in starts;
  }

  lemma FreeKeeps(src: string, m: Machine)
    requires Inv(src, m) && m.result == None && m.status in {R, RQ}
    ensures Inv(src, if m.status == R then m.(status := S) else m.(result := Some(0)))
  {
    hide PushedBack;
  }

  /** Every step keeps the invariant, and either ends the parse or brings its end nearer. */
  lemma StepKeeps(d: Dialect, src: string, m: Machine)
    requires Inv(src, m) && m.result == None
    ensures var m' := Step(d, src, m);
            && Inv(src, m') && Advances(m', m)
            && m.offset <= m.high <= |src| && m'.offset <= m'.high <= |src|
  {
    StepCases(d, src, m);
    assert m.offset <= m.high <= |src|;
  }

  lemma StepCases(d: Dialect, src: string, m: Machine)
    requires Inv(src, m) && m.result == None
    ensures var m' := Step(d, src, m);
            Inv(src, m') && Advances(m', m)
  {
    hide Inv, StepOuter, StepInner, StepArgument, StepNumber, StepTitle, StepRoot;
    match m.status
    case S => OuterKeeps(d, src, m);
    case IN => InnerKeeps(d, src, m);
    case K | O | RD | DTB | M => ArgumentKeeps(src, m);
    case A | AQ => LinkKeeps(src, m);
    case R | RQ => FreeKeeps(src, m);
    case DEF | DLY => NumberKeeps(src, m);
    case TIT => TitleKeeps(src, m);
    case RT => RootKeeps(src, m);
  }

  /** The whole parse. */
  function Run(d: Dialect, src: string, m: Machine): (r: Machine)
    requires Inv(src, m)
    ensures Inv(src, r) && r.result.Some?
    decreases |src| - m.high, |src| - m.offset, Rank(m.status), m.result.None?
  {
    hide Step, Inv;
    if m.result.Some? then m else
      StepKeeps(d, src, m);
      Run(d, src, Step(d, src, m))
  }

  /** The parse of a text from its start. */
  function Parsed(d: Dialect, src: string, m0: Machine): Machine
    requires m0 == Start(m0.defaultOs, m0.delay)
  {
    StartInv(src, m0.defaultOs, m0.delay);
    Run(d, src, m0)
  }

  lemma StepRuns(d: Dialect, src: string, m: Machine)
    requires Inv(src, m) && m.result == None
    ensures Inv(src, Step(d, src, m)) && Run(d, src, m) == Run(d, src, Step(d, src, m))
  {
    hide Inv, Step;
    StepKeeps(d, src, m);
  }

  lemma RunEnds(d: Dialect, src: string, m: Machine)
    requires Inv(src, m) && m.result.Some?
    ensures Run(d, src, m) == m
  {
  }

  lemma InvOffset(src: string, m: Machine)
    requires Inv(src, m)
    ensures m.offset <= |src| && (m.status == IN ==> m.offset >= 1)
  {
  }
}
