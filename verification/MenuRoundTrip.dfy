/**
 Parsing undoes printing: the canonical text of any list of entries is parsed back, by either
 parser, into exactly those of them that have a target, and into all if all have one. Every entry
 but the last is closed by the title line of the next, which is pushed back and read again.
 */
module MenuRoundTrip {
  import opened Options
  import opened Support
  import opened MenuText
  import opened MenuMachine
  import opened MenuLayout

  // ---- canonical text --------------------------------------------------------------------

  /** Text that a line can carry: not empty, no blanks around it, no comment, on one line. */
  predicate CleanText(d: Dialect, t: string) {
    t != "" && Trimmed(t) && CommentChar(d) !in t && '\n' !in t && '\0' !in t
  }

  /** Text without any blank. */
  predicate CleanWord(d: Dialect, w: string) {
    CleanText(d, w) && forall c :: c in w ==> !IsSpace(c)
  }

  datatype Command =
    | Kernel(file: string, append: Option<string>)
    | Other(target: string)
    | RootIde(num: nat, slot: nat)
    | RootTftp
    | RootCdrom
    | Initrd(file: string)
    | Dtb(file: string)
    | Module(file: string)

  predicate CleanCommand(d: Dialect, c: Command) {
    match c
    case Kernel(f, a) => CleanWord(d, f) && (a.Some? ==> CleanText(d, a.value))
    case Other(t) => d == MenuLst && CleanWord(d, t)
    case RootIde(n, p) => d == MenuLst && n < 0x8000_0000 && p < 0x8000_0000
    case RootTftp | RootCdrom => d == MenuLst
    case Initrd(f) => d == MenuLst && CleanWord(d, f)
    case Dtb(f) => d == MenuLst && CleanWord(d, f)
    case Module(f) => CleanWord(d, f)
  }

  function Keyword(d: Dialect, c: Command): string {
    match c
    case Kernel(_, _) => if d == MenuLst then "kernel" else "EXEC"
    case Other(_) => "other"
    case RootIde(_, _) | RootTftp | RootCdrom => "root"
    case Initrd(_) => "initrd"
    case Dtb(_) => "dtb"
    case Module(_) => if d == MenuLst then "module" else "MODULE"
  }

  function Operand(c: Command): string {
    match c
    case Kernel(f, a) => if a.Some? then f + (" " + a.value) else f
    case Other(t) => t
    case RootIde(n, p) => "ide" + (" " + (Decimal(n) + (":" + Decimal(p))))
    case RootTftp => "tftp"
    case RootCdrom => "cdrom"
    case Initrd(f) => f
    case Dtb(f) => f
    case Module(f) => f
  }

  function Line(word: string, operand: string): string {
    word + (" " + operand)
  }

  function Render(d: Dialect, cs: seq<Command>): string
    requires forall c :: c in cs ==> CleanCommand(d, c)
  {
    if cs == [] then ""
    else (Line(Keyword(d, cs[0]), Operand(cs[0])) + "\n") + Render(d, cs[1..])
  }

  /** A device that a root line can name, by the numbers src/menu.h:32-35 gives the types; an IDE
      partition is printed counting from one. */
  predicate CleanDevice(e: Entry) {
    if e.deviceType == 1 then 0 <= e.deviceNum < 0x8000_0000 && -1 <= e.partition < 0x7FFF_FFFF
    else e.deviceType in {0, 2, 3} && e.deviceNum == 0 && e.partition == 0
  }

  function RootCommands(e: Entry): seq<Command>
    requires CleanDevice(e)
  {
    if e.deviceType == 1 then [RootIde(e.deviceNum, e.partition + 1)]
    else if e.deviceType == 2 then [RootTftp]
    else if e.deviceType == 3 then [RootCdrom]
    else []
  }

  function KernelCommands(e: Entry): seq<Command> {
    (if e.kernel.Some? then [Kernel(e.kernel.value, e.append)] else [])
    + (if e.other.Some? then [Other(e.other.value)] else [])
  }

  function FileCommands(e: Entry): seq<Command> {
    (if e.initrd.Some? then [Initrd(e.initrd.value)] else [])
    + (if e.dtb.Some? then [Dtb(e.dtb.value)] else [])
  }

  function ModuleCommands(files: seq<string>): seq<Command> {
    seq(|files|, i requires 0 <= i < |files| => Module(files[i]))
  }

  /** The commands an entry is printed as. */
  function Commands(e: Entry): seq<Command>
    requires CleanDevice(e)
  {
    KernelCommands(e) + RootCommands(e) + FileCommands(e) + ModuleCommands(e.modules)
  }

  /** The entries a dialect can express and the source has room for. */
  predicate Printable(d: Dialect, e: Entry) {
    && CleanText(d, e.title) && |e.modules| <= 100
    && (e.append.Some? ==> e.kernel.Some?)
    && CleanDevice(e)
    && (forall c :: c in Commands(e) ==> CleanCommand(d, c))
  }

  function TitleText(d: Dialect, title: string): string {
    Line(if d == MenuLst then "title" else "LABEL", title) + "\n"
  }

  function PrintEntry(d: Dialect, e: Entry): string
    requires Printable(d, e)
  {
    TitleText(d, e.title) + Render(d, Commands(e))
  }

  function PrintEntries(d: Dialect, es: seq<Entry>): string
    requires forall e :: e in es ==> Printable(d, e)
  {
    if es == [] then "" else PrintEntry(d, es[0]) + PrintEntries(d, es[1..])
  }

  // ---- what commands do to an entry ------------------------------------------------------

  function Effect(c: Command, e: Entry): Entry {
    match c
    case Kernel(f, a) => e.(kernel := Some(f), append := if a.Some? then a else e.append)
    case Other(t) => e.(other := Some(t))
    case RootIde(n, p) => e.(deviceType := IDE_TYPE, deviceNum := n, partition := p - 1)
    case RootTftp => e.(deviceType := TFTP_TYPE)
    case RootCdrom => e.(deviceType := CD_TYPE)
    case Initrd(f) => e.(initrd := Some(f))
    case Dtb(f) => e.(dtb := Some(f))
    case Module(f) => e.(modules := e.modules + [f])
  }

  function Effects(cs: seq<Command>, e: Entry): Entry {
    if cs == [] then e else Effects(cs[1..], Effect(cs[0], e))
  }

  predicate Targets(c: Command) {
    c.Kernel? || c.Other?
  }

  lemma {:induction false} EffectsConcat(a: seq<Command>, b: seq<Command>, e: Entry)
    ensures Effects(a + b, e) == Effects(b, Effects(a, e))
  {
    if a == [] {
      assert a + b == b;
    } else {
      assert (a + b)[1..] == a[1..] + b;
      EffectsConcat(a[1..], b, Effect(a[0], e));
    }
  }

  lemma {:induction false} ModuleEffects(files: seq<string>, e: Entry)
    ensures Effects(ModuleCommands(files), e) == e.(modules := e.modules + files)
  {
    if files == [] {
      assert e.modules + files == e.modules;
    } else {
      assert ModuleCommands(files)[1..] == ModuleCommands(files[1..]);
      ModuleEffects(files[1..], Effect(Module(files[0]), e));
      assert e.modules + [files[0]] + files[1..] == e.modules + files;
    }
  }

  lemma KernelEffects(e: Entry)
    requires e.append.Some? ==> e.kernel.Some?
    ensures Effects(KernelCommands(e), NewEntry(e.title))
         == NewEntry(e.title).(kernel := e.kernel, append := e.append, other := e.other)
  {
    var n := NewEntry(e.title);
    var k := if e.kernel.Some? then [Kernel(e.kernel.value, e.append)] else [];
    var o := if e.other.Some? then [Other(e.other.value)] else [];
    EffectsConcat(k, o, n);
  }

  /** Only an entry with a target prints a command that names one. */
  lemma TargetsAreKernels(e: Entry)
    requires CleanDevice(e)
    ensures (exists c :: c in Commands(e) && Targets(c)) <==> e.kernel.Some? || e.other.Some?
  {
    var ks := KernelCommands(e);
    assert forall c :: c in ModuleCommands(e.modules) ==> c.Module?;
    assert forall c :: c in Commands(e) && Targets(c) ==> c in ks;
    if e.kernel.Some? || e.other.Some? {
      assert Targets(ks[0]) && ks[0] in Commands(e);
    }
  }

  lemma FileEffects(e: Entry, n: Entry)
    requires n.initrd == None && n.dtb == None
    ensures Effects(FileCommands(e), n) == n.(initrd := e.initrd, dtb := e.dtb)
  {
    var i := if e.initrd.Some? then [Initrd(e.initrd.value)] else [];
    var t := if e.dtb.Some? then [Dtb(e.dtb.value)] else [];
    EffectsConcat(i, t, n);
  }

  lemma RootEffects(e: Entry, n: Entry)
    requires CleanDevice(e) && n.deviceType == DEFAULT_TYPE && n.deviceNum == 0 && n.partition == 0
    ensures Effects(RootCommands(e), n)
         == n.(deviceType := e.deviceType, deviceNum := e.deviceNum, partition := e.partition)
  {
  }

  /** The printed commands rebuild the entry. */
  lemma CommandsRebuild(d: Dialect, e: Entry)
    requires Printable(d, e)
    ensures Effects(Commands(e), NewEntry(e.title)) == e
    ensures (exists c :: c in Commands(e) && Targets(c)) <==> Bootable(e)
  {
    hide Effects, KernelCommands, RootCommands, FileCommands, ModuleCommands;
    var n := NewEntry(e.title);
    var n1 := n.(kernel := e.kernel, append := e.append, other := e.other);
    var n2 := n1.(deviceType := e.deviceType, deviceNum := e.deviceNum, partition := e.partition);
    var n3 := n2.(initrd := e.initrd, dtb := e.dtb);
    KernelEffects(e);
    TargetsAreKernels(e);
    RootEffects(e, n1);
    FileEffects(e, n2);
    ModuleEffects(e.modules, n3);
    EffectsConcat(KernelCommands(e) + RootCommands(e) + FileCommands(e), ModuleCommands(e.modules), n);
    EffectsConcat(KernelCommands(e) + RootCommands(e), FileCommands(e), n);
    EffectsConcat(KernelCommands(e), RootCommands(e), n);
    assert [] + e.modules == e.modules;
  }

  // ---- reading one clean line ------------------------------------------------------------

  /** The text stands in src at the given offset. */
  predicate Holds(src: string, offset: nat, text: string) {
    offset + |text| <= |src| && src[offset..offset + |text|] == text
  }

  lemma HoldsSplit(src: string, offset: nat, a: string, b: string)
    requires Holds(src, offset, a + b)
    ensures Holds(src, offset, a) && Holds(src, offset + |a|, b)
  {
    var both := src[offset..offset + |a + b|];
    assert both[..|a|] == a && both[|a|..] == b;
    assert src[offset..offset + |a|] == both[..|a|];
    assert src[offset + |a|..offset + |a| + |b|] == both[|a|..];
  }

  predicate NoBlank(w: string) {
    forall c :: c in w ==> !IsSpace(c)
  }

  lemma BlankFree(w: string)
    requires NoBlank(w)
    ensures forall i :: 0 <= i < |w| ==> !IsSpace(w[i])
  {
    forall i | 0 <= i < |w| ensures !IsSpace(w[i]) {
      assert w[i] in w;
    }
  }

  lemma LoneWord(w: string)
    requires NoBlank(w)
    ensures NextWord(w) == w && AfterWord(w) == ""
  {
    BlankFree(w);
    IndexOfIs(w, ' ', |w|);
    IndexOfIs(w, '\t', |w|);
  }

  lemma FirstWord(w: string, x: string)
    requires NoBlank(w)
    ensures NextWord(Line(w, x)) == w && AfterWord(Line(w, x)) == " " + x
  {
    BlankFree(w);
    IndexOfIs(Line(w, x), ' ', |w|);
  }

  lemma Indented(x: string)
    requires Trimmed(x)
    ensures Trim(" " + x) == x
  {
    assert " " + x == " " + x + "";
    TrimIs(" " + x, " ", x, "");
  }

  lemma CleanLine(d: Dialect, w: string, x: string)
    requires CleanWord(d, w) && CleanText(d, x)
    ensures CleanText(d, Line(w, x))
  {
    var l := Line(w, x);
    assert l[0] == w[0] && l[|l| - 1] == x[|x| - 1];
    assert w[0] in w;
    forall c | c in l ensures c in w || c in x || c == ' ' {
      var i :| 0 <= i < |l| && l[i] == c;
      if i > |w| {
        assert l[i] == x[i - |w| - 1];
      }
    }
  }

  lemma HeldAt(src: string, offset: nat, text: string, i: nat)
    requires Holds(src, offset, text) && i < |text|
    ensures src[offset + i] == text[i]
  {
    assert src[offset..offset + |text|][i] == src[offset + i];
  }

  lemma LineIsHeld(src: string, offset: nat, line: string)
    requires Holds(src, offset, line + "\n") && '\n' !in line
    ensures offset < |src| && LineEnd(src, offset) == offset + |line| + 1
  {
    hide Holds;
    var raw := line + "\n";
    forall i | 0 <= i < |raw| ensures offset + i < |src| && src[offset + i] == raw[i] {
      HeldIn(src, offset, raw);
      HeldAt(src, offset, raw, i);
    }
    HeldIn(src, offset, raw);
    forall i | offset <= i < offset + |line| ensures src[i] != '\n' {
      assert src[offset + (i - offset)] == line[i - offset];
    }
    LineEndIs(src, offset, offset + |raw|);
  }

  lemma HeldIn(src: string, offset: nat, text: string)
    requires Holds(src, offset, text)
    ensures offset + |text| <= |src| && src[offset..offset + |text|] == text
  {
  }

  /** A clean line is read whole, and stripping leaves it as it is. */
  lemma ReadClean(d: Dialect, src: string, offset: nat, line: string)
    requires Holds(src, offset, line + "\n") && CleanText(d, line)
    ensures offset < |src| && LineEnd(src, offset) == offset + |line| + 1
    ensures Stripped(d, src[offset..offset + |line| + 1]) == line
  {
    hide Stripped, Holds, Trimmed;
    LineIsHeld(src, offset, line);
    StripClean(d, line);
    HeldIn(src, offset, line + "\n");
  }

  lemma StripClean(d: Dialect, line: string)
    requires CleanText(d, line)
    ensures Stripped(d, line + "\n") == line
  {
    var raw := line + "\n";
    IndexOfIs(raw, CommentChar(d), |raw|);
    assert raw[..|raw|] == raw == "" + line + "\n";
    TrimIs(raw, "", line, "\n");
  }

  // ---- one command -----------------------------------------------------------------------

  lemma {:induction false} DecimalClean(d: Dialect, n: nat, c: char)
    requires c in Decimal(n)
    ensures '0' <= c <= '9' && !IsSpace(c) && c != CommentChar(d) && c != '\n' && c != '\0' && c != ':'
  {
  }

  lemma IdeOperand(d: Dialect, n: nat, p: nat)
    ensures var x := Decimal(n) + (":" + Decimal(p));
            CleanWord(d, x) && IndexOf(x, ':') == |Decimal(n)|
  {
    hide Decimal, IndexOf, Trimmed;
    var a, b := Decimal(n), Decimal(p);
    var x := a + (":" + b);
    forall c | c in x ensures c == ':' || (!IsSpace(c) && c != CommentChar(d) && c != '\n' && c != '\0') {
      if c in a {
        DecimalClean(d, n, c);
      } else if c in b {
        DecimalClean(d, p, c);
      }
    }
    SolidText(x);
    forall i | 0 <= i < |a| ensures x[i] != ':' {
      DecimalClean(d, n, a[i]);
    }
    IndexOfIs(x, ':', |a|);
  }

  lemma SolidText(w: string)
    requires NoBlank(w)
    ensures Trimmed(w)
  {
    BlankFree(w);
  }

  lemma OperandClean(d: Dialect, c: Command)
    requires CleanCommand(d, c)
    ensures CleanText(d, Operand(c))
  {
    match c
    case Kernel(f, a) =>
      if a.Some? {
        CleanLine(d, f, a.value);
      }
    case RootIde(n, p) =>
      IdeOperand(d, n, p);
      CleanLine(d, "ide", Decimal(n) + (":" + Decimal(p)));
    case _ =>
  }

  /** The state the keyword of a command selects. */
  function StateOf(c: Command): Status {
    match c
    case Kernel(_, _) => K
    case Other(_) => O
    case RootIde(_, _) | RootTftp | RootCdrom => RT
    case Initrd(_) => RD
    case Dtb(_) => DTB
    case Module(_) => M
  }

  predicate Letters(w: string) {
    w != "" && forall i :: 0 <= i < |w| ==> 'A' <= w[i] <= 'z'
  }

  lemma LettersAreClean(d: Dialect, w: string)
    requires Letters(w)
    ensures CleanWord(d, w)
  {
  }

  lemma KeywordClean(d: Dialect, c: Command)
    ensures CleanWord(d, Keyword(d, c))
  {
    hide CleanWord;
    LettersAreClean(d, Keyword(d, c));
  }

  lemma KeywordSelects(d: Dialect, c: Command)
    requires d == Kicklayout ==> c.Kernel? || c.Module?
    ensures InnerState(d, Keyword(d, c)) == StateOf(c)
  {
    match c
    case Kernel(_, _) =>
    case Other(_) =>
    case RootIde(_, _) | RootTftp | RootCdrom =>
    case _ =>
  }

  lemma WordArgument(w: string)
    requires NoBlank(w) && Trimmed(w)
    ensures Argument(" " + w) == w && Remainder(" " + w) == ""
  {
    Indented(w);
    LoneWord(w);
    TrimIs("", "", "", "");
  }

  lemma LineArgument(w: string, x: string)
    requires NoBlank(w) && Trimmed(x) && Trimmed(Line(w, x))
    ensures Argument(" " + Line(w, x)) == w && Remainder(" " + Line(w, x)) == x
  {
    Indented(Line(w, x));
    FirstWord(w, x);
    Indented(x);
  }

  lemma IdeDevice(n: nat, p: nat)
    requires n < 0x8000_0000 && p < 0x8000_0000
    ensures RootDevice(" " + Line("ide", Decimal(n) + (":" + Decimal(p)))) == Some((IDE_TYPE, n, p - 1))
  {
    hide Argument, Remainder, Decimal, Value, IndexOf, Trimmed;
    var x := Decimal(n) + (":" + Decimal(p));
    IdeReads(n, p);
    assert x[..|Decimal(n)|] == Decimal(n) && x[|Decimal(n)| + 1..] == Decimal(p);
    ValueOfDecimal(n);
    ValueOfDecimal(p);
  }

  lemma IdeReads(n: nat, p: nat)
    ensures var x := Decimal(n) + (":" + Decimal(p));
            && Argument(" " + Line("ide", x)) == "ide" && Remainder(" " + Line("ide", x)) == x
            && IndexOf(x, ':') == |Decimal(n)|
  {
    hide Argument, Remainder, Decimal, IndexOf;
    var x := Decimal(n) + (":" + Decimal(p));
    IdeOperand(MenuLst, n, p);
    CleanLine(MenuLst, "ide", x);
    LineArgument("ide", x);
  }

  lemma KernelApplies(d: Dialect, c: Command, m: Machine)
    requires CleanCommand(d, c) && c.Kernel? && m.status == K && m.lineptr == " " + Operand(c)
    ensures StepArgument(m) == m.(status := IN, kernel := true, entry := Effect(c, m.entry))
  {
    hide Argument, Remainder;
    OperandClean(d, c);
    if c.append.Some? {
      LineArgument(c.file, c.append.value);
    } else {
      WordArgument(c.file);
    }
  }

  lemma RootApplies(d: Dialect, c: Command, m: Machine)
    requires CleanCommand(d, c) && StateOf(c) == RT == m.status && m.lineptr == " " + Operand(c)
    ensures StepRoot(m) == m.(status := IN, entry := Effect(c, m.entry))
  {
    hide Argument, Remainder;
    if c.RootIde? {
      hide RootDevice;
      IdeDevice(c.num, c.slot);
    } else {
      WordArgument(Operand(c));
    }
  }

  lemma WordApplies(d: Dialect, c: Command, m: Machine)
    requires CleanCommand(d, c) && StateOf(c) !in {K, RT} && m.status == StateOf(c) && m.lineptr == " " + Operand(c)
    ensures StepArgument(m) == m.(status := IN, kernel := m.kernel || Targets(c), entry := Effect(c, m.entry))
  {
    hide Argument, Remainder;
    WordArgument(Operand(c));
  }

  /** What the state of a command makes of the rest of its line. */
  lemma OperandApplies(d: Dialect, c: Command, m: Machine)
    requires CleanCommand(d, c) && m.status == StateOf(c) && m.lineptr == " " + Operand(c)
    ensures (if StateOf(c) == RT then StepRoot(m) else StepArgument(m))
         == m.(status := IN, kernel := m.kernel || Targets(c), entry := Effect(c, m.entry))
  {
    hide StepRoot, StepArgument, Effect;
    if c.Kernel? {
      KernelApplies(d, c, m);
    } else if StateOf(c) == RT {
      RootApplies(d, c, m);
    } else {
      WordApplies(d, c, m);
    }
  }

  /** Where the parser stands after reading a line of the given length inside an entry. */
  function Past(m: Machine, len: nat): Machine {
    m.(offset := m.offset + len, high := m.offset + len)
  }

  function CommandText(d: Dialect, c: Command): string {
    Line(Keyword(d, c), Operand(c)) + "\n"
  }

  function AfterCommand(d: Dialect, c: Command, m: Machine): Machine {
    Past(m, |CommandText(d, c)|).(lineptr := " " + Operand(c), kernel := m.kernel || Targets(c),
                                  entry := Effect(c, m.entry))
  }

  lemma CommandReads(d: Dialect, src: string, m: Machine, c: Command)
    requires Inv(src, m) && m.result == None && m.status == IN
    requires CleanCommand(d, c) && Holds(src, m.offset, CommandText(d, c))
    ensures Step(d, src, m) == Past(m, |CommandText(d, c)|).(status := StateOf(c), lineptr := " " + Operand(c))
  {
    hide Stripped, NextWord, AfterWord, Keyword, Operand, InnerState, PushedBack;
    var line := Line(Keyword(d, c), Operand(c));
    KeywordClean(d, c);
    KeywordSelects(d, c);
    OperandClean(d, c);
    CleanLine(d, Keyword(d, c), Operand(c));
    FirstWord(Keyword(d, c), Operand(c));
    ReadClean(d, src, m.offset, line);
  }

  /** One command line inside an entry takes two steps and has its effect. */
  lemma CommandRuns(d: Dialect, src: string, m: Machine, c: Command)
    requires Inv(src, m) && m.result == None && m.status == IN
    requires CleanCommand(d, c) && Holds(src, m.offset, CommandText(d, c))
    ensures Inv(src, AfterCommand(d, c, m)) && Run(d, src, m) == Run(d, src, AfterCommand(d, c, m))
  {
    hide Inv, Run, Keyword, Operand, StepInner, StepRoot, StepArgument, Effect;
    CommandReads(d, src, m, c);
    StepRuns(d, src, m);
    var m1 := Step(d, src, m);
    OperandApplies(d, c, m1);
    StepRuns(d, src, m1);
    assert Step(d, src, m1) == AfterCommand(d, c, m);
  }

  function AfterCommands(d: Dialect, cs: seq<Command>, m: Machine): Machine
    requires forall c :: c in cs ==> CleanCommand(d, c)
  {
    if cs == [] then m else AfterCommands(d, cs[1..], AfterCommand(d, cs[0], m))
  }

  lemma {:induction false} CommandsRun(d: Dialect, src: string, m: Machine, cs: seq<Command>)
    requires Inv(src, m) && m.result == None && m.status == IN
    requires (forall c :: c in cs ==> CleanCommand(d, c)) && Holds(src, m.offset, Render(d, cs))
    ensures var r := AfterCommands(d, cs, m);
            && Inv(src, r) && Run(d, src, m) == Run(d, src, r)
            && r == Past(m, |Render(d, cs)|).(lineptr := r.lineptr, kernel := r.kernel, entry := Effects(cs, m.entry))
            && (r.kernel <==> m.kernel || exists c :: c in cs && Targets(c))
    decreases cs
  {
    hide Inv, Run, Keyword, Operand, Effect;
    if cs == [] {
      assert m.offset == m.high by { InvHigh(src, m); }
    } else {
      HoldsSplit(src, m.offset, CommandText(d, cs[0]), Render(d, cs[1..]));
      CommandRuns(d, src, m, cs[0]);
      CommandsRun(d, src, AfterCommand(d, cs[0], m), cs[1..]);
    }
  }

  lemma InvHigh(src: string, m: Machine)
    requires Inv(src, m) && m.status == IN
    ensures m.offset == m.high
  {
  }

  // ---- one entry -------------------------------------------------------------------------

  lemma TitleWordSelects(d: Dialect)
    ensures CleanWord(d, TitleWord(d)) && OuterState(d, TitleWord(d)) == TIT && InnerState(d, TitleWord(d)) == IN
  {
  }

  /** Behind a title line: a new entry, with the parser inside it. */
  function AfterTitle(d: Dialect, title: string, m: Machine): Machine {
    var m' := Past(m, |TitleText(d, title)|);
    m'.(status := IN, lineptr := " " + title, kernel := false, entry := NewEntry(title), started := m'.high)
  }

  lemma TitleReads(d: Dialect, src: string, m: Machine, title: string)
    requires CleanText(d, title) && Holds(src, m.offset, TitleText(d, title))
    ensures m.offset < |src| && LineEnd(src, m.offset) == m.offset + |TitleText(d, title)|
    ensures var line := Stripped(d, src[m.offset..m.offset + |TitleText(d, title)|]);
            && line == Line(TitleWord(d), title) && line != ""
            && NextWord(line) == TitleWord(d) && AfterWord(line) == " " + title
  {
    hide Stripped, NextWord, AfterWord;
    TitleWordSelects(d);
    CleanLine(d, TitleWord(d), title);
    FirstWord(TitleWord(d), title);
    ReadClean(d, src, m.offset, Line(TitleWord(d), title));
  }

  /** A title line, seen for the first time or pushed back, opens an entry in two steps. */
  lemma TitleRuns(d: Dialect, src: string, m: Machine, title: string)
    requires Inv(src, m) && m.result == None && m.status == S
    requires CleanText(d, title) && Holds(src, m.offset, TitleText(d, title))
    requires m.high <= m.offset + |TitleText(d, title)|
    ensures Inv(src, AfterTitle(d, title, m)) && Run(d, src, m) == Run(d, src, AfterTitle(d, title, m))
  {
    hide Inv, Run, Trim, StepOuter;
    TitleOpens(d, src, m, title);
    Indented(title);
    StepRuns(d, src, m);
    StepRuns(d, src, Step(d, src, m));
    assert Step(d, src, Step(d, src, m)) == AfterTitle(d, title, m);
  }

  lemma TitleOpens(d: Dialect, src: string, m: Machine, title: string)
    requires Inv(src, m) && m.result == None && m.status == S
    requires CleanText(d, title) && Holds(src, m.offset, TitleText(d, title))
    requires m.high <= m.offset + |TitleText(d, title)|
    ensures Step(d, src, m) == Past(m, |TitleText(d, title)|).(status := TIT, lineptr := " " + title)
  {
    hide Inv, Stripped, NextWord, AfterWord, Trim, Holds, OuterState, PushedBack;
    TitleReads(d, src, m, title);
    TitleWordSelects(d);
  }

  /** The entry a title line ended is linked if it has a target, and freed if not. */
  function Closed(m: Machine): Machine {
    if m.kernel then Linked(m).(n := m.n + 1) else m
  }

  /** The title line that ended the entry lies ahead of the offset again. */
  function AfterPushBack(d: Dialect, title: string, m: Machine): Machine {
    Closed(m).(status := S, lineptr := " " + title, high := m.offset + |TitleText(d, title)|)
  }

  /** A clean title line is pushed back exactly: the offset returns to where the line starts. */
  lemma PushBackRuns(d: Dialect, src: string, m: Machine, title: string)
    requires Inv(src, m) && m.result == None && m.status == IN
    requires CleanText(d, title) && Holds(src, m.offset, TitleText(d, title))
    ensures Inv(src, AfterPushBack(d, title, m)) && Run(d, src, m) == Run(d, src, AfterPushBack(d, title, m))
  {
    hide Inv, Run, StepInner;
    TitlePushedBack(d, src, m, title);
    StepRuns(d, src, m);
    StepRuns(d, src, Step(d, src, m));
    assert Step(d, src, Step(d, src, m)) == AfterPushBack(d, title, m);
  }

  lemma TitlePushedBack(d: Dialect, src: string, m: Machine, title: string)
    requires Inv(src, m) && m.result == None && m.status == IN
    requires CleanText(d, title) && Holds(src, m.offset, TitleText(d, title))
    ensures Step(d, src, m)
         == m.(status := if m.kernel then A else R, lineptr := " " + title, high := m.offset + |TitleText(d, title)|)
  {
    hide Stripped, NextWord, AfterWord, Holds, InnerState, PushedBack;
    TitleReads(d, src, m, title);
    TitleWordSelects(d);
  }

  /** Behind the last line of a printed entry. */
  function AfterEntry(d: Dialect, e: Entry, m: Machine): Machine
    requires Printable(d, e)
  {
    AfterCommands(d, Commands(e), AfterTitle(d, e.title, m))
  }

  lemma EntryRuns(d: Dialect, src: string, m: Machine, e: Entry)
    requires Inv(src, m) && m.result == None && m.status == S
    requires Printable(d, e) && Holds(src, m.offset, PrintEntry(d, e))
    requires m.high <= m.offset + |TitleText(d, e.title)|
    ensures var r := AfterEntry(d, e, m);
            && Inv(src, r) && Run(d, src, m) == Run(d, src, r)
            && r.status == IN && (r.kernel <==> Bootable(e)) && r.entry == e && r.result == None
            && r.offset == r.high == m.offset + |PrintEntry(d, e)|
            && r.menu == m.menu && r.defaultOs == m.defaultOs && r.delay == m.delay
  {
    hide Inv, Run, Commands, Effects, AfterCommands;
    HoldsSplit(src, m.offset, TitleText(d, e.title), Render(d, Commands(e)));
    TitleRuns(d, src, m, e.title);
    CommandsRun(d, src, AfterTitle(d, e.title, m), Commands(e));
    CommandsRebuild(d, e);
  }

  // ---- all entries -----------------------------------------------------------------------

  function IfBootable(e: Entry): seq<Entry> {
    if Bootable(e) then [e] else []
  }

  /** The entries that are linked: those with a target. */
  function Bootables(es: seq<Entry>): seq<Entry> {
    if es == [] then [] else IfBootable(es[0]) + Bootables(es[1..])
  }

  lemma {:induction false} AllBootable(es: seq<Entry>)
    requires forall e :: e in es ==> Bootable(e)
    ensures Bootables(es) == es
  {
    hide Bootable;
    if es != [] {
      AllBootable(es[1..]);
    }
  }

  lemma BootablesSplit(menu: seq<Entry>, es: seq<Entry>)
    requires es != []
    ensures menu + IfBootable(es[0]) + Bootables(es[1..]) == menu + Bootables(es)
  {
    hide IfBootable;
    LinkedLater(menu, IfBootable(es[0]), Bootables(es[1..]));
  }

  lemma {:induction false} BootablesConcat(menu: seq<Entry>, es: seq<Entry>, e: Entry)
    ensures menu + Bootables(es) + IfBootable(e) == menu + Bootables(es + [e])
    decreases es
  {
    hide IfBootable;
    if es == [] {
      assert Bootables([e]) == IfBootable(e);
      assert es + [e] == [e];
    } else {
      assert (es + [e])[1..] == es[1..] + [e];
      BootablesSplit(menu, es);
      BootablesConcat(menu + IfBootable(es[0]), es[1..], e);
      BootablesSplit(menu, es + [e]);
    }
  }

  lemma LinkedLater<T>(a: seq<T>, b: seq<T>, c: seq<T>)
    ensures a + b + c == a + (b + c)
  {
  }

  lemma LinkedFirst<T>(es: seq<T>)
    ensures [] + es == es
  {
  }

  /** At the end of the text the pending entry is linked or freed, and the result says which. */
  lemma LastEntryRuns(d: Dialect, src: string, m: Machine)
    requires Inv(src, m) && m.result == None && m.status == IN && m.offset == |src|
    ensures var r := Run(d, src, m);
            && r.menu == (if m.kernel then m.menu + [m.entry] else m.menu)
            && r.result == Some(if m.kernel then 1 else 0)
            && r.defaultOs == m.defaultOs && r.delay == m.delay
  {
    hide Inv, Run;
    InvHigh(src, m);
    StepRuns(d, src, m);
    StepRuns(d, src, Step(d, src, m));
    RunEnds(d, src, Step(d, src, Step(d, src, m)));
  }

  /** An entry with the title line behind it: the entry is linked or freed, and that line read again. */
  lemma EntryCloses(d: Dialect, src: string, m: Machine, e: Entry, next: string) returns (r: Machine)
    requires Inv(src, m) && m.result == None && m.status == S && Printable(d, e) && CleanText(d, next)
    requires Holds(src, m.offset, PrintEntry(d, e)) && m.high <= m.offset + |TitleText(d, e.title)|
    requires Holds(src, m.offset + |PrintEntry(d, e)|, TitleText(d, next))
    ensures Inv(src, r) && Run(d, src, m) == Run(d, src, r) && r.result == None && r.status == S
    ensures r.menu == m.menu + IfBootable(e) && r.defaultOs == m.defaultOs && r.delay == m.delay
    ensures r.offset == m.offset + |PrintEntry(d, e)| && r.high == r.offset + |TitleText(d, next)|
  {
    hide Inv, Run, PrintEntry, TitleText, AfterEntry, Printable, Holds, Bootable;
    EntryRuns(d, src, m, e);
    PushBackRuns(d, src, AfterEntry(d, e, m), next);
    r := AfterPushBack(d, next, AfterEntry(d, e, m));
  }

  /** Entries that are followed by another title line are all linked or freed when that line is read again. */
  lemma {:induction false} EntriesRunTo(d: Dialect, src: string, m: Machine, es: seq<Entry>, next: string)
    returns (r: Machine)
    requires Inv(src, m) && m.result == None && m.status == S
    requires (forall e :: e in es ==> Printable(d, e)) && CleanText(d, next)
    requires Holds(src, m.offset, PrintEntries(d, es) + TitleText(d, next))
    requires m.high <= m.offset + |TitleText(d, if es == [] then next else es[0].title)|
    ensures Inv(src, r) && Run(d, src, m) == Run(d, src, r) && r.result == None && r.status == S
    ensures r.menu == m.menu + Bootables(es) && r.defaultOs == m.defaultOs && r.delay == m.delay
    ensures r.offset == m.offset + |PrintEntries(d, es)| && Holds(src, r.offset, TitleText(d, next))
    ensures r.high <= r.offset + |TitleText(d, next)|
    decreases es
  {
    hide Inv, Run, PrintEntry, TitleText, Printable, Holds, Bootable, CleanText;
    if es == [] {
      HoldsSplit(src, m.offset, PrintEntries(d, es), TitleText(d, next));
      r := m;
    } else {
      FirstOfEntries(d, src, m.offset, es, next);
      var m1 := EntryCloses(d, src, m, es[0], if |es| == 1 then next else es[1].title);
      r := EntriesRunTo(d, src, m1, es[1..], next);
      BootablesSplit(m.menu, es);
    }
  }

  lemma PrintStarts(d: Dialect, es: seq<Entry>)
    requires es != [] && forall e :: e in es ==> Printable(d, e)
    ensures PrintEntries(d, es) == PrintEntry(d, es[0]) + PrintEntries(d, es[1..])
  {
  }

  lemma FirstOfEntries(d: Dialect, src: string, offset: nat, es: seq<Entry>, next: string)
    requires es != [] && (forall e :: e in es ==> Printable(d, e)) && CleanText(d, next)
    requires Holds(src, offset, PrintEntries(d, es) + TitleText(d, next))
    ensures var following := if |es| == 1 then next else es[1].title;
            && Printable(d, es[0]) && Holds(src, offset, PrintEntry(d, es[0])) && CleanText(d, following)
            && Holds(src, offset + |PrintEntry(d, es[0])|, TitleText(d, following))
            && Holds(src, offset + |PrintEntry(d, es[0])|, PrintEntries(d, es[1..]) + TitleText(d, next))
  {
    hide PrintEntry, TitleText, Printable, Holds, CleanText;
    var first, rest := PrintEntry(d, es[0]), es[1..];
    PrintStarts(d, es);
    hide PrintEntries;
    assert (first + PrintEntries(d, rest)) + TitleText(d, next) == first + (PrintEntries(d, rest) + TitleText(d, next));
    HoldsSplit(src, offset, first, PrintEntries(d, rest) + TitleText(d, next));
    HoldsSplit(src, offset + |first|, PrintEntries(d, rest), TitleText(d, next));
    if rest != [] {
      NextTitle(d, src, offset + |first|, rest);
    }
  }

  lemma {:induction false} PrintConcat(d: Dialect, es: seq<Entry>, e: Entry)
    requires (forall x :: x in es ==> Printable(d, x)) && Printable(d, e)
    ensures forall x :: x in es + [e] ==> Printable(d, x)
    ensures PrintEntries(d, es + [e]) == PrintEntries(d, es) + PrintEntry(d, e)
  {
    hide PrintEntry, Printable;
    if es != [] {
      assert (es + [e])[1..] == es[1..] + [e];
      PrintConcat(d, es[1..], e);
    }
  }

  /** What a parser returns behind printed entries; without any, kick_fsm returns what it has counted. */
  function ResultBehind(d: Dialect, n: int, es: seq<Entry>): int {
    if es == [] then (if d == MenuLst then 1 else n) else if Bootable(es[|es| - 1]) then 1 else 0
  }

  lemma EntriesRun(d: Dialect, src: string, m: Machine, es: seq<Entry>)
    requires Inv(src, m) && m.result == None && m.status == S && m.high <= m.offset
    requires (forall e :: e in es ==> Printable(d, e)) && Holds(src, m.offset, PrintEntries(d, es))
    requires m.offset + |PrintEntries(d, es)| == |src|
    ensures var r := Run(d, src, m);
            && r.menu == m.menu + Bootables(es) && r.result == Some(ResultBehind(d, m.n, es))
            && r.defaultOs == m.defaultOs && r.delay == m.delay
  {
    if es == [] {
      EmptyRuns(d, src, m);
    } else {
      hide *;
      SomeEntriesRun(d, src, m, es);
    }
  }

  lemma SomeEntriesRun(d: Dialect, src: string, m: Machine, es: seq<Entry>)
    requires Inv(src, m) && m.result == None && m.status == S && m.high <= m.offset && es != []
    requires (forall e :: e in es ==> Printable(d, e)) && Holds(src, m.offset, PrintEntries(d, es))
    requires m.offset + |PrintEntries(d, es)| == |src|
    ensures var r := Run(d, src, m);
            && r.menu == m.menu + Bootables(es) && r.result == Some(ResultBehind(d, m.n, es))
            && r.defaultOs == m.defaultOs && r.delay == m.delay
  {
    hide *;
    var init, e := es[..|es| - 1], es[|es| - 1];
    assert es == init + [e];
    PrintConcat(d, init, e);
    EntriesEnd(d, src, m, init, e);
    BootablesConcat(m.menu, init, e);
    LastDecides(d, m.n, es);
  }

  lemma LastDecides(d: Dialect, n: int, es: seq<Entry>)
    requires es != []
    ensures ResultBehind(d, n, es) == if Bootable(es[|es| - 1]) then 1 else 0
  {
  }

  lemma EmptyRuns(d: Dialect, src: string, m: Machine)
    requires Inv(src, m) && m.result == None && m.status == S && m.offset + |PrintEntries(d, [])| == |src|
    ensures Run(d, src, m) == m.(result := Some(if d == MenuLst then 1 else m.n))
  {
  }

  lemma EntriesEnd(d: Dialect, src: string, m: Machine, init: seq<Entry>, e: Entry)
    requires Inv(src, m) && m.result == None && m.status == S && m.high <= m.offset
    requires (forall x :: x in init ==> Printable(d, x)) && Printable(d, e)
    requires Holds(src, m.offset, PrintEntries(d, init) + PrintEntry(d, e))
    requires m.offset + |PrintEntries(d, init) + PrintEntry(d, e)| == |src|
    ensures var r := Run(d, src, m);
            && r.menu == m.menu + Bootables(init) + IfBootable(e)
            && r.result == Some(if Bootable(e) then 1 else 0)
            && r.defaultOs == m.defaultOs && r.delay == m.delay
  {
    hide *;
    HoldsSplit(src, m.offset, PrintEntries(d, init), PrintEntry(d, e));
    EntryTitle(d, src, m.offset + |PrintEntries(d, init)|, e);
    HoldsJoin(src, m.offset, PrintEntries(d, init), TitleText(d, e.title));
    var r := EntriesRunTo(d, src, m, init, e.title);
    FinalEntryRuns(d, src, r, e);
  }

  lemma FinalEntryRuns(d: Dialect, src: string, m: Machine, e: Entry)
    requires Inv(src, m) && m.result == None && m.status == S
    requires Printable(d, e) && Holds(src, m.offset, PrintEntry(d, e)) && m.offset + |PrintEntry(d, e)| == |src|
    requires m.high <= m.offset + |TitleText(d, e.title)|
    ensures var r := Run(d, src, m);
            && r.menu == m.menu + IfBootable(e)
            && r.result == Some(if Bootable(e) then 1 else 0)
            && r.defaultOs == m.defaultOs && r.delay == m.delay
  {
    hide Inv, Run, TitleText, AfterEntry, Printable, PrintEntry, Holds;
    EntryRuns(d, src, m, e);
    LastEntryRuns(d, src, AfterEntry(d, e, m));
  }

  lemma EntryTitle(d: Dialect, src: string, offset: nat, e: Entry)
    requires Printable(d, e) && Holds(src, offset, PrintEntry(d, e))
    ensures CleanText(d, e.title) && Holds(src, offset, TitleText(d, e.title))
  {
    HoldsSplit(src, offset, TitleText(d, e.title), Render(d, Commands(e)));
  }

  lemma HoldsJoin(src: string, offset: nat, a: string, b: string)
    requires Holds(src, offset, a) && Holds(src, offset + |a|, b)
    ensures Holds(src, offset, a + b)
  {
    assert src[offset..offset + |a + b|] == src[offset..offset + |a|] + src[offset + |a|..offset + |a| + |b|];
  }

  lemma NextTitle(d: Dialect, src: string, offset: nat, es: seq<Entry>)
    requires es != [] && (forall e :: e in es ==> Printable(d, e)) && Holds(src, offset, PrintEntries(d, es))
    ensures CleanText(d, es[0].title) && Holds(src, offset, TitleText(d, es[0].title))
  {
    assert Printable(d, es[0]);
    HoldsSplit(src, offset, PrintEntry(d, es[0]), PrintEntries(d, es[1..]));
    EntryTitle(d, src, offset, es[0]);
  }

  // ---- the header lines of a menu.lst ----------------------------------------------------

  function NumberText(word: string, n: nat): string {
    Line(word, Decimal(n)) + "\n"
  }

  lemma NumberRuns(src: string, m: Machine, n: nat, delay: bool)
    requires Inv(src, m) && m.result == None && m.status == S && m.offset == m.high && n < 0x8000_0000
    requires Holds(src, m.offset, NumberText(if delay then "delay" else "default", n))
    ensures var word := if delay then "delay" else "default";
            var past := Past(m, |NumberText(word, n)|).(lineptr := " " + Decimal(n));
            var r := if delay then past.(delay := n) else past.(defaultOs := n);
            Inv(src, r) && Run(MenuLst, src, m) == Run(MenuLst, src, r)
  {
    hide Inv, Run, StepOuter, Argument, Decimal, Value;
    var word := if delay then "delay" else "default";
    NumberOpens(src, m, word, n);
    DecimalArgument(n);
    ValueOfDecimal(n);
    StepRuns(MenuLst, src, m);
    StepRuns(MenuLst, src, Step(MenuLst, src, m));
  }

  lemma DecimalArgument(n: nat)
    ensures CleanWord(MenuLst, Decimal(n)) && Argument(" " + Decimal(n)) == Decimal(n)
  {
    hide Argument;
    forall c | c in Decimal(n) ensures !IsSpace(c) && c != '#' && c != '\n' && c != '\0' {
      DecimalClean(MenuLst, n, c);
    }
    assert Decimal(n)[0] in Decimal(n) && Decimal(n)[|Decimal(n)| - 1] in Decimal(n);
    WordArgument(Decimal(n));
  }

  lemma NumberOpens(src: string, m: Machine, word: string, n: nat)
    requires Inv(src, m) && m.result == None && m.status == S && m.offset == m.high
    requires (word == "delay" || word == "default") && Holds(src, m.offset, NumberText(word, n))
    ensures Step(MenuLst, src, m) == Past(m, |NumberText(word, n)|).(
              status := if word == "delay" then DLY else DEF, lineptr := " " + Decimal(n))
  {
    hide Stripped, NextWord, AfterWord, Decimal, PushedBack, Holds, Argument, OuterState;
    DecimalArgument(n);
    NumberWord(word);
    CleanLine(MenuLst, word, Decimal(n));
    FirstWord(word, Decimal(n));
    ReadClean(MenuLst, src, m.offset, Line(word, Decimal(n)));
  }

  lemma NumberWord(word: string)
    requires word == "delay" || word == "default"
    ensures CleanWord(MenuLst, word) && OuterState(MenuLst, word) == if word == "delay" then DLY else DEF
  {
  }

  function PrintMenu(defaultOs: nat, delay: nat, es: seq<Entry>): string
    requires forall e :: e in es ==> Printable(MenuLst, e)
  {
    NumberText("default", defaultOs) + (NumberText("delay", delay) + PrintEntries(MenuLst, es))
  }

  lemma PlainMenuParses(defaultOs: nat, delay: nat, es: seq<Entry>, m0: Machine)
    requires (forall e :: e in es ==> Printable(MenuLst, e)) && defaultOs < 0x8000_0000 && delay < 0x8000_0000
    requires m0 == Start(m0.defaultOs, m0.delay)
    ensures var r := Parsed(MenuLst, PrintMenu(defaultOs, delay, es), m0);
            && r.menu == Bootables(es) && r.defaultOs == defaultOs && r.delay == delay
            && r.result == Some(if es != [] && !Bootable(es[|es| - 1]) then 0 else 1)
  {
    hide Inv, Run, PrintMenu, PrintEntries, Printable, Bootable, Bootables, Holds;
    var src := PrintMenu(defaultOs, delay, es);
    var m := HeaderRuns(defaultOs, delay, es, m0);
    EntriesRun(MenuLst, src, m, es);
    LinkedFirst(Bootables(es));
  }

  /** The two numbers in front of the entries are stored. */
  lemma HeaderRuns(defaultOs: nat, delay: nat, es: seq<Entry>, m0: Machine) returns (m: Machine)
    requires (forall e :: e in es ==> Printable(MenuLst, e)) && defaultOs < 0x8000_0000 && delay < 0x8000_0000
    requires m0 == Start(m0.defaultOs, m0.delay)
    ensures var src := PrintMenu(defaultOs, delay, es);
            && Inv(src, m0) && Inv(src, m) && Run(MenuLst, src, m0) == Run(MenuLst, src, m)
            && m.result == None && m.status == S && m.high == m.offset && m.menu == [] && m.n == m0.n
            && m.defaultOs == defaultOs && m.delay == delay
            && Holds(src, m.offset, PrintEntries(MenuLst, es)) && m.offset + |PrintEntries(MenuLst, es)| == |src|
  {
    hide Inv, Run, NumberText, PrintMenu, PrintEntries, Printable, Holds, Decimal;
    var src := PrintMenu(defaultOs, delay, es);
    var first, second := NumberText("default", defaultOs), NumberText("delay", delay);
    StartInv(src, m0.defaultOs, m0.delay);
    MenuParts(defaultOs, delay, es);
    NumberRuns(src, m0, defaultOs, false);
    var m1 := Past(m0, |first|).(lineptr := " " + Decimal(defaultOs), defaultOs := defaultOs);
    NumberRuns(src, m1, delay, true);
    m := Past(m1, |second|).(lineptr := " " + Decimal(delay), delay := delay);
  }

  lemma MenuParts(defaultOs: nat, delay: nat, es: seq<Entry>)
    requires forall e :: e in es ==> Printable(MenuLst, e)
    ensures var src := PrintMenu(defaultOs, delay, es);
            var first, second := NumberText("default", defaultOs), NumberText("delay", delay);
            && Holds(src, 0, first) && Holds(src, |first|, second)
            && Holds(src, |first| + |second|, PrintEntries(MenuLst, es))
            && |first| + |second| + |PrintEntries(MenuLst, es)| == |src|
  {
    hide NumberText, PrintEntries, Printable;
    var src := PrintMenu(defaultOs, delay, es);
    var first, second := NumberText("default", defaultOs), NumberText("delay", delay);
    assert src[0..|src|] == src;
    HoldsSplit(src, 0, first, second + PrintEntries(MenuLst, es));
    HoldsSplit(src, |first|, second, PrintEntries(MenuLst, es));
  }

  /**
   fsm on the text of a menu, with any blank and comment lines between its lines, stores the header
   numbers and links exactly the entries with a target, in order; it returns 0 exactly if the last
   entry has none.
   */
  lemma PrintedMenuParses(defaultOs: nat, delay: nat, es: seq<Entry>, xs: seq<Insert>, m0: Machine)
    requires (forall e :: e in es ==> Printable(MenuLst, e)) && defaultOs < 0x8000_0000 && delay < 0x8000_0000
    requires Insertable(MenuLst, PrintMenu(defaultOs, delay, es), xs) && m0 == Start(m0.defaultOs, m0.delay)
    ensures var r := Parsed(MenuLst, Padded(MenuLst, PrintMenu(defaultOs, delay, es), xs), m0);
            && r.menu == Bootables(es) && r.defaultOs == defaultOs && r.delay == delay
            && r.result == Some(if es != [] && !Bootable(es[|es| - 1]) then 0 else 1)
  {
    hide Run, PrintMenu, Printable, Bootable, Bootables, Insertable, Padded;
    PlainMenuParses(defaultOs, delay, es, m0);
    IdleLinesDoNotMatter(MenuLst, PrintMenu(defaultOs, delay, es), xs, m0);
  }

  /** With a target in every entry, parsing undoes printing. */
  lemma ParseUndoesPrint(defaultOs: nat, delay: nat, es: seq<Entry>, xs: seq<Insert>, m0: Machine)
    requires (forall e :: e in es ==> Printable(MenuLst, e)) && defaultOs < 0x8000_0000 && delay < 0x8000_0000
    requires Insertable(MenuLst, PrintMenu(defaultOs, delay, es), xs) && m0 == Start(m0.defaultOs, m0.delay)
    requires forall e :: e in es ==> Bootable(e)
    ensures var r := Parsed(MenuLst, Padded(MenuLst, PrintMenu(defaultOs, delay, es), xs), m0);
            r.menu == es && r.defaultOs == defaultOs && r.delay == delay && r.result == Some(1)
  {
    hide Inv, Run, PrintMenu, Printable, Bootable, Bootables, Insertable, Padded;
    AllBootable(es);
    PrintedMenuParses(defaultOs, delay, es, xs, m0);
  }

  lemma PlainKicklayoutParses(es: seq<Entry>, m0: Machine)
    requires (forall e :: e in es ==> Printable(Kicklayout, e)) && m0 == Start(m0.defaultOs, m0.delay)
    ensures var r := Parsed(Kicklayout, PrintEntries(Kicklayout, es), m0);
            && r.menu == Bootables(es) && r.defaultOs == m0.defaultOs && r.delay == m0.delay
            && r.result == Some(if es != [] && Bootable(es[|es| - 1]) then 1 else 0)
  {
    hide Inv, Run, PrintEntries, Printable, Bootable, Bootables;
    var src := PrintEntries(Kicklayout, es);
    StartInv(src, m0.defaultOs, m0.delay);
    assert src[0..|src|] == src;
    EntriesRun(Kicklayout, src, m0, es);
    LinkedFirst(Bootables(es));
  }

  /** kick_fsm on the text of a Kicklayout, with blank and comment lines; unlike fsm it returns 0 for
      an empty one. */
  lemma PrintedKicklayoutParses(es: seq<Entry>, xs: seq<Insert>, m0: Machine)
    requires (forall e :: e in es ==> Printable(Kicklayout, e)) && m0 == Start(m0.defaultOs, m0.delay)
    requires Insertable(Kicklayout, PrintEntries(Kicklayout, es), xs)
    ensures var r := Parsed(Kicklayout, Padded(Kicklayout, PrintEntries(Kicklayout, es), xs), m0);
            && r.menu == Bootables(es) && r.defaultOs == m0.defaultOs && r.delay == m0.delay
            && r.result == Some(if es != [] && Bootable(es[|es| - 1]) then 1 else 0)
  {
    hide Run, PrintEntries, Printable, Bootable, Bootables, Insertable, Padded;
    PlainKicklayoutParses(es, m0);
    IdleLinesDoNotMatter(Kicklayout, PrintEntries(Kicklayout, es), xs, m0);
  }

  /** The same for the entries of a Kicklayout that all have a kernel. */
  lemma KickParseUndoesPrint(es: seq<Entry>, xs: seq<Insert>, m0: Machine)
    requires (forall e :: e in es ==> Printable(Kicklayout, e) && Bootable(e)) && es != []
    requires Insertable(Kicklayout, PrintEntries(Kicklayout, es), xs) && m0 == Start(m0.defaultOs, m0.delay)
    ensures var r := Parsed(Kicklayout, Padded(Kicklayout, PrintEntries(Kicklayout, es), xs), m0);
            r.menu == es && r.defaultOs == m0.defaultOs && r.delay == m0.delay && r.result == Some(1)
  {
    hide Inv, Run, PrintEntries, Printable, Bootable, Bootables, Insertable, Padded;
    AllBootable(es);
    PrintedKicklayoutParses(es, xs, m0);
  }
}
