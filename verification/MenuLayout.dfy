/**
 Blank lines and comment lines: wherever they are put between the lines of a menu file, either
 parser makes the same of it.
 */
module MenuLayout {
  import opened Options
  import opened Support
  import opened MenuText
  import opened MenuMachine

  function CommentChar(d: Dialect): char {
    if d == MenuLst then '#' else ';'
  }

  /** Blanks, then nothing, or the comment character and any text. */
  ghost predicate IdleLine(d: Dialect, line: string) {
    '\n' !in line && '\0' !in line
    && exists k :: 0 <= k <= |line| && (forall i :: 0 <= i < k ==> line[i] in " \t\r\U{0B}\U{0C}")
                   && (k < |line| ==> line[k] == CommentChar(d))
  }

  predicate LineStart(text: string, at: nat) {
    at <= |text| && (at == 0 || text[at - 1] == '\n')
  }

  /** A line put in front of the line that starts at a position, or behind the last line. */
  datatype Insert = Insert(at: nat, line: string)

  function Inserted(text: string, x: Insert): string
    requires x.at <= |text|
  {
    text[..x.at] + (x.line + "\n") + text[x.at..]
  }

  ghost predicate Insertable(d: Dialect, text: string, xs: seq<Insert>)
    decreases xs
  {
    xs == [] || (LineStart(text, xs[0].at) && IdleLine(d, xs[0].line) && Insertable(d, Inserted(text, xs[0]), xs[1..]))
  }

  /** The text with all of them put in, one after the other. */
  ghost function Padded(d: Dialect, text: string, xs: seq<Insert>): string
    requires Insertable(d, text, xs)
    decreases xs
  {
    if xs == [] then text else Padded(d, Inserted(text, xs[0]), xs[1..])
  }

  // ---- the same line elsewhere -----------------------------------------------------------

  lemma IdleStrips(d: Dialect, line: string)
    requires IdleLine(d, line)
    ensures Stripped(d, line + "\n") == ""
  {
    var k :| 0 <= k <= |line| && (forall i :: 0 <= i < k ==> line[i] in " \t\r\U{0B}\U{0C}")
             && (k < |line| ==> line[k] == CommentChar(d));
    var raw := line + "\n";
    var n := if k < |line| then k else |raw|;
    forall i | 0 <= i < n ensures raw[i] != CommentChar(d) && IsSpace(raw[i]) {
    }
    IndexOfIs(raw, CommentChar(d), n);
    assert raw[..n] == raw[..n] + "" + "";
    TrimIs(raw[..n], raw[..n], "", "");
  }

  /** A line that stands in two texts ends in both at the same distance. */
  lemma SameLine(src: string, src': string, i: nat, i': nat)
    requires i < |src| && i' < |src'|
    requires var n := LineEnd(src, i) - i;
             && i' + n <= |src'| && src'[i'..i' + n] == src[i..i + n]
             && (src[i + n - 1] == '\n' || i' + n == |src'|)
    ensures LineEnd(src', i') - i' == LineEnd(src, i) - i
  {
    var n := LineEnd(src, i) - i;
    forall k | i' <= k < i' + n ensures src'[k] == src[i + k - i'] {
      assert src'[i'..i' + n][k - i'] == src[i..i + n][k - i'];
    }
    LineEndIs(src', i', i' + n);
  }

  // ---- parsing with and without one inserted line ----------------------------------------

  /** The text a ++ b without the line, and with it. */
  datatype Split = Split(a: string, line: string, b: string)

  function Plain(x: Split): string {
    x.a + x.b
  }

  function Long(x: Split): string {
    x.a + (x.line + "\n") + x.b
  }

  ghost predicate Good(d: Dialect, x: Split) {
    (x.a == "" || x.a[|x.a| - 1] == '\n') && IdleLine(d, x.line)
  }

  /** All a parser holds but where it is. */
  predicate Alike(m: Machine, m': Machine) {
    m' == m.(offset := m'.offset, high := m'.high, started := m'.started, starts := m'.starts)
  }

  /** Both parsers are in front of the inserted line, or the second one is behind it; then the first
      may have been pushed back to the newline before. */
  predicate Twins(x: Split, m: Machine, m': Machine) {
    Alike(m, m')
    && ((m.offset <= |x.a| && m'.offset == m.offset)
        || (m.offset + 1 >= |x.a| && m'.offset == m.offset + |x.line| + 1))
  }

  lemma ReadsInFront(x: Split, i: nat)
    requires i < |x.a| && x.a[|x.a| - 1] == '\n'
    ensures var e := LineEnd(Plain(x), i);
            && e <= |x.a| && LineEnd(Long(x), i) == e && Long(x)[i..e] == Plain(x)[i..e]
  {
    var e := LineEnd(x.a, i);
    assert Plain(x)[i..e] == x.a[i..e] == Long(x)[i..e];
    assert x.a[e - 1] == '\n';
    SameLine(x.a, Plain(x), i, i);
    SameLine(x.a, Long(x), i, i);
  }

  lemma ReadsBehind(x: Split, i: nat)
    requires |x.a| <= i + 1 && i < |Plain(x)| && (x.a == "" || x.a[|x.a| - 1] == '\n')
    ensures var e, k := LineEnd(Plain(x), i), |x.line| + 1;
            && i + k < |Long(x)| && LineEnd(Long(x), i + k) == e + k && Long(x)[i + k..e + k] == Plain(x)[i..e]
            && (i < |x.a| ==> e == |x.a| && Plain(x)[i..e] == "\n")
  {
    hide Plain, Long;
    var e, k := LineEnd(Plain(x), i), |x.line| + 1;
    SameBehind(x, i);
    if i < |x.a| {
      LineEndIs(Plain(x), i, |x.a|);
    }
    var p, q := Plain(x)[i..e], Long(x)[i + k..e + k];
    forall j | 0 <= j < |p| ensures p[j] == q[j] {
      SameBehind(x, i + j);
    }
    SameLine(Plain(x), Long(x), i, i + k);
  }

  lemma SameBehind(x: Split, i: nat)
    requires |x.a| <= i + 1 && i < |Plain(x)| && (x.a == "" || x.a[|x.a| - 1] == '\n')
    ensures var k := |x.line| + 1;
            && |Long(x)| == |Plain(x)| + k && |x.a| <= |Plain(x)| && Long(x)[i + k] == Plain(x)[i]
            && (i < |x.a| ==> Plain(x)[i] == '\n')
  {
    if i >= |x.a| {
      assert Plain(x)[i] == x.b[i - |x.a|];
    }
  }

  lemma ReadsInserted(d: Dialect, x: Split)
    requires Good(d, x)
    ensures var e := |x.a| + |x.line| + 1;
            |x.a| < |Long(x)| && LineEnd(Long(x), |x.a|) == e && Stripped(d, Long(x)[|x.a|..e]) == ""
  {
    var e := |x.a| + |x.line| + 1;
    assert Long(x)[|x.a|..e] == x.line + "\n";
    forall i | |x.a| <= i < e - 1 ensures Long(x)[i] != '\n' {
      assert Long(x)[i] == x.line[i - |x.a|];
    }
    LineEndIs(Long(x), |x.a|, e);
    IdleStrips(d, x.line);
  }

  /** Only the states S and IN look at the text. */
  predicate Reads(s: Status) {
    s == S || s == IN
  }

  lemma BlindTwins(d: Dialect, x: Split, m: Machine, m': Machine)
    requires Inv(Plain(x), m) && Inv(Long(x), m') && m.result == None && Twins(x, m, m') && !Reads(m.status)
    ensures Twins(x, Step(d, Plain(x), m), Step(d, Long(x), m'))
  {
    hide Inv, StepArgument, StepRoot, StepTitle, StepNumber;
    AlikeArguments(m, m');
    AlikeLines(m, m');
  }

  lemma AlikeArguments(m: Machine, m': Machine)
    requires Alike(m, m')
    ensures Alike(StepArgument(m), StepArgument(m'))
    ensures StepArgument(m).offset == m.offset && StepArgument(m').offset == m'.offset
  {
    hide Argument, Remainder;
  }

  lemma AlikeLines(m: Machine, m': Machine)
    requires Alike(m, m')
    ensures Alike(StepRoot(m), StepRoot(m')) && StepRoot(m).offset == m.offset && StepRoot(m').offset == m'.offset
    ensures Alike(StepTitle(m), StepTitle(m')) && StepTitle(m).offset == m.offset && StepTitle(m').offset == m'.offset
    ensures Alike(StepNumber(m), StepNumber(m')) && StepNumber(m).offset == m.offset && StepNumber(m').offset == m'.offset
  {
    hide Argument, RootDevice, Trim, Signed, Value;
  }

  /** The next line of both texts is the same, or both are at the end. */
  predicate SameNext(x: Split, i: nat, i': nat)
    requires i <= |Plain(x)| && i' <= |Long(x)|
  {
    if i == |Plain(x)| then i' == |Long(x)| else
      i' < |Long(x)|
      && var e, e' := LineEnd(Plain(x), i), LineEnd(Long(x), i');
         && e' - i' == e - i && Long(x)[i'..e'] == Plain(x)[i..e]
         && (i' == i ==> e <= |x.a|) && (i < |x.a| && i' != i ==> e == |x.a| && Plain(x)[i..e] == "\n")
  }

  lemma Lengths(x: Split)
    ensures |x.a| <= |Plain(x)| && |Long(x)| == |Plain(x)| + |x.line| + 1
  {
  }

  lemma NextIsSame(d: Dialect, x: Split, m: Machine, m': Machine)
    requires m.offset <= |Plain(x)| && m'.offset <= |Long(x)|
    requires Twins(x, m, m') && Good(d, x) && (m.offset < |x.a| || m'.offset != m.offset)
    ensures SameNext(x, m.offset, m'.offset)
  {
    hide IdleLine, Alike, Plain, Long;
    Lengths(x);
    if m.offset < |Plain(x)| {
      if m'.offset == m.offset {
        ReadsInFront(x, m.offset);
      } else {
        ReadsBehind(x, m.offset);
      }
    }
  }

  lemma OuterTwins(d: Dialect, x: Split, m: Machine, m': Machine)
    requires m.offset <= |Plain(x)| && m'.offset <= |Long(x)| && Twins(x, m, m')
    requires SameNext(x, m.offset, m'.offset)
    ensures Twins(x, StepOuter(d, Plain(x), m), StepOuter(d, Long(x), m'))
  {
    hide Stripped, NextWord, AfterWord, OuterState, Plain, Long;
  }

  lemma InnerTwins(d: Dialect, x: Split, m: Machine, m': Machine)
    requires 1 <= m.offset <= |Plain(x)| && 1 <= m'.offset <= |Long(x)| && Twins(x, m, m')
    requires SameNext(x, m.offset, m'.offset)
    ensures Twins(x, StepInner(d, Plain(x), m), StepInner(d, Long(x), m'))
  {
    hide Stripped, NextWord, AfterWord, InnerState, Plain, Long;
    if m.offset < |Plain(x)| {
      StrippedFits(d, Plain(x)[m.offset..LineEnd(Plain(x), m.offset)]);
      BareNewline(d);
    }
  }

  /** At the same text both parsers take the same step, whatever they read. */
  lemma SeeingTwins(d: Dialect, x: Split, m: Machine, m': Machine)
    requires Inv(Plain(x), m) && Inv(Long(x), m') && m.result == None && Twins(x, m, m') && Reads(m.status)
    requires Good(d, x) && (m.offset < |x.a| || m'.offset != m.offset)
    ensures Twins(x, Step(d, Plain(x), m), Step(d, Long(x), m'))
  {
    hide StepOuter, StepInner, Inv, SameNext, Good, Plain, Long;
    InvOffset(Plain(x), m);
    InvOffset(Long(x), m');
    NextIsSame(d, x, m, m');
    if m.status == S {
      OuterTwins(d, x, m, m');
    } else {
      InnerTwins(d, x, m, m');
    }
  }

  /** The second parser reads the inserted line, and nothing comes of it. */
  lemma PassesInserted(d: Dialect, x: Split, m: Machine, m': Machine)
    requires Inv(Plain(x), m) && Inv(Long(x), m') && m.result == None && Twins(x, m, m') && Reads(m.status)
    requires Good(d, x) && m.offset == m'.offset == |x.a|
    ensures Twins(x, m, Step(d, Long(x), m'))
  {
    hide Stripped, NextWord, AfterWord, InnerState, OuterState, PushedBack, IdleLine;
    ReadsInserted(d, x);
  }

  /** What a caller of the parsers gets. */
  predicate SameOutcome(r: Machine, r': Machine) {
    r.menu == r'.menu && r.result == r'.result && r.defaultOs == r'.defaultOs && r.delay == r'.delay
  }

  lemma {:induction false} TwinsRun(d: Dialect, x: Split, m: Machine, m': Machine)
    requires Inv(Plain(x), m) && Inv(Long(x), m') && Good(d, x) && Twins(x, m, m')
    ensures SameOutcome(Run(d, Plain(x), m), Run(d, Long(x), m'))
    decreases |Long(x)| - m'.high, |Long(x)| - m'.offset, Rank(m'.status), m'.result.None?
  {
    hide Inv, Step, Good, IdleLine;
    if m.result.Some? {
      RunEnds(d, Plain(x), m);
      RunEnds(d, Long(x), m');
    } else {
      StepKeeps(d, Long(x), m');
      StepRuns(d, Long(x), m');
      if Reads(m.status) && m.offset == m'.offset == |x.a| {
        PassesInserted(d, x, m, m');
        TwinsRun(d, x, m, Step(d, Long(x), m'));
      } else {
        if Reads(m.status) {
          SeeingTwins(d, x, m, m');
        } else {
          BlindTwins(d, x, m, m');
        }
        StepRuns(d, Plain(x), m);
        TwinsRun(d, x, Step(d, Plain(x), m), Step(d, Long(x), m'));
      }
    }
  }

  /** Blank and comment lines anywhere between the lines of any text leave the outcome as it is. */
  lemma {:induction false} IdleLinesDoNotMatter(d: Dialect, text: string, xs: seq<Insert>, m0: Machine)
    requires Insertable(d, text, xs) && m0 == Start(m0.defaultOs, m0.delay)
    ensures SameOutcome(Parsed(d, text, m0), Parsed(d, Padded(d, text, xs), m0))
    decreases xs
  {
    hide Run, IdleLine;
    StartInv(text, m0.defaultOs, m0.delay);
    if xs != [] {
      var x := Split(text[..xs[0].at], xs[0].line, text[xs[0].at..]);
      assert Plain(x) == text;
      StartInv(Long(x), m0.defaultOs, m0.delay);
      TwinsRun(d, x, m0, m0);
      IdleLinesDoNotMatter(d, Inserted(text, xs[0]), xs[1..], m0);
    }
  }
}
