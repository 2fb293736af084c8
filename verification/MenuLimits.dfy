/**
 Where the menu parsers do not do what a menu file seems to ask: a title line whose push-back
 misses its start, and a menu whose entries are linked but reported as absent.
 */
module MenuLimits {
  import opened Options
  import opened Support
  import opened MenuText
  import opened MenuMachine
  import opened MenuLayout
  import opened MenuRoundTrip

  // ---- the push-back of a title line -----------------------------------------------------

  /** The part of a line in front of its comment. */
  function Code(d: Dialect, line: string): string {
    line[..IndexOf(line, CommentChar(d))]
  }

  lemma StrippedIsTrimmedCode(d: Dialect, line: string)
    ensures Stripped(d, line) == Trim(Code(d, line)) && |Stripped(d, line)| <= |Code(d, line)|
    ensures Trimmed(Stripped(d, line)) && CommentChar(d) !in Stripped(d, line)
  {
    StrippedIsTrim(d, line);
    hide Trim, Lead, AllSpace, Stripped, Code;
    TrimSplits(Code(d, line));
    CodeHasNoComment(d, line);
    TrimIsPart(Code(d, line));
  }

  lemma StrippedIsTrim(d: Dialect, line: string)
    ensures Stripped(d, line) == Trim(Code(d, line))
  {
  }

  lemma TrimIsPart(s: string)
    ensures forall c :: c in Trim(s) ==> c in s
  {
    hide Trim, Lead, AllSpace;
    var k := Lead(s);
    TrimSplits(s);
    assert forall c :: c in s[k..k + |Trim(s)|] ==> c in s;
  }

  lemma CodeHasNoComment(d: Dialect, line: string)
    ensures CommentChar(d) !in Code(d, line)
  {
  }

  /** The part of a title line that state S reads again: as long as its text, and one more. */
  function Tail(d: Dialect, raw: string): string {
    var back := |raw| - (|Stripped(d, raw)| + 1);
    if back < 0 then raw else raw[back..]
  }

  /** What state S makes of it. */
  function Reread(d: Dialect, raw: string): string {
    Stripped(d, Tail(d, raw))
  }

  predicate Drops(d: Dialect, c: char) {
    IsSpace(c) || c == CommentChar(d)
  }

  /** The text with one blank or the start of a comment behind it, or with one blank in front. */
  predicate Repeats(d: Dialect, text: string, tail: string) {
    && |tail| == |text| + 1
    && ((tail[..|text|] == text && Drops(d, tail[|text|])) || (IsSpace(tail[0]) && tail[1..] == text))
  }

  /** A string one character longer than a stripped text strips to that text exactly if it repeats it. */
  lemma StripsToIff(d: Dialect, text: string, tail: string)
    requires |tail| == |text| + 1 && text != "" && Trimmed(text) && CommentChar(d) !in text
    ensures Stripped(d, tail) == text <==> Repeats(d, text, tail)
  {
    hide Trim, Lead;
    StrippedIsTrimmedCode(d, tail);
    TrimSplits(Code(d, tail));
    if Stripped(d, tail) == text {
      StripsOff(d, text, tail);
    } else if Repeats(d, text, tail) {
      StripsTo(d, text, tail);
    }
  }

  lemma StripsOff(d: Dialect, text: string, tail: string)
    requires |tail| == |text| + 1 && text != "" && Stripped(d, tail) == text
    ensures Repeats(d, text, tail)
  {
    hide Trim, Lead;
    StrippedIsTrimmedCode(d, tail);
    var u := Code(d, tail);
    TrimSplits(u);
    if Lead(u) == 0 {
      assert tail[..|text|] == u[..|text|] == text;
      if |u| > |text| {
        assert IsSpace(u[|text|..][0]);
      }
    } else {
      assert u == tail && IsSpace(u[..1][0]);
    }
  }

  lemma StripsTo(d: Dialect, text: string, tail: string)
    requires text != "" && Trimmed(text) && CommentChar(d) !in text && Repeats(d, text, tail)
    ensures Stripped(d, tail) == text
  {
    hide Trim, Lead;
    var n := |text|;
    if tail[..n] == text && tail[n] == CommentChar(d) {
      IndexOfIs(tail, CommentChar(d), n);
      TrimIs(Code(d, tail), "", text, "");
    } else {
      IndexOfIs(tail, CommentChar(d), n + 1);
      if tail[..n] == text && IsSpace(tail[n]) {
        TrimIs(Code(d, tail), "", text, [tail[n]]);
      } else {
        TrimIs(Code(d, tail), [tail[0]], text, "");
      }
    }
  }

  /**
   A pushed-back line reads the same again exactly if it is nothing but its text, or if it ends
   with that text and one blank (the newline) or comment character, or with one blank and that
   text; more blanks, a carriage return or a comment behind the text break it, unless the comment
   itself ends so.
   */
  lemma RereadsSameIff(d: Dialect, raw: string)
    requires Stripped(d, raw) != ""
    ensures var text := Stripped(d, raw);
            && |text| <= |raw|
            && (Reread(d, raw) == text <==> |raw| == |text| || Repeats(d, text, raw[|raw| - (|text| + 1)..]))
  {
    hide Trim, Stripped, Code, Repeats;
    StrippedIsTrimmedCode(d, raw);
    CodeLength(d, raw);
    var text := Stripped(d, raw);
    if |raw| > |text| {
      StripsToIff(d, text, raw[|raw| - (|text| + 1)..]);
    }
  }

  lemma CodeLength(d: Dialect, raw: string)
    ensures |Code(d, raw)| <= |raw|
  {
  }

  /** The machine behind a title line that ended an entry. */
  function Resumed(d: Dialect, m: Machine, e: nat, seen: string, line: string): Machine {
    var state := if seen == "" then S else OuterState(d, NextWord(seen));
    Closed(m).(status := state, offset := e, high := e,
               lineptr := if state == S then AfterWord(line) else AfterWord(seen))
  }

  /** Outside entries again, with the offset moved back by the length of line and one more. */
  function ReadAgain(m: Machine, line: string, e: nat): Machine
    requires |line| < e
  {
    Closed(m).(status := S, lineptr := AfterWord(line), offset := e - (|line| + 1), high := e)
  }

  /** State IN meets a title line, the entry is linked or freed, and state S stands at the push-back. */
  lemma PushBackSteps(d: Dialect, src: string, m: Machine)
    requires Inv(src, m) && m.result == None && m.status == IN && m.offset < |src|
    requires var line := Stripped(d, src[m.offset..LineEnd(src, m.offset)]);
             line != "" && NextWord(line) == TitleWord(d)
    ensures var e := LineEnd(src, m.offset);
            var line := Stripped(d, src[m.offset..e]);
            && |line| < e && m.offset - 1 <= e - (|line| + 1)
            && Inv(src, ReadAgain(m, line, e)) && Run(d, src, m) == Run(d, src, ReadAgain(m, line, e))
  {
    hide Inv, Run, Stripped, NextWord, AfterWord, PushedBack, Step, ReadAgain, LineEnd;
    InTheMiddle(src, m);
    PushBackLands(d, src, m.offset);
    TitleIsMet(d, src, m);
    StepRuns(d, src, m);
    StepRuns(d, src, Step(d, src, m));
    EntryIsClosed(d, src, m, Step(d, src, m), Stripped(d, src[m.offset..LineEnd(src, m.offset)]), LineEnd(src, m.offset));
  }

  lemma EntryIsClosed(d: Dialect, src: string, m: Machine, met: Machine, line: string, e: nat)
    requires Inv(src, met) && met.result == None && |line| < e
    requires met == m.(status := if m.kernel then A else R, lineptr := AfterWord(line),
                       offset := e - (|line| + 1), high := e)
    ensures Step(d, src, met) == ReadAgain(m, line, e)
  {
    hide Inv, AfterWord, StepOuter, StepInner, StepArgument, StepRoot, StepTitle, StepNumber;
  }

  lemma TitleIsMet(d: Dialect, src: string, m: Machine)
    requires Inv(src, m) && m.result == None && m.status == IN && m.offset < |src|
    requires var line := Stripped(d, src[m.offset..LineEnd(src, m.offset)]);
             line != "" && NextWord(line) == TitleWord(d) && |line| < LineEnd(src, m.offset)
    ensures var e := LineEnd(src, m.offset);
            var line := Stripped(d, src[m.offset..e]);
            Step(d, src, m) == m.(status := if m.kernel then A else R, lineptr := AfterWord(line),
                                  offset := e - (|line| + 1), high := e)
  {
    hide Stripped, NextWord, AfterWord, InnerState, PushedBack;
    TitleWordSelects(d);
  }

  /** State S reads what was pushed back; if that begins with the newline before, it reads on. */
  lemma PushedBackRead(d: Dialect, src: string, m: Machine, start: nat, e: nat)
    requires Inv(src, m) && m.result == None && m.status == S && m.high == e
    requires 0 < start < |src| && e == LineEnd(src, start) && src[start - 1] == '\n'
    requires start - 1 <= m.offset < e
    ensures var seen := Stripped(d, src[if m.offset < start then start else m.offset..e]);
            var state := if seen == "" then S else OuterState(d, NextWord(seen));
            var r := m.(status := state, offset := e, lineptr := if state == S then m.lineptr else AfterWord(seen));
            Inv(src, r) && Run(d, src, m) == Run(d, src, r)
    decreases e - m.offset
  {
    hide Inv, Run, Stripped, NextWord, AfterWord, OuterState, PushedBack;
    StepRuns(d, src, m);
    if m.offset < start {
      LineEndIs(src, m.offset, start);
      assert src[m.offset..start] == "\n";
      BareNewline(d);
      PushedBackRead(d, src, m.(offset := start), start, e);
    } else {
      LineEndIs(src, m.offset, e);
    }
  }

  /** From a title line inside an entry to the next unread line: the entry is linked or freed, and
      state S has seen Reread of the title line in place of it. */
  lemma PushBackResumes(d: Dialect, src: string, m: Machine) returns (r: Machine)
    requires Inv(src, m) && m.result == None && m.status == IN && m.offset < |src|
    requires var line := Stripped(d, src[m.offset..LineEnd(src, m.offset)]);
             line != "" && NextWord(line) == TitleWord(d)
    ensures var e := LineEnd(src, m.offset);
            var raw := src[m.offset..e];
            && r == Resumed(d, m, e, Reread(d, raw), Stripped(d, raw))
            && Inv(src, r) && Run(d, src, m) == Run(d, src, r)
  {
    hide Inv, Run, Stripped, NextWord, AfterWord, OuterState;
    var e := LineEnd(src, m.offset);
    var raw := src[m.offset..e];
    var line := Stripped(d, raw);
    InTheMiddle(src, m);
    PushBackSteps(d, src, m);
    var m2 := ReadAgain(m, line, e);
    PushedBackRead(d, src, m2, m.offset, e);
    assert m2.offset >= m.offset ==> src[m2.offset..e] == raw[m2.offset - m.offset..];
    r := Resumed(d, m, e, Reread(d, raw), line);
  }

  lemma InTheMiddle(src: string, m: Machine)
    requires Inv(src, m) && m.status == IN && m.offset < |src|
    ensures 0 < m.offset == m.high && src[m.offset - 1] == '\n'
  {
  }

  // ---- what becomes of the title ---------------------------------------------------------

  /** The blanks between the first word of a line and what follows it: a tab ends the word only if
      no space comes later. */
  predicate Separates(gap: string, rest: string) {
    AllSpace(gap) && gap != "" && (gap[0] == ' ' || (gap[0] == '\t' && ' ' !in gap + rest))
  }

  /** Blanks, and then nothing or a comment. */
  predicate Trails(d: Dialect, t: string) {
    AllSpace(t[..IndexOf(t, CommentChar(d))])
  }

  /** Blanks, the title word, a gap, the title, and nothing more but blanks and a comment. */
  predicate TitleParts(d: Dialect, title: string, lead: string, gap: string, rest: string) {
    AllSpace(lead) && Separates(gap, title) && Trails(d, rest)
  }

  /** The line names the title, however it is spaced. */
  ghost predicate Carries(d: Dialect, title: string, line: string) {
    exists lead, gap, rest :: TitleParts(d, title, lead, gap, rest)
                              && line == lead + TitleWord(d) + gap + title + rest
  }

  /** What a line opens an entry with: nothing if its first word is not the title word. */
  function TitleOf(d: Dialect, stripped: string): string {
    if NextWord(stripped) == TitleWord(d) then Trim(AfterWord(stripped)) else ""
  }

  lemma NoSpaceIn(d: Dialect, s: string)
    requires AllSpace(s)
    ensures CommentChar(d) !in s
  {
  }

  lemma CodeOfParts(d: Dialect, title: string, lead: string, gap: string, rest: string)
    requires TitleParts(d, title, lead, gap, rest) && CommentChar(d) !in title
    ensures var k := IndexOf(rest, CommentChar(d));
            Code(d, lead + TitleWord(d) + gap + title + rest) == lead + (TitleWord(d) + gap + title) + rest[..k]
  {
    hide Trails, Separates, AllSpace, IndexOf, TitleWord;
    PartsHaveNoComment(d, title, lead, gap);
    CodeBehind(d, lead + TitleWord(d) + gap + title, rest);
    Regroup(lead, TitleWord(d), gap, title);
  }

  /** What has no comment is code, and then the code of the rest follows. */
  lemma CodeBehind(d: Dialect, first: string, rest: string)
    requires CommentChar(d) !in first
    ensures Code(d, first + rest) == first + rest[..IndexOf(rest, CommentChar(d))]
  {
    hide IndexOf;
    var line, k := first + rest, IndexOf(rest, CommentChar(d));
    forall i | 0 <= i < |first| + k ensures line[i] != CommentChar(d) {
      assert i < |first| ==> first[i] in first;
    }
    IndexOfIs(line, CommentChar(d), |first| + k);
  }

  lemma Regroup(a: string, b: string, c: string, e: string)
    ensures a + b + c + e == a + (b + c + e)
  {
  }

  lemma PartsHaveNoComment(d: Dialect, title: string, lead: string, gap: string)
    requires AllSpace(lead) && Separates(gap, title) && CommentChar(d) !in title
    ensures CommentChar(d) !in lead + TitleWord(d) + gap + title
  {
    NoSpaceIn(d, lead);
    NoSpaceIn(d, gap);
    TitleWordSelects(d);
  }

  lemma WordOfParts(d: Dialect, title: string, gap: string)
    requires Separates(gap, title)
    ensures var line := TitleWord(d) + gap + title;
            NextWord(line) == TitleWord(d) && AfterWord(line) == gap + title
  {
    var w := TitleWord(d);
    var line := w + gap + title;
    TitleWordSelects(d);
    BlankFree(w);
    if gap[0] == ' ' {
      IndexOfIs(line, ' ', |w|);
    } else {
      forall i | 0 <= i < |line| ensures line[i] != ' ' {
        if i >= |w| {
          assert line[i] == (gap + title)[i - |w|] && (gap + title)[i - |w|] in gap + title;
        }
      }
      IndexOfIs(line, ' ', |line|);
      IndexOfIs(line, '\t', |w|);
    }
    assert line == w + (gap + title);
  }

  /** A line that carries a title is read as it. */
  lemma CarriedIsRead(d: Dialect, title: string, line: string)
    requires title != "" && Trimmed(title) && CommentChar(d) !in title && Carries(d, title, line)
    ensures TitleOf(d, Stripped(d, line)) == title
  {
    hide Trim, NextWord, AfterWord, Code, IndexOf, Stripped, Trimmed;
    var lead, gap, rest :| TitleParts(d, title, lead, gap, rest) && line == lead + TitleWord(d) + gap + title + rest;
    var stripped, k := TitleWord(d) + gap + title, IndexOf(rest, CommentChar(d));
    CodeOfParts(d, title, lead, gap, rest);
    StrippedIsTrimmedCode(d, line);
    EndsTrimmed(d, gap, title);
    TrimIs(Code(d, line), lead, stripped, rest[..k]);
    WordOfParts(d, title, gap);
    assert gap + title == gap + title + "";
    TrimIs(gap + title, gap, title, "");
  }

  lemma EndsTrimmed(d: Dialect, gap: string, title: string)
    requires title != "" && Trimmed(title)
    ensures Trimmed(TitleWord(d) + gap + title)
  {
    var line := TitleWord(d) + gap + title;
    assert line[|line| - 1] == title[|title| - 1];
  }

  /** A line that is read as a title carries it. */
  lemma ReadIsCarried(d: Dialect, title: string, line: string)
    requires title != "" && TitleOf(d, Stripped(d, line)) == title
    ensures Carries(d, title, line)
  {
    hide Trim, Lead, Code, IndexOf, NextWord, AfterWord, Separates, Trails, AllSpace, Stripped, Carries, Trimmed;
    StrippedIsTrimmedCode(d, line);
    var text := Stripped(d, line);
    var lead, rest := LineAround(d, line);
    var after := AfterWord(text);
    WordsRejoin(text);
    TrimSplits(after);
    TitleEnds(text, |TitleWord(d)|);
    var gap := after[..Lead(after)];
    GapSeparates(d, text, gap, title);
    Nested(lead, TitleWord(d), gap, title, rest);
    PartsCarry(d, title, lead, gap, rest);
  }

  lemma Nested(a: string, b: string, c: string, e: string, f: string)
    ensures a + (b + (c + e)) + f == a + b + c + e + f
  {
  }

  lemma PartsCarry(d: Dialect, title: string, lead: string, gap: string, rest: string)
    requires TitleParts(d, title, lead, gap, rest)
    ensures Carries(d, title, lead + TitleWord(d) + gap + title + rest)
  {
    hide TitleParts;
  }

  /** What stands around the stripped text of a line. */
  lemma LineAround(d: Dialect, line: string) returns (lead: string, rest: string)
    ensures line == lead + Stripped(d, line) + rest && AllSpace(lead) && Trails(d, rest)
  {
    hide Trim, Lead, Trails, IndexOf;
    StrippedIsTrimmedCode(d, line);
    var text, code := Stripped(d, line), Code(d, line);
    TrimSplits(code);
    var k := Lead(code);
    lead, rest := code[..k], line[k + |text|..];
    CodeTrails(d, line, k + |text|);
  }

  lemma NoBlankEnd(text: string, n: nat)
    requires Trimmed(text) && n <= |text| && text != "" && AllSpace(text[n..])
    ensures n == |text|
  {
    var end := text[n..];
    assert end + [] == end;
  }

  /** A stripped text ends with its title. */
  lemma TitleEnds(text: string, n: nat)
    requires n <= |text| && Trimmed(text) && Trim(text[n..]) != ""
    ensures var after := text[n..];
            after == after[..Lead(after)] + Trim(after)
  {
    hide Trim, Lead, Trimmed, AllSpace;
    var after := text[n..];
    var k := Lead(after) + |Trim(after)|;
    TrimSplits(after);
    assert after[k..] == text[n + k..];
    NoBlankEnd(text, n + k);
    assert after[..k] == after;
  }

  lemma GapSeparates(d: Dialect, text: string, gap: string, title: string)
    requires NextWord(text) == TitleWord(d) && AfterWord(text) == gap + title && title != ""
    requires AllSpace(gap) && Trimmed(title)
    ensures Separates(gap, title)
  {
    WordsRejoin(text);
    var n := |TitleWord(d)|;
    assert text[n] == (gap + title)[0];
    assert (gap + title)[|gap|] == title[0];
    if text[n] != ' ' {
      forall c | c in gap + title ensures c != ' ' {
        var i :| 0 <= i < |gap + title| && (gap + title)[i] == c;
        assert text[n + i] == c;
      }
    }
  }

  lemma CodeTrails(d: Dialect, line: string, k: nat)
    requires k <= |Code(d, line)| && AllSpace(Code(d, line)[k..])
    ensures Trails(d, line[k..])
  {
    var n := |Code(d, line)|;
    IndexOfIs(line[k..], CommentChar(d), n - k);
    assert line[k..][..n - k] == Code(d, line)[k..];
  }

  /** The title a stripped line gives has no comment and no blanks at its ends. */
  lemma TitleIsClean(d: Dialect, raw: string)
    ensures var title := TitleOf(d, Stripped(d, raw));
            Trimmed(title) && CommentChar(d) !in title
  {
    hide Trim, Lead, NextWord, Code;
    StrippedIsTrimmedCode(d, raw);
    TrimIsPart(AfterWord(Stripped(d, raw)));
  }

  /**
   Whether the entry before has a target or not, the parser opens the next one with its title
   exactly if the part of the title line that is read again still carries that title.
   */
  lemma TitleSurvivesIff(d: Dialect, src: string, m: Machine) returns (r: Machine)
    requires Inv(src, m) && m.result == None && m.status == IN && m.offset < |src|
    requires var line := Stripped(d, src[m.offset..LineEnd(src, m.offset)]);
             line != "" && NextWord(line) == TitleWord(d)
    ensures var raw := src[m.offset..LineEnd(src, m.offset)];
            var title := Trim(AfterWord(Stripped(d, raw)));
            && Inv(src, r) && Run(d, src, m) == Run(d, src, r) && r.result == None
            && r.offset == LineEnd(src, m.offset) && r.menu == Closed(m).menu
            && (r.status == TIT && StepTitle(r).status == IN && StepTitle(r).entry == NewEntry(title)
                <==> title != "" && Carries(d, title, Tail(d, raw)))
  {
    hide Inv, Run, Stripped, Carries, NextWord, AfterWord, Trim;
    var raw := src[m.offset..LineEnd(src, m.offset)];
    var title, seen := Trim(AfterWord(Stripped(d, raw))), Stripped(d, Tail(d, raw));
    r := PushBackResumes(d, src, m);
    TitleIsClean(d, raw);
    NoTitle(d);
    TitleWordOnly(d, NextWord(seen));
    if title != "" {
      if TitleOf(d, seen) == title {
        ReadIsCarried(d, title, Tail(d, raw));
      } else if Carries(d, title, Tail(d, raw)) {
        CarriedIsRead(d, title, Tail(d, raw));
      }
    }
  }

  lemma NoTitle(d: Dialect)
    ensures NextWord("") != TitleWord(d)
  {
  }

  lemma TitleWordOnly(d: Dialect, word: string)
    ensures OuterState(d, word) == TIT <==> word == TitleWord(d)
  {
  }

  lemma WordsRejoin(line: string)
    ensures NextWord(line) + AfterWord(line) == line
  {
  }

  /** Reading the same text again gives the same title. */
  lemma RereadCarries(d: Dialect, raw: string)
    requires TitleOf(d, Stripped(d, raw)) != "" && Reread(d, raw) == Stripped(d, raw)
    ensures Carries(d, TitleOf(d, Stripped(d, raw)), Tail(d, raw))
  {
    hide Stripped, TitleOf, Carries;
    ReadIsCarried(d, TitleOf(d, Stripped(d, raw)), Tail(d, raw));
  }

  /** A line whose text is followed by a carriage return and a newline, and that has no comment. */
  predicate EndsInReturn(d: Dialect, raw: string) {
    var text := Stripped(d, raw);
    CommentChar(d) !in raw && |text| + 2 <= |raw| && raw[|raw| - |text| - 2..] == text + "\r\n"
  }

  /** With a carriage return in front of the newline, a title line without a comment is lost: the
      parser resumes one character too late and stays outside any entry. */
  lemma CarriageReturnLosesTitle(d: Dialect, src: string, m: Machine) returns (r: Machine)
    requires Inv(src, m) && m.result == None && m.status == IN && m.offset < |src|
    requires var raw := src[m.offset..LineEnd(src, m.offset)];
             NextWord(Stripped(d, raw)) == TitleWord(d) && EndsInReturn(d, raw)
    ensures Inv(src, r) && Run(d, src, m) == Run(d, src, r) && r.result == None
    ensures r.status == S && r.menu == Closed(m).menu && r.offset == LineEnd(src, m.offset)
  {
    hide Inv, Run, Stripped, NextWord, AfterWord, OuterState, EndsInReturn, Reread;
    var raw := src[m.offset..LineEnd(src, m.offset)];
    NoTitle(d);
    RereadIsCut(d, raw);
    CutWord(d, Stripped(d, raw));
    r := PushBackResumes(d, src, m);
  }

  lemma RereadIsCut(d: Dialect, raw: string)
    requires NextWord(Stripped(d, raw)) == TitleWord(d) && EndsInReturn(d, raw)
    ensures |Stripped(d, raw)| > 1 && Reread(d, raw) == Stripped(d, raw)[1..]
  {
    hide Stripped, NextWord, Code, Trimmed, Tail, EndsInReturn, TitleWord, CommentChar;
    var text := Stripped(d, raw);
    TitleInFront(d, text);
    StrippedIsTrimmedCode(d, raw);
    CutIsTrimmed(d, text);
    TailIsCut(d, raw);
    StripReturn(d, text[1..]);
  }

  lemma TitleInFront(d: Dialect, text: string)
    requires NextWord(text) == TitleWord(d)
    ensures TitleWord(d) <= text
  {
    hide TitleWord;
  }

  lemma TailIsCut(d: Dialect, raw: string)
    requires Stripped(d, raw) != "" && EndsInReturn(d, raw)
    ensures Tail(d, raw) == Stripped(d, raw)[1..] + "\r\n"
  {
    hide Stripped, CommentChar;
    var text := Stripped(d, raw);
    assert raw[|raw| - (|text| + 1)..] == raw[|raw| - |text| - 2..][1..];
  }

  lemma CutIsTrimmed(d: Dialect, text: string)
    requires TitleWord(d) <= text && Trimmed(text) && CommentChar(d) !in text
    ensures |text| > 1 && text[1..] != "" && Trimmed(text[1..]) && CommentChar(d) !in text[1..]
  {
    assert text[1] == TitleWord(d)[1];
  }

  lemma StripReturn(d: Dialect, line: string)
    requires line != "" && Trimmed(line) && CommentChar(d) !in line
    ensures Stripped(d, line + "\r\n") == line
  {
    var raw := line + "\r\n";
    IndexOfIs(raw, CommentChar(d), |raw|);
    assert raw[..|raw|] == raw == "" + line + "\r\n";
    TrimIs(raw, "", line, "\r\n");
  }

  /** Without its first letter the title word selects nothing. */
  lemma CutWord(d: Dialect, text: string)
    requires NextWord(text) == TitleWord(d) && |text| > 1
    ensures OuterState(d, NextWord(text[1..])) == S
  {
    var n := |TitleWord(d)|;
    WordsRejoin(text);
    IndexAfterCut(text, ' ');
    IndexAfterCut(text, '\t');
    assert NextWord(text[1..]) == TitleWord(d)[1..];
  }

  lemma IndexAfterCut(s: string, c: char)
    requires s != "" && s[0] != c
    ensures IndexOf(s[1..], c) == IndexOf(s, c) - 1
  {
  }

  // ---- what the parsers return -----------------------------------------------------------

  /**
   menu_load takes 0 for "no menu". fsm returns it for a menu exactly if the last entry has no
   target, and hides a menu in this way exactly if another entry has one: that one is linked.
   */
  lemma ResultZeroIff(defaultOs: nat, delay: nat, es: seq<Entry>, xs: seq<Insert>, m0: Machine)
    requires (forall e :: e in es ==> Printable(MenuLst, e)) && defaultOs < 0x8000_0000 && delay < 0x8000_0000
    requires Insertable(MenuLst, PrintMenu(defaultOs, delay, es), xs) && m0 == Start(m0.defaultOs, m0.delay)
    ensures var r := Parsed(MenuLst, Padded(MenuLst, PrintMenu(defaultOs, delay, es), xs), m0);
            && (r.result == Some(0) <==> es != [] && !Bootable(es[|es| - 1]))
            && (r.result == Some(0) && r.menu != []
                <==> es != [] && !Bootable(es[|es| - 1]) && exists e :: e in es && Bootable(e))
  {
    hide Run, PrintMenu, Printable, Bootable, Bootables, Insertable, Padded;
    PrintedMenuParses(defaultOs, delay, es, xs, m0);
    SomeBootableIff(es);
  }

  lemma {:induction false} SomeBootableIff(es: seq<Entry>)
    ensures Bootables(es) != [] <==> exists e :: e in es && Bootable(e)
  {
    hide Bootable;
    if es != [] {
      assert es == [es[0]] + es[1..];
      SomeBootableIff(es[1..]);
    }
  }

  /** An input: any entries with a target, all of them linked, and a lone title line behind them. */
  lemma UnfinishedEntryHidesMenu(defaultOs: nat, delay: nat, es: seq<Entry>, title: string, m0: Machine)
    requires (forall e :: e in es ==> Printable(MenuLst, e) && Bootable(e)) && CleanText(MenuLst, title)
    requires defaultOs < 0x8000_0000 && delay < 0x8000_0000 && m0 == Start(m0.defaultOs, m0.delay)
    ensures forall e :: e in es + [NewEntry(title)] ==> Printable(MenuLst, e)
    ensures var r := Parsed(MenuLst, PrintMenu(defaultOs, delay, es + [NewEntry(title)]), m0);
            r.result == Some(0) && r.menu == es
  {
    TitleAlone(title);
    hide Run, PrintMenu, Printable, Bootable, Bootables;
    var lone := NewEntry(title);
    PlainMenuParses(defaultOs, delay, es + [lone], m0);
    AllBootable(es);
    BootablesConcat([], es, lone);
    LinkedFirst(es);
    LinkedFirst(Bootables(es + [lone]));
  }

  lemma TitleAlone(title: string)
    requires CleanText(MenuLst, title)
    ensures Printable(MenuLst, NewEntry(title)) && IfBootable(NewEntry(title)) == []
  {
  }

  // ---- any text: which lines count, and what is returned ---------------------------------

  /** The device a root line may name. */
  predicate NamesDevice(rest: string) {
    var word, place := NextWord(rest), Trim(AfterWord(rest));
    word == "tftp" || word == "cdrom" || (word == "ide" && IndexOf(place, ':') + 1 < |place|)
  }

  /** The lines that an entry may have behind its title: a keyword and something behind it. */
  predicate IsCommand(d: Dialect, word: string, rest: string) {
    match d
    case MenuLst =>
      (word in ["kernel", "other", "initrd", "dtb", "module"] && rest != "") || (word == "root" && NamesDevice(rest))
    case Kicklayout => word in ["EXEC", "MODULE"] && rest != ""
  }

  lemma ArgumentIff(lineptr: string)
    ensures Argument(lineptr) != "" <==> Trim(lineptr) != ""
  {
    hide Trim;
    var t := Trim(lineptr);
    if t != "" {
      WordsRejoin(t);
    }
  }

  lemma CommandState(d: Dialect, word: string)
    requires word != TitleWord(d)
    ensures InnerState(d, word) != IN
    ensures InnerState(d, word) == R || InnerState(d, word) == RT
            <==> word !in (if d == MenuLst then ["kernel", "other", "initrd", "dtb", "module"] else ["EXEC", "MODULE"])
    ensures InnerState(d, word) == RT <==> d == MenuLst && word == "root"
  {
  }

  lemma DeviceIff(lineptr: string)
    ensures RootDevice(lineptr).Some? <==> NamesDevice(Trim(lineptr))
  {
    hide Trim, IndexOf, Value, Signed;
  }

  /** What the state a word selects makes of the rest of its line. */
  lemma CommandStays(d: Dialect, m: Machine, word: string)
    requires word != TitleWord(d) && m.status == InnerState(d, word) && m.result == None
    ensures var rest := Trim(m.lineptr);
            var m' := if m.status == RT then StepRoot(m) else if m.status == R then m else StepArgument(m);
            && m' == m.(status := m'.status, kernel := m'.kernel, entry := m'.entry)
            && m'.status == (if IsCommand(d, word, rest) then IN else R) && m'.entry.title == m.entry.title
  {
    hide Argument, Remainder, Trim, RootDevice, NamesDevice;
    CommandState(d, word);
    ArgumentIff(m.lineptr);
    DeviceIff(m.lineptr);
  }

  /**
   A line inside an entry that is neither blank nor a title line goes on with the entry exactly if it
   is a command. Any other line ends the entry without linking it: the lines behind it are read
   outside any entry.
   */
  lemma EntryGoesOnIff(d: Dialect, src: string, m: Machine) returns (r: Machine)
    requires Inv(src, m) && m.result == None && m.status == IN && m.offset < |src|
    requires var line := Stripped(d, src[m.offset..LineEnd(src, m.offset)]);
             line != "" && NextWord(line) != TitleWord(d)
    ensures var line := Stripped(d, src[m.offset..LineEnd(src, m.offset)]);
            && Inv(src, r) && Run(d, src, m) == Run(d, src, r) && r.result == None
            && r.offset == LineEnd(src, m.offset) && r.menu == m.menu && r.entry.title == m.entry.title
            && r.defaultOs == m.defaultOs && r.delay == m.delay
            && r.status == if IsCommand(d, NextWord(line), Trim(AfterWord(line))) then IN else S
  {
    hide Inv, Run, Stripped, NextWord, AfterWord, StepRoot, StepArgument, InnerState, IsCommand, Trim;
    var line := Stripped(d, src[m.offset..LineEnd(src, m.offset)]);
    var word := NextWord(line);
    CommandState(d, word);
    var m1 := LineIsRead(d, src, m, word);
    CommandStays(d, m1, word);
    r := m1;
    if m1.status != R {
      StepRuns(d, src, m1);
      r := Step(d, src, m1);
    }
    if r.status == R {
      StepRuns(d, src, r);
      r := Step(d, src, r);
    }
  }

  lemma LineIsRead(d: Dialect, src: string, m: Machine, word: string) returns (r: Machine)
    requires Inv(src, m) && m.result == None && m.status == IN && m.offset < |src| && InnerState(d, word) != IN
    requires var line := Stripped(d, src[m.offset..LineEnd(src, m.offset)]);
             line != "" && NextWord(line) == word
    ensures var line := Stripped(d, src[m.offset..LineEnd(src, m.offset)]);
            && Inv(src, r) && Run(d, src, m) == Run(d, src, r) && r.status in {K, O, RT, RD, DTB, M, R}
            && r == m.(offset := LineEnd(src, m.offset), high := r.high, lineptr := AfterWord(line),
                       status := InnerState(d, word))
  {
    hide Run, Stripped, NextWord, AfterWord, PushedBack, TitleWord, Bootable;
    StepRuns(d, src, m);
    r := Step(d, src, m);
  }

  /**
   Outside an entry a title line that is not blank opens one; the header of a menu.lst is set by the
   lines default and delay that have a word; every other line leaves all as it was.
   */
  lemma OutsideLine(d: Dialect, src: string, m: Machine) returns (r: Machine)
    requires Inv(src, m) && m.result == None && m.status == S && m.offset < |src|
    requires Stripped(d, src[m.offset..LineEnd(src, m.offset)]) != ""
    ensures var line := Stripped(d, src[m.offset..LineEnd(src, m.offset)]);
            var word, rest := NextWord(line), Trim(AfterWord(line));
            && Inv(src, r) && Run(d, src, m) == Run(d, src, r) && r.result == None
            && r.offset == LineEnd(src, m.offset) && r.menu == m.menu
            && (if word == TitleWord(d) && rest != "" then r.status == IN && r.entry == NewEntry(rest) && !r.kernel
                else r.status == S)
            && r.defaultOs == (if d == MenuLst && word == "default" && rest != "" then Signed(Value(NextWord(rest)))
                               else m.defaultOs)
            && r.delay == (if d == MenuLst && word == "delay" && rest != "" then Signed(Value(NextWord(rest)))
                           else m.delay)
  {
    hide Inv, Run, Stripped, NextWord, AfterWord, StepNumber, StepTitle, Trim, Value, Signed;
    var line := Stripped(d, src[m.offset..LineEnd(src, m.offset)]);
    var word := NextWord(line);
    r := OutsideRead(d, src, m, word);
    ArgumentIff(AfterWord(line));
    if r.status == TIT {
      TitleEffect(r);
      StepRuns(d, src, r);
      r := Step(d, src, r);
    } else if r.status != S {
      NumberEffect(r);
      StepRuns(d, src, r);
      r := Step(d, src, r);
    }
  }

  lemma OutsideRead(d: Dialect, src: string, m: Machine, word: string) returns (r: Machine)
    requires Inv(src, m) && m.result == None && m.status == S && m.offset < |src|
    requires var line := Stripped(d, src[m.offset..LineEnd(src, m.offset)]);
             line != "" && NextWord(line) == word
    ensures var line := Stripped(d, src[m.offset..LineEnd(src, m.offset)]);
            && Inv(src, r) && Run(d, src, m) == Run(d, src, r)
            && r == m.(offset := LineEnd(src, m.offset), high := r.high, lineptr := r.lineptr, status := r.status)
            && r.status == (if word == TitleWord(d) then TIT else if d == MenuLst && word == "default" then DEF
                            else if d == MenuLst && word == "delay" then DLY else S)
            && (r.status != S ==> r.lineptr == AfterWord(line))
  {
    hide Run, Stripped, NextWord, AfterWord, PushedBack, Bootable;
    StepRuns(d, src, m);
    r := Step(d, src, m);
  }

  lemma TitleEffect(m: Machine)
    ensures var rest, m' := Trim(m.lineptr), StepTitle(m);
            && m'.offset == m.offset && m'.menu == m.menu && m'.defaultOs == m.defaultOs && m'.delay == m.delay
            && m'.result == m.result
            && if rest != "" then m'.status == IN && m'.entry == NewEntry(rest) && !m'.kernel else m'.status == S
  {
    hide Trim;
  }

  lemma NumberEffect(m: Machine)
    requires m.status == DEF || m.status == DLY
    ensures var rest, m' := Trim(m.lineptr), StepNumber(m);
            && m' == m.(status := S, defaultOs := m'.defaultOs, delay := m'.delay)
            && m'.defaultOs == (if m.status == DEF && rest != "" then Signed(Value(NextWord(rest))) else m.defaultOs)
            && m'.delay == (if m.status == DLY && rest != "" then Signed(Value(NextWord(rest))) else m.delay)
  {
    hide Trim, NextWord, Signed, Value;
    ArgumentIff(m.lineptr);
    BlankTrims();
  }

  lemma BlankTrims()
    ensures Trim("") == ""
  {
    TrimIs("", "", "", "");
  }

  /**
   What is returned for any text: nothing but 0 if it ends inside an entry without a target, 1 if
   inside one with a target, which is linked; else fsm returns 1 and kick_fsm the number of entries.
   Every entry linked has a title and a target.
   */
  lemma {:induction false} ResultIs(d: Dialect, src: string, m: Machine)
    requires Inv(src, m) && m.result == None
    ensures var r := Run(d, src, m);
            && r.status in {S, AQ, RQ}
            && r.result == Some(match r.status case AQ => 1 case RQ => 0 case _ => if d == MenuLst then 1 else |r.menu|)
            && (r.status == AQ ==> r.menu != [] && r.menu[|r.menu| - 1] == r.entry)
            && forall e :: e in r.menu ==> e.title != "" && (e.kernel.Some? || e.other.Some?)
    decreases |src| - m.high, |src| - m.offset, Rank(m.status)
  {
    hide Inv, Run, Step;
    StepKeeps(d, src, m);
    StepRuns(d, src, m);
    var m' := Step(d, src, m);
    if m'.result == None {
      ResultIs(d, src, m');
    } else {
      RunEnds(d, src, m');
      LastStep(d, src, m);
      AllLinkedBoot(src, m');
    }
  }

  lemma LastStep(d: Dialect, src: string, m: Machine)
    requires Inv(src, m) && m.result == None && Step(d, src, m).result.Some?
    ensures var r := Step(d, src, m);
            && r.status in {S, AQ, RQ}
            && r.result == Some(match r.status case AQ => 1 case RQ => 0 case _ => if d == MenuLst then 1 else |r.menu|)
            && (r.status == AQ ==> r.menu != [] && r.menu[|r.menu| - 1] == r.entry)
  {
    hide Stripped, PushedBack, StepArgument, StepRoot, StepTitle, StepNumber, Bootable;
    LinesGiveNoResult(m);
  }

  lemma AllLinkedBoot(src: string, m: Machine)
    requires Inv(src, m)
    ensures forall e :: e in m.menu ==> e.title != "" && (e.kernel.Some? || e.other.Some?)
  {
  }

  lemma LinesGiveNoResult(m: Machine)
    ensures StepArgument(m).result == m.result && StepRoot(m).result == m.result
    ensures StepTitle(m).result == m.result && StepNumber(m).result == m.result
  {
    hide Argument, Remainder, RootDevice, Trim, Signed, Value;
  }
}
