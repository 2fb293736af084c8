/** Lines and words of a menu file: getline, eatcomments, strtrim and getnextword of src/menu.c. */
module MenuText {
  import opened Support

  /** Where the line that starts at offset ends, its newline included. */
  function LineEnd(src: string, offset: nat): (e: nat)
    requires offset < |src|
    ensures offset < e <= |src|
    ensures e < |src| ==> src[e - 1] == '\n'
    ensures forall i :: offset <= i < e - 1 ==> src[i] != '\n'
  {
    var k := IndexOf(src[offset..], '\n');
    if offset + k < |src| then
      assert src[offset..][k] == '\n';
      assert forall i :: offset <= i < offset + k ==> src[i] == src[offset..][i - offset];
      offset + k + 1
    else
      assert forall i :: offset <= i < |src| ==> src[i] == src[offset..][i - offset];
      |src|
  }

  lemma LineEndIs(src: string, offset: nat, e: nat)
    requires offset < e <= |src|
    requires forall i :: offset <= i < e - 1 ==> src[i] != '\n'
    requires src[e - 1] == '\n' || e == |src|
    ensures LineEnd(src, offset) == e
  {
    var rest := src[offset..];
    var k := if src[e - 1] == '\n' then e - 1 - offset else |rest|;
    assert forall i :: 0 <= i < k ==> rest[i] == src[offset + i];
    IndexOfIs(rest, '\n', k);
  }

  /** NULL once the offset has reached the end. */
  method GetLine(src: string, offset: nat) returns (more: bool, line: string, offset': nat)
    requires offset <= |src|
    ensures more <==> offset < |src|
    ensures more ==> offset' == LineEnd(src, offset) && line == src[offset..offset']
    ensures !more ==> offset' == offset
  {
    if offset >= |src| {
      return false, "", offset;
    }
    var k := StrChr(src[offset..], '\n');
    var len := if offset + k < |src| then k + 1 else |src| - offset;
    return true, src[offset..offset + len], offset + len;
  }

  function Uncomment(line: string): string {
    line[..IndexOf(line, '#')]
  }

  method EatComments(line: string) returns (r: string)
    ensures r == Uncomment(line)
  {
    var k := StrChr(line, '#');
    r := line[..k];
  }

  predicate AllSpace(s: string) {
    forall i :: 0 <= i < |s| ==> IsSpace(s[i])
  }

  /** No white space at either end. */
  predicate Trimmed(s: string) {
    s != "" ==> !IsSpace(s[0]) && !IsSpace(s[|s| - 1])
  }

  /** The number of leading blanks. */
  function Lead(s: string): (k: nat)
    ensures k <= |s| && AllSpace(s[..k]) && (k < |s| ==> !IsSpace(s[k]))
  {
    if s == "" || !IsSpace(s[0]) then 0 else
      var k := Lead(s[1..]);
      assert s[..k + 1] == [s[0]] + s[1..][..k];
      1 + k
  }

  /** The length without trailing blanks. */
  function Body(s: string): (n: nat)
    ensures n <= |s| && AllSpace(s[n..]) && (n > 0 ==> !IsSpace(s[n - 1]))
  {
    if s == "" || !IsSpace(s[|s| - 1]) then |s| else
      var n := Body(s[..|s| - 1]);
      assert s[n..] == s[..|s| - 1][n..] + [s[|s| - 1]];
      n
  }

  lemma {:induction false} LeadIs(s: string, k: nat)
    requires k <= |s| && AllSpace(s[..k]) && (k < |s| ==> !IsSpace(s[k]))
    ensures Lead(s) == k
  {
    if k > 0 {
      assert IsSpace(s[..k][0]);
      assert s[1..][..k - 1] == s[..k][1..];
      LeadIs(s[1..], k - 1);
    }
  }

  lemma {:induction false} BodyIs(s: string, n: nat)
    requires n <= |s| && AllSpace(s[n..]) && (n > 0 ==> !IsSpace(s[n - 1]))
    ensures Body(s) == n
  {
    if n < |s| {
      var m := |s| - 1;
      assert IsSpace(s[n..][m - n]);
      assert s[..m][n..] == s[n..][..m - n];
      BodyIs(s[..m], n);
    }
  }

  function Trim(s: string): (t: string)
    ensures Trimmed(t)
  {
    var r := s[Lead(s)..];
    r[..Body(r)]
  }

  /** Trim is the one way to strip blanks from both ends: the text around its result is blank. */
  lemma TrimSplits(s: string)
    ensures var k := Lead(s);
            && k + |Trim(s)| <= |s| && s[k..k + |Trim(s)|] == Trim(s)
            && AllSpace(s[..k]) && AllSpace(s[k + |Trim(s)|..])
  {
    var k := Lead(s);
    assert s[k..][|Trim(s)|..] == s[k + |Trim(s)|..];
  }

  lemma TrimIs(s: string, a: string, t: string, b: string)
    requires s == a + t + b && AllSpace(a) && AllSpace(b) && Trimmed(t)
    ensures Trim(s) == t
    ensures t != "" ==> Lead(s) == |a|
  {
    if t == "" {
      assert forall i :: 0 <= i < |s| ==> s[i] == if i < |a| then a[i] else b[i - |a|];
      assert s[..|s|] == s;
      LeadIs(s, |s|);
      assert s[|s|..] == "";
    } else {
      assert s[..|a|] == a && s[|a|] == t[0];
      LeadIs(s, |a|);
      var r := s[|a|..];
      assert r == t + b && r[|t|..] == b && r[..|t|] == t && r[|t| - 1] == t[|t| - 1];
      BodyIs(r, |t|);
    }
  }

  method StrTrim(s: string) returns (r: string)
    ensures r == Trim(s)
  {
    var p := 0;
    while p < |s| && IsSpace(s[p])
      invariant p <= |s| && AllSpace(s[..p])
    {
      p := p + 1;
    }
    var n := |s| - p;
    while n > 0 && IsSpace(s[p + n - 1])
      invariant 0 <= n <= |s| - p && AllSpace(s[p + n..])
    {
      n := n - 1;
    }
    r := s[p..p + n];
    assert s == s[..p] + r + s[p + n..];
    TrimIs(s, s[..p], r, s[p + n..]);
  }

  /** A tab ends a word only where the line holds no space at all. */
  function WordLen(line: string): (n: nat)
    ensures n <= |line|
  {
    var k := IndexOf(line, ' ');
    if k < |line| then k else IndexOf(line, '\t')
  }

  function NextWord(line: string): string {
    line[..WordLen(line)]
  }

  function AfterWord(line: string): string {
    line[WordLen(line)..]
  }

  method GetNextWord(line: string) returns (word: string)
    ensures word == NextWord(line)
  {
    var k := StrChr(line, ' ');
    if k == |line| {
      k := StrChr(line, '\t');
    }
    word := line[..k];
  }
}
