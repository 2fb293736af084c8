/** The C string helpers of src/support.c, on strings that hold no NUL. */
module Support {

  /** A 32-bit result read as a signed int. */
  function Signed(x: int): (r: int)
    ensures -0x8000_0000 <= r < 0x8000_0000
    ensures -0x8000_0000 <= x < 0x8000_0000 ==> r == x
  {
    (x + 0x8000_0000) % 0x1_0000_0000 - 0x8000_0000
  }

  lemma SignedAdd(x: int, y: int)
    ensures Signed(Signed(x) + y) == Signed(x + y)
  {
    var m := 0x1_0000_0000;
    var q := (x + 0x8000_0000) / m;
    assert Signed(x) + y + 0x8000_0000 == x + y + 0x8000_0000 - q * m;
    SameRemainder(x + y + 0x8000_0000, q);
  }

  lemma SameRemainder(z: int, q: int)
    ensures (z - q * 0x1_0000_0000) % 0x1_0000_0000 == z % 0x1_0000_0000
  {
    var m := 0x1_0000_0000;
    var r := z - q * m;
    assert r % m - z % m == (z / m - q - r / m) * m;
  }

  predicate IsSpace(c: char) {
    c == ' ' || c == '\t' || c == '\U{0C}' || c == '\n' || c == '\r' || c == '\U{0B}'
  }

  function ToLower(c: char): char {
    if 'A' <= c <= 'Z' then (c as int + 32) as char else c
  }

  /** Where c first occurs, or the length if it does not. */
  function IndexOf(s: string, c: char): (k: nat)
    ensures k <= |s|
    ensures forall i :: 0 <= i < k ==> s[i] != c
    ensures k < |s| ==> s[k] == c
  {
    if s == "" || s[0] == c then 0 else 1 + IndexOf(s[1..], c)
  }

  /** IndexOf is determined by what it promises. */
  lemma {:induction false} IndexOfIs(s: string, c: char, k: nat)
    requires k <= |s| && (forall i :: 0 <= i < k ==> s[i] != c) && (k < |s| ==> s[k] == c)
    ensures IndexOf(s, c) == k
  {
    if k > 0 {
      assert s[0] != c;
      IndexOfIs(s[1..], c, k - 1);
    }
  }

  /** The C string that a buffer starts with. */
  function CString(s: string): (r: string)
    ensures '\0' !in r
  {
    s[..IndexOf(s, '\0')]
  }

  /** NULL is modelled by the length of the string. */
  method StrChr(s: string, c: char) returns (k: nat)
    ensures k == IndexOf(s, c)
  {
    k := 0;
    while k < |s| && s[k] != c
      invariant k <= |s|
      invariant forall i :: 0 <= i < k ==> s[i] != c
    {
      k := k + 1;
    }
    IndexOfIs(s, c, k);
  }

  /** The same character, or an upper-case letter and the lower-case one 32 places above it. */
  predicate SameLetter(c: char, d: char) {
    c == d || ('A' <= c <= 'Z' && d as int == c as int + 32) || ('A' <= d <= 'Z' && c as int == d as int + 32)
  }

  /** Equality up to the case of ASCII letters. */
  predicate EqualFold(s: string, t: string) {
    |s| == |t| && forall i :: 0 <= i < |s| ==> SameLetter(s[i], t[i])
  }

  /** The character at i of a C string: the NUL behind its last one included. */
  function At(s: string, i: nat): char {
    if i < |s| then s[i] else '\0'
  }

  method StrCaseCmp(s: string, t: string) returns (diff: int)
    requires '\0' !in s && '\0' !in t
    ensures diff == 0 <==>
              |s| == |t| && forall i :: 0 <= i < |s| ==>
                s[i] == t[i]
                || ('A' <= s[i] <= 'Z' && t[i] as int == s[i] as int + 32)
                || ('A' <= t[i] <= 'Z' && s[i] as int == t[i] as int + 32)
    ensures diff == 0 <==> EqualFold(s, t)
  {
    var i := 0;
    diff := ToLower(At(t, i)) as int - ToLower(At(s, i)) as int;
    while diff == 0 && At(s, i) != '\0'
      invariant 0 <= i <= |s| && i <= |t|
      invariant forall j :: 0 <= j < i ==> SameLetter(s[j], t[j])
      invariant diff == ToLower(At(t, i)) as int - ToLower(At(s, i)) as int
      decreases |s| - i
    {
      i := i + 1;
      diff := ToLower(At(t, i)) as int - ToLower(At(s, i)) as int;
    }
  }

  // ---- strtol ----------------------------------------------------------------------------

  function Pow10(k: nat): int {
    if k == 0 then 1 else 10 * Pow10(k - 1)
  }

  /** The positional value of the characters, each taken as its code minus 48. */
  function Value(s: string): int {
    if s == "" then 0 else 10 * Value(s[..|s| - 1]) + (s[|s| - 1] as int - 48)
  }

  lemma {:induction false} ValueSplit(s: string, i: nat)
    requires i <= |s|
    ensures Value(s) == Value(s[..i]) * Pow10(|s| - i) + Value(s[i..])
    decreases |s| - i
  {
    if i == |s| {
      assert s[..i] == s;
    } else {
      var n := |s| - 1;
      ValueSplit(s[..n], i);
      assert s[..n][..i] == s[..i] && s[..n][i..] == s[i..][..n - i];
      assert Value(s[i..]) == 10 * Value(s[i..n]) + (s[n] as int - 48) by {
        assert s[i..][..n - i] == s[i..n];
      }
      ScaleUp(Value(s[..i]), Pow10(n - i));
    }
  }

  lemma ScaleUp(v: int, p: int)
    ensures 10 * (v * p) == v * (10 * p)
  {
  }

  /** The source sums the digits from the right in 32-bit arithmetic; no character is rejected. */
  method StrToL(s: string) returns (l: int)
    ensures l == Signed(Value(s))
  {
    l := 0;
    var i, m := |s|, 1;
    ghost var exact := 1;
    while i > 0
      invariant 0 <= i <= |s|
      invariant exact == Pow10(|s| - i) && m == Signed(exact)
      invariant l == Signed(Value(s[i..]))
    {
      i := i - 1;
      ghost var digit, tail := s[i] as int - 48, s[i + 1..];
      assert s[i..][..1] == [s[i]] && s[i..][1..] == tail;
      ValueSplit(s[i..], 1);
      assert Value([s[i]]) == digit;
      SignedDigit(Value(tail), digit, exact);
      l := Signed(l + (s[i] as int - 48) * m);
      SignedScale(10, exact);
      m := Signed(m * 10);
      exact := exact * 10;
    }
    assert s[0..] == s;
  }

  lemma SignedScale(k: int, x: int)
    ensures Signed(k * Signed(x)) == Signed(k * x)
  {
    var q := (x + 0x8000_0000) / 0x1_0000_0000;
    assert Signed(x) == x - q * 0x1_0000_0000;
    assert k * Signed(x) == k * x - (k * q) * 0x1_0000_0000;
    SameRemainder(k * x + 0x8000_0000, k * q);
  }

  lemma SignedDigit(v: int, d: int, p: int)
    ensures Signed(Signed(v) + d * Signed(p)) == Signed(d * p + v)
  {
    SignedAdd(v, d * Signed(p));
    SignedScale(d, p);
    SignedAdd(d * p, v);
    SignedAdd(d * Signed(p), v);
  }

  /** Decimal digits of n, without leading zeros. */
  function Decimal(n: nat): (s: string)
    ensures s != "" && forall c :: c in s ==> '0' <= c <= '9'
  {
    if n < 10 then [(48 + n) as char] else Decimal(n / 10) + [(48 + n % 10) as char]
  }

  lemma {:induction false} ValueOfDecimal(n: nat)
    ensures Value(Decimal(n)) == n
  {
    if n >= 10 {
      ValueOfDecimal(n / 10);
      assert Decimal(n)[..|Decimal(n)| - 1] == Decimal(n / 10);
    }
  }
}
