/** Machine words of the 32-bit big-endian target. */
module Words {
  const TWO32: int := 0x1_0000_0000

  type Byte = b: int | 0 <= b < 256
  type Word = w: int | 0 <= w < TWO32

  /** Reduction of an unsigned 32-bit result: addition and subtraction wrap around. */
  function Wrap(x: int): (w: Word) {
    x % TWO32
  }

  /** Wrapping an operand early does not change the wrapped sum. */
  lemma WrapAdd(a: int, b: int)
    ensures Wrap(Wrap(a) + b) == Wrap(a + b)
  {
    var q := a / TWO32;
    assert Wrap(a) + b == a + b - q * TWO32;
    WrapShift(a + b, -q);
  }

  lemma WrapShift(x: int, k: int)
    ensures Wrap(x + k * TWO32) == Wrap(x)
  {
    var q := (x + k * TWO32) / TWO32;
    assert Wrap(x + k * TWO32) - Wrap(x) == (k - q + x / TWO32) * TWO32;
  }

  /** Sum of a sequence of words in 32-bit arithmetic, last word last. */
  function Sum(ws: seq<Word>): Word {
    if ws == [] then 0 else Wrap(Sum(ws[..|ws| - 1]) + ws[|ws| - 1])
  }

  lemma {:induction false} SumTakeOne(ws: seq<Word>, i: nat)
    requires i < |ws|
    ensures Sum(ws[..i + 1]) == Wrap(Sum(ws[..i]) + ws[i])
  {
    assert ws[..i + 1][..i] == ws[..i];
  }

  /** Replacing one summand moves the sum by the difference. */
  lemma {:induction false} SumUpdate(ws: seq<Word>, i: nat, v: Word)
    requires i < |ws|
    ensures Sum(ws[i := v]) == Wrap(Sum(ws) - ws[i] + v)
  {
    hide Wrap;
    var n := |ws| - 1;
    if i == n {
      assert ws[i := v][..n] == ws[..n];
      WrapAdd(Sum(ws[..n]) + ws[n], v - ws[n]);
    } else {
      SumUpdate(ws[..n], i, v);
      assert ws[i := v][..n] == ws[..n][i := v];
      WrapAdd(Sum(ws[..n]) - ws[i] + v, ws[n]);
      WrapAdd(Sum(ws[..n]) + ws[n], v - ws[i]);
    }
  }

  /** The 16-bit value at a byte position, most significant byte first. */
  function Be16(s: seq<Byte>, at: nat): (r: nat)
    requires at + 2 <= |s|
    ensures r < 0x1_0000
  {
    s[at] as int * 0x100 + s[at + 1]
  }

  /** The 32-bit value at a byte position, most significant byte first. */
  function Be32(s: seq<Byte>, at: nat): Word
    requires at + 4 <= |s|
  {
    Be16(s, at) as int * 0x1_0000 + Be16(s, at + 2)
  }

  /** The two bytes of a 16-bit number, most significant one first. */
  function Be16Bytes(n: nat): (s: seq<Byte>)
    requires n < 0x1_0000
    ensures |s| == 2 && Be16(s, 0) == n
  {
    [n / 0x100, n % 0x100]
  }

  /** The four bytes of a word, most significant one first. */
  function BeBytes(w: Word): (s: seq<Byte>)
    ensures |s| == 4 && Be32(s, 0) == w
  {
    var high, low := w / 0x1_0000, w % 0x1_0000;
    [high / 0x100, high % 0x100, low / 0x100, low % 0x100]
  }

  /** The same, least significant one first. */
  function LeBytes(w: Word): (s: seq<Byte>)
    ensures |s| == 4
  {
    var b := BeBytes(w);
    [b[3], b[2], b[1], b[0]]
  }

  /** Bytes as the characters of a string. */
  function Chars(s: seq<Byte>): string {
    seq(|s|, i requires 0 <= i < |s| => s[i] as char)
  }

  lemma CharsHaveNoNul(text: seq<Byte>)
    requires 0 !in text
    ensures '\0' !in Chars(text)
  {
    forall i | 0 <= i < |text| ensures Chars(text)[i] != '\0' {
      assert text[i] in text;
    }
  }

  /** A word whose bytes are the characters of a name. */
  lemma SpeltAs(id: Word, name: string)
    requires |name| == 4 && forall i :: 0 <= i < 4 ==> name[i] as int < 0x100
    requires id == ((name[0] as int * 0x100 + name[1] as int) * 0x100 + name[2] as int) * 0x100 + name[3] as int
    ensures Chars(BeBytes(id)) == name
  {
    var codes: seq<Byte> := [name[0] as int, name[1] as int, name[2] as int, name[3] as int];
    assert BeBytes(id) == codes;
    hide BeBytes;
    forall i | 0 <= i < 4 ensures Chars(codes)[i] == name[i] {
    }
  }
}
