/** Blocks of a Smart File System volume as src/sfs.c reads them. */
module SfsVolume {
  import opened Words

  /** read gives the bytes of each block; loadsector is taken to succeed. */
  datatype Volume = Volume(blocksize: nat, read: Word -> seq<Byte>)

  /** Blocks hold whole words, and at least the headers the reader looks at. */
  ghost predicate ValidVolume(v: Volume) {
    28 <= v.blocksize < TWO32 && v.blocksize % 4 == 0 && forall b: Word :: |v.read(b)| == v.blocksize
  }

  method LoadSector(v: Volume, block: Word, buffer: array<Byte>)
    requires ValidVolume(v) && buffer.Length == v.blocksize
    modifies buffer
    ensures buffer[..] == v.read(block)
  {
    var data := v.read(block);
    forall i | 0 <= i < buffer.Length {
      buffer[i] := data[i];
    }
  }

  // ---- block checksums -------------------------------------------------------------------

  /** The bytes with the checksum field of the block header cleared. */
  function Zeroed(s: seq<Byte>): seq<Byte>
    requires |s| >= 8
  {
    s[..4] + [0, 0, 0, 0] + s[8..]
  }

  function WordsOf(s: seq<Byte>): seq<Word>
    requires |s| % 4 == 0
  {
    seq(|s| / 4, i requires 0 <= i < |s| / 4 => Be32(s, 4 * i))
  }

  /** The value the checksum field of a correct block holds. */
  function Expected(s: seq<Byte>): Word
    requires |s| >= 8 && |s| % 4 == 0
  {
    Wrap(-(1 + Sum(WordsOf(Zeroed(s)))))
  }

  method CalcChecksum(block: array<Byte>) returns (r: Word)
    requires block.Length >= 8 && block.Length % 4 == 0
    modifies block
    ensures block[..] == Zeroed(old(block[..]))
    ensures r == Expected(old(block[..]))
  {
    hide Be32, Sum;
    ghost var z := Zeroed(block[..]);
    block[4], block[5], block[6], block[7] := 0, 0, 0, 0;
    assert block[..] == z;
    var checksum: Word := 1;
    var k := 0;
    SumOfNone(WordsOf(z));
    while 4 * k < block.Length
      invariant 0 <= 4 * k <= block.Length
      invariant checksum == Wrap(1 + Sum(WordsOf(z)[..k]))
      modifies {}
    {
      hide Wrap;
      ChecksumStep(z, k);
      assert block[..] == z;
      var word := ReadBe32(block, 4 * k);
      checksum := Wrap(checksum + word);
      k := k + 1;
    }
    assert WordsOf(z)[..k] == WordsOf(z);
    WrapMinus(1 + Sum(WordsOf(z)));
    r := Wrap(-(checksum as int));
  }

  lemma SumOfNone(ws: seq<Word>)
    ensures Wrap(1 + Sum(ws[..0])) == 1
  {
  }

  method ReadBe32(block: array<Byte>, at: nat) returns (w: Word)
    requires at + 4 <= block.Length
    ensures w == Be32(block[..], at)
  {
    w := ((block[at] as int * 0x100 + block[at + 1]) * 0x100 + block[at + 2]) * 0x100 + block[at + 3];
  }

  lemma ChecksumStep(z: seq<Byte>, k: nat)
    requires |z| % 4 == 0 && 4 * k < |z|
    ensures Wrap(1 + Sum(WordsOf(z)[..k + 1])) == Wrap(Wrap(1 + Sum(WordsOf(z)[..k])) + Be32(z, 4 * k))
  {
    hide Be32, Wrap;
    var words := WordsOf(z);
    SumTakeOne(words, k);
    WrapAdd(1 + Sum(words[..k]), words[k]);
    WrapAdd(Sum(words[..k]) + words[k], 1);
  }

  lemma WrapMinus(x: int)
    ensures Wrap(-(Wrap(x) as int)) == Wrap(-x)
  {
    assert -(Wrap(x) as int) == -x + (x / TWO32) * TWO32;
    WrapShift(-x, x / TWO32);
  }

  /** The only test the reader makes of a block: the expected checksum is not zero. */
  predicate Accepted(s: seq<Byte>)
    requires |s| >= 8 && |s| % 4 == 0
  {
    Expected(s) != 0
  }

  /** A block whose stored checksum is right. */
  predicate Intact(s: seq<Byte>)
    requires |s| >= 8 && |s| % 4 == 0
  {
    Be32(s, 4) == Expected(s)
  }

  /** The stored checksum is right exactly if all words of the block, that one included, and one more
      add up to zero. */
  lemma IntactIffSumsToZero(s: seq<Byte>)
    requires |s| >= 8 && |s| % 4 == 0
    ensures Intact(s) <==> Wrap(1 + Sum(WordsOf(s))) == 0
  {
    hide Sum, Wrap, Be32;
    var ws, rest: int, stored := WordsOf(s), Sum(WordsOf(Zeroed(s))), Be32(s, 4);
    ZeroedWords(s);
    assert ws == WordsOf(Zeroed(s))[1 := stored] && WordsOf(Zeroed(s))[1] == 0;
    SumUpdate(WordsOf(Zeroed(s)), 1, stored);
    WrapAdd(rest - 0 + stored, 1);
    ZeroIff(1 + rest, stored);
  }

  lemma ZeroedWords(s: seq<Byte>)
    requires |s| >= 8 && |s| % 4 == 0
    ensures var z, w := WordsOf(Zeroed(s)), WordsOf(s);
            |z| == |w| && z[1] == 0 && forall i :: 0 <= i < |w| && i != 1 ==> z[i] == w[i]
  {
    assert Zeroed(s)[4..8] == [0, 0, 0, 0];
  }

  lemma ZeroIff(x: int, w: Word)
    ensures Wrap(x + w) == 0 <==> w == Wrap(-x)
  {
    if w == Wrap(-x) {
      WrapAdd(-x, x);
    }
    if Wrap(x + w) == 0 {
      var q := (x + w) / TWO32;
      assert w == -x + q * TWO32;
      WrapShift(-x, q);
    }
  }

  /**
   The test never looks at the stored checksum, so it tells intact blocks from others only by
   accident: a block with an expected checksum other than zero is accepted whatever is stored in it,
   and one with the expected checksum zero is rejected even when zero is stored.
   */
  lemma AcceptedIsNotIntact(s: seq<Byte>, stored: seq<Byte>)
    requires |s| >= 8 && |s| % 4 == 0 && |stored| == 4
    ensures var t := s[..4] + stored + s[8..];
            && Expected(t) == Expected(s)
            && (Intact(t) <==> Be32(stored, 0) == Expected(s))
            && (Accepted(t) && !Intact(t) <==> Expected(s) != 0 && Be32(stored, 0) != Expected(s))
            && (Intact(t) && !Accepted(t) <==> Expected(s) == 0 && stored == [0, 0, 0, 0])
  {
    var t := s[..4] + stored + s[8..];
    assert Zeroed(t) == Zeroed(s);
    assert t[4..8] == stored;
    if Be32(stored, 0) == 0 {
      assert stored == [0, 0, 0, 0];
    }
  }
}
