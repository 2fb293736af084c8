/** The boot device of src/cdrom.c over the memory it writes, proved against CdromRead. */
module CdromDrive {
  import opened Sequences
  import opened Words
  import opened CdromRead

  class Cdrom {
    const medium: Medium
    const tmpbuf: array<Byte>
    var sectorInBuf: Word
    var calls: nat

    /** Neither the buffer nor its sector number is set to anything in particular. */
    constructor (m: Medium, buffer: array<Byte>, garbage: Word)
      requires buffer.Length == SECTOR
      ensures medium == m && tmpbuf == buffer && Valid() && State() == Drive(garbage, buffer[..], 0)
    {
      medium, tmpbuf, sectorInBuf, calls := m, buffer, garbage, 0;
    }

    ghost predicate Valid()
      reads this
    {
      tmpbuf.Length == SECTOR
    }

    ghost function State(): Drive
      requires Valid()
      reads this, tmpbuf
    {
      Drive(sectorInBuf, tmpbuf[..], calls)
    }

    /** The block_read of the device. */
    method BlockRead(first: Word, n: nat, buf: array<Byte>, at: nat) returns (ok: bool)
      requires Valid() && at + n * SECTOR <= buf.Length
      modifies this`calls, buf
      ensures calls == old(calls) + 1 && ok == !medium.fails(old(calls))
      ensures buf[..] == Overwrite(old(buf[..]), at, if ok then Sectors(medium, first, n) else [])
    {
      ok := !medium.fails(calls);
      calls := calls + 1;
      if ok {
        var data := Sectors(medium, first, n);
        forall i | 0 <= i < |data| {
          buf[at + i] := data[i];
        }
      }
    }

    method Fetch(block: Word) returns (ok: bool)
      requires Valid()
      modifies this`sectorInBuf, this`calls, tmpbuf
      ensures (State(), ok) == CdromRead.Fetch(medium, old(State()), block)
    {
      ok := true;
      if sectorInBuf != block {
        ok := BlockRead(block, 1, tmpbuf, 0);
        if ok {
          OneSector(medium, block);
          assert tmpbuf[..] == medium.sectors(block);
          sectorInBuf := block;
        } else {
          assert tmpbuf[..] == old(tmpbuf[..]);
        }
      }
    }

    /** memcpy out of the buffer. */
    method CopyOut(from: nat, n: nat, dest: array<Byte>, at: nat)
      requires Valid() && from + n <= SECTOR && at + n <= dest.Length && dest != tmpbuf
      modifies dest
      ensures dest[..] == Overwrite(old(dest[..]), at, tmpbuf[from..from + n])
    {
      forall i | 0 <= i < n {
        dest[at + i] := tmpbuf[from + i];
      }
    }

    method ReadHead(block: Word, offset: nat, length: nat, dest: array<Byte>, at: nat) returns (ok: bool, len: nat)
      requires Valid() && offset < SECTOR && at + length <= dest.Length && dest != tmpbuf
      modifies this`sectorInBuf, this`calls, tmpbuf, dest
      ensures var h := Head(medium, old(State()), block, offset, length);
              && State() == h.drive && ok == h.ok && dest[..] == Overwrite(old(dest[..]), at, h.bytes)
      ensures len == HeadLength(offset, length)
    {
      hide CdromRead.Fetch;
      ok, len := true, 0;
      if offset != 0 {
        len := Min(SECTOR - offset, length);
        ok := Fetch(block);
        if ok {
          CopyOut(offset, len, dest, at);
        }
      }
    }

    method ReadMiddle(block: Word, length: nat, dest: array<Byte>, at: nat) returns (ok: bool)
      requires Valid() && at + length <= dest.Length && dest != tmpbuf
      modifies this`calls, dest
      ensures var w := Middle(medium, old(State()), block, length);
              && State() == w.drive && ok == w.ok && dest[..] == Overwrite(old(dest[..]), at, w.bytes)
    {
      hide Sectors;
      ok := true;
      if length / SECTOR != 0 {
        ok := BlockRead(block, length / SECTOR, dest, at);
      }
    }

    method ReadRest(block: Word, length: nat, dest: array<Byte>, at: nat) returns (ok: bool)
      requires Valid() && length < SECTOR && at + length <= dest.Length && dest != tmpbuf
      modifies this`sectorInBuf, this`calls, tmpbuf, dest
      ensures var t := Rest(medium, old(State()), block, length);
              && State() == t.drive && ok == t.ok && dest[..] == Overwrite(old(dest[..]), at, t.bytes)
    {
      hide CdromRead.Fetch;
      ok := true;
      if length != 0 {
        ok := Fetch(block);
        if ok {
          CopyOut(0, length, dest, at);
        }
      }
    }

    /** The loop that brings the offset below the size of a sector. */
    method SkipSectors(block: Word, offset: Word) returns (b: Word, o: nat)
      ensures b == Wrap(block + offset / SECTOR) && o == offset % SECTOR
    {
      hide Wrap;
      b, o := block, offset;
      ThisBlock(block);
      while o >= SECTOR
        invariant 0 <= o <= offset && o % SECTOR == offset % SECTOR
        invariant b == Wrap(block + (offset - o) / SECTOR)
      {
        NextSector(block, offset, o);
        b, o := Wrap(b + 1), o - SECTOR;
      }
      SkippedAll(offset, o);
    }

    /** cdrom_read: what it leaves in the drive and the destination, failed or not, is what Read says. */
    method Read(block: Word, offset: Word, length: Word, dest: array<Byte>, at: nat) returns (ok: bool)
      requires Valid() && at + length <= dest.Length && dest != tmpbuf
      modifies this`sectorInBuf, this`calls, tmpbuf, dest
      ensures var r := CdromRead.Read(medium, old(State()), block, offset, length);
              State() == r.drive && ok == r.ok && dest[..] == Overwrite(old(dest[..]), at, r.bytes)
      ensures ok ==> |CdromRead.Read(medium, old(State()), block, offset, length).bytes| == length
    {
      hide Head, Middle, Rest, Overwrite, Wrap;
      ghost var before, d := dest[..], State();
      var b, o := SkipSectors(block, offset);
      var len;
      ok, len := ReadHead(b, o, length, dest, at);
      PhaseFits(medium, d, b, o, length);
      ghost var h := Head(medium, d, b, o, length);
      if !ok {
        return;
      }
      var b1, rest := if o == 0 then b else Wrap(b + 1), length - len;
      ghost var d1 := State();
      ok := ReadMiddle(b1, rest, dest, at + len);
      MiddleFits(medium, d1, b1, rest);
      ghost var w := Middle(medium, d1, b1, rest);
      OverwriteTwice(before, at, h.bytes, w.bytes);
      if !ok {
        assert h.bytes + [] == h.bytes;
        return;
      }
      ghost var d2, b2 := State(), Wrap(b1 + rest / SECTOR);
      ok := ReadRest(Wrap(b1 + rest / SECTOR), rest % SECTOR, dest, at + len + rest / SECTOR * SECTOR);
      RestFits(medium, d2, b2, rest % SECTOR);
      OverwriteTwice(before, at, h.bytes + w.bytes, Rest(medium, d2, b2, rest % SECTOR).bytes);
    }
  }

  lemma ThisBlock(block: Word)
    ensures Wrap(block + 0 / SECTOR) == block
  {
  }

  lemma SkippedAll(offset: nat, o: nat)
    requires o < SECTOR && o <= offset && o % SECTOR == offset % SECTOR
    ensures o == offset % SECTOR && (offset - o) / SECTOR == offset / SECTOR
  {
  }

  lemma NextSector(block: Word, offset: nat, o: nat)
    requires SECTOR <= o <= offset && o % SECTOR == offset % SECTOR
    ensures (o - SECTOR) % SECTOR == offset % SECTOR
    ensures Wrap(Wrap(block + (offset - o) / SECTOR) + 1) == Wrap(block + (offset - (o - SECTOR)) / SECTOR)
  {
    WrapAdd(block + (offset - o) / SECTOR, 1);
  }

  lemma PhaseFits(m: Medium, d: Drive, block: Word, offset: nat, length: nat)
    requires offset < SECTOR
    ensures var h := Head(m, d, block, offset, length);
            |h.bytes| == if h.ok then HeadLength(offset, length) else 0
  {
  }

  lemma MiddleFits(m: Medium, d: Drive, block: Word, length: nat)
    ensures var w := Middle(m, d, block, length);
            |w.bytes| == if w.ok then length / SECTOR * SECTOR else 0
  {
  }

  lemma RestFits(m: Medium, d: Drive, block: Word, length: nat)
    requires length < SECTOR
    ensures var t := Rest(m, d, block, length);
            |t.bytes| == if t.ok then length else 0
  {
  }

  lemma OneSector(m: Medium, block: Word)
    ensures Sectors(m, block, 1) == m.sectors(block)
  {
    assert Sectors(m, Wrap(block + 1), 0) == [];
  }

  // ---- reading ---------------------------------------------------------------------------

  /** No call of block_read in the range fails. */
  predicate NoFailure(m: Medium, first: nat, end: nat) {
    forall k :: first <= k < end ==> !m.fails(k)
  }

  /** cdrom_read on a drive with a coherent buffer: the flat slice, or failure. */
  method ReadFlat(cd: Cdrom, block: Word, offset: Word, length: Word, dest: array<Byte>) returns (ok: bool)
    requires cd.Valid() && Coherent(cd.medium, cd.State()) && length <= dest.Length && dest != cd.tmpbuf
    modifies cd, cd.tmpbuf, dest
    ensures cd.Valid() && Coherent(cd.medium, cd.State()) && old(cd.calls) <= cd.calls
    ensures ok <==> NoFailure(cd.medium, old(cd.calls), cd.calls)
    ensures ok ==> dest[..] == Flat(cd.medium, block * SECTOR + offset, length) + old(dest[length..])
  {
    hide CdromRead.Read, Flat, Coherent;
    ghost var d := cd.State();
    ok := cd.Read(block, offset, length, dest, 0);
    ReadIsFlat(cd.medium, d, block, offset, length);
    ReadFailsIff(cd.medium, d, block, offset, length);
  }

  lemma SplitCalls(m: Medium, a: nat, b: nat, c: nat)
    requires a <= b <= c
    ensures NoFailure(m, a, c) <==> NoFailure(m, a, b) && NoFailure(m, b, c)
    ensures NoFailure(m, a, a)
  {
  }
}
