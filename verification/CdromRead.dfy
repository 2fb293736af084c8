/** The cached read of src/cdrom.c: a one-sector buffer, and a read in three phases. */
module CdromRead {
  import opened Words

  const SECTOR: int := 2048
  type Sector = s: seq<Byte> | |s| == 2048 ghost witness seq(2048, _ => 0)

  /** A disc, and which of the calls of block_read made in its life fail. */
  datatype Medium = Medium(sectors: Word -> Sector, fails: nat -> bool)

  /** The buffered sector, its number, and how often block_read was called. */
  datatype Drive = Drive(held: Word, buffer: Sector, calls: nat)

  // ---- the disc as one run of bytes ------------------------------------------------------

  function FlatByte(m: Medium, p: nat): Byte {
    m.sectors(Wrap(p / SECTOR))[p % SECTOR]
  }

  function Flat(m: Medium, p: nat, n: nat): (r: seq<Byte>)
    ensures |r| == n
  {
    seq<Byte>(n, i requires 0 <= i < n => FlatByte(m, p + i))
  }

  lemma FlatConcat(m: Medium, p: nat, a: nat, b: nat)
    ensures Flat(m, p, a + b) == Flat(m, p, a) + Flat(m, p + a, b)
  {
    hide FlatByte;
  }

  lemma InSector(x: nat, k: nat)
    requires k < SECTOR
    ensures (x * SECTOR + k) / SECTOR == x && (x * SECTOR + k) % SECTOR == k
  {
  }

  lemma FlatAt(m: Medium, x: nat, o: nat, i: nat)
    requires o + i < SECTOR
    ensures FlatByte(m, x * SECTOR + o + i) == m.sectors(Wrap(x))[o + i]
  {
    hide Wrap;
    InSector(x, o + i);
    assert x * SECTOR + (o + i) == x * SECTOR + o + i;
  }

  /** Part of one sector. */
  lemma FlatInSector(m: Medium, x: nat, o: nat, n: nat)
    requires o + n <= SECTOR
    ensures Flat(m, x * SECTOR + o, n) == m.sectors(Wrap(x))[o..o + n]
  {
    hide Wrap;
    var p, q := Flat(m, x * SECTOR + o, n), m.sectors(Wrap(x))[o..o + n];
    forall i | 0 <= i < n ensures p[i] == q[i] {
      FlatAt(m, x, o, i);
    }
  }

  /** Whole sectors in a row, as one call of block_read delivers them. */
  function Sectors(m: Medium, first: Word, n: nat): (r: seq<Byte>)
    ensures |r| == n * SECTOR
    decreases n
  {
    if n == 0 then [] else m.sectors(first) + Sectors(m, Wrap(first + 1), n - 1)
  }

  lemma {:induction false} SectorsAreFlat(m: Medium, x: nat, n: nat)
    ensures Sectors(m, Wrap(x), n) == Flat(m, x * SECTOR, n * SECTOR)
    decreases n
  {
    hide Wrap;
    if n > 0 {
      WrapAdd(x, 1);
      SectorsAreFlat(m, x + 1, n - 1);
      FlatInSector(m, x, 0, SECTOR);
      FlatConcat(m, x * SECTOR, SECTOR, (n - 1) * SECTOR);
    }
  }

  // ---- what cdrom_read delivers ----------------------------------------------------------

  function Call(m: Medium, d: Drive): (Drive, bool) {
    (d.(calls := d.calls + 1), !m.fails(d.calls))
  }

  /** Bringing a sector into the buffer; a failed call leaves the buffer alone. */
  function Fetch(m: Medium, d: Drive, block: Word): (r: (Drive, bool))
    ensures r.1 ==> r.0.held == block
  {
    if d.held == block then (d, true)
    else
      var (d', ok) := Call(m, d);
      (if ok then Drive(block, m.sectors(block), d'.calls) else d', ok)
  }

  function Min(a: nat, b: nat): nat {
    if a < b then a else b
  }

  /** One phase: the drive after it, and the bytes unless a call failed. */
  datatype Phase = Phase(drive: Drive, ok: bool, bytes: seq<Byte>)

  /** From offset to the end of its sector, if offset is inside one. */
  function Head(m: Medium, d: Drive, block: Word, offset: nat, length: nat): Phase
    requires offset < SECTOR
  {
    if offset == 0 then Phase(d, true, [])
    else
      var (d', ok) := Fetch(m, d, block);
      Phase(d', ok, if ok then d'.buffer[offset..offset + Min(SECTOR - offset, length)] else [])
  }

  /** The whole sectors, which bypass the buffer. */
  function Middle(m: Medium, d: Drive, block: Word, length: nat): Phase {
    if length < SECTOR then Phase(d, true, [])
    else
      var (d', ok) := Call(m, d);
      Phase(d', ok, if ok then Sectors(m, block, length / SECTOR) else [])
  }

  /** The rest, from the start of a sector. */
  function Rest(m: Medium, d: Drive, block: Word, length: nat): Phase
    requires length < SECTOR
  {
    if length == 0 then Phase(d, true, [])
    else
      var (d', ok) := Fetch(m, d, block);
      Phase(d', ok, if ok then d'.buffer[..length] else [])
  }

  function HeadLength(offset: nat, length: nat): (n: nat)
    requires offset < SECTOR
    ensures n <= length && offset + n <= SECTOR
  {
    if offset == 0 then 0 else Min(SECTOR - offset, length)
  }

  function Read(m: Medium, d: Drive, block: Word, offset: nat, length: nat): Phase {
    var b, o := Wrap(block + offset / SECTOR), offset % SECTOR;
    var h := Head(m, d, b, o, length);
    if !h.ok then h
    else
      var b1, rest := if o == 0 then b else Wrap(b + 1), length - HeadLength(o, length);
      var w := Middle(m, h.drive, b1, rest);
      if !w.ok then Phase(w.drive, false, h.bytes)
      else
        var t := Rest(m, w.drive, Wrap(b1 + rest / SECTOR), rest % SECTOR);
        Phase(t.drive, t.ok, h.bytes + w.bytes + t.bytes)
  }

  // ---- coherence -------------------------------------------------------------------------

  ghost predicate Coherent(m: Medium, d: Drive) {
    d.buffer == m.sectors(d.held)
  }

  /** Every successful phase delivers disc bytes, and every phase keeps the buffer coherent. */
  lemma HeadIsFlat(m: Medium, d: Drive, x: nat, offset: nat, length: nat)
    requires Coherent(m, d) && offset < SECTOR
    ensures var h := Head(m, d, Wrap(x), offset, length);
            Coherent(m, h.drive) && (h.ok ==> h.bytes == Flat(m, x * SECTOR + offset, HeadLength(offset, length)))
  {
    hide Wrap, Flat;
    if offset == 0 {
      FlatInSector(m, x, 0, 0);
    } else {
      FlatInSector(m, x, offset, HeadLength(offset, length));
    }
  }

  lemma MiddleIsFlat(m: Medium, d: Drive, x: nat, length: nat)
    requires Coherent(m, d)
    ensures var w := Middle(m, d, Wrap(x), length);
            Coherent(m, w.drive) && (w.ok ==> w.bytes == Flat(m, x * SECTOR, length / SECTOR * SECTOR))
  {
    hide Wrap, Flat;
    SectorsAreFlat(m, x, length / SECTOR);
  }

  lemma RestIsFlat(m: Medium, d: Drive, x: nat, length: nat)
    requires Coherent(m, d) && length < SECTOR
    ensures var t := Rest(m, d, Wrap(x), length);
            Coherent(m, t.drive) && (t.ok ==> t.bytes == Flat(m, x * SECTOR, length))
  {
    hide Wrap, Flat;
    FlatInSector(m, x, 0, length);
  }

  /** A successful read is exactly the flat slice from block * 2048 + offset on, however it is cut
      into phases; failed or not, the buffer stays coherent. */
  lemma ReadIsFlat(m: Medium, d: Drive, block: Word, offset: nat, length: nat)
    requires Coherent(m, d)
    ensures var r := Read(m, d, block, offset, length);
            Coherent(m, r.drive) && (r.ok ==> r.bytes == Flat(m, block * SECTOR + offset, length))
  {
    hide Wrap, Flat, Coherent, Head, Middle, Rest;
    var x, o := block + offset / SECTOR, offset % SECTOR;
    var n := HeadLength(o, length);
    var x1, rest := if o == 0 then x else x + 1, length - n;
    var q := rest / SECTOR;
    HeadIsFlat(m, d, x, o, length);
    var h := Head(m, d, Wrap(x), o, length);
    WrapAdd(x, 1);
    WrapAdd(x1, q);
    MiddleIsFlat(m, h.drive, x1, rest);
    var w := Middle(m, h.drive, Wrap(x1), rest);
    RestIsFlat(m, w.drive, x1 + q, rest % SECTOR);
    Glue(m, x * SECTOR + o, n, x1 * SECTOR, q * SECTOR, rest % SECTOR);
  }

  /** Three adjacent slices; the second is empty or starts where the first ends, and so the third. */
  lemma Glue(m: Medium, p: nat, a: nat, p1: nat, b: nat, c: nat)
    requires b + c > 0 ==> p1 == p + a
    ensures Flat(m, p, a) + Flat(m, p1, b) + Flat(m, p1 + b, c) == Flat(m, p, a + b + c)
  {
    hide FlatByte;
    FlatConcat(m, p, a, b);
    FlatConcat(m, p, a + b, c);
  }

  /** Reading is right for every request exactly if the buffer is coherent to begin with: a drive
      whose buffer number was never set must not look as if it held a sector. */
  lemma FlatIffCoherent(m: Medium, d: Drive)
    ensures Coherent(m, d)
            <==> forall block: Word, offset: nat, length: nat ::
                   var r := Read(m, d, block, offset, length);
                   r.ok ==> r.bytes == Flat(m, block * SECTOR + offset, length)
  {
    hide Read, Flat;
    if Coherent(m, d) {
      forall block: Word, offset: nat, length: nat
        ensures var r := Read(m, d, block, offset, length);
                r.ok ==> r.bytes == Flat(m, block * SECTOR + offset, length)
      {
        ReadIsFlat(m, d, block, offset, length);
      }
    } else {
      var i :| 0 <= i < SECTOR && d.buffer[i] != m.sectors(d.held)[i];
      ReadHeld(m, d, i);
    }
  }

  /** A request for bytes up to i of the held sector that does not leave the buffer. */
  lemma ReadHeld(m: Medium, d: Drive, i: nat)
    requires i < SECTOR && d.buffer[i] != m.sectors(d.held)[i]
    ensures exists block: Word, offset: nat, length: nat ::
              var r := Read(m, d, block, offset, length);
              r.ok && r.bytes != Flat(m, block * SECTOR + offset, length)
  {
    hide Read, Flat;
    ReadsFromBuffer(m, d, i);
    FlatInSector(m, d.held, i, 1);
    assert Wrap(d.held) == d.held;
    var r := Read(m, d, d.held, i, 1);
    assert r.ok && r.bytes[0] != Flat(m, d.held * SECTOR + i, 1)[0];
  }

  lemma ReadsFromBuffer(m: Medium, d: Drive, i: nat)
    requires i < SECTOR
    ensures Read(m, d, d.held, i, 1) == Phase(d, true, [d.buffer[i]])
  {
    assert Wrap(d.held) == d.held;
    assert i % SECTOR == i && i / SECTOR == 0;
  }

  // ---- runs of reads ---------------------------------------------------------------------

  datatype Request = Request(block: Word, offset: nat, length: nat)

  /** The drive after some reads, failed ones included. */
  function After(m: Medium, d: Drive, rs: seq<Request>): Drive {
    if rs == [] then d
    else
      var last := rs[|rs| - 1];
      Read(m, After(m, d, rs[..|rs| - 1]), last.block, last.offset, last.length).drive
  }

  /** Whatever was read before, and however many of those reads failed, the next read is right. */
  lemma {:induction false} EveryReadIsFlat(m: Medium, d: Drive, rs: seq<Request>, next: Request)
    requires Coherent(m, d)
    ensures Coherent(m, After(m, d, rs))
    ensures var r := Read(m, After(m, d, rs), next.block, next.offset, next.length);
            r.ok ==> r.bytes == Flat(m, next.block * SECTOR + next.offset, next.length)
    decreases |rs|
  {
    hide Read, Flat;
    if rs != [] {
      EveryReadIsFlat(m, d, rs[..|rs| - 1], rs[|rs| - 1]);
      var last := rs[|rs| - 1];
      ReadIsFlat(m, After(m, d, rs[..|rs| - 1]), last.block, last.offset, last.length);
    }
    ReadIsFlat(m, After(m, d, rs), next.block, next.offset, next.length);
  }

  /** A read fails exactly if one of its calls of block_read does, and it makes at most three. */
  lemma ReadFailsIff(m: Medium, d: Drive, block: Word, offset: nat, length: nat)
    ensures var r := Read(m, d, block, offset, length);
            && d.calls <= r.drive.calls <= d.calls + 3
            && (r.ok <==> forall k :: d.calls <= k < r.drive.calls ==> !m.fails(k))
  {
    hide Wrap, Sectors;
  }
}
