/**
 What a run of the disk installer guarantees: the new chain reads back as the image, erasing is
 its inverse, protected blocks are untouched, and a second run leaves the disk bit for bit as the
 first. It also gives the exact condition under which a run writes inside the declared hard-block area only.
 */
module InstallerTheorems {
  import opened Words
  import opened Installer

  // ---- chains on a disk ------------------------------------------------------------------

  /** Following bcb_Next from block to FREE meets exactly the checksummed boot blocks of list. */
  ghost predicate IsChain(disk: Disk, block: Word, list: seq<Word>, heap: Heap)
    decreases list
  {
    if list == [] then block == FREE
    else list[0] == block && IsBoot(disk, block, heap) && DATA <= disk[Slot(block)][LONGS] <= 128
         && IsChain(disk, disk[Slot(block)][NEXT], list[1..], heap)
  }

  /** The summed data words of the blocks of list, in order. */
  ghost function ChainData(disk: Disk, list: seq<Word>): seq<Word>
    requires forall b :: b in list ==> DATA <= disk[Slot(b)][LONGS] <= 128
  {
    if list == [] then []
    else disk[Slot(list[0])][DATA..disk[Slot(list[0])][LONGS]] + ChainData(disk, list[1..])
  }

  /** The blocks of list are boot blocks linked in order, and the last link leads to no boot block. */
  ghost predicate IsBootRun(disk: Disk, block: Word, list: seq<Word>, heap: Heap)
    decreases list
  {
    if list == [] then !IsBoot(disk, block, heap)
    else list[0] == block && IsBoot(disk, block, heap)
         && IsBootRun(disk, disk[Slot(block)][NEXT], list[1..], heap)
  }

  predicate DistinctSlots(list: seq<Word>) {
    forall i, j :: 0 <= i < j < |list| ==> Slot(list[i]) != Slot(list[j])
  }

  lemma {:induction false} ChainIsBootRun(disk: Disk, block: Word, list: seq<Word>, heap: Heap)
    requires IsChain(disk, block, list, heap)
    ensures IsBootRun(disk, block, list, heap)
    ensures forall b :: b in list ==> DATA <= disk[Slot(b)][LONGS] <= 128
    decreases list
  {
    if list != [] {
      ChainIsBootRun(disk, disk[Slot(block)][NEXT], list[1..], heap);
    }
  }

  // ---- erasing ---------------------------------------------------------------------------

  ghost function FreeAll(disk: Disk, list: seq<Word>, heap: Heap): (r: Disk)
    ensures forall s :: 0 <= s < REACH && (forall b :: b in list ==> Slot(b) != s) ==> r[s] == disk[s]
    ensures forall b :: b in list ==> r[Slot(b)][ID] == FREE
    decreases list
  {
    if list == [] then disk
    else FreeAll(disk[Slot(list[0]) := Freed(disk[Slot(list[0])], heap)], list[1..], heap)
  }

  /** Freeing a block not on the rest of a run keeps the rest a run. */
  lemma {:induction false} BootRunFrame(disk: Disk, s: nat, block: Word, list: seq<Word>, heap: Heap)
    requires IsBootRun(disk, block, list, heap) && s < REACH
    requires forall b :: b in list ==> Slot(b) != s
    ensures IsBootRun(disk[s := Freed(disk[s], heap)], block, list, heap)
    decreases list
  {
    if list != [] {
      BootRunFrame(disk, s, disk[Slot(block)][NEXT], list[1..], heap);
    }
  }

  /** erase_slb visits exactly the blocks of a run of boot blocks and frees each of them. */
  lemma {:induction false} EraseFreesRun(disk: Disk, block: Word, list: seq<Word>, heap: Heap)
    requires IsBootRun(disk, block, list, heap) && DistinctSlots(list)
    ensures Erase(disk, block, heap) == (FreeAll(disk, list, heap), list)
    decreases list
  {
    if list != [] {
      hide Freed;
      var s := Slot(block);
      assert list == [block] + list[1..];
      FreeingShrinks(disk, block, heap);
      forall b | b in list[1..] ensures Slot(b) != s {
        var k :| 0 <= k < |list[1..]| && list[1..][k] == b;
        assert list[k + 1] == b;
      }
      BootRunFrame(disk, s, disk[s][NEXT], list[1..], heap);
      EraseFreesRun(disk[s := Freed(disk[s], heap)], disk[s][NEXT], list[1..], heap);
    }
  }

  /** erase_slb changes boot blocks only, and only into free ones: the identifier and the checksum. */
  lemma {:induction false} EraseFrame(disk: Disk, block: Word, heap: Heap, s: nat)
    requires s < REACH
    ensures var r := Erase(disk, block, heap).0;
            r[s] == disk[s]
            || (disk[s][ID] == BOOT && r[s][ID] == FREE
                && forall w :: 0 <= w < 128 && w != ID && w != CHK ==> r[s][w] == disk[s][w])
    decreases Boots(disk)
  {
    if IsBoot(disk, block, heap) {
      FreeingShrinks(disk, block, heap);
      var blk := disk[Slot(block)];
      EraseFrame(disk[Slot(block) := Freed(blk, heap)], blk[NEXT], heap, s);
    }
  }

  /** After erasing from block, block is no boot block any more. */
  lemma EraseStable(disk: Disk, block: Word, heap: Heap)
    ensures !IsBoot(Erase(disk, block, heap).0, block, heap)
  {
    if IsBoot(disk, block, heap) {
      var d := disk[Slot(block) := Freed(disk[Slot(block)], heap)];
      EraseFrame(d, disk[Slot(block)][NEXT], heap, Slot(block));
    }
  }

  // ---- the written chain -----------------------------------------------------------------

  lemma SlbBlockFacts(picks: seq<Word>, i: nat, slb: seq<Word>, tail: Tail, heap: Heap)
    requires i + 1 < |picks| && DATA_WORDS * i < |slb|
    ensures var b := SlbBlock(picks, i, slb, tail, heap);
            var rest := |slb| - DATA_WORDS * i;
            && BlockSum(b, heap) == 0 && b[ID] == BOOT
            && b[LONGS] == (if rest <= DATA_WORDS then 5 + rest else 128)
            && b[NEXT] == (if rest <= DATA_WORDS then FREE else picks[i + 1])
            && b[DATA..b[LONGS]] == slb[DATA_WORDS * i..if rest <= DATA_WORDS then |slb| else DATA_WORDS * (i + 1)]
  {
    hide BlockSum;
    var offset := DATA_WORDS * i;
    var rest := |slb| - offset;
    var last := rest <= DATA_WORDS;
    var head := [BOOT, if last then 5 + rest else 128, 0, 0, if last then FREE else picks[i + 1]];
    var data := (slb + tail)[offset..offset + DATA_WORDS];
    var raw: Block := head + data;
    FixedValidIff(raw, heap);
    var n := raw[LONGS] - 5;
    var cut, want := raw[DATA..DATA + n], slb[offset..offset + n];
    forall k | 0 <= k < |cut| ensures cut[k] == want[k] {
      assert cut[k] == data[k] == (slb + tail)[offset + k];
    }
    assert cut == want;
    assert Fixed(raw, heap)[DATA..DATA + n] == cut;
  }

  /** Block numbers in strictly rising order, each addressing its own slot. */
  predicate Ascending(picks: seq<Word>) {
    forall i, j :: 0 <= i <= j < |picks| ==> picks[i] <= picks[j] < REACH && (i < j ==> picks[i] != picks[j])
  }

  lemma PickSlots(picks: seq<Word>, k: nat)
    requires Ascending(picks) && k < |picks|
    ensures Slot(picks[k]) == picks[k]
    ensures forall i :: 0 <= i < |picks| && i != k ==> picks[i] != picks[k]
  {
  }

  /** Block by block content of the disk written: the chain on picks, everything else as before. */
  lemma {:induction false} WrittenAt(disk: Disk, picks: seq<Word>, k: nat, slb: seq<Word>, tail: Tail, heap: Heap, s: nat)
    requires k <= WrittenCount(picks) && |picks| <= Count(|slb|) + 1
    requires Ascending(picks) && s < REACH
    ensures forall i :: 0 <= i < k ==> DATA_WORDS * i < |slb|
    ensures forall i :: 0 <= i < k && picks[i] == s
                        ==> Written(disk, picks, k, slb, tail, heap)[s] == SlbBlock(picks, i, slb, tail, heap)
    ensures s !in picks[..k] ==> Written(disk, picks, k, slb, tail, heap)[s] == disk[s]
    decreases k
  {
    hide SlbBlock, Ascending;
    if k > 0 {
      CountBounds(|slb|, k - 1);
      assert picks[..k] == picks[..k - 1] + [picks[k - 1]];
      WrittenAt(disk, picks, k - 1, slb, tail, heap, s);
      PickSlots(picks, k - 1);
    }
  }

  // ---- one run ---------------------------------------------------------------------------

  /** The disk after a run, block by block. */
  lemma AfterRunAt(disk: Disk, i: nat, slb: seq<Word>, tail: Tail, heap: Heap, s: nat)
    requires Ready(disk, i, |slb|, heap) && s < REACH
    ensures var picks := RunPicks(disk, i, |slb|, heap);
            var k := WrittenCount(picks);
            var r := AfterRun(disk, i, slb, tail, heap);
            var erased := ErasedDisk(disk, i, heap);
            && Ascending(picks) && k <= Count(|slb|) && erased[i] == disk[i] && i !in picks
            && (forall j :: 0 <= j < |picks| ==> IsFree(erased[picks[j]]))
            && (forall j :: 0 <= j < k ==> DATA_WORDS * j < |slb|)
            && (s == i ==> r[s] == Fixed(Relinked(disk[i], picks), heap))
            && (forall j :: 0 <= j < k && picks[j] == s ==> r[s] == SlbBlock(picks, j, slb, tail, heap))
            && (s != i && s !in picks[..k] ==> r[s] == erased[s])
  {
    hide SlbBlock, Fixed, Erase;
    var picks := RunPicks(disk, i, |slb|, heap);
    EraseFrame(disk, disk[i][BOOT_LIST], heap, i);
    WrittenAt(ErasedDisk(disk, i, heap), picks, WrittenCount(picks), slb, tail, heap, s);
  }

  /** The j-th chain block on the disk a run leaves. */
  lemma ChainBlock(disk: Disk, i: nat, slb: seq<Word>, tail: Tail, heap: Heap, j: nat)
    requires Ready(disk, i, |slb|, heap) && j < WrittenCount(RunPicks(disk, i, |slb|, heap))
    ensures var picks := RunPicks(disk, i, |slb|, heap);
            var b := AfterRun(disk, i, slb, tail, heap)[Slot(picks[j])];
            var rest := |slb| - DATA_WORDS * j;
            && rest > 0 && picks[j] != FREE && BlockSum(b, heap) == 0 && b[ID] == BOOT
            && b[LONGS] == (if rest <= DATA_WORDS then 5 + rest else 128)
            && b[NEXT] == (if rest <= DATA_WORDS then FREE else picks[j + 1])
            && b[DATA..b[LONGS]] == slb[DATA_WORDS * j..if rest <= DATA_WORDS then |slb| else DATA_WORDS * (j + 1)]
  {
    hide AfterRun, RunPicks, SlbBlock;
    var picks := RunPicks(disk, i, |slb|, heap);
    AfterRunAt(disk, i, slb, tail, heap, Slot(0));
    PickSlots(picks, j);
    AfterRunAt(disk, i, slb, tail, heap, picks[j]);
    SlbBlockFacts(picks, j, slb, tail, heap);
  }

  lemma {:induction false} ReadBackFrom(disk: Disk, i: nat, slb: seq<Word>, tail: Tail, heap: Heap, j: nat)
    requires Ready(disk, i, |slb|, heap) && j < Count(|slb|)
    requires |RunPicks(disk, i, |slb|, heap)| == Count(|slb|) + 1
    ensures var list := RunPicks(disk, i, |slb|, heap)[j..Count(|slb|)];
            var r := AfterRun(disk, i, slb, tail, heap);
            && IsChain(r, list[0], list, heap)
            && (forall b :: b in list ==> DATA <= r[Slot(b)][LONGS] <= 128)
            && ChainData(r, list) == slb[DATA_WORDS * j..]
    decreases Count(|slb|) - j
  {
    hide AfterRun, RunPicks;
    var picks, n := RunPicks(disk, i, |slb|, heap), Count(|slb|);
    var r := AfterRun(disk, i, slb, tail, heap);
    ChainBlock(disk, i, slb, tail, heap, j);
    CountBounds(|slb|, j + 1);
    assert picks[j..n] == [picks[j]] + picks[j + 1..n];
    if j + 1 < n {
      ReadBackFrom(disk, i, slb, tail, heap, j + 1);
      assert slb[DATA_WORDS * j..] == slb[DATA_WORDS * j..DATA_WORDS * (j + 1)] + slb[DATA_WORDS * (j + 1)..];
    } else {
      assert picks[j + 1..n] == [];
      ChainIsBootRun(r, picks[j], picks[j..n], heap);
    }
  }

  /** The new RDB points to the first block found, or where it pointed before. */
  lemma RdbHead(disk: Disk, i: nat, slb: seq<Word>, tail: Tail, heap: Heap)
    requires Ready(disk, i, |slb|, heap)
    ensures var picks := RunPicks(disk, i, |slb|, heap);
            AfterRun(disk, i, slb, tail, heap)[i][BOOT_LIST] == if picks == [] then disk[i][BOOT_LIST] else picks[0]
  {
    hide AfterRun, RunPicks;
    AfterRunAt(disk, i, slb, tail, heap, i);
  }

  /** A completed run is undone by reading: the chain from the new RDB holds exactly the image. */
  lemma ReadBack(disk: Disk, i: nat, slb: seq<Word>, tail: Tail, heap: Heap)
    requires Ready(disk, i, |slb|, heap) && slb != []
    requires |RunPicks(disk, i, |slb|, heap)| == Count(|slb|) + 1
    ensures var list := RunPicks(disk, i, |slb|, heap)[..Count(|slb|)];
            var r := AfterRun(disk, i, slb, tail, heap);
            && IsChain(r, r[i][BOOT_LIST], list, heap) && DistinctSlots(list)
            && (forall b :: b in list ==> DATA <= r[Slot(b)][LONGS] <= 128)
            && ChainData(r, list) == slb
  {
    hide AfterRun, RunPicks, IsChain, ChainData, Fixed;
    AfterRunAt(disk, i, slb, tail, heap, i);
    RdbHead(disk, i, slb, tail, heap);
    var picks := RunPicks(disk, i, |slb|, heap);
    ReadBackFrom(disk, i, slb, tail, heap, 0);
    assert picks[0..Count(|slb|)] == picks[..Count(|slb|)];
    assert slb[0..] == slb;
  }

  lemma {:induction false} RunFrom(disk: Disk, i: nat, slb: seq<Word>, tail: Tail, heap: Heap, j: nat)
    requires Ready(disk, i, |slb|, heap) && j < |RunPicks(disk, i, |slb|, heap)|
    ensures var picks := RunPicks(disk, i, |slb|, heap);
            IsBootRun(AfterRun(disk, i, slb, tail, heap), picks[j], picks[j..|picks| - 1], heap)
    decreases |RunPicks(disk, i, |slb|, heap)| - j
  {
    hide AfterRun, RunPicks;
    var picks := RunPicks(disk, i, |slb|, heap);
    var k := |picks| - 1;
    AfterRunAt(disk, i, slb, tail, heap, Slot(0));
    PickSlots(picks, j);
    if j == k {
      AfterRunAt(disk, i, slb, tail, heap, picks[j]);
    } else {
      ChainBlock(disk, i, slb, tail, heap, j);
      CountBounds(|slb|, j + 1);
      assert picks[j..k] == [picks[j]] + picks[j + 1..k];
      RunFrom(disk, i, slb, tail, heap, j + 1);
    }
  }

  /** Completed or not, a run leaves the RDB at the head of a run of the blocks it wrote. */
  lemma RunIsErasable(disk: Disk, i: nat, slb: seq<Word>, tail: Tail, heap: Heap)
    requires Ready(disk, i, |slb|, heap)
    ensures var picks := RunPicks(disk, i, |slb|, heap);
            var r := AfterRun(disk, i, slb, tail, heap);
            var list := picks[..WrittenCount(picks)];
            IsBootRun(r, r[i][BOOT_LIST], list, heap) && DistinctSlots(list)
  {
    hide AfterRun, RunPicks, IsBootRun, Fixed;
    var picks := RunPicks(disk, i, |slb|, heap);
    AfterRunAt(disk, i, slb, tail, heap, i);
    RdbHead(disk, i, slb, tail, heap);
    if picks == [] {
      NoRun(disk, i, slb, tail, heap);
    } else {
      RunFrom(disk, i, slb, tail, heap, 0);
      assert picks[0..|picks| - 1] == picks[..|picks| - 1];
    }
  }

  lemma NoRun(disk: Disk, i: nat, slb: seq<Word>, tail: Tail, heap: Heap)
    requires Ready(disk, i, |slb|, heap) && RunPicks(disk, i, |slb|, heap) == []
    ensures IsBootRun(AfterRun(disk, i, slb, tail, heap), disk[i][BOOT_LIST], [], heap)
  {
    hide AfterRun, RunPicks;
    var head := disk[i][BOOT_LIST];
    EraseStable(disk, head, heap);
    AfterRunAt(disk, i, slb, tail, heap, Slot(head));
  }

  /** find_rdb meets the same block after a run, whatever SummedLongs its RDB has. */
  lemma RdbStays(disk: Disk, i: nat, slb: seq<Word>, tail: Tail, heap: Heap)
    requires Ready(disk, i, |slb|, heap)
    ensures var r := AfterRun(disk, i, slb, tail, heap);
            IsFirstRdb(r, i, heap) && Limit(r[i]) == Limit(disk[i]) && Fixed(r[i], heap) == r[i]
  {
    hide AfterRun, RunPicks, SlbBlock;
    var picks := RunPicks(disk, i, |slb|, heap);
    var r := AfterRun(disk, i, slb, tail, heap);
    AfterRunAt(disk, i, slb, tail, heap, i);
    var linked := Relinked(disk[i], picks);
    if picks != [] {
      BlockSumUpdate(disk[i], BOOT_LIST, picks[0], heap);
    }
    FixedValidIff(linked, heap);
    FixedValidIff(r[i], heap);
    forall j | 0 <= j < i ensures !IsRdb(r[j], heap) {
      AfterRunAt(disk, i, slb, tail, heap, j);
      EraseFrame(disk, disk[i][BOOT_LIST], heap, j);
      if h: nat :| h < WrittenCount(picks) && picks[h] == j {
        SlbBlockFacts(picks, h, slb, tail, heap);
      }
    }
  }

  /** A run touches no RDSK, BADB, PART, FSHD or LSEG block but the RDB, and there two words only. */
  lemma RunFrame(disk: Disk, i: nat, slb: seq<Word>, tail: Tail, heap: Heap, s: nat)
    requires Ready(disk, i, |slb|, heap) && s < REACH
    requires disk[s][ID] in {RDSK, BADB, PART, FSHD, LSEG}
    ensures var r := AfterRun(disk, i, slb, tail, heap);
            if s != i then r[s] == disk[s]
            else forall w :: 0 <= w < 128 && w != CHK && w != BOOT_LIST ==> r[s][w] == disk[s][w]
  {
    hide AfterRun, RunPicks, SlbBlock;
    AfterRunAt(disk, i, slb, tail, heap, s);
    EraseFrame(disk, disk[i][BOOT_LIST], heap, s);
  }

  // ---- erasing and running again ---------------------------------------------------------

  /** Erasing the chain of a run gives back every block it took, and only those change. */
  lemma EraseUndoesRun(disk: Disk, i: nat, slb: seq<Word>, tail: Tail, heap: Heap, s: nat)
    requires Ready(disk, i, |slb|, heap) && s < REACH
    ensures var picks := RunPicks(disk, i, |slb|, heap);
            var r := AfterRun(disk, i, slb, tail, heap);
            var again := ErasedDisk(r, i, heap);
            && Erase(r, r[i][BOOT_LIST], heap).1 == picks[..WrittenCount(picks)]
            && (IsFree(again[s]) <==> IsFree(ErasedDisk(disk, i, heap)[s]))
            && (s !in picks[..WrittenCount(picks)] ==> again[s] == r[s])
  {
    hide AfterRun, RunPicks, SlbBlock, Erase, Fixed;
    var picks := RunPicks(disk, i, |slb|, heap);
    var r := AfterRun(disk, i, slb, tail, heap);
    var list := picks[..WrittenCount(picks)];
    RunIsErasable(disk, i, slb, tail, heap);
    EraseFreesRun(r, r[i][BOOT_LIST], list, heap);
    AfterRunAt(disk, i, slb, tail, heap, s);
    SlotsOf(picks, list, s);
    RdbStays(disk, i, slb, tail, heap);
    assert s in list ==> FreeAll(r, list, heap)[Slot(s)][ID] == FREE;
  }

  lemma SlotsOf(picks: seq<Word>, list: seq<Word>, s: nat)
    requires Ascending(picks) && list <= picks && s < REACH
    ensures s in list ==> s in picks && Slot(s) == s
    ensures s !in list ==> forall b :: b in list ==> Slot(b) != s
  {
    forall b | b in list ensures b in picks && Slot(b) == b {
      var h :| 0 <= h < |list| && list[h] == b;
      assert picks[h] == b;
    }
  }

  /** Searches depend on which blocks are free, not on what they hold. */
  lemma {:induction false} PicksAgree(d: Disk, d': Disk, from: nat, limit: nat, want: nat)
    requires from + want < REACH && limit + want < REACH
    requires forall j :: 0 <= j < REACH ==> (IsFree(d[j]) <==> IsFree(d'[j]))
    ensures Picks(d, from, limit, want) == Picks(d', from, limit, want)
    decreases want
  {
    if want > 0 {
      SearchAgrees(d, d', from, limit);
      var q := SearchEnd(d, from, limit);
      if IsFree(d[q]) {
        PicksAgree(d, d', q, limit, want - 1);
      }
    }
  }

  /** Running the installer twice with one image leaves exactly the disk of running it once. */
  lemma RunIsIdempotent(disk: Disk, i: nat, slb: seq<Word>, tail: Tail, heap: Heap)
    requires Ready(disk, i, |slb|, heap)
    ensures var r := AfterRun(disk, i, slb, tail, heap);
            Ready(r, i, |slb|, heap) && AfterRun(r, i, slb, tail, heap) == r
  {
    hide AfterRun, RunPicks, SlbBlock, Erase, Fixed, ErasedDisk, IsFirstRdb;
    var r := AfterRun(disk, i, slb, tail, heap);
    RdbStays(disk, i, slb, tail, heap);
    SamePicks(disk, i, slb, tail, heap);
    forall s | 0 <= s < REACH ensures AfterRun(r, i, slb, tail, heap)[s] == r[s] {
      SecondRunAt(disk, i, slb, tail, heap, s);
    }
  }

  lemma SamePicks(disk: Disk, i: nat, slb: seq<Word>, tail: Tail, heap: Heap)
    requires Ready(disk, i, |slb|, heap)
    ensures var r := AfterRun(disk, i, slb, tail, heap);
            Ready(r, i, |slb|, heap) && RunPicks(r, i, |slb|, heap) == RunPicks(disk, i, |slb|, heap)
  {
    hide AfterRun, SlbBlock, Erase, Fixed, ErasedDisk, Picks;
    var r := AfterRun(disk, i, slb, tail, heap);
    RdbStays(disk, i, slb, tail, heap);
    var again, first := ErasedDisk(r, i, heap), ErasedDisk(disk, i, heap);
    forall s | 0 <= s < REACH ensures IsFree(again[s]) <==> IsFree(first[s]) {
      EraseUndoesRun(disk, i, slb, tail, heap, s);
    }
    PicksAgree(again, first, 0, Limit(disk[i]), Count(|slb|) + 1);
  }

  lemma SecondRunAt(disk: Disk, i: nat, slb: seq<Word>, tail: Tail, heap: Heap, s: nat)
    requires Ready(disk, i, |slb|, heap) && s < REACH
    requires var r := AfterRun(disk, i, slb, tail, heap);
             Ready(r, i, |slb|, heap) && RunPicks(r, i, |slb|, heap) == RunPicks(disk, i, |slb|, heap)
    ensures var r := AfterRun(disk, i, slb, tail, heap);
            AfterRun(r, i, slb, tail, heap)[s] == r[s]
  {
    hide AfterRun, RunPicks, SlbBlock, Erase, Fixed, ErasedDisk, IsFirstRdb;
    var r := AfterRun(disk, i, slb, tail, heap);
    var picks := RunPicks(disk, i, |slb|, heap);
    RdbStays(disk, i, slb, tail, heap);
    AfterRunAt(disk, i, slb, tail, heap, s);
    AfterRunAt(r, i, slb, tail, heap, s);
    EraseUndoesRun(disk, i, slb, tail, heap, s);
    if s == i {
      RelinkedHead(disk, i, slb, tail, heap);
    }
  }

  lemma RelinkedHead(disk: Disk, i: nat, slb: seq<Word>, tail: Tail, heap: Heap)
    requires Ready(disk, i, |slb|, heap)
    ensures var r := AfterRun(disk, i, slb, tail, heap);
            Relinked(r[i], RunPicks(disk, i, |slb|, heap)) == r[i]
  {
    hide AfterRun, RunPicks;
    AfterRunAt(disk, i, slb, tail, heap, i);
  }

  // ---- the search limit ------------------------------------------------------------------

  /** How many of the blocks behind from up to limit are free. */
  ghost function FreeCount(disk: Disk, from: nat, limit: nat): nat
    requires limit < REACH
    decreases limit - from
  {
    if from >= limit then 0
    else (if IsFree(disk[from + 1]) then 1 else 0) + FreeCount(disk, from + 1, limit)
  }

  lemma {:induction false} SearchCounts(disk: Disk, from: nat, limit: nat)
    requires from < limit < REACH
    ensures var q := SearchEnd(disk, from, limit);
            q <= limit && FreeCount(disk, from, limit)
                          == (if IsFree(disk[q]) then 1 else 0) + FreeCount(disk, q, limit)
    decreases limit - from
  {
    if !IsFree(disk[from + 1]) && from + 1 < limit {
      SearchCounts(disk, from + 1, limit);
    }
  }

  /** The k-th block found is at or below the search limit exactly when more than k blocks up to there are free. */
  lemma {:induction false} PicksWithinLimit(disk: Disk, from: nat, limit: nat, want: nat, k: nat)
    requires from + want < REACH && limit + want < REACH && k < want
    ensures var picks := Picks(disk, from, limit, want);
            (k < |picks| && picks[k] <= limit) <==> FreeCount(disk, from, limit) > k
    decreases want
  {
    var q := SearchEnd(disk, from, limit);
    if from < limit {
      SearchCounts(disk, from, limit);
    }
    if IsFree(disk[q]) && k > 0 {
      PicksWithinLimit(disk, q, limit, want - 1, k - 1);
    }
  }

  /** How many blocks right behind block at are free, up to most. */
  ghost function FreeRun(disk: Disk, at: nat, most: nat): (r: nat)
    requires at + most < REACH
    ensures r <= most && forall b :: at < b <= at + r ==> IsFree(disk[b])
    ensures r < most ==> !IsFree(disk[at + r + 1])
    decreases most
  {
    if most == 0 || !IsFree(disk[at + 1]) then 0 else 1 + FreeRun(disk, at + 1, most - 1)
  }

  /** At or past the limit, searches take one block after the other as long as these are free. */
  lemma {:induction false} PicksPastLimit(disk: Disk, from: nat, limit: nat, want: nat)
    requires from + want < REACH && limit <= from
    ensures |Picks(disk, from, limit, want)| == FreeRun(disk, from, want)
    decreases want
  {
    if want > 0 && IsFree(disk[from + 1]) {
      PicksPastLimit(disk, from + 1, limit, want - 1);
    }
  }

  /** The block at the limit leads on to those behind it: it is free, or the search starts there. */
  ghost predicate LeadsOn(disk: Disk, from: nat, limit: nat)
    requires limit < REACH
  {
    from == limit || IsFree(disk[limit])
  }

  /** How many blocks up to want searches find: the free ones up to the limit, and behind it those
      that the block at the limit leads on to. */
  ghost function Found(disk: Disk, from: nat, limit: nat, want: nat): nat
    requires limit + want < REACH
  {
    var free := FreeCount(disk, from, limit);
    if free >= want then want
    else if LeadsOn(disk, from, limit) then free + FreeRun(disk, limit, want - free)
    else free
  }

  lemma {:induction false} PicksLength(disk: Disk, from: nat, limit: nat, want: nat)
    requires from <= limit && limit + want < REACH
    ensures |Picks(disk, from, limit, want)| == Found(disk, from, limit, want)
    decreases want
  {
    if want > 0 {
      if from == limit {
        PicksPastLimit(disk, from, limit, want);
      } else {
        SearchCounts(disk, from, limit);
        var q := SearchEnd(disk, from, limit);
        if IsFree(disk[q]) {
          PicksLength(disk, q, limit, want - 1);
        }
      }
    }
  }

  lemma {:induction false} PickPastLimit(disk: Disk, from: nat, limit: nat, want: nat, k: nat)
    requires from + want < REACH && limit <= from && k < |Picks(disk, from, limit, want)|
    ensures Picks(disk, from, limit, want)[k] == from + 1 + k
    decreases want
  {
    if k > 0 {
      PickPastLimit(disk, from + 1, limit, want - 1, k - 1);
    }
  }

  /** Once the free blocks up to the limit are found, the others follow right behind it. */
  lemma {:induction false} PickBehindLimit(disk: Disk, from: nat, limit: nat, want: nat, k: nat)
    requires from <= limit && limit + want < REACH
    requires FreeCount(disk, from, limit) <= k < |Picks(disk, from, limit, want)|
    ensures Picks(disk, from, limit, want)[k] == limit + 1 + k - FreeCount(disk, from, limit)
    decreases want
  {
    if from == limit {
      PickPastLimit(disk, from, limit, want, k);
    } else {
      SearchCounts(disk, from, limit);
      PickBehindLimit(disk, SearchEnd(disk, from, limit), limit, want - 1, k - 1);
    }
  }

  /** The first block found is the first free one behind block 0. */
  lemma FirstPick(disk: Disk, limit: nat, want: nat)
    requires limit + want < REACH && Picks(disk, 0, limit, want) != []
    ensures var q := Picks(disk, 0, limit, want)[0];
            1 <= q < REACH && IsFree(disk[q]) && forall b :: 1 <= b < q ==> !IsFree(disk[b])
  {
  }

  // ---- the area the RDB declares ---------------------------------------------------------

  /** src/rdb.h:91-92: hard blocks may lie from rdb_RDBBlocksLo to rdb_RDBBlocksHi. */
  predicate InArea(rdb: Block, b: Word) {
    rdb[BLOCKS_LO] <= b <= rdb[BLOCKS_HI]
  }

  ghost predicate NoneFreeBelow(disk: Disk, lo: Word) {
    forall b :: 1 <= b < lo && b < REACH ==> !IsFree(disk[b])
  }

  /** A rising list lies between two bounds exactly if its ends do. */
  lemma BoundsOfRise(picks: seq<Word>, n: nat, rdb: Block)
    requires Ascending(picks) && 0 < n <= |picks|
    ensures (forall b :: b in picks[..n] ==> InArea(rdb, b))
       <==> rdb[BLOCKS_LO] <= picks[0] && picks[n - 1] <= rdb[BLOCKS_HI]
  {
    assert picks[..n][0] in picks[..n] && picks[..n][n - 1] in picks[..n];
    forall b | b in picks[..n] ensures picks[0] <= b <= picks[n - 1] {
      var h :| 0 <= h < n && picks[h] == b;
    }
  }

  /** The last block written lies at or below Hi = limit + Lo unless too many are found behind the limit. */
  lemma LastBelowHiIff(disk: Disk, limit: nat, want: nat, lo: Word, w: nat)
    requires limit + want < REACH && 0 < w == |Picks(disk, 0, limit, want)| - 1
    ensures Picks(disk, 0, limit, want)[w - 1] <= limit + lo <==> w <= FreeCount(disk, 0, limit) + lo
  {
    hide Picks, FreeCount;
    if w - 1 < FreeCount(disk, 0, limit) {
      PicksWithinLimit(disk, 0, limit, want, w - 1);
    } else {
      PickBehindLimit(disk, 0, limit, want, w - 1);
    }
  }

  lemma FirstAboveLoIff(disk: Disk, limit: nat, want: nat, lo: Word)
    requires limit + want < REACH && Picks(disk, 0, limit, want) != []
    ensures lo <= Picks(disk, 0, limit, want)[0] <==> NoneFreeBelow(disk, lo)
  {
    hide Picks, IsFree;
    FirstPick(disk, limit, want);
  }

  /** How many of up to want blocks found a run writes: all but the last. */
  ghost function FoundToWrite(disk: Disk, limit: nat, want: nat): nat
    requires limit + want < REACH
  {
    if Found(disk, 0, limit, want) == 0 then 0 else Found(disk, 0, limit, want) - 1
  }

  lemma WrittenInAreaIff(disk: Disk, rdb: Block, want: nat)
    requires Limit(rdb) + want < REACH
    ensures var lo, hi, limit := rdb[BLOCKS_LO], rdb[BLOCKS_HI], Limit(rdb);
            var picks, w := Picks(disk, 0, limit, want), FoundToWrite(disk, limit, want);
            (forall b :: b in picks[..WrittenCount(picks)] ==> InArea(rdb, b))
            <==> w == 0 || (lo <= hi && NoneFreeBelow(disk, lo) && w <= FreeCount(disk, 0, limit) + lo)
  {
    hide Picks, Found, FreeCount, NoneFreeBelow, IsFree, Wrap, InArea;
    var lo, hi, limit := rdb[BLOCKS_LO], rdb[BLOCKS_HI], Limit(rdb);
    var picks := Picks(disk, 0, limit, want);
    var w := WrittenCount(picks);
    PicksLength(disk, 0, limit, want);
    if w > 0 {
      BoundsOfRise(picks, w, rdb);
      FirstAboveLoIff(disk, limit, want, lo);
      LastBelowHiIff(disk, limit, want, lo, w);
      if lo <= hi {
        SmallWrap(hi as int - lo);
      }
    }
  }

  lemma SmallWrap(x: int)
    requires 0 <= x < TWO32
    ensures Wrap(x) == x
  {
  }

  /**
   The search begins at block 1, not at rdb_RDBBlocksLo, and runs up to rdb_RDBBlocksHi -
   rdb_RDBBlocksLo, or on from there while blocks are free. Completed or cut short, a run writes
   inside the declared area only, exactly if it writes nothing, or if no block below Lo is free
   and no more than Lo blocks are written behind the search limit.
   */
  lemma RunStaysInAreaIff(disk: Disk, i: nat, slb: seq<Word>, heap: Heap)
    requires Ready(disk, i, |slb|, heap)
    ensures var picks, limit, rdb := RunPicks(disk, i, |slb|, heap), Limit(disk[i]), disk[i];
            var erased := ErasedDisk(disk, i, heap);
            var w := FoundToWrite(erased, limit, Count(|slb|) + 1);
            (forall b :: b in picks[..WrittenCount(picks)] ==> InArea(rdb, b))
            <==> w == 0 || (rdb[BLOCKS_LO] <= rdb[BLOCKS_HI] && NoneFreeBelow(erased, rdb[BLOCKS_LO])
                            && w <= FreeCount(erased, 0, limit) + rdb[BLOCKS_LO])
  {
    hide Erase, IsRdb, Count, Picks, FreeCount, FoundToWrite, NoneFreeBelow, InArea, Limit;
    WrittenInAreaIff(ErasedDisk(disk, i, heap), disk[i], Count(|slb|) + 1);
  }

  /**
   A run completes exactly if a free block more than the image needs lies up to the search limit,
   or if the blocks that the one at the limit leads on to make up for those missing.
   */
  lemma RunCompletesIff(disk: Disk, i: nat, n: nat, heap: Heap)
    requires Ready(disk, i, n, heap)
    ensures var limit, erased := Limit(disk[i]), ErasedDisk(disk, i, heap);
            var free := FreeCount(erased, 0, limit);
            |RunPicks(disk, i, n, heap)| == Count(n) + 1
            <==> free > Count(n)
                 || (LeadsOn(erased, 0, limit)
                     && forall b :: limit < b <= limit + Count(n) + 1 - free ==> IsFree(erased[b]))
  {
    hide Erase, IsRdb, Picks, FreeCount, BlockSum, Count;
    PicksLength(ErasedDisk(disk, i, heap), 0, Limit(disk[i]), Count(n) + 1);
  }

  // ---- leaving the area ------------------------------------------------------------------

  /** Free blocks at the start of the disk are found one after the other, whatever the limit. */
  lemma {:induction false} FirstPicks(disk: Disk, from: nat, limit: nat, want: nat, n: nat)
    requires from + want < REACH && limit + want < REACH && n <= want
    requires forall b :: from < b <= from + n ==> IsFree(disk[b])
    ensures n <= |Picks(disk, from, limit, want)|
    ensures forall k :: 0 <= k < n ==> Picks(disk, from, limit, want)[k] == from + 1 + k
    decreases want
  {
    if n > 0 {
      FirstPicks(disk, from + 1, limit, want - 1, n - 1);
    }
  }

  lemma NothingErased(disk: Disk, heap: Heap)
    requires disk[0][BOOT_LIST] == FREE
    ensures ErasedDisk(disk, 0, heap) == disk
  {
  }

  /** Block b is overwritten if all blocks up to the next one are free and the image is long enough. */
  lemma WritesFromStart(disk: Disk, slb: seq<Word>, tail: Tail, heap: Heap, b: nat)
    requires Ready(disk, 0, |slb|, heap) && disk[0][BOOT_LIST] == FREE
    requires 0 < b <= Count(|slb|) && forall s :: 1 <= s <= b + 1 ==> IsFree(disk[s])
    ensures AfterRun(disk, 0, slb, tail, heap)[b][ID] == BOOT
  {
    hide AfterRun, SlbBlock, IsRdb, Picks, Count, IsFree, ErasedDisk, BlockSum;
    NothingErased(disk, heap);
    FirstPicks(disk, 0, Limit(disk[0]), Count(|slb|) + 1, b + 1);
    ChainBlock(disk, 0, slb, tail, heap, b - 1);
  }

  /** An input: Lo is 5, and block 1, in front of the area, is overwritten for any image. */
  lemma RunCanStartBelowArea(disk: Disk, slb: seq<Word>, tail: Tail, heap: Heap)
    requires Ready(disk, 0, |slb|, heap) && slb != [] && disk[0][BOOT_LIST] == FREE
    requires disk[0][BLOCKS_LO] == 5 && disk[0][BLOCKS_HI] == 15 && IsFree(disk[1]) && IsFree(disk[2])
    ensures AfterRun(disk, 0, slb, tail, heap)[1][ID] == BOOT && !InArea(disk[0], 1)
  {
    hide AfterRun;
    WritesFromStart(disk, slb, tail, heap, 1);
  }

  /**
   An input: the area is blocks 0 and 1, and block 2, behind it, is overwritten for any image of
   two blocks or more, also by a run that does not complete, because one of the blocks further on
   is taken.
   */
  lemma RunCanLeaveArea(disk: Disk, slb: seq<Word>, tail: Tail, heap: Heap)
    requires Ready(disk, 0, |slb|, heap) && |slb| > DATA_WORDS && disk[0][BOOT_LIST] == FREE
    requires disk[0][BLOCKS_LO] == 0 && disk[0][BLOCKS_HI] == 1
    requires IsFree(disk[1]) && IsFree(disk[2]) && IsFree(disk[3])
    ensures AfterRun(disk, 0, slb, tail, heap)[2][ID] == BOOT && !InArea(disk[0], 2)
    ensures |RunPicks(disk, 0, |slb|, heap)| == Count(|slb|) + 1
            <==> forall b :: 1 <= b <= Count(|slb|) + 1 ==> IsFree(disk[b])
  {
    hide AfterRun, RunPicks, IsRdb, IsFree, ErasedDisk;
    CountBounds(|slb|, 1);
    WritesFromStart(disk, slb, tail, heap, 2);
    NothingErased(disk, heap);
    RunCompletesIff(disk, 0, |slb|, heap);
    assert FreeCount(disk, 0, 1) == 1;
  }
}
