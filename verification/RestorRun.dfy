/** A whole file restored block by block, as rstrfile and rstrskip of restor.c do. */
module RestorRun {
  import opened RestorDisk
  import opened RestorFree
  import opened RestorTree
  import opened RestorInode
  import opened RestorFile
  import opened RestorMap
  import opened RestorCount
  import opened RestorOrder

  /** What the tape has for a logical block. */
  datatype Record = Data(block: Block) | Hole

  /** The file has what the tape had: the data, or no block at all. */
  ghost predicate Restored(dev: Device, iaddr: seq<int>, l: int, r: Record)
    requires |iaddr| == 13 && l >= 0
  {
    var x := FileLeaf(dev, iaddr, l);
    match r
    case Hole => x == 0
    case Data(b) => x != 0 && x in dev && dev[x] == b
  }

  /** After the first n records: they are restored, and nothing is mapped beyond them. */
  ghost predicate Upto(dev: Device, iaddr: seq<int>, tape: seq<Record>, n: int)
    requires |iaddr| == 13 && 0 <= n <= |tape|
  {
    && (forall l :: 0 <= l < n ==> Restored(dev, iaddr, l, tape[l]))
    && (forall l :: n <= l ==> FileLeaf(dev, iaddr, l) == 0)
  }

  lemma StillRestored(dev: Device, iaddr: seq<int>, dev': Device, iaddr': seq<int>, k: int, l: int, r: Record)
    requires |iaddr| == |iaddr'| == 13 && 0 <= k && 0 <= l && l != k && KeepsBut(dev, iaddr, dev', iaddr', PlaceOf(k))
    requires PlaceOf(k) != Beyond
    ensures FileLeaf(dev', iaddr', l) == FileLeaf(dev, iaddr, l)
    ensures Restored(dev, iaddr, l, r) ==> Restored(dev', iaddr', l, r)
  {
    hide At, LevelOf, Pow128;
    if PlaceOf(l) != Beyond {
      PlaceIs(l);
      if PlaceOf(l) == PlaceOf(k) {
        PlacesDiffer(l, k);
      }
      assert Keeps(dev, iaddr, dev', iaddr', PlaceOf(l));
    } else {
      NothingBeyond(dev, iaddr);
      NothingBeyond(dev', iaddr');
    }
  }

  lemma NothingBeyond(dev: Device, iaddr: seq<int>)
    requires |iaddr| == 13
    ensures At(dev, iaddr, Beyond) == 0
  {
  }

  /** Writing the data of one logical block leaves the others as they are. */
  lemma DataKept(dev: Device, iaddr: seq<int>, stack: seq<int>, k: int, b: Block)
    requires FileOk(dev, iaddr, stack) && k >= 0 && FileLeaf(dev, iaddr, k) != 0
    ensures var dev' := dev[FileLeaf(dev, iaddr, k) := b];
      && FileOk(dev', iaddr, stack) && Total(dev', iaddr, stack) == Total(dev, iaddr, stack)
      && KeepsBut(dev, iaddr, dev', iaddr, PlaceOf(k)) && Restored(dev', iaddr, k, Data(b))
      && FileLeaf(dev, iaddr, k) in dev && FileLeaf(dev, iaddr, k) !in stack && FileLeaf(dev, iaddr, k) > 0
  {
    hide At, FileBag, NoDup, PlaceOf, LevelOf, Pow128;
    var x, pl := FileLeaf(dev, iaddr, k), PlaceOf(k);
    var dev' := dev[x := b];
    NothingBeyond(dev, iaddr);
    PlaceIs(k);
    DataInUse(dev, iaddr, stack, pl);
    OkLength(dev, iaddr, stack);
    DataWrite(dev, dev', iaddr, pl, pl);
    assert forall y :: y in Total(dev', iaddr, stack) ==> y in dev';
    forall p: Place | IsPlace(p) && p != pl
      ensures Keeps(dev, iaddr, dev', iaddr, p)
    {
      DataWrite(dev, dev', iaddr, pl, p);
      if At(dev, iaddr, p) == x {
        SamePlace(dev, iaddr, p, pl);
      }
    }
  }

  /** The blocks that the first n records of a tape take: their data, and the indirect blocks on the
      way to them. */
  ghost function Taken(tape: seq<Record>, n: nat): set<Id>
    requires n <= |tape|
  {
    if n == 0 then {} else Taken(tape, n - 1) + (if tape[n - 1].Data? then Way(n - 1) else {})
  }

  lemma {:induction false} TakenGrows(tape: seq<Record>, m: nat, n: nat)
    requires m <= n <= |tape|
    ensures Taken(tape, m) <= Taken(tape, n) && |Taken(tape, m)| <= |Taken(tape, n)|
    decreases n
  {
    hide Way;
    if m < n {
      TakenGrows(tape, m, n - 1);
    }
    Smaller(Taken(tape, m), Taken(tape, n));
  }

  /** Four free blocks for each record with data are always enough. */
  lemma {:induction false} FourEach(tape: seq<Record>, n: nat)
    requires n <= |tape|
    ensures |Taken(tape, n)| <= 4 * n
    decreases n
  {
    hide Way;
    if n > 0 {
      FourEach(tape, n - 1);
      WayShort(n - 1);
      UnionSize(Taken(tape, n - 1), Way(n - 1));
      assert Taken(tape, n - 1) + {} == Taken(tape, n - 1);
    }
  }

  lemma WayShort(l: int)
    requires l >= 0
    ensures |Way(l)| <= 4
  {
    hide IdOf, WayTo;
    var p := PlaceOf(l);
    if p != Beyond {
      WaySize(p, LevelOf(p.slot));
    }
  }

  lemma {:induction false} WaySize(p: Place, t: nat)
    requires OnWay(p, t)
    ensures |WayTo(p, t)| <= t + 1
    decreases t
  {
    hide IdOf;
    if t > 0 {
      WaySize(p, t - 1);
      UnionSize(WayTo(p, t - 1), {IdOf(p, t)});
    }
  }

  lemma UnionSize<T>(a: set<T>, b: set<T>)
    ensures |a + b| <= |a| + |b|
  {
    assert a + b == a + (b - a);
    Smaller(b - a, b);
  }

  /** rstrfile: a data block of the tape goes to the file. */
  method Rstrfile(fs: FileSys, taddr: array<int>, curbno: int, b: Block, ghost tape: seq<Record>) returns (ok: bool)
    requires fs.Valid() && taddr.Length == 13 && taddr != fs.s_free && FileOk(fs.disk.dev, taddr[..], fs.stack)
    requires 0 <= curbno < |tape| && tape[curbno] == Data(b) && IsBlock(b) && PlaceOf(curbno) != Beyond
    requires Upto(fs.disk.dev, taddr[..], tape, curbno) && Grown(fs.disk.dev, taddr[..], Taken(tape, curbno))
    modifies fs, fs.s_free, fs.disk, fs.disk.cache, taddr
    ensures ok <==> |Taken(tape, curbno + 1)| <= |Taken(tape, curbno)| + |old(fs.stack)|
    ensures ok ==> Grown(fs.disk.dev, taddr[..], Taken(tape, curbno + 1))
    ensures ok ==> |Taken(tape, curbno + 1)| + |fs.stack| == |Taken(tape, curbno)| + |old(fs.stack)|
    ensures ok ==>
              InLine(old(fs.disk.dev), old(taddr[..]), old(fs.stack), fs.disk.dev, taddr[..], fs.stack, PlaceOf(curbno))
    ensures ok ==>
              fs.Valid() && FileOk(fs.disk.dev, taddr[..], fs.stack) && Upto(fs.disk.dev, taddr[..], tape, curbno + 1)
    ensures ok ==> Total(fs.disk.dev, taddr[..], fs.stack) == Total(old(fs.disk.dev), old(taddr[..]), old(fs.stack))
  {
    hide FileOk, Total, KeepsBut, FileLeaf, PlaceOf, Restored, Rep;
    hide Clean, Current, AllBlocks, Grown, Mapped, Way, Taken, Lost, InLine;
    ghost var dev0, ia0, stack0, ids := fs.disk.dev, taddr[..], fs.stack, Taken(tape, curbno);
    NothingLost(dev0, ia0, tape, curbno);
    TakenNext(tape, curbno);
    var d;
    ok, d := Bmap(fs, taddr, curbno, ids);
    if !ok {
      return;
    }
    ghost var dev1, ia1 := fs.disk.dev, taddr[..];
    MappedParts(dev0, ia0, stack0, curbno, ids, dev1, ia1, fs.stack);
    DataInLine(dev1, ia1, fs.stack, curbno, b);
    DataKept(dev1, ia1, fs.stack, curbno, b);
    DataLeaves(dev1, ia1, fs.stack, curbno, b, ids + Way(curbno));
    fs.Write(d, b);
    KeepsTrans(dev0, ia0, dev1, ia1, fs.disk.dev, ia1, PlaceOf(curbno));
    InLineTrans(dev0, ia0, stack0, dev1, ia1, fs.stack, fs.disk.dev, ia1, fs.stack, PlaceOf(curbno));
    UptoNext(dev0, ia0, fs.disk.dev, ia1, tape, curbno);
  }

  lemma NothingLost(dev: Device, iaddr: seq<int>, tape: seq<Record>, k: int)
    requires |iaddr| == 13 && 0 <= k < |tape| && Upto(dev, iaddr, tape, k)
    ensures Lost(iaddr, k) == multiset{} && |Lost(iaddr, k)| == 0
  {
    hide FileLeaf, Restored;
    assert FileLeaf(dev, iaddr, k) == 0;
    if k < 10 {
      DirectLeaf(dev, iaddr, k);
    }
  }

  lemma TakenNext(tape: seq<Record>, k: int)
    requires 0 <= k < |tape|
    ensures tape[k].Data? ==> Taken(tape, k + 1) == Taken(tape, k) + Way(k)
    ensures tape[k].Hole? ==> Taken(tape, k + 1) == Taken(tape, k)
  {
    hide Way;
  }

  lemma MappedParts(dev: Device, iaddr: seq<int>, stack: seq<int>, bn: int, ids: set<Id>, dev': Device,
                    iaddr': seq<int>, stack': seq<int>)
    requires |iaddr| == |iaddr'| == 13 && bn >= 0
    requires Mapped(dev, iaddr, stack, bn, ids, dev', iaddr', stack') && Lost(iaddr, bn) == multiset{}
    ensures FileOk(dev', iaddr', stack') && Total(dev', iaddr', stack') == Total(dev, iaddr, stack)
    ensures KeepsBut(dev, iaddr, dev', iaddr', PlaceOf(bn)) && Grown(dev', iaddr', ids + Way(bn))
    ensures |ids + Way(bn)| + |stack'| == |ids| + |stack|
    ensures InLine(dev, iaddr, stack, dev', iaddr', stack', PlaceOf(bn))
  {
    hide InLine;
    hide FileOk, KeepsBut, Total, Grown, Way, Lost, PlaceOf;
  }

  /** Nor does it change the order in which they are to be freed. */
  lemma DataInLine(dev: Device, iaddr: seq<int>, stack: seq<int>, k: int, b: Block)
    requires FileOk(dev, iaddr, stack) && k >= 0 && FileLeaf(dev, iaddr, k) != 0
    ensures InLine(dev, iaddr, stack, dev[FileLeaf(dev, iaddr, k) := b], iaddr, stack, PlaceOf(k))
  {
    hide At, FileBag, NoDup, PlaceOf, LevelOf, FileOk, FileFreed, FileClear;
    OkLength(dev, iaddr, stack);
    NothingBeyond(dev, iaddr);
    PlaceIs(k);
    DataOrder(dev, dev[FileLeaf(dev, iaddr, k) := b], iaddr, PlaceOf(k));
  }

  /** Writing the data does not change which blocks the file has. */
  lemma DataLeaves(dev: Device, iaddr: seq<int>, stack: seq<int>, k: int, b: Block, ids: set<Id>)
    requires FileOk(dev, iaddr, stack) && k >= 0 && FileLeaf(dev, iaddr, k) != 0 && Grown(dev, iaddr, ids)
    ensures Grown(dev[FileLeaf(dev, iaddr, k) := b], iaddr, ids)
  {
    hide At, FileBag, NoDup, PlaceOf, Grown, LevelOf, FileOk;
    OkLength(dev, iaddr, stack);
    NothingBeyond(dev, iaddr);
    PlaceIs(k);
    DataGrown(dev, dev[FileLeaf(dev, iaddr, k) := b], iaddr, PlaceOf(k), ids);
  }

  lemma UptoNext(dev: Device, iaddr: seq<int>, dev': Device, iaddr': seq<int>, tape: seq<Record>, k: int)
    requires |iaddr| == |iaddr'| == 13 && 0 <= k < |tape| && Upto(dev, iaddr, tape, k) && PlaceOf(k) != Beyond
    requires KeepsBut(dev, iaddr, dev', iaddr', PlaceOf(k)) && Restored(dev', iaddr', k, tape[k])
    ensures Upto(dev', iaddr', tape, k + 1)
  {
    hide KeepsBut, FileLeaf, PlaceOf, Restored;
    forall l | 0 <= l < k + 1
      ensures Restored(dev', iaddr', l, tape[l])
    {
      if l < k {
        StillRestored(dev, iaddr, dev', iaddr', k, l, tape[l]);
      }
    }
    forall l | k + 1 <= l
      ensures FileLeaf(dev', iaddr', l) == 0
    {
      StillRestored(dev, iaddr, dev', iaddr', k, l, Hole);
    }
  }

  lemma {:induction false} NoBlocks(dev: Device, iaddr: seq<int>, levels: seq<nat>, top: nat, k: nat)
    requires Levels(iaddr, levels, top) && k <= |iaddr| && forall i :: 0 <= i < |iaddr| ==> iaddr[i] == 0
    ensures Forest(dev, iaddr, levels, top, k) == multiset{}
    decreases |iaddr| - k
  {
    if k < |iaddr| {
      NoBlocks(dev, iaddr, levels, top, k + 1);
    }
  }

  /** An inode without addresses is an empty file. */
  lemma EmptyFile(dev: Device, iaddr: seq<int>, stack: seq<int>, tape: seq<Record>)
    requires |iaddr| == 13 && (forall i :: 0 <= i < 13 ==> iaddr[i] == 0)
    requires NoDup(multiset(stack)) && In(dev, multiset(stack))
    ensures FileOk(dev, iaddr, stack) && Upto(dev, iaddr, tape, 0) && Total(dev, iaddr, stack) == multiset(stack)
  {
    NoBlocks(dev, iaddr, InodeLevels(), 3, 0);
    assert Total(dev, iaddr, stack) == multiset(stack);
  }

  lemma CleanNoDup(dev: Device, stack: seq<int>)
    requires Clean(dev, stack)
    ensures NoDup(multiset(stack))
  {
    CleanOnce(stack);
  }

  lemma {:induction false} CleanOnce(stack: seq<int>)
    requires forall i, j :: 0 <= i < j < |stack| ==> stack[i] != stack[j]
    ensures NoDup(multiset(stack))
    decreases |stack|
  {
    if stack != [] {
      var rest, top := stack[..|stack| - 1], stack[|stack| - 1];
      CleanOnce(rest);
      assert stack == rest + [top];
      assert top !in rest;
    }
  }

  /** A file restored from nothing. The blocks used come off the free list and are all in the
      file, and every logical block reads as on the tape. */
  method Restore(fs: FileSys, taddr: array<int>, tape: seq<Record>) returns (ok: bool)
    requires fs.Valid() && In(fs.disk.dev, multiset(fs.stack)) && taddr.Length == 13 && taddr != fs.s_free
    requires forall i :: 0 <= i < 13 ==> taddr[i] == 0
    requires |tape| <= 10 + 128 + 128 * 128 + 128 * 128 * 128
    requires forall l :: 0 <= l < |tape| && tape[l].Data? ==> IsBlock(tape[l].block)
    modifies fs, fs.s_free, fs.disk, fs.disk.cache, taddr
    ensures ok <==> |Taken(tape, |tape|)| <= |old(fs.stack)|
    ensures ok ==> fs.Valid() && FileOk(fs.disk.dev, taddr[..], fs.stack)
    ensures ok ==> Upto(fs.disk.dev, taddr[..], tape, |tape|) && |Taken(tape, |tape|)| + |fs.stack| == |old(fs.stack)|
    ensures ok ==> multiset(fs.stack) + FileBag(fs.disk.dev, taddr[..]) == multiset(old(fs.stack))
    ensures ok ==> Line(fs.disk.dev, taddr[..], fs.stack) == old(fs.stack)
  {
    hide FileOk, Upto, FileBag, Rep, Current, AllBlocks, Clean, Taken, Line, Sofar, In;
    StartSofar(fs.disk.dev, taddr[..], fs.stack, tape);
    var curbno := 0;
    ok := true;
    while curbno < |tape|
      invariant 0 <= curbno <= |tape| && ok && fs.Valid()
      invariant Sofar(fs.disk.dev, taddr[..], fs.stack, tape, curbno, old(fs.stack))
    {
      ok := RestoreRecord(fs, taddr, curbno, tape, old(fs.stack));
      if !ok {
        TakenGrows(tape, curbno + 1, |tape|);
        return;
      }
      curbno := curbno + 1;
    }
    EndSofar(fs.disk.dev, taddr[..], fs.stack, tape, old(fs.stack));
  }

  /** After n records, from a free list stack0 on: they are restored, the file has just the blocks that
      they take, which with the free ones are those that were free, and freeing the file would make
      the free list what it was. */
  ghost predicate Sofar(dev: Device, iaddr: seq<int>, stack: seq<int>, tape: seq<Record>, n: nat, stack0: seq<int>)
    requires |iaddr| == 13 && n <= |tape|
  {
    && FileOk(dev, iaddr, stack) && Upto(dev, iaddr, tape, n) && Grown(dev, iaddr, Taken(tape, n))
    && |Taken(tape, n)| + |stack| == |stack0| && Total(dev, iaddr, stack) == multiset(stack0)
    && Line(dev, iaddr, stack) == stack0 && (n < |tape| ==> FileClear(dev, iaddr, PlaceOf(n)))
  }

  lemma StartSofar(dev: Device, iaddr: seq<int>, stack: seq<int>, tape: seq<Record>)
    requires |iaddr| == 13 && (forall i :: 0 <= i < 13 ==> iaddr[i] == 0)
    requires Clean(dev, stack) && In(dev, multiset(stack))
    ensures Sofar(dev, iaddr, stack, tape, 0, stack)
  {
    hide FileOk, Upto, Grown, Taken, Total, Line, FileClear, In, Clean, PlaceOf;
    CleanNoDup(dev, stack);
    NoneGrown(dev, iaddr);
    NoneTaken(tape);
    NothingClear(dev, iaddr);
    NoFile(dev, iaddr, stack);
    EmptyFile(dev, iaddr, stack, tape);
  }

  lemma EndSofar(dev: Device, iaddr: seq<int>, stack: seq<int>, tape: seq<Record>, stack0: seq<int>)
    requires |iaddr| == 13 && Sofar(dev, iaddr, stack, tape, |tape|, stack0)
    ensures FileOk(dev, iaddr, stack) && Upto(dev, iaddr, tape, |tape|)
    ensures |Taken(tape, |tape|)| + |stack| == |stack0| && Line(dev, iaddr, stack) == stack0
    ensures multiset(stack) + FileBag(dev, iaddr) == multiset(stack0)
  {
    hide FileOk, Upto, Taken, Line, FileBag;
  }

  /** One record of the tape. */
  method RestoreRecord(fs: FileSys, taddr: array<int>, curbno: int, tape: seq<Record>, ghost stack0: seq<int>)
    returns (ok: bool)
    requires fs.Valid() && taddr.Length == 13 && taddr != fs.s_free && 0 <= curbno < |tape|
    requires |tape| <= 10 + 128 + 128 * 128 + 128 * 128 * 128
    requires forall l :: 0 <= l < |tape| && tape[l].Data? ==> IsBlock(tape[l].block)
    requires Sofar(fs.disk.dev, taddr[..], fs.stack, tape, curbno, stack0)
    modifies fs, fs.s_free, fs.disk, fs.disk.cache, taddr
    ensures ok ==> fs.Valid() && Sofar(fs.disk.dev, taddr[..], fs.stack, tape, curbno + 1, stack0)
    ensures !ok ==> |Taken(tape, curbno + 1)| > |stack0|
  {
    hide FileOk, Upto, Rep, Current, AllBlocks, Clean, Restored, Grown, Taken, PlaceOf, Line, FileClear, Total, InLine;
    TakenNext(tape, curbno);
    Within(curbno);
    ghost var dev0, ia0, stack := fs.disk.dev, taddr[..], fs.stack;
    match tape[curbno] {
      case Data(b) =>
        ok := Rstrfile(fs, taddr, curbno, b, tape);
        if !ok {
          return;
        }
        StillInLine(dev0, ia0, stack, fs.disk.dev, taddr[..], fs.stack, PlaceOf(curbno));
      case Hole =>
        ok := true;
        UptoHole(fs.disk.dev, taddr[..], tape, curbno);
    }
    if curbno + 1 < |tape| {
      Within(curbno + 1);
      ClearNext(fs.disk.dev, taddr[..], curbno);
    }
  }

  lemma StillInLine(dev: Device, iaddr: seq<int>, stack: seq<int>, dev': Device, iaddr': seq<int>, stack': seq<int>,
                    p: Place)
    requires |iaddr| == |iaddr'| == 13 && InLine(dev, iaddr, stack, dev', iaddr', stack', p) && FileClear(dev, iaddr, p)
    ensures FileClear(dev', iaddr', p) && Line(dev', iaddr', stack') == Line(dev, iaddr, stack)
  {
    hide FileClear, Line;
  }

  lemma NoFile(dev: Device, iaddr: seq<int>, stack: seq<int>)
    requires |iaddr| == 13 && FileFreed(dev, iaddr) == []
    ensures Line(dev, iaddr, stack) == stack
  {
  }

  lemma NoneTaken(tape: seq<Record>)
    ensures Taken(tape, 0) == {}
  {
  }

  lemma Within(l: int)
    requires 0 <= l < 10 + 128 + 128 * 128 + 128 * 128 * 128
    ensures PlaceOf(l) != Beyond
  {
  }

  lemma UptoHole(dev: Device, iaddr: seq<int>, tape: seq<Record>, k: int)
    requires |iaddr| == 13 && 0 <= k < |tape| && Upto(dev, iaddr, tape, k) && tape[k] == Hole
    ensures Upto(dev, iaddr, tape, k + 1)
  {
    hide FileLeaf;
  }

  /** A file that was restored and is then truncated has given back all the blocks it took, and the
      free list is as it was before, in the same order. */
  method RestoreThenFree(fs: FileSys, taddr: array<int>, tape: seq<Record>, mode: int) returns (ok: bool)
    requires fs.Valid() && In(fs.disk.dev, multiset(fs.stack)) && taddr.Length == 13 && taddr != fs.s_free
    requires (forall i :: 0 <= i < 13 ==> taddr[i] == 0) && HasBlocks(mode)
    requires |tape| <= 10 + 128 + 128 * 128 + 128 * 128 * 128
    requires forall l :: 0 <= l < |tape| && tape[l].Data? ==> IsBlock(tape[l].block)
    modifies fs, fs.s_free, fs.disk, fs.disk.cache, taddr
    ensures ok <==> |Taken(tape, |tape|)| <= |old(fs.stack)|
    ensures ok ==> fs.Valid() && fs.stack == old(fs.stack)
  {
    hide Upto, FileBag, Rep, Current, AllBlocks, Clean, NoDup, In, FileOk, Taken, Line;
    ok := Restore(fs, taddr, tape);
    if ok {
      OkParts(fs.disk.dev, taddr[..], fs.stack);
      Itrunc(fs, mode, taddr[..]);
    }
  }
}
