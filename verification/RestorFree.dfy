/** The free-block list of a file system: balloc and bfree of restor.c. Fifty block numbers are in
    the superblock; the first of them is also the block where the next fifty are kept. */
module RestorFree {
  import opened RestorDisk

  ghost predicate Addr(v: int) {
    0 <= v < 0x1_0000_0000
  }

  ghost predicate Addrs(s: seq<int>) {
    forall i :: 0 <= i < |s| ==> Addr(s[i])
  }

  /** A long of a block: the high word comes first. */
  function Long(b: Block, i: int): int
    requires |b| == 256 && 0 <= i < 255
  {
    b[i] * 0x1_0000 + b[i + 1]
  }

  /** The words of a sequence of longs. */
  function Words(s: seq<int>): (r: seq<int>)
    ensures |r| == 2 * |s|
  {
    seq(2 * |s|, k requires 0 <= k < 2 * |s| => if k % 2 == 0 then s[k / 2] / 0x1_0000 else s[k / 2] % 0x1_0000)
  }

  ghost predicate AllBlocks(dev: Device) {
    forall b :: b in dev ==> IsBlock(dev[b])
  }

  // ----- a block of the free list

  function FreeOf(b: Block): (r: seq<int>)
    requires |b| == 256
    ensures |r| == 50
  {
    seq(50, i requires 0 <= i < 50 => Long(b, 2 * i + 1))
  }

  function FreeBlock(n: int, fr: seq<int>): (r: Block)
    requires |fr| == 50
    ensures |r| == 256
  {
    [n] + Words(fr) + seq(155, _ => 0)
  }

  lemma WordsLong(s: seq<int>, i: int)
    requires Addrs(s) && 0 <= i < |s|
    ensures Words(s)[2 * i] * 0x1_0000 + Words(s)[2 * i + 1] == s[i]
    ensures 0 <= Words(s)[2 * i] < 0x1_0000 && 0 <= Words(s)[2 * i + 1] < 0x1_0000
  {
  }

  lemma WordsRange(s: seq<int>, k: int)
    requires Addrs(s) && 0 <= k < 2 * |s|
    ensures 0 <= Words(s)[k] < 0x1_0000
  {
    WordsLong(s, k / 2);
  }

  /** What bfree writes, balloc reads back. */
  lemma FreeRoundTrip(n: int, fr: seq<int>)
    requires 0 <= n < 0x1_0000 && |fr| == 50 && Addrs(fr)
    ensures IsBlock(FreeBlock(n, fr)) && FreeBlock(n, fr)[0] == n && FreeOf(FreeBlock(n, fr)) == fr
    ensures forall i :: 0 <= i < 50 ==> FreeBlock(n, fr)[2 * i + 1] * 0x1_0000 + FreeBlock(n, fr)[2 * i + 2] == fr[i]
  {
    hide Words, Addrs;
    var b := FreeBlock(n, fr);
    forall k | 0 <= k < 256
      ensures 0 <= b[k] < 0x1_0000
    {
      if 1 <= k < 101 {
        WordsRange(fr, k - 1);
      }
    }
    forall i | 0 <= i < 50
      ensures Long(b, 2 * i + 1) == fr[i] && b[2 * i + 1] * 0x1_0000 + b[2 * i + 2] == fr[i]
    {
      WordsLong(fr, i);
      assert b[2 * i + 1] == Words(fr)[2 * i] && b[2 * i + 2] == Words(fr)[2 * i + 1];
    }
  }

  // ----- the list as a stack

  /** The n numbers in fr and the blocks chained behind them are the stack of free blocks, from
      the bottom up; a first number of 0 ends the chain. */
  ghost predicate Rep(dev: Device, n: int, fr: seq<int>, stack: seq<int>)
    decreases |stack|
  {
    && 1 <= n <= 50 && |fr| == 50 && Addrs(fr)
    && if fr[0] == 0 then stack == fr[1..n] else
      && |stack| >= n && stack[|stack| - n..] == fr[..n]
      && fr[0] in dev && |dev[fr[0]]| == 256
      && Rep(dev, dev[fr[0]][0], FreeOf(dev[fr[0]]), stack[..|stack| - n])
  }

  /** The blocks on the stack are blocks of the device, each on it once. */
  ghost predicate Clean(dev: Device, stack: seq<int>) {
    && (forall i :: 0 <= i < |stack| ==> stack[i] in dev && stack[i] > 0)
    && (forall i, j :: 0 <= i < j < |stack| ==> stack[i] != stack[j])
  }

  /** Writing blocks that are not on the stack leaves it as it is. */
  lemma {:induction false} RepFrame(dev: Device, dev': Device, n: int, fr: seq<int>, stack: seq<int>)
    requires Rep(dev, n, fr, stack)
    requires forall b :: b in stack && b in dev ==> b in dev' && dev'[b] == dev[b]
    ensures Rep(dev', n, fr, stack)
    decreases |stack|
  {
    if fr[0] != 0 {
      var below := stack[..|stack| - n];
      assert stack[|stack| - n..][0] == fr[0] == stack[|stack| - n];
      RepFrame(dev, dev', dev[fr[0]][0], FreeOf(dev[fr[0]]), below);
    }
  }

  /** A number is put on the superblock's part of the stack. */
  lemma PushRep(dev: Device, n: int, fr: seq<int>, stack: seq<int>, b: int)
    requires Rep(dev, n, fr, stack) && n < 50 && Addr(b)
    ensures Rep(dev, n + 1, fr[n := b], stack + [b])
  {
    var fr', stack' := fr[n := b], stack + [b];
    if fr[0] == 0 {
      assert fr'[1..n + 1] == fr[1..n] + [b];
    } else {
      assert fr'[..n + 1] == fr[..n] + [b];
      assert stack'[|stack'| - (n + 1)..] == stack[|stack| - n..] + [b];
      assert stack'[..|stack'| - (n + 1)] == stack[..|stack| - n];
    }
  }

  /** The superblock's part is full and goes to the block that is freed. */
  lemma SpillRep(dev: Device, fr: seq<int>, stack: seq<int>, b: int)
    requires Rep(dev, 50, fr, stack) && b in dev && b !in stack && Addr(b) && b != 0
    ensures Rep(dev[b := FreeBlock(50, fr)], 1, fr[0 := b], stack + [b]) && IsBlock(FreeBlock(50, fr))
  {
    var dev', stack' := dev[b := FreeBlock(50, fr)], stack + [b];
    FreeRoundTrip(50, fr);
    RepFrame(dev, dev', 50, fr, stack);
    assert stack'[|stack'| - 1..] == [b] == fr[0 := b][..1];
    assert stack'[..|stack'| - 1] == stack;
  }

  lemma PopRep(dev: Device, n: int, fr: seq<int>, stack: seq<int>)
    requires Rep(dev, n, fr, stack) && n > 1
    ensures |stack| > 0 && fr[n - 1] == stack[|stack| - 1]
    ensures Rep(dev, n - 1, fr, stack[..|stack| - 1])
  {
    var rest := stack[..|stack| - 1];
    if fr[0] == 0 {
      assert rest == fr[1..n - 1];
    } else {
      assert rest[|rest| - (n - 1)..] == fr[..n - 1] by {
        assert stack[|stack| - n..][..n - 1] == fr[..n][..n - 1];
        assert rest[|rest| - (n - 1)..] == stack[|stack| - n..][..n - 1];
      }
      assert stack[|stack| - n..][n - 1] == fr[n - 1];
      assert rest[..|rest| - (n - 1)] == stack[..|stack| - n];
    }
  }

  /** The last number of the superblock's part is the block with the next part, or the end. */
  lemma ReloadRep(dev: Device, fr: seq<int>, stack: seq<int>)
    requires Rep(dev, 1, fr, stack)
    ensures fr[0] == 0 <==> stack == []
    ensures fr[0] != 0 ==>
      && fr[0] == stack[|stack| - 1] && fr[0] in dev && |dev[fr[0]]| == 256
      && Rep(dev, dev[fr[0]][0], FreeOf(dev[fr[0]]), stack[..|stack| - 1])
  {
    if fr[0] != 0 {
      assert stack[|stack| - 1..][0] == fr[0];
    }
  }

  class FileSys {
    const disk: Disk
    var s_nfree: int
    const s_free: array<int>
    /** The free blocks, the next to be allocated last. */
    ghost var stack: seq<int>

    ghost predicate Valid()
      reads this, disk, disk.cache, s_free
    {
      && disk.Valid() && s_free.Length == 50 && AllBlocks(disk.dev)
      && Rep(disk.dev, s_nfree, s_free[..], stack) && Clean(disk.dev, stack)
    }

    /** A file system whose superblock and device hold the free list given by free. */
    constructor (device: Device, n: int, fr: seq<int>, ghost free: seq<int>)
      requires Rep(device, n, fr, free) && Clean(device, free) && AllBlocks(device)
      ensures Valid() && stack == free && disk.dev == device && fresh(disk) && fresh(disk.cache) && fresh(s_free)
    {
      disk := new Disk(device);
      s_nfree, stack := n, free;
      s_free := new int[50](i requires 0 <= i < |fr| => fr[i]);
      new;
      assert s_free[..] == fr;
    }

    method Bfree(bn: int)
      requires Valid() && bn in disk.dev && bn > 0 && Addr(bn) && bn !in stack
      modifies this, s_free, disk, disk.cache
      ensures Valid() && stack == old(stack) + [bn]
      ensures disk.dev.Keys == old(disk.dev.Keys)
      ensures forall b :: b in disk.dev && b != bn ==> disk.dev[b] == old(disk.dev)[b]
    {
      hide Rep, Current, FreeBlock;
      ghost var fr, dev := s_free[..], disk.dev;
      if s_nfree >= 50 {
        RepRange(dev, s_nfree, fr, stack);
        SpillRep(dev, fr, stack, bn);
        var fbuf := FreeBlock(s_nfree, s_free[..]);
        s_nfree := 0;
        disk.Dwrite(bn, fbuf);
      } else {
        RepRange(dev, s_nfree, fr, stack);
        PushRep(dev, s_nfree, fr, stack, bn);
      }
      s_free[s_nfree] := bn;
      assert s_free[..] == fr[s_nfree := bn];
      s_nfree := s_nfree + 1;
      stack := stack + [bn];
    }

    /** A block that is not free is written. */
    method Write(bno: int, b: Block)
      requires Valid() && bno in disk.dev && bno != 0 && bno !in stack && IsBlock(b)
      modifies disk, disk.cache
      ensures Valid() && disk.dev == old(disk.dev)[bno := b]
    {
      hide Rep, Current, Clean, AllBlocks;
      RepFrame(disk.dev, disk.dev[bno := b], s_nfree, s_free[..], stack);
      WriteClean(disk.dev, stack, bno, b);
      disk.Dwrite(bno, b);
    }

    /** The next part of the list comes from the block that was the last of this part. */
    method Reload(bno: int)
      requires disk.Valid() && s_free.Length == 50 && AllBlocks(disk.dev) && Clean(disk.dev, stack)
      requires bno in disk.dev && bno != 0 && |disk.dev[bno]| == 256
      requires Rep(disk.dev, disk.dev[bno][0], FreeOf(disk.dev[bno]), stack)
      modifies this`s_nfree, s_free, disk`curcache, disk.cache
      ensures Valid() && disk.dev == old(disk.dev)
    {
      hide Rep, Current, FreeOf, Clean, AllBlocks;
      var fbuf := disk.Dread(bno);
      s_nfree := fbuf[0];
      ghost var next := FreeOf(fbuf);
      forall i | 0 <= i < 50 {
        s_free[i] := FreeOf(fbuf)[i];
      }
      assert s_free[..] == next;
    }

    /** The last number of the superblock's part is taken; none is left when the list is empty. */
    method Pop() returns (bno: int)
      requires Valid()
      modifies this, s_free, disk`curcache, disk.cache
      ensures disk.dev == old(disk.dev) && (bno == 0 <==> old(stack) == [])
      ensures bno != 0 ==> Valid() && old(stack) == stack + [bno] && bno in disk.dev && bno !in stack
    {
      hide Rep, Current, FreeOf, Clean, AllBlocks;
      ghost var fr, dev, n := s_free[..], disk.dev, s_nfree;
      RepRange(dev, n, fr, stack);
      if n == 1 {
        ReloadRep(dev, fr, stack);
      } else {
        PopRep(dev, n, fr, stack);
      }
      if s_nfree == 0 {
        return 0;
      }
      s_nfree := s_nfree - 1;
      bno := s_free[s_nfree];
      if stack != [] {
        CleanTop(dev, stack);
      }
      if bno == 0 {
        return 0;
      }
      CleanPop(dev, stack);
      stack := stack[..|stack| - 1];
      if s_nfree == 0 {
        Reload(bno);
      }
    }

    /** The block taken off the list, zeroed; none when the file system is out of space. */
    method Balloc() returns (ok: bool, bno: int)
      requires Valid()
      modifies this, s_free, disk, disk.cache
      ensures ok <==> old(stack) != []
      ensures ok ==> Valid() && old(stack) == stack + [bno]
      ensures ok ==> disk.dev == old(disk.dev)[bno := seq(256, _ => 0)]
      ensures !ok ==> disk.dev == old(disk.dev)
    {
      hide Rep, Current, Clean, AllBlocks;
      bno := Pop();
      if bno == 0 {
        return false, 0;
      }
      Write(bno, seq(256, _ => 0));
      ok := true;
    }
  }

  lemma CleanTop(dev: Device, stack: seq<int>)
    requires Clean(dev, stack) && stack != []
    ensures stack[|stack| - 1] > 0 && stack[|stack| - 1] in dev
  {
  }

  lemma CleanPop(dev: Device, stack: seq<int>)
    requires Clean(dev, stack) && stack != []
    ensures stack[|stack| - 1] !in stack[..|stack| - 1] && Clean(dev, stack[..|stack| - 1])
  {
  }

  lemma WriteClean(dev: Device, stack: seq<int>, bno: int, b: Block)
    requires Clean(dev, stack) && AllBlocks(dev) && IsBlock(b)
    ensures Clean(dev[bno := b], stack) && AllBlocks(dev[bno := b])
  {
  }

  lemma RepRange(dev: Device, n: int, fr: seq<int>, stack: seq<int>)
    requires Rep(dev, n, fr, stack)
    ensures 1 <= n <= 50 && |fr| == 50
  {
  }
}
