/** Freeing files: itrunc and tloop of restor.c. */
module RestorFile {
  import opened RestorDisk
  import opened RestorFree
  import opened RestorTree
  import opened RestorPaths
  import opened RestorInode
  import opened RestorOrder

  /** The blocks are blocks of the device, and none is block 0. */
  ghost predicate In(dev: Device, m: multiset<int>) {
    forall x :: x in m ==> x in dev && x > 0 && Addr(x)
  }

  ghost predicate AgreeOff(dev: Device, dev': Device, m: multiset<int>) {
    dev'.Keys == dev.Keys && forall x :: x in dev && x !in m ==> dev'[x] == dev[x]
  }

  // ----- freeing

  lemma {:induction false} ForestSuffix(dev: Device, roots: seq<int>, levels: seq<nat>, top: nat, j: nat, k: nat)
    requires Levels(roots, levels, top) && j <= k <= |roots|
    ensures Forest(dev, roots, levels, top, k) <= Forest(dev, roots, levels, top, j)
    decreases k - j
  {
    hide Bag, One;
    if j < k {
      ForestStep(dev, roots, levels, top, j);
      ForestSuffix(dev, roots, levels, top, j + 1, k);
    }
  }

  lemma NoDupPart(m: multiset<int>, m': multiset<int>)
    requires NoDup(m) && m' <= m
    ensures NoDup(m')
  {
    forall x
      ensures m'[x] <= 1
    {
      assert m[x] <= 1;
    }
  }

  lemma InPart(dev: Device, m: multiset<int>, m': multiset<int>)
    requires In(dev, m) && m' <= m
    ensures In(dev, m')
  {
  }

  lemma InAt(dev: Device, m: multiset<int>, x: int)
    requires In(dev, m) && x in m
    ensures x in dev && x > 0 && Addr(x)
  {
  }

  lemma NoDupApart(a: multiset<int>, b: multiset<int>)
    requires NoDup(a + b)
    ensures NoDup(a) && NoDup(b) && forall x :: x in a ==> x !in b
  {
    forall x
      ensures a[x] + b[x] <= 1
    {
      assert (a + b)[x] <= 1;
    }
  }

  /** The trees from the k-th on have been freed, the last one first, and nothing else has changed. */
  ghost predicate FreedDown(dev0: Device, dev: Device, roots: seq<int>, levels: seq<nat>, top: nat, k: nat,
                            stack0: seq<int>, stack: seq<int>)
    requires Levels(roots, levels, top) && k <= |roots|
  {
    && stack == stack0 + FreedForest(dev0, roots, levels, top, k)
    && AgreeOff(dev0, dev, Forest(dev0, roots, levels, top, k))
  }

  lemma FreedNothing(dev: Device, roots: seq<int>, levels: seq<nat>, top: nat, stack: seq<int>)
    requires Levels(roots, levels, top)
    ensures FreedDown(dev, dev, roots, levels, top, |roots|, stack, stack)
  {
    FreedEnd(dev, roots, levels, top);
    ForestEnd(dev, roots, levels, top);
    AgreeOffSelf(dev);
  }

  /** When the trees after the k-th have been freed, the k-th is still as it was. */
  lemma NextTree(dev0: Device, dev: Device, roots: seq<int>, levels: seq<nat>, top: nat, k: nat, stack0: seq<int>,
                 stack: seq<int>)
    requires Levels(roots, levels, top) && k < |roots| && roots[k] != 0
    requires NoDup(multiset(stack0) + Forest(dev0, roots, levels, top, 0))
    requires In(dev0, Forest(dev0, roots, levels, top, 0))
    requires FreedDown(dev0, dev, roots, levels, top, k + 1, stack0, stack)
    ensures Bag(dev, roots[k], levels[k]) == Bag(dev0, roots[k], levels[k])
    ensures Freed(dev, roots[k], levels[k]) == Freed(dev0, roots[k], levels[k])
    ensures NoDup(multiset(stack) + Bag(dev, roots[k], levels[k])) && In(dev, Bag(dev, roots[k], levels[k]))
  {
    hide Bag, Forest, NoDup, Freed, FreedForest;
    var b, after := Bag(dev0, roots[k], levels[k]), Forest(dev0, roots, levels, top, k + 1);
    FreedForestBag(dev0, roots, levels, top, k + 1);
    ForestStep(dev0, roots, levels, top, k);
    OneBag(dev0, roots[k], levels[k]);
    ForestSuffix(dev0, roots, levels, top, 0, k);
    assert multiset(stack) + b == multiset(stack0) + Forest(dev0, roots, levels, top, k);
    NoDupPart(multiset(stack0) + Forest(dev0, roots, levels, top, 0), multiset(stack) + b);
    NoDupPart(multiset(stack) + b, after + b);
    NoDupApart(after, b);
    InPart(dev0, Forest(dev0, roots, levels, top, 0), b);
    AgreeOnRest(dev0, dev, after, b);
    BagFrame(dev0, dev, roots[k], levels[k]);
    FreedFrame(dev0, dev, roots[k], levels[k]);
  }

  lemma AgreeOnRest(dev0: Device, dev: Device, m: multiset<int>, b: multiset<int>)
    requires AgreeOff(dev0, dev, m) && In(dev0, b) && forall x :: x in m ==> x !in b
    ensures AgreeOn(dev0, dev, b) && In(dev, b)
  {
    forall x | x in b
      ensures x in dev && dev[x] == dev0[x]
    {
      assert x in dev0.Keys;
    }
  }

  /** Now the k-th has been freed, too. */
  lemma TreeDone(dev0: Device, dev: Device, dev': Device, roots: seq<int>, levels: seq<nat>, top: nat, k: nat,
                 stack0: seq<int>, stack: seq<int>, stack': seq<int>)
    requires Levels(roots, levels, top) && k < |roots| && FreedDown(dev0, dev, roots, levels, top, k + 1, stack0, stack)
    requires roots[k] == 0 ==> dev' == dev && stack' == stack
    requires roots[k] != 0 ==>
               && stack' == stack + Freed(dev0, roots[k], levels[k])
               && AgreeOff(dev, dev', Bag(dev0, roots[k], levels[k]))
    ensures FreedDown(dev0, dev', roots, levels, top, k, stack0, stack')
  {
    hide Bag, Forest, AgreeOff, Freed, FreedForest;
    FreedStep(dev0, roots, levels, top, k);
    ForestStep(dev0, roots, levels, top, k);
    var after := Forest(dev0, roots, levels, top, k + 1);
    if roots[k] == 0 {
      assert Forest(dev0, roots, levels, top, k) == after;
    } else {
      AgreeOffTrans(dev0, dev, dev', after, Bag(dev0, roots[k], levels[k]));
      Rejoin(stack0, FreedForest(dev0, roots, levels, top, k + 1), Freed(dev0, roots[k], levels[k]));
    }
  }

  lemma Rejoin(x: seq<int>, y: seq<int>, z: seq<int>)
    ensures (x + y) + z == x + (y + z)
  {
  }

  lemma AgreeOffTrans(dev: Device, dev1: Device, dev2: Device, m1: multiset<int>, m2: multiset<int>)
    requires AgreeOff(dev, dev1, m1) && AgreeOff(dev1, dev2, m2)
    ensures AgreeOff(dev, dev2, m2 + m1)
  {
  }

  lemma SnocBag(s: seq<int>, b: int)
    ensures multiset(s + [b]) == multiset(s) + multiset{b}
  {
  }

  lemma NotOnStack(s: seq<int>, m: multiset<int>, b: int)
    requires NoDup(multiset(s) + m) && b in m
    ensures b !in s
  {
    hide NoDup;
    NoDupApart(multiset(s), m);
  }

  /** tloop frees the tree at bn, whose level is 1 + f1 + f2. */
  method Tloop(fs: FileSys, bn: int, f1: nat, f2: nat)
    requires fs.Valid() && f2 <= f1 <= 1
    requires In(fs.disk.dev, Bag(fs.disk.dev, bn, 1 + f1 + f2))
    requires NoDup(multiset(fs.stack) + Bag(fs.disk.dev, bn, 1 + f1 + f2))
    modifies fs, fs.s_free, fs.disk, fs.disk.cache
    ensures fs.Valid()
    ensures multiset(fs.stack) == multiset(old(fs.stack)) + Bag(old(fs.disk.dev), bn, 1 + f1 + f2)
    ensures fs.stack == old(fs.stack) + Freed(old(fs.disk.dev), bn, 1 + f1 + f2)
    ensures AgreeOff(old(fs.disk.dev), fs.disk.dev, Bag(old(fs.disk.dev), bn, 1 + f1 + f2))
    decreases f1 + f2
  {
    hide Bag, Forest, NoDup, AgreeOff, In, Rep, Clean, Current, Indir, AllBlocks, Freed, FreedForest, FreedDown;
    ghost var dev0, level, stack0 := fs.disk.dev, 1 + f1 + f2, fs.stack;
    ghost var kids, levels := Kids(dev0, bn), Same(128, level - 1);
    TreeStart(dev0, bn, level, stack0);
    FreedNothing(dev0, kids, levels, level - 1, stack0);
    BlockAt(dev0, bn);
    var ibuf := fs.disk.Dread(bn);
    var indir := Indir(ibuf);
    var i := 127;
    while i >= 0
      invariant -1 <= i <= 127 && fs.Valid()
      invariant FreedDown(dev0, fs.disk.dev, kids, levels, level - 1, i + 1, stack0, fs.stack)
    {
      var nb := indir[i];
      ghost var dev, stack := fs.disk.dev, fs.stack;
      if nb != 0 {
        NextTree(dev0, dev, kids, levels, level - 1, i, stack0, stack);
        if f1 != 0 {
          Tloop(fs, nb, f2, 0);
        } else {
          FreeOne(fs, nb);
        }
      }
      TreeDone(dev0, dev, fs.disk.dev, kids, levels, level - 1, i, stack0, stack, fs.stack);
      i := i - 1;
    }
    ghost var dev, stack := fs.disk.dev, fs.stack;
    RootLast(dev0, dev, bn, level, stack0, stack);
    FreeOne(fs, bn);
    RootDone(dev0, dev, fs.disk.dev, bn, level, stack0, stack);
  }

  /** What tloop knows of the trees below its block. */
  lemma TreeStart(dev: Device, b: int, level: nat, stack: seq<int>)
    requires level > 0 && In(dev, Bag(dev, b, level)) && NoDup(multiset(stack) + Bag(dev, b, level))
    ensures b in dev && b > 0 && Addr(b)
    ensures var forest := Forest(dev, Kids(dev, b), Same(128, level - 1), level - 1, 0);
            NoDup(multiset(stack) + forest) && In(dev, forest)
  {
    hide Bag, Forest, NoDup, In;
    var forest := Forest(dev, Kids(dev, b), Same(128, level - 1), level - 1, 0);
    BagRoot(dev, b, level);
    BagStep(dev, b, level);
    InAt(dev, Bag(dev, b, level), b);
    NoDupPart(multiset(stack) + Bag(dev, b, level), multiset(stack) + forest);
    InPart(dev, Bag(dev, b, level), forest);
  }

  /** When all below it is freed, the block itself is left. */
  lemma RootLast(dev0: Device, dev: Device, b: int, level: nat, stack0: seq<int>, stack: seq<int>)
    requires level > 0 && b in dev0 && b > 0 && Addr(b) && NoDup(multiset(stack0) + Bag(dev0, b, level))
    requires FreedDown(dev0, dev, Kids(dev0, b), Same(128, level - 1), level - 1, 0, stack0, stack)
    ensures In(dev, Bag(dev, b, 0)) && NoDup(multiset(stack) + Bag(dev, b, 0))
  {
    hide Bag, Forest, NoDup, AgreeOff, FreedForest;
    var forest := Forest(dev0, Kids(dev0, b), Same(128, level - 1), level - 1, 0);
    BagStep(dev0, b, level);
    FreedForestBag(dev0, Kids(dev0, b), Same(128, level - 1), level - 1, 0);
    KeysKept(dev0, dev, forest, b);
    SingleBag(dev, b);
    InSingle(dev, b);
    assert multiset(stack) + multiset{b} == multiset(stack0) + Bag(dev0, b, level);
  }

  lemma RootDone(dev0: Device, dev: Device, dev': Device, b: int, level: nat, stack0: seq<int>, stack: seq<int>)
    requires level > 0 && FreedDown(dev0, dev, Kids(dev0, b), Same(128, level - 1), level - 1, 0, stack0, stack)
    requires AgreeOff(dev, dev', Bag(dev, b, 0))
    ensures stack + [b] == stack0 + Freed(dev0, b, level) && AgreeOff(dev0, dev', Bag(dev0, b, level))
    ensures multiset(stack + [b]) == multiset(stack0) + Bag(dev0, b, level)
  {
    hide Bag, Forest, AgreeOff, Freed, FreedForest;
    var forest := Forest(dev0, Kids(dev0, b), Same(128, level - 1), level - 1, 0);
    FreedTree(dev0, b, level);
    BagStep(dev0, b, level);
    FreedBag(dev0, b, level);
    SingleBag(dev, b);
    AgreeOffTrans(dev0, dev, dev', forest, multiset{b});
    Rejoin(stack0, FreedForest(dev0, Kids(dev0, b), Same(128, level - 1), level - 1, 0), [b]);
    assert forest + multiset{b} == Bag(dev0, b, level);
  }

  lemma InSingle(dev: Device, b: int)
    requires b in dev && b > 0 && Addr(b)
    ensures In(dev, multiset{b})
  {
  }

  /** bfree of a block that is a tree of level 0. */
  method FreeOne(fs: FileSys, bn: int)
    requires fs.Valid() && In(fs.disk.dev, Bag(fs.disk.dev, bn, 0))
    requires NoDup(multiset(fs.stack) + Bag(fs.disk.dev, bn, 0))
    modifies fs, fs.s_free, fs.disk, fs.disk.cache
    ensures fs.Valid() && multiset(fs.stack) == multiset(old(fs.stack)) + Bag(old(fs.disk.dev), bn, 0)
    ensures fs.stack == old(fs.stack) + [bn] && Freed(old(fs.disk.dev), bn, 0) == [bn]
    ensures AgreeOff(old(fs.disk.dev), fs.disk.dev, Bag(old(fs.disk.dev), bn, 0))
    ensures Bag(old(fs.disk.dev), bn, 0) == multiset{bn}
  {
    hide NoDup, Rep, Clean, Current, AllBlocks, Bag;
    SingleBag(fs.disk.dev, bn);
    assert bn in Bag(fs.disk.dev, bn, 0);
    NotOnStack(fs.stack, Bag(fs.disk.dev, bn, 0), bn);
    SnocBag(fs.stack, bn);
    fs.Bfree(bn);
  }

  lemma AgreeOffSelf(dev: Device)
    ensures AgreeOff(dev, dev, multiset{})
  {
  }

  lemma BlockAt(dev: Device, b: int)
    requires AllBlocks(dev) && b in dev
    ensures |dev[b]| == 256 && Kids(dev, b) == Indir(dev[b])
  {
  }

  lemma KeysKept(dev0: Device, dev: Device, m: multiset<int>, b: int)
    requires AgreeOff(dev0, dev, m)
    ensures b in dev0 <==> b in dev
  {
    assert b in dev0.Keys <==> b in dev.Keys;
  }

  /** Directories and plain files have blocks, other inodes do not. */
  predicate HasBlocks(mode: int) {
    mode != 0 && (mode / 0x1000 % 16 == 4 || mode / 0x1000 % 16 == 8)
  }

  /** The modes of directories begin with octal 04 and those of plain files with octal 10. */
  lemma ModesWithBlocks(mode: int)
    requires 0 <= mode < 0x1_0000
    ensures HasBlocks(mode) <==> 0x4000 <= mode < 0x5000 || 0x8000 <= mode < 0x9000
  {
  }

  /** itrunc: every block of the file, at any depth, goes to the free list once, the last one first. */
  method Itrunc(fs: FileSys, mode: int, iaddr: seq<int>)
    requires fs.Valid() && |iaddr| == 13
    requires HasBlocks(mode) ==> In(fs.disk.dev, FileBag(fs.disk.dev, iaddr))
    requires HasBlocks(mode) ==> NoDup(multiset(fs.stack) + FileBag(fs.disk.dev, iaddr))
    modifies fs, fs.s_free, fs.disk, fs.disk.cache
    ensures fs.Valid()
    ensures !HasBlocks(mode) ==> fs.stack == old(fs.stack) && fs.disk.dev == old(fs.disk.dev)
    ensures HasBlocks(mode) ==> multiset(fs.stack) == multiset(old(fs.stack)) + FileBag(old(fs.disk.dev), iaddr)
    ensures HasBlocks(mode) ==> fs.stack == Line(old(fs.disk.dev), iaddr, old(fs.stack))
    ensures HasBlocks(mode) ==> AgreeOff(old(fs.disk.dev), fs.disk.dev, FileBag(old(fs.disk.dev), iaddr))
  {
    hide Bag, Forest, NoDup, AgreeOff, Rep, Clean, Current, AllBlocks, Freed, FreedForest, FreedDown, Line;
    if mode == 0 {
      return;
    }
    var kind := mode / 0x1000 % 16;
    if kind != 4 && kind != 8 {
      return;
    }
    ghost var dev0, levels, stack0 := fs.disk.dev, InodeLevels(), fs.stack;
    FreedNothing(dev0, iaddr, levels, 3, stack0);
    var i := 12;
    while i >= 0
      invariant -1 <= i <= 12 && fs.Valid()
      invariant FreedDown(dev0, fs.disk.dev, iaddr, levels, 3, i + 1, stack0, fs.stack)
    {
      var bn := iaddr[i];
      ghost var dev, stack := fs.disk.dev, fs.stack;
      if bn != 0 {
        NextTree(dev0, dev, iaddr, levels, 3, i, stack0, stack);
        if i == 10 {
          Tloop(fs, bn, 0, 0);
        } else if i == 11 {
          Tloop(fs, bn, 1, 0);
        } else if i == 12 {
          Tloop(fs, bn, 1, 1);
        } else {
          FreeOne(fs, bn);
        }
      }
      TreeDone(dev0, dev, fs.disk.dev, iaddr, levels, 3, i, stack0, stack, fs.stack);
      i := i - 1;
    }
    FileDone(dev0, fs.disk.dev, iaddr, stack0, fs.stack);
  }

  lemma FileDone(dev0: Device, dev: Device, iaddr: seq<int>, stack0: seq<int>, stack: seq<int>)
    requires |iaddr| == 13 && FreedDown(dev0, dev, iaddr, InodeLevels(), 3, 0, stack0, stack)
    ensures stack == Line(dev0, iaddr, stack0) && AgreeOff(dev0, dev, FileBag(dev0, iaddr))
    ensures multiset(stack) == multiset(stack0) + FileBag(dev0, iaddr)
  {
    hide Forest, FreedForest, AgreeOff;
    FreedForestBag(dev0, iaddr, InodeLevels(), 3, 0);
  }
}
