/** bmap of restor.c: the blocks of a file being restored are allocated and mapped. */
module RestorMap {
  import opened RestorDisk
  import opened RestorFree
  import opened RestorTree
  import opened RestorPaths
  import opened RestorInode
  import opened RestorFile
  import opened RestorCount
  import opened RestorOrder

  /** The blocks of the file and the free blocks, each of them once. */
  ghost function Total(dev: Device, iaddr: seq<int>, stack: seq<int>): multiset<int>
    requires |iaddr| == 13
  {
    multiset(stack) + FileBag(dev, iaddr)
  }

  ghost predicate FileOk(dev: Device, iaddr: seq<int>, stack: seq<int>) {
    |iaddr| == 13 && NoDup(Total(dev, iaddr, stack)) && In(dev, Total(dev, iaddr, stack))
  }

  /** The data block at p is the same one and holds the same data. */
  ghost predicate Keeps(dev: Device, iaddr: seq<int>, dev': Device, iaddr': seq<int>, p: Place)
    requires |iaddr| == |iaddr'| == 13 && IsPlace(p)
  {
    var x := At(dev, iaddr, p);
    At(dev', iaddr', p) == x && (x != 0 && x in dev ==> x in dev' && dev'[x] == dev[x])
  }

  ghost predicate KeepsBut(dev: Device, iaddr: seq<int>, dev': Device, iaddr': seq<int>, pl: Place)
    requires |iaddr| == |iaddr'| == 13
  {
    forall p: Place :: IsPlace(p) && p != pl ==> Keeps(dev, iaddr, dev', iaddr', p)
  }

  lemma KeepsTrans(d1: Device, a1: seq<int>, d2: Device, a2: seq<int>, d3: Device, a3: seq<int>, pl: Place)
    requires |a1| == |a2| == |a3| == 13 && KeepsBut(d1, a1, d2, a2, pl) && KeepsBut(d2, a2, d3, a3, pl)
    ensures KeepsBut(d1, a1, d3, a3, pl)
  {
    hide At, IsPlace;
    forall p: Place | IsPlace(p) && p != pl
      ensures Keeps(d1, a1, d3, a3, p)
    {
      assert Keeps(d1, a1, d2, a2, p) && Keeps(d2, a2, d3, a3, p);
    }
  }

  /** What a file in order promises to itrunc. */
  lemma OkParts(dev: Device, iaddr: seq<int>, stack: seq<int>)
    requires FileOk(dev, iaddr, stack)
    ensures |iaddr| == 13 && In(dev, FileBag(dev, iaddr)) && NoDup(multiset(stack) + FileBag(dev, iaddr))
  {
    hide NoDup, FileBag;
    InPart(dev, Total(dev, iaddr, stack), FileBag(dev, iaddr));
  }

  /** A block in use is not on the free list. */
  lemma InUse(dev: Device, iaddr: seq<int>, stack: seq<int>, x: int)
    requires FileOk(dev, iaddr, stack) && x in FileBag(dev, iaddr)
    ensures x !in stack && x in dev && x > 0 && NoDup(FileBag(dev, iaddr))
  {
    hide NoDup, FileBag;
    NoDupApart(multiset(stack), FileBag(dev, iaddr));
    assert x in Total(dev, iaddr, stack);
  }

  lemma DataInUse(dev: Device, iaddr: seq<int>, stack: seq<int>, p: Place)
    requires FileOk(dev, iaddr, stack) && IsPlace(p) && At(dev, iaddr, p) != 0
    ensures At(dev, iaddr, p) in FileBag(dev, iaddr)
    ensures At(dev, iaddr, p) !in stack && At(dev, iaddr, p) in dev && At(dev, iaddr, p) > 0
  {
    hide NoDup, FileBag, One, At;
    LeafInSlot(dev, iaddr, p);
    SlotPart(dev, iaddr, p.slot);
    InUse(dev, iaddr, stack, At(dev, iaddr, p));
  }

  /** The block on top of the free list is not in use. */
  lemma TopIsFree(dev: Device, iaddr: seq<int>, stack: seq<int>, c: int)
    requires FileOk(dev, iaddr, stack + [c])
    ensures c !in FileBag(dev, iaddr) && c in dev && c > 0 && Addr(c) && NoDup(FileBag(dev, iaddr)) && c !in stack
  {
    hide NoDup, FileBag;
    SnocBag(stack, c);
    assert c in multiset(stack + [c]);
    NoDupApart(multiset(stack + [c]), FileBag(dev, iaddr));
    assert c in Total(dev, iaddr, stack + [c]);
    NoDupApart(multiset(stack), multiset{c});
  }

  /** A block has gone from the free list to the file. */
  lemma Moved(dev: Device, iaddr: seq<int>, dev': Device, iaddr': seq<int>, stack: seq<int>, c: int)
    requires FileOk(dev, iaddr, stack + [c]) && |iaddr'| == 13 && dev'.Keys == dev.Keys
    requires FileBag(dev', iaddr') == FileBag(dev, iaddr) + multiset{c}
    ensures FileOk(dev', iaddr', stack) && Total(dev', iaddr', stack) == Total(dev, iaddr, stack + [c])
  {
    hide NoDup, FileBag;
    SnocBag(stack, c);
    assert Total(dev', iaddr', stack) == Total(dev, iaddr, stack + [c]);
    forall x | x in Total(dev', iaddr', stack)
      ensures x in dev'
    {
      assert x in dev.Keys;
    }
  }

  function Zeroes(): Block {
    seq(256, _ => 0)
  }

  lemma ZeroEmpty(dev: Device, c: int)
    requires c in dev && dev[c] == Zeroes()
    ensures Empty(dev, c)
  {
  }

  /** An address of the inode gets its block. */
  lemma StepRoot(dev: Device, iaddr: seq<int>, stack: seq<int>, s: int, off: int, c: int, ids: set<Id>)
    requires FileOk(dev, iaddr, stack + [c]) && IsPlace(Place(s, off)) && iaddr[s] == 0 && Grown(dev, iaddr, ids)
    ensures var dev', iaddr' := dev[c := Zeroes()], iaddr[s := c];
      && FileOk(dev', iaddr', stack) && Total(dev', iaddr', stack) == Total(dev, iaddr, stack + [c])
      && KeepsBut(dev, iaddr, dev', iaddr', Place(s, off)) && c != 0 && c !in stack
      && Grown(dev', iaddr', ids + {Id(s, [])})
      && InLine(dev, iaddr, stack + [c], dev', iaddr', stack, Place(s, off))
  {
    hide FileOk, FileBag, At, Zeroes, Empty, NoDup, Total, Grown, InLine;
    OkLength(dev, iaddr, stack + [c]);
    var dev', iaddr' := dev[c := Zeroes()], iaddr[s := c];
    TopIsFree(dev, iaddr, stack, c);
    ZeroEmpty(dev', c);
    NewRoot(dev, dev', iaddr, s, c);
    RootGrown(dev, dev', iaddr, s, c, ids);
    RootInLine(dev, dev', iaddr, stack, s, off, c);
    Moved(dev, iaddr, dev', iaddr', stack, c);
    forall p: Place | IsPlace(p) && p != Place(s, off)
      ensures Keeps(dev, iaddr, dev', iaddr', p)
    {
      if At(dev, iaddr, p) != 0 {
        DataInUse(dev, iaddr, stack + [c], p);
      }
      DirectOffset(p, s, off);
    }
  }

  lemma OkLength(dev: Device, iaddr: seq<int>, stack: seq<int>)
    requires FileOk(dev, iaddr, stack)
    ensures |iaddr| == 13 && NoDup(FileBag(dev, iaddr))
  {
    hide NoDup, FileBag;
    NoDupApart(multiset(stack), FileBag(dev, iaddr));
  }

  lemma DirectOffset(p: Place, s: int, off: int)
    requires IsPlace(p) && IsPlace(Place(s, off)) && p != Place(s, off)
    ensures !(p.slot == s && LevelOf(s) == 0)
  {
  }

  /** A block on the way gets the block below it. */
  lemma StepBelow(dev: Device, iaddr: seq<int>, stack: seq<int>, s: int, off: int, t: nat, c: int, indir: seq<int>,
                  ids: set<Id>)
    requires FileOk(dev, iaddr, stack + [c]) && IsPlace(Place(s, off))
    requires iaddr[s] != 0 && t < LevelOf(s) && AllBlocks(dev)
    requires var q := Node(dev, iaddr[s], LevelOf(s), off, t); q != 0 && q in dev && indir == Kids(dev, q)
    requires indir[Idx(off, LevelOf(s) - t - 1)] == 0 && Grown(dev, iaddr, ids)
    ensures var q := Node(dev, iaddr[s], LevelOf(s), off, t);
      var dev' := dev[c := Zeroes()][q := Words(indir[Idx(off, LevelOf(s) - t - 1) := c])];
      && FileOk(dev', iaddr, stack) && Total(dev', iaddr, stack) == Total(dev, iaddr, stack + [c])
      && KeepsBut(dev, iaddr, dev', iaddr, Place(s, off)) && c != 0
      && Node(dev', iaddr[s], LevelOf(s), off, t + 1) == c
      && IsBlock(Words(indir[Idx(off, LevelOf(s) - t - 1) := c])) && q !in stack
      && Grown(dev', iaddr, ids + {IdOf(Place(s, off), t + 1)})
      && InLine(dev, iaddr, stack + [c], dev', iaddr, stack, Place(s, off))
  {
    hide InLine;
    hide FileOk, FileBag, At, Zeroes, Empty, NoDup, Total, Node, Words, Idx, Kids, LevelOf, Bag, AllBlocks, Grown, IdOf;
    OkLength(dev, iaddr, stack + [c]);
    var q, i := Node(dev, iaddr[s], LevelOf(s), off, t), Idx(off, LevelOf(s) - t - 1);
    var dev' := dev[c := Zeroes()][q := Words(indir[i := c])];
    TopIsFree(dev, iaddr, stack, c);
    NodeUsed(dev, iaddr, stack + [c], s, off, t);
    HungThere(dev, dev', q, i, c, indir);
    assert Hung(dev, dev', q, LevelOf(s) - t - 1, off, c);
    NewBelow(dev, dev', iaddr, s, off, t, c);
    BelowGrown(dev, dev', iaddr, s, off, t, c, ids);
    BelowInLine(dev, dev', iaddr, stack, s, off, t, c);
    Moved(dev, iaddr, dev', iaddr, stack, c);
    assert off % Pow128(LevelOf(s)) == off by { SmallMod(off, Pow128(LevelOf(s))); }
    forall p: Place | IsPlace(p) && p != Place(s, off)
      ensures Keeps(dev, iaddr, dev', iaddr, p)
    {
      if At(dev, iaddr, p) != 0 {
        DataInUse(dev, iaddr, stack + [c], p);
        InnerNotData(dev, iaddr, s, off, t, p);
      }
    }
  }

  lemma NodeUsed(dev: Device, iaddr: seq<int>, stack: seq<int>, s: int, off: int, t: nat)
    requires FileOk(dev, iaddr, stack) && 0 <= s < 13 && iaddr[s] != 0 && t <= LevelOf(s)
    requires Node(dev, iaddr[s], LevelOf(s), off, t) != 0
    ensures var q := Node(dev, iaddr[s], LevelOf(s), off, t);
      q in FileBag(dev, iaddr) && q !in stack && q in dev && q > 0
  {
    hide FileOk, FileBag, Node, Bag, LevelOf;
    OkLength(dev, iaddr, stack);
    NodeIn(dev, iaddr[s], LevelOf(s), off, t);
    SlotPart(dev, iaddr, s);
    InUse(dev, iaddr, stack, Node(dev, iaddr[s], LevelOf(s), off, t));
  }

  lemma HungThere(dev: Device, dev': Device, q: int, i: int, c: int, indir: seq<int>)
    requires q in dev && c in dev && c != 0 && q != c && Addr(c) && AllBlocks(dev)
    requires indir == Kids(dev, q) && 0 <= i < 128
    requires dev' == dev[c := Zeroes()][q := Words(indir[i := c])]
    ensures AgreeBut(dev, dev', q, c) && Empty(dev', c)
    ensures Kids(dev', q) == indir[i := c] && IsBlock(Words(indir[i := c]))
  {
    hide Words;
    assert IsBlock(dev[q]);
    IndirAddrs(dev[q]);
    IndirRoundTrip(indir[i := c]);
    ZeroEmpty(dev', c);
  }

  // ----- bmap

  /** The first part of bmap: how many levels of indirection. The inode address is 13 - j, sh is
      the number of shifts by 7 bits, and off is the offset under that address; j = 0 is too far. */
  method Locate(bn: int) returns (j: int, sh: nat, off: int)
    requires bn >= 10
    ensures 0 <= j <= 3 && (j == 0 <==> PlaceOf(bn) == Beyond)
    ensures j != 0 ==> sh == 4 - j && PlaceOf(bn) == Place(13 - j, off)
  {
    sh, off, j := 0, bn - 10, 3;
    var nb := 1;
    while j > 0
      invariant 0 <= j <= 3 && sh == 3 - j
      invariant j == 3 ==> nb == 1 && off == bn - 10
      invariant j == 2 ==> nb == 128 && off == bn - 138 && off >= 0
      invariant j == 1 ==> nb == 16384 && off == bn - 16522 && off >= 0
      invariant j == 0 ==> bn - 16522 >= 2097152
    {
      sh := sh + 1;
      nb := nb * 128;
      if off < nb {
        break;
      }
      off := off - nb;
      j := j - 1;
    }
  }

  /** The last part of bmap: through the indirect blocks, adding those that are missing. */
  method Through(fs: FileSys, ghost iaddr: seq<int>, b: int, ghost s: int, sh0: nat, off: int, ghost ids: set<Id>)
    returns (ok: bool, nb: int)
    requires fs.Valid() && FileOk(fs.disk.dev, iaddr, fs.stack) && IsPlace(Place(s, off))
    requires b == iaddr[s] != 0 && sh0 == LevelOf(s) && Grown(fs.disk.dev, iaddr, ids)
    modifies fs, fs.s_free, fs.disk, fs.disk.cache
    ensures !ok ==> |old(fs.stack)| < sh0 && |ids| + |old(fs.stack)| < |ids + WayTo(Place(s, off), sh0)|
    ensures ok ==>
              Spent(fs.disk.dev, iaddr, fs.stack, ids, |old(fs.stack)|, Place(s, off), sh0,
                    ids + WayTo(Place(s, off), sh0))
    ensures ok ==> fs.Valid() && FileOk(fs.disk.dev, iaddr, fs.stack)
    ensures ok ==> InLine(old(fs.disk.dev), iaddr, old(fs.stack), fs.disk.dev, iaddr, fs.stack, Place(s, off))
    ensures ok ==> Total(fs.disk.dev, iaddr, fs.stack) == Total(old(fs.disk.dev), iaddr, old(fs.stack))
    ensures ok ==> KeepsBut(old(fs.disk.dev), iaddr, fs.disk.dev, iaddr, Place(s, off))
    ensures ok ==> nb != 0 && nb == At(fs.disk.dev, iaddr, Place(s, off))
    ensures At(old(fs.disk.dev), iaddr, Place(s, off)) != 0 ==>
              ok && fs.disk.dev == old(fs.disk.dev) && fs.stack == old(fs.stack)
  {
    hide FileOk, KeepsBut, Total, Node, Bag, FileBag, Rep, Clean;
    hide Current, Idx, Words, Kids, Indir, AllBlocks, LevelOf, Leaf, Zeroes;
    hide Spent, Grown, WayTo, IdOf, NodeAt, InLine;
    OkLength(fs.disk.dev, iaddr, fs.stack);
    ghost var dev0, stack0, t: nat, pl, now := fs.disk.dev, fs.stack, 0, Place(s, off), ids;
    SpentStart(dev0, iaddr, stack0, ids, pl);
    InLineSelf(dev0, iaddr, stack0, pl);
    KeepsSelf(dev0, iaddr, Place(s, off));
    nb, ok := b, true;
    var sh := sh0;
    RootNode(dev0, b, sh0, off);
    while sh > 0
      invariant fs.Valid() && FileOk(fs.disk.dev, iaddr, fs.stack) && t + sh == sh0 && ok
      invariant Total(fs.disk.dev, iaddr, fs.stack) == Total(dev0, iaddr, stack0)
      invariant KeepsBut(dev0, iaddr, fs.disk.dev, iaddr, Place(s, off))
      invariant nb == Node(fs.disk.dev, b, sh0, off, t) != 0
      invariant |fs.stack| + t >= |stack0|
      invariant Spent(fs.disk.dev, iaddr, fs.stack, ids, |stack0|, pl, t, now)
      invariant InLine(dev0, iaddr, stack0, fs.disk.dev, iaddr, fs.stack, pl)
      invariant At(dev0, iaddr, Place(s, off)) != 0 ==> fs.disk.dev == dev0 && fs.stack == stack0
    {
      ghost var dev := fs.disk.dev;
      NodeUsed(dev, iaddr, fs.stack, s, off, t);
      BlockAt(dev, nb);
      var block := fs.disk.Dread(nb);
      var indir := Indir(block);
      sh := sh - 1;
      var i := Idx(off, sh);
      var nnb := indir[i];
      NextNode(dev, b, sh0, off, t);
      LeafThrough(dev0, b, sh0, off, t);
      NodeAtIs(dev, iaddr, s, off, t + 1);
      if nnb == 0 {
        ok, nnb := fs.Balloc();
        if !ok {
          SpentAll(dev, iaddr, ids, |stack0|, pl, t, now);
          return;
        }
        assert fs.disk.dev == dev[nnb := Zeroes()] by { ZeroesAre(); }
        SpentGrown(dev, iaddr, fs.stack + [nnb], ids, |stack0|, pl, t, now);
        StepBelow(dev, iaddr, fs.stack, s, off, t, nnb, indir, now);
        UsedNotTop(dev, iaddr, fs.stack, nnb, nb);
        fs.Write(nb, Words(indir[i := nnb]));
        SpentNew(dev, fs.disk.dev, iaddr, fs.stack, nnb, ids, |stack0|, pl, t, now);
        InLineTrans(dev0, iaddr, stack0, dev, iaddr, fs.stack + [nnb], fs.disk.dev, iaddr, fs.stack, pl);
        now := now + {IdOf(pl, t + 1)};
        KeepsTrans(dev0, iaddr, dev, iaddr, fs.disk.dev, iaddr, Place(s, off));
      } else {
        SpentOn(dev, iaddr, fs.stack, ids, |stack0|, pl, t, now);
      }
      nb := nnb;
      t := t + 1;
    }
    LeafIs(fs.disk.dev, iaddr, s, off);
    SpentGrown(fs.disk.dev, iaddr, fs.stack, ids, |stack0|, pl, t, now);
  }

  lemma NodeAtIs(dev: Device, iaddr: seq<int>, s: int, off: int, t: nat)
    requires |iaddr| == 13 && 0 <= s < 13 && iaddr[s] != 0 && t <= LevelOf(s)
    ensures NodeAt(dev, iaddr, Place(s, off), t) == Node(dev, iaddr[s], LevelOf(s), off, t)
  {
  }

  lemma SpentGrown(dev: Device, iaddr: seq<int>, stack: seq<int>, ids0: set<Id>, n0: int, p: Place, t: nat,
                   now: set<Id>)
    requires |iaddr| == 13 && OnWay(p, t) && Spent(dev, iaddr, stack, ids0, n0, p, t, now)
    ensures Grown(dev, iaddr, now) && now == ids0 + WayTo(p, t) && |now| + |stack| == |ids0| + n0
  {
  }

  lemma KeepsSelf(dev: Device, iaddr: seq<int>, pl: Place)
    requires |iaddr| == 13
    ensures KeepsBut(dev, iaddr, dev, iaddr, pl)
  {
  }

  lemma RootNode(dev: Device, b: int, level: nat, off: int)
    ensures Node(dev, b, level, off, 0) == b
  {
  }

  /** The next block on the way is read off the one before. */
  lemma {:induction false} NextNode(dev: Device, b: int, level: nat, off: int, t: nat)
    requires t < level && Node(dev, b, level, off, t) != 0
    ensures Node(dev, b, level, off, t + 1) == Kids(dev, Node(dev, b, level, off, t))[Idx(off, level - t - 1)]
    decreases t
  {
    hide Idx, Kids;
    NodeStep(dev, b, level, off, t + 1);
    if t > 0 {
      NodeStep(dev, b, level, off, t);
      NextNode(dev, Kids(dev, b)[Idx(off, level - 1)], level - 1, off, t - 1);
    }
  }

  lemma {:induction false} LeafThrough(dev: Device, b: int, level: nat, off: int, t: nat)
    requires t < level
    ensures Leaf(dev, b, level, off) != 0 ==> Node(dev, b, level, off, t + 1) != 0
    decreases level
  {
    hide Idx, Kids;
    NodeStep(dev, b, level, off, level);
    NodeStep(dev, b, level, off, t + 1);
    if t > 0 {
      LeafThrough(dev, Kids(dev, b)[Idx(off, level - 1)], level - 1, off, t - 1);
    }
  }

  lemma LeafIs(dev: Device, iaddr: seq<int>, s: int, off: int)
    requires |iaddr| == 13 && 0 <= s < 13 && iaddr[s] != 0
    ensures At(dev, iaddr, Place(s, off)) == Node(dev, iaddr[s], LevelOf(s), off, LevelOf(s))
  {
  }

  lemma ZeroesAre()
    ensures Zeroes() == seq(256, _ => 0)
  {
  }

  lemma UsedNotTop(dev: Device, iaddr: seq<int>, stack: seq<int>, c: int, q: int)
    requires FileOk(dev, iaddr, stack + [c]) && q !in stack + [c]
    ensures q != c && q !in stack
  {
  }

  /** The block that bmap loses: a direct block is allocated anew even if it has an address. */
  ghost function Lost(iaddr: seq<int>, bn: int): multiset<int>
    requires |iaddr| == 13 && bn >= 0
  {
    if bn < 10 && iaddr[bn] != 0 then multiset{iaddr[bn]} else multiset{}
  }

  /** A file that has forgotten one of its direct blocks. */
  lemma Forgotten(dev: Device, iaddr: seq<int>, stack: seq<int>, bn: int, ids: set<Id>)
    requires FileOk(dev, iaddr, stack) && 0 <= bn < 10 && Grown(dev, iaddr, ids)
    ensures var iaddr' := iaddr[bn := 0];
      && FileOk(dev, iaddr', stack) && Total(dev, iaddr', stack) + Lost(iaddr, bn) == Total(dev, iaddr, stack)
      && KeepsBut(dev, iaddr, dev, iaddr', Place(bn, 0)) && Grown(dev, iaddr', ids - {Id(bn, [])})
  {
    hide FileBag, At, NoDup, Grown, One, LevelOf;
    var iaddr' := iaddr[bn := 0];
    OneDirect(dev, iaddr[bn], bn);
    OneDirect(dev, 0, bn);
    NoZero(dev, iaddr, stack);
    SlotChange(dev, dev, iaddr', iaddr, bn, 0, 0, Lost(iaddr, bn));
    assert Total(dev, iaddr', stack) + Lost(iaddr, bn) == Total(dev, iaddr, stack);
    SmallerTotal(dev, Total(dev, iaddr', stack), Total(dev, iaddr, stack));
    ForgottenGrown(dev, iaddr, bn, ids);
    forall p: Place | IsPlace(p) && p != Place(bn, 0)
      ensures Keeps(dev, iaddr, dev, iaddr', p)
    {
      DirectOffset(p, bn, 0);
    }
  }

  lemma OneDirect(dev: Device, b: int, bn: int)
    requires 0 <= bn < 10
    ensures One(dev, b, LevelOf(bn)) == if b == 0 then multiset{} else multiset{b}
  {
  }

  lemma NoZero(dev: Device, iaddr: seq<int>, stack: seq<int>)
    requires FileOk(dev, iaddr, stack)
    ensures forall r :: 0 <= r < 13 ==> 0 !in One(dev, iaddr[r], LevelOf(r))
  {
    hide FileBag, One, LevelOf, NoDup;
    if 0 in FileBag(dev, iaddr) {
      InUse(dev, iaddr, stack, 0);
    }
    NotInSlots(dev, iaddr, 0);
  }

  lemma SmallerTotal(dev: Device, part: multiset<int>, whole: multiset<int>)
    requires part <= whole && NoDup(whole) && In(dev, whole)
    ensures NoDup(part) && In(dev, part)
  {
    forall x
      ensures part[x] <= 1
    {
      assert part[x] <= whole[x] <= 1;
    }
  }

  lemma ForgottenGrown(dev: Device, iaddr: seq<int>, bn: int, ids: set<Id>)
    requires |iaddr| == 13 && 0 <= bn < 10 && Grown(dev, iaddr, ids)
    ensures Grown(dev, iaddr[bn := 0], ids - {Id(bn, [])})
  {
    hide Grown, Node;
    var iaddr', ids' := iaddr[bn := 0], ids - {Id(bn, [])};
    forall p: Place, t: nat | OnWay(p, t)
      ensures NodeAt(dev, iaddr', p, t) != 0 <==> IdOf(p, t) in ids'
    {
      GrownAt(dev, iaddr, ids, p, t);
      assert IdOf(p, t) == Id(bn, []) <==> p.slot == bn;
    }
    GrownAll(dev, iaddr', ids');
  }

  method MapDirect(fs: FileSys, iaddr: array<int>, bn: int, ghost ids: set<Id>) returns (ok: bool, nb: int)
    requires fs.Valid() && iaddr.Length == 13 && iaddr != fs.s_free && FileOk(fs.disk.dev, iaddr[..], fs.stack)
    requires 0 <= bn < 10 && Grown(fs.disk.dev, iaddr[..], ids)
    modifies fs, fs.s_free, fs.disk, fs.disk.cache, iaddr
    ensures ok <==> |ids + Way(bn)| + |Lost(old(iaddr[..]), bn)| <= |ids| + |old(fs.stack)|
    ensures ok ==> Mapped(old(fs.disk.dev), old(iaddr[..]), old(fs.stack), bn, ids, fs.disk.dev, iaddr[..], fs.stack)
    ensures ok ==> fs.Valid() && nb != 0 && nb == FileLeaf(fs.disk.dev, iaddr[..], bn)
  {
    hide FileOk, KeepsBut, Total, FileBag, Rep, Clean, Current, AllBlocks;
    hide LevelOf, Leaf, Zeroes, Pow128, Mapped, Grown, Way, Lost, InLine;
    ghost var dev0, ia0, stack0 := fs.disk.dev, iaddr[..], fs.stack;
    PlaceIs(bn);
    Forgotten(dev0, ia0, stack0, bn, ids);
    DirectCount(dev0, ia0, bn, ids);
    ok, nb := fs.Balloc();
    if !ok {
      return;
    }
    ZeroesAre();
    ghost var ia1 := ia0[bn := 0];
    StepRoot(dev0, ia1, fs.stack, bn, 0, nb, ids - {Id(bn, [])});
    iaddr[bn] := nb;
    assert iaddr[..] == ia1[bn := nb];
    DirectLeaf(fs.disk.dev, iaddr[..], bn);
    if ia0[bn] == 0 {
      assert ia1 == ia0;
    }
    KeepsTrans(dev0, ia0, dev0, ia1, fs.disk.dev, iaddr[..], Place(bn, 0));
    MappedDirect(dev0, ia0, stack0, bn, ids, fs.disk.dev, iaddr[..], fs.stack);
  }

  /** One block more, and one less if one is lost. */
  lemma DirectCount(dev: Device, iaddr: seq<int>, bn: int, ids: set<Id>)
    requires |iaddr| == 13 && 0 <= bn < 10 && Grown(dev, iaddr, ids)
    ensures Way(bn) == {Id(bn, [])} && |ids + Way(bn)| + |Lost(iaddr, bn)| == |ids| + 1
  {
    hide Grown;
    GrownAt(dev, iaddr, ids, Place(bn, 0), 0);
    if Id(bn, []) in ids {
      assert ids + {Id(bn, [])} == ids;
    }
  }

  lemma MappedDirect(dev: Device, iaddr: seq<int>, stack: seq<int>, bn: int, ids: set<Id>, dev': Device,
                     iaddr': seq<int>, stack': seq<int>)
    requires |iaddr| == |iaddr'| == 13 && 0 <= bn < 10 && |stack| == |stack'| + 1 && FileOk(dev', iaddr', stack')
    requires Total(dev', iaddr', stack') + Lost(iaddr, bn) == Total(dev, iaddr, stack)
    requires KeepsBut(dev, iaddr, dev', iaddr', Place(bn, 0)) && Grown(dev', iaddr', ids - {Id(bn, [])} + {Id(bn, [])})
    requires Way(bn) == {Id(bn, [])} && |ids + Way(bn)| + |Lost(iaddr, bn)| == |ids| + 1
    requires iaddr[bn] == 0 ==> InLine(dev, iaddr, stack, dev', iaddr', stack', Place(bn, 0))
    ensures Mapped(dev, iaddr, stack, bn, ids, dev', iaddr', stack')
  {
    hide FileOk, KeepsBut, Total, Grown, Way, InLine;
    PlaceIs(bn);
    assert ids - {Id(bn, [])} + {Id(bn, [])} == ids + Way(bn);
  }

  method MapIndirect(fs: FileSys, iaddr: array<int>, bn: int, s: int, sh: nat, off: int, ghost ids: set<Id>)
    returns (ok: bool, nb: int)
    requires fs.Valid() && iaddr.Length == 13 && iaddr != fs.s_free && FileOk(fs.disk.dev, iaddr[..], fs.stack)
    requires bn >= 10 && Grown(fs.disk.dev, iaddr[..], ids) && 10 <= s < 13
    requires PlaceOf(bn) == Place(s, off) && sh == s - 9
    modifies fs, fs.s_free, fs.disk, fs.disk.cache, iaddr
    ensures ok <==> |ids + Way(bn)| + |Lost(old(iaddr[..]), bn)| <= |ids| + |old(fs.stack)|
    ensures ok ==> Mapped(old(fs.disk.dev), old(iaddr[..]), old(fs.stack), bn, ids, fs.disk.dev, iaddr[..], fs.stack)
    ensures ok ==> fs.Valid() && nb != 0 && nb == FileLeaf(fs.disk.dev, iaddr[..], bn)
    ensures FileLeaf(old(fs.disk.dev), old(iaddr[..]), bn) != 0 ==>
              ok && nb == FileLeaf(old(fs.disk.dev), old(iaddr[..]), bn)
  {
    hide FileOk, KeepsBut, Total, FileBag, Rep, Clean, Current;
    hide AllBlocks, LevelOf, Leaf, Zeroes, Pow128, Mapped, Grown, Spent;
    hide Way, WayTo, Lost, InLine;
    ghost var dev0, ia0, stack0, ids1 := fs.disk.dev, iaddr[..], fs.stack, ids;
    PlaceIs(bn);
    LevelAt(s);
    NoneLost(ia0, bn);
    KeepsSelf(dev0, ia0, Place(s, off));
    InLineSelf(dev0, ia0, stack0, Place(s, off));
    nb := iaddr[s];
    RootCount(dev0, ia0, ids, bn);
    if nb == 0 {
      ok, nb := fs.Balloc();
      if !ok {
        return;
      }
      ZeroesAre();
      StepRoot(dev0, ia0, fs.stack, s, off, nb, ids);
      iaddr[s] := nb;
      assert iaddr[..] == ia0[s := nb];
      ids1 := ids + {Id(s, [])};
    }
    ghost var dev1, ia1, stack1 := fs.disk.dev, iaddr[..], fs.stack;
    ok, nb := Through(fs, iaddr[..], nb, s, sh, off, ids1);
    if ok {
      KeepsTrans(dev0, ia0, dev1, ia1, fs.disk.dev, iaddr[..], Place(s, off));
      InLineTrans(dev0, ia0, stack0, dev1, ia1, stack1, fs.disk.dev, iaddr[..], fs.stack, Place(s, off));
      SpentGrown(fs.disk.dev, iaddr[..], fs.stack, ids1, |stack0| - |ids1| + |ids|, Place(s, off), sh,
                 ids1 + WayTo(Place(s, off), sh));
      MappedIndirect(dev0, ia0, stack0, bn, ids, fs.disk.dev, iaddr[..], fs.stack);
    }
  }

  lemma NoneLost(iaddr: seq<int>, bn: int)
    requires |iaddr| == 13 && bn >= 10
    ensures Lost(iaddr, bn) == multiset{} && |Lost(iaddr, bn)| == 0
  {
  }

  /** If the address is missing, its block is one of those to be added. */
  lemma RootCount(dev: Device, iaddr: seq<int>, ids: set<Id>, bn: int)
    requires |iaddr| == 13 && bn >= 0 && Grown(dev, iaddr, ids) && PlaceOf(bn) != Beyond
    ensures var p := PlaceOf(bn); var root := {Id(p.slot, [])};
      && Way(bn) == WayTo(p, LevelOf(p.slot)) && ids + root + Way(bn) == ids + Way(bn)
      && (iaddr[p.slot] == 0 ==> |ids + root| == |ids| + 1 && |ids| < |ids + Way(bn)|)
  {
    hide Grown, PlaceOf;
    var p := PlaceOf(bn);
    GrownAt(dev, iaddr, ids, p, 0);
    WayHas(p, 0, LevelOf(p.slot));
    assert ids + {Id(p.slot, [])} + Way(bn) == ids + Way(bn);
    if iaddr[p.slot] == 0 {
      assert Id(p.slot, []) !in ids && Id(p.slot, []) in ids + Way(bn);
      Smaller(ids, ids + Way(bn));
    }
  }

  lemma MappedIndirect(dev: Device, iaddr: seq<int>, stack: seq<int>, bn: int, ids: set<Id>, dev': Device,
                       iaddr': seq<int>, stack': seq<int>)
    requires |iaddr| == |iaddr'| == 13 && bn >= 10 && FileOk(dev', iaddr', stack')
    requires Total(dev', iaddr', stack') == Total(dev, iaddr, stack) && Lost(iaddr, bn) == multiset{}
    requires KeepsBut(dev, iaddr, dev', iaddr', PlaceOf(bn)) && Grown(dev', iaddr', ids + Way(bn))
    requires |ids + Way(bn)| + |stack'| == |ids| + |stack|
    requires InLine(dev, iaddr, stack, dev', iaddr', stack', PlaceOf(bn))
    ensures Mapped(dev, iaddr, stack, bn, ids, dev', iaddr', stack')
  {
    hide FileOk, KeepsBut, Total, Grown, Way, Lost, PlaceOf, InLine;
  }

  /** bmap: the physical block of a logical one, allocated with all that leads to it. */
  method Bmap(fs: FileSys, iaddr: array<int>, bn: int, ghost ids: set<Id>) returns (ok: bool, nb: int)
    requires fs.Valid() && iaddr.Length == 13 && iaddr != fs.s_free && FileOk(fs.disk.dev, iaddr[..], fs.stack)
    requires bn >= 0 && Grown(fs.disk.dev, iaddr[..], ids)
    modifies fs, fs.s_free, fs.disk, fs.disk.cache, iaddr
    ensures PlaceOf(bn) == Beyond ==> ok && nb == 0 && fs.Valid() && fs.disk.dev == old(fs.disk.dev)
    ensures PlaceOf(bn) == Beyond ==> iaddr[..] == old(iaddr[..]) && fs.stack == old(fs.stack)
    ensures PlaceOf(bn) != Beyond ==>
              (ok <==> |ids + Way(bn)| + |Lost(old(iaddr[..]), bn)| <= |ids| + |old(fs.stack)|)
    ensures ok && PlaceOf(bn) != Beyond ==>
              Mapped(old(fs.disk.dev), old(iaddr[..]), old(fs.stack), bn, ids, fs.disk.dev, iaddr[..], fs.stack)
    ensures ok && PlaceOf(bn) != Beyond ==> fs.Valid() && nb != 0 && nb == FileLeaf(fs.disk.dev, iaddr[..], bn)
    ensures bn >= 10 && FileLeaf(old(fs.disk.dev), old(iaddr[..]), bn) != 0 ==>
              ok && nb == FileLeaf(old(fs.disk.dev), old(iaddr[..]), bn)
  {
    hide FileOk, KeepsBut, Total, FileBag, Rep, Clean, Current, AllBlocks, LevelOf;
    hide Leaf, Zeroes, Pow128, Mapped, Grown, Spent, Way, WayTo, Lost;
    if bn < 10 {
      ok, nb := MapDirect(fs, iaddr, bn, ids);
      return;
    }
    var j, sh, off := Locate(bn);
    if j == 0 {
      return true, 0;
    }
    ok, nb := MapIndirect(fs, iaddr, bn, 13 - j, sh, off, ids);
  }

  /** What a logical block that bmap has mapped leaves: the blocks that are accounted for are the
      same but for the lost one, all other logical blocks keep their place and contents, and the
      file has just the blocks on the way to the new one more. */
  ghost predicate Mapped(dev: Device, iaddr: seq<int>, stack: seq<int>, bn: int, ids: set<Id>, dev': Device,
                         iaddr': seq<int>, stack': seq<int>)
    requires |iaddr| == 13 && bn >= 0
  {
    && FileOk(dev', iaddr', stack') && Total(dev', iaddr', stack') + Lost(iaddr, bn) == Total(dev, iaddr, stack)
    && KeepsBut(dev, iaddr, dev', iaddr', PlaceOf(bn)) && Grown(dev', iaddr', ids + Way(bn))
    && |ids + Way(bn)| + |Lost(iaddr, bn)| + |stack'| == |ids| + |stack|
    && (Lost(iaddr, bn) == multiset{} ==> InLine(dev, iaddr, stack, dev', iaddr', stack', PlaceOf(bn)))
  }

  lemma PlaceIs(bn: int)
    requires bn >= 0 && PlaceOf(bn) != Beyond
    ensures IsPlace(PlaceOf(bn)) && (bn < 10 ==> PlaceOf(bn) == Place(bn, 0))
  {
  }

  lemma DirectLeaf(dev: Device, iaddr: seq<int>, bn: int)
    requires |iaddr| == 13 && 0 <= bn < 10
    ensures FileLeaf(dev, iaddr, bn) == iaddr[bn]
  {
  }

  lemma LevelAt(s: int)
    requires 10 <= s < 13
    ensures LevelOf(s) == s - 9
  {
  }
}
