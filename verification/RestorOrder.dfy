/** The order in which the blocks of a file are freed, and what taking blocks from the free list in
    file order has to do with it. */
module RestorOrder {
  import opened Arith
  import opened RestorDisk
  import opened RestorTree
  import opened RestorPaths
  import opened RestorInode

  // ----- the order of freeing

  /** The blocks of the tree at b as they are freed: the trees below from the last to the first, and
      then b. */
  ghost function Freed(dev: Device, b: int, level: nat): seq<int>
    decreases level, 0
  {
    if level == 0 then [b]
    else FreedForest(dev, Kids(dev, b), Same(128, level - 1), level - 1, 0) + [b]
  }

  /** The blocks of the trees from the last down to the k-th. */
  ghost function FreedForest(dev: Device, roots: seq<int>, levels: seq<nat>, top: nat, k: nat): seq<int>
    requires Levels(roots, levels, top) && k <= |roots|
    decreases top, 1 + |roots| - k
  {
    if k == |roots| then []
    else FreedForest(dev, roots, levels, top, k + 1) + (if roots[k] == 0 then [] else Freed(dev, roots[k], levels[k]))
  }

  ghost function FreedOne(dev: Device, root: int, level: nat): seq<int> {
    if root == 0 then [] else Freed(dev, root, level)
  }

  lemma FreedStep(dev: Device, roots: seq<int>, levels: seq<nat>, top: nat, k: nat)
    requires Levels(roots, levels, top) && k < |roots|
    ensures FreedForest(dev, roots, levels, top, k) ==
            FreedForest(dev, roots, levels, top, k + 1) + FreedOne(dev, roots[k], levels[k])
  {
  }

  lemma FreedTree(dev: Device, b: int, level: nat)
    requires level > 0
    ensures Freed(dev, b, level) == FreedForest(dev, Kids(dev, b), Same(128, level - 1), level - 1, 0) + [b]
  {
  }

  lemma FreedEnd(dev: Device, roots: seq<int>, levels: seq<nat>, top: nat)
    requires Levels(roots, levels, top)
    ensures FreedForest(dev, roots, levels, top, |roots|) == []
  {
  }

  /** They are the blocks of the tree. */
  lemma {:induction false} FreedBag(dev: Device, b: int, level: nat)
    ensures multiset(Freed(dev, b, level)) == Bag(dev, b, level)
    decreases level, 0
  {
    if level > 0 {
      FreedForestBag(dev, Kids(dev, b), Same(128, level - 1), level - 1, 0);
    }
  }

  lemma {:induction false} FreedForestBag(dev: Device, roots: seq<int>, levels: seq<nat>, top: nat, k: nat)
    requires Levels(roots, levels, top) && k <= |roots|
    ensures multiset(FreedForest(dev, roots, levels, top, k)) == Forest(dev, roots, levels, top, k)
    decreases top, 1 + |roots| - k
  {
    if k < |roots| {
      FreedForestBag(dev, roots, levels, top, k + 1);
      if roots[k] != 0 {
        FreedBag(dev, roots[k], levels[k]);
      }
    }
  }

  lemma {:induction false} FreedFrame(dev: Device, dev': Device, b: int, level: nat)
    requires AgreeOn(dev, dev', Bag(dev, b, level))
    ensures Freed(dev', b, level) == Freed(dev, b, level)
    decreases level, 0
  {
    if level > 0 {
      assert b in Bag(dev, b, level);
      FreedForestFrame(dev, dev', Kids(dev, b), Same(128, level - 1), level - 1, 0);
    }
  }

  lemma {:induction false} FreedForestFrame(dev: Device, dev': Device, roots: seq<int>, levels: seq<nat>, top: nat,
                                            k: nat)
    requires Levels(roots, levels, top) && k <= |roots|
    requires AgreeOn(dev, dev', Forest(dev, roots, levels, top, k))
    ensures FreedForest(dev', roots, levels, top, k) == FreedForest(dev, roots, levels, top, k)
    decreases top, 1 + |roots| - k
  {
    if k < |roots| {
      FreedForestFrame(dev, dev', roots, levels, top, k + 1);
      if roots[k] != 0 {
        FreedFrame(dev, dev', roots[k], levels[k]);
      }
    }
  }

  lemma FreedOneFrame(dev: Device, dev': Device, root: int, level: nat)
    requires AgreeOn(dev, dev', One(dev, root, level))
    ensures FreedOne(dev', root, level) == FreedOne(dev, root, level)
  {
    if root != 0 {
      FreedFrame(dev, dev', root, level);
    }
  }

  /** A block that joins the last tree as the first to be freed is the first of all. */
  lemma {:induction false} ForestFirst(dev: Device, dev': Device, roots: seq<int>, roots': seq<int>, levels: seq<nat>,
                                       top: nat, i: nat, c: int, k: nat)
    requires Levels(roots, levels, top) && Levels(roots', levels, top) && i < |roots| && k <= |roots|
    requires forall j :: i < j < |roots| ==> roots[j] == 0 && roots'[j] == 0
    requires forall j :: 0 <= j < i ==> FreedOne(dev', roots'[j], levels[j]) == FreedOne(dev, roots[j], levels[j])
    requires FreedOne(dev', roots'[i], levels[i]) == [c] + FreedOne(dev, roots[i], levels[i])
    ensures FreedForest(dev', roots', levels, top, k) ==
            (if k <= i then [c] else []) + FreedForest(dev, roots, levels, top, k)
    decreases |roots| - k
  {
    hide Freed;
    if k < |roots| {
      FreedStep(dev, roots, levels, top, k);
      FreedStep(dev', roots', levels, top, k);
      ForestFirst(dev, dev', roots, roots', levels, top, i, c, k + 1);
      if k == i {
        NoneAfter(dev, roots, levels, top, i, i + 1);
      }
    }
  }

  lemma {:induction false} NoneAfter(dev: Device, roots: seq<int>, levels: seq<nat>, top: nat, i: nat, k: nat)
    requires Levels(roots, levels, top) && i < k <= |roots| && forall j :: i < j < |roots| ==> roots[j] == 0
    ensures FreedForest(dev, roots, levels, top, k) == []
    decreases |roots| - k
  {
    if k < |roots| {
      NoneAfter(dev, roots, levels, top, i, k + 1);
    }
  }

  // ----- trees that are clear beyond an offset

  /** There is nothing in the tree beyond the way to an offset. */
  ghost predicate Clear(dev: Device, b: int, level: nat, off: int)
    decreases level
  {
    level == 0 ||
    var i := Idx(off, level - 1);
    && (forall j :: i < j < 128 ==> Kids(dev, b)[j] == 0)
    && (Kids(dev, b)[i] != 0 ==> Clear(dev, Kids(dev, b)[i], level - 1, off))
  }

  lemma ClearStep(dev: Device, b: int, level: nat, off: int)
    requires level > 0
    ensures Clear(dev, b, level, off) <==>
            && (forall j :: Idx(off, level - 1) < j < 128 ==> Kids(dev, b)[j] == 0)
            && (Kids(dev, b)[Idx(off, level - 1)] != 0 ==>
                  Clear(dev, Kids(dev, b)[Idx(off, level - 1)], level - 1, off))
  {
  }

  /** So it is beyond every later offset. */
  lemma {:induction false} ClearLater(dev: Device, b: int, level: nat, off: int, off2: int)
    requires Clear(dev, b, level, off) && off % Pow128(level) <= off2 % Pow128(level)
    ensures Clear(dev, b, level, off2)
    decreases level
  {
    hide Idx, Kids;
    if level > 0 {
      TopDigit(off, off2, level - 1);
      ClearStep(dev, b, level, off);
      ClearStep(dev, b, level, off2);
      if Idx(off, level - 1) == Idx(off2, level - 1) && Kids(dev, b)[Idx(off, level - 1)] != 0 {
        ClearLater(dev, Kids(dev, b)[Idx(off, level - 1)], level - 1, off, off2);
      }
    }
  }

  lemma TopDigit(a: int, b: int, l: nat)
    requires a % Pow128(l + 1) <= b % Pow128(l + 1)
    ensures Idx(a, l) <= Idx(b, l) && (Idx(a, l) == Idx(b, l) ==> a % Pow128(l) <= b % Pow128(l))
  {
    hide Idx;
    ModSplit(a, l);
    ModSplit(b, l);
    if Idx(b, l) < Idx(a, l) {
      Apart(Pow128(l), Idx(b, l), Idx(a, l));
    }
  }

  lemma ClearEmpty(dev: Device, b: int, level: nat, off: int)
    requires Empty(dev, b)
    ensures Clear(dev, b, level, off)
  {
  }

  lemma {:induction false} ClearFrame(dev: Device, dev': Device, b: int, level: nat, off: int)
    requires Clear(dev, b, level, off) && AgreeOn(dev, dev', Bag(dev, b, level))
    ensures Clear(dev', b, level, off)
    decreases level
  {
    hide Idx, Bag, One, Kids, AgreeOn;
    if level > 0 {
      var i := Idx(off, level - 1);
      KidPart(dev, b, level, i);
      BagRoot(dev, b, level);
      KidsSame(dev, dev', b, Bag(dev, b, level));
      ClearStep(dev, b, level, off);
      ClearStep(dev', b, level, off);
      var kid := Kids(dev, b)[i];
      if kid != 0 {
        OneBag(dev, kid, level - 1);
        AgreePart(dev, dev', Bag(dev, b, level), Bag(dev, kid, level - 1));
        ClearFrame(dev, dev', kid, level - 1, off);
      }
    }
  }

  /** A block hung on the way to the offset is the first to be freed, and beyond it there is still
      nothing. */
  lemma {:induction false} HungFirst(dev: Device, dev': Device, b: int, level: nat, off: int, t: nat, c: int)
    requires t < level && Node(dev, b, level, off, t) != 0 && Clear(dev, b, level, off)
    requires Hung(dev, dev', Node(dev, b, level, off, t), level - t - 1, off, c)
    requires NoDup(Bag(dev, b, level)) && c !in Bag(dev, b, level)
    ensures Freed(dev', b, level) == [c] + Freed(dev, b, level) && Clear(dev', b, level, off)
    decreases t
  {
    hide Idx, Bag, One, Kids, NoDup, AgreeBut, Empty, Freed, FreedForest, Clear;
    var i, p := Idx(off, level - 1), Node(dev, b, level, off, t);
    var kids, kids', levels := Kids(dev, b), Kids(dev', b), Same(128, level - 1);
    ClearStep(dev, b, level, off);
    ClearStep(dev', b, level, off);
    NotInKids(dev, b, level, c);
    if t == 0 {
      EmptyFreed(dev', c, level - 1);
      ClearEmpty(dev', c, level - 1, off);
    } else {
      var kid := kids[i];
      NodeStep(dev, b, level, off, t);
      NodeIn(dev, kid, level - 1, off, t - 1);
      OneBag(dev, kid, level - 1);
      OnlyHere(dev, b, level, i, p);
      KidPart(dev, b, level, i);
      BagRoot(dev, b, level);
      KidsAgree(dev, dev', p, c, b);
      HungFirst(dev, dev', kid, level - 1, off, t - 1, c);
    }
    KidsBefore(dev, dev', b, level, i, p, c);
    assert FreedOne(dev', kids'[i], level - 1) == [c] + FreedOne(dev, kids[i], level - 1);
    ForestFirst(dev, dev', kids, kids', levels, level - 1, i, c, 0);
    FreedTree(dev, b, level);
    FreedTree(dev', b, level);
    Joined(c, FreedForest(dev, kids, levels, level - 1, 0), b);
  }

  lemma Joined(c: int, s: seq<int>, b: int)
    ensures ([c] + s) + [b] == [c] + (s + [b])
  {
  }

  lemma EmptyFreed(dev: Device, c: int, level: nat)
    requires Empty(dev, c)
    ensures Freed(dev, c, level) == [c]
  {
    if level > 0 {
      EmptyFreedForest(dev, c, Same(128, level - 1), level - 1, 0);
    }
  }

  lemma {:induction false} EmptyFreedForest(dev: Device, b: int, levels: seq<nat>, top: nat, k: nat)
    requires Empty(dev, b) && Levels(Kids(dev, b), levels, top) && k <= 128
    ensures FreedForest(dev, Kids(dev, b), levels, top, k) == []
    decreases 128 - k
  {
    if k < 128 {
      EmptyFreedForest(dev, b, levels, top, k + 1);
    }
  }

  /** The trees at the other kids are freed as before. */
  lemma KidsBefore(dev: Device, dev': Device, b: int, level: nat, i: int, p: int, c: int)
    requires level > 0 && AgreeBut(dev, dev', p, c) && 0 <= i < 128 && c !in Bag(dev, b, level)
    requires forall j :: 0 <= j < 128 && j != i ==> Kids(dev', b)[j] == Kids(dev, b)[j]
    requires p == b || p in One(dev, Kids(dev, b)[i], level - 1)
    requires NoDup(Bag(dev, b, level))
    ensures forall j :: 0 <= j < 128 && j != i ==>
                          FreedOne(dev', Kids(dev', b)[j], level - 1) == FreedOne(dev, Kids(dev, b)[j], level - 1)
  {
    hide One, Kids, AgreeBut, Bag, NoDup, FreedOne;
    NotInKids(dev, b, level, c);
    forall j | 0 <= j < 128 && j != i
      ensures FreedOne(dev', Kids(dev', b)[j], level - 1) == FreedOne(dev, Kids(dev, b)[j], level - 1)
    {
      if p == b {
        NotRoot(dev, b, level, j);
      } else {
        OnlyHere(dev, b, level, i, p);
      }
      AgreeApart(dev, dev', p, c, One(dev, Kids(dev, b)[j], level - 1));
      FreedOneFrame(dev, dev', Kids(dev, b)[j], level - 1);
    }
  }

  // ----- writing data

  lemma {:induction false} DataTree(dev: Device, dev': Device, b: int, level: nat, off: int, off2: int)
    requires Leaf(dev, b, level, off) != 0 && NoDup(Bag(dev, b, level))
    requires AgreeBut(dev, dev', Leaf(dev, b, level, off), Leaf(dev, b, level, off))
    ensures Freed(dev', b, level) == Freed(dev, b, level)
    ensures Clear(dev, b, level, off2) ==> Clear(dev', b, level, off2)
    decreases level
  {
    hide Idx, Bag, One, Kids, NoDup, AgreeBut, Freed, FreedForest, Clear;
    if level == 0 {
      DataSelf(dev, dev', b, off2);
    } else {
      var d, i, j := Leaf(dev, b, level, off), Idx(off, level - 1), Idx(off2, level - 1);
      var kids := Kids(dev, b);
      var kid := kids[i];
      NodeStep(dev, b, level, off, level);
      NodeIn(dev, kid, level - 1, off, level - 1);
      OneBag(dev, kid, level - 1);
      OnlyHere(dev, b, level, i, d);
      KidsAgree(dev, dev', d, d, b);
      DataTree(dev, dev', kid, level - 1, off, off2);
      DataKids(dev, dev', b, level, i, d);
      SameForest(dev, dev', kids, Same(128, level - 1), level - 1, 0);
      FreedTree(dev, b, level);
      FreedTree(dev', b, level);
      ClearStep(dev, b, level, off2);
      ClearStep(dev', b, level, off2);
      if j != i && kids[j] != 0 && Clear(dev, kids[j], level - 1, off2) {
        OneBag(dev, kids[j], level - 1);
        AgreeApart(dev, dev', d, d, One(dev, kids[j], level - 1));
        ClearFrame(dev, dev', kids[j], level - 1, off2);
      }
    }
  }

  lemma DataSelf(dev: Device, dev': Device, b: int, off: int)
    ensures Freed(dev', b, 0) == Freed(dev, b, 0) && Clear(dev', b, 0, off)
  {
  }

  lemma DataKids(dev: Device, dev': Device, b: int, level: nat, i: int, d: int)
    requires level > 0 && 0 <= i < 128 && AgreeBut(dev, dev', d, d) && NoDup(Bag(dev, b, level))
    requires d in One(dev, Kids(dev, b)[i], level - 1)
    requires FreedOne(dev', Kids(dev, b)[i], level - 1) == FreedOne(dev, Kids(dev, b)[i], level - 1)
    ensures forall j :: 0 <= j < 128 ==>
                          FreedOne(dev', Kids(dev, b)[j], level - 1) == FreedOne(dev, Kids(dev, b)[j], level - 1)
  {
    hide One, Kids, AgreeBut, Bag, NoDup, FreedOne;
    OnlyHere(dev, b, level, i, d);
    forall j | 0 <= j < 128
      ensures FreedOne(dev', Kids(dev, b)[j], level - 1) == FreedOne(dev, Kids(dev, b)[j], level - 1)
    {
      if j != i {
        AgreeApart(dev, dev', d, d, One(dev, Kids(dev, b)[j], level - 1));
        FreedOneFrame(dev, dev', Kids(dev, b)[j], level - 1);
      }
    }
  }

  lemma {:induction false} SameForest(dev: Device, dev': Device, roots: seq<int>, levels: seq<nat>, top: nat, k: nat)
    requires Levels(roots, levels, top) && k <= |roots|
    requires forall j :: 0 <= j < |roots| ==> FreedOne(dev', roots[j], levels[j]) == FreedOne(dev, roots[j], levels[j])
    ensures FreedForest(dev', roots, levels, top, k) == FreedForest(dev, roots, levels, top, k)
    decreases |roots| - k
  {
    hide Freed;
    if k < |roots| {
      FreedStep(dev, roots, levels, top, k);
      FreedStep(dev', roots, levels, top, k);
      SameForest(dev, dev', roots, levels, top, k + 1);
    }
  }

  // ----- files

  /** The blocks of a file as itrunc frees them. */
  ghost function FileFreed(dev: Device, iaddr: seq<int>): seq<int>
    requires |iaddr| == 13
  {
    FreedForest(dev, iaddr, InodeLevels(), 3, 0)
  }

  /** There is nothing in the file beyond the way to a place. */
  ghost predicate FileClear(dev: Device, iaddr: seq<int>, p: Place)
    requires |iaddr| == 13
  {
    && IsPlace(p) && (forall r :: p.slot < r < 13 ==> iaddr[r] == 0)
    && (iaddr[p.slot] != 0 ==> Clear(dev, iaddr[p.slot], LevelOf(p.slot), p.off))
  }

  lemma NothingClear(dev: Device, iaddr: seq<int>)
    requires |iaddr| == 13 && forall i :: 0 <= i < 13 ==> iaddr[i] == 0
    ensures FileClear(dev, iaddr, PlaceOf(0)) && FileFreed(dev, iaddr) == []
  {
    NothingFreed(dev, iaddr, 0);
  }

  lemma {:induction false} NothingFreed(dev: Device, iaddr: seq<int>, k: nat)
    requires |iaddr| == 13 && k <= 13 && forall i :: 0 <= i < 13 ==> iaddr[i] == 0
    ensures FreedForest(dev, iaddr, InodeLevels(), 3, k) == []
    decreases 13 - k
  {
    if k < 13 {
      NothingFreed(dev, iaddr, k + 1);
    }
  }

  /** The next logical block is not before this one. */
  lemma ClearNext(dev: Device, iaddr: seq<int>, l: int)
    requires |iaddr| == 13 && l >= 0 && FileClear(dev, iaddr, PlaceOf(l)) && PlaceOf(l + 1) != Beyond
    ensures FileClear(dev, iaddr, PlaceOf(l + 1))
  {
    hide Clear, Pow128, LevelOf;
    var p, q := PlaceOf(l), PlaceOf(l + 1);
    PlacesInOrder(l, l + 1);
    if q.slot == p.slot && iaddr[p.slot] != 0 {
      SmallMod(p.off, Pow128(LevelOf(p.slot)));
      SmallMod(q.off, Pow128(LevelOf(p.slot)));
      ClearLater(dev, iaddr[p.slot], LevelOf(p.slot), p.off, q.off);
    }
  }

  lemma OtherSlots(dev: Device, dev': Device, iaddr: seq<int>, iaddr': seq<int>, s: int, x: int, y: int)
    requires |iaddr| == |iaddr'| == 13 && 0 <= s < 13 && iaddr' == iaddr[s := iaddr'[s]] && AgreeBut(dev, dev', x, y)
    requires forall r :: 0 <= r < 13 && r != s ==>
                  x !in One(dev, iaddr[r], LevelOf(r)) && y !in One(dev, iaddr[r], LevelOf(r))
    ensures forall r :: 0 <= r < 13 && r != s ==>
                          FreedOne(dev', iaddr'[r], InodeLevels()[r]) == FreedOne(dev, iaddr[r], InodeLevels()[r])
  {
    hide One, AgreeBut, FreedOne;
    forall r | 0 <= r < 13 && r != s
      ensures FreedOne(dev', iaddr'[r], InodeLevels()[r]) == FreedOne(dev, iaddr[r], InodeLevels()[r])
    {
      assert LevelOf(r) == InodeLevels()[r];
      AgreeApart(dev, dev', x, y, One(dev, iaddr[r], LevelOf(r)));
      FreedOneFrame(dev, dev', iaddr[r], LevelOf(r));
    }
  }

  /** The block for an address of the inode is the first to be freed. */
  lemma RootFirst(dev: Device, dev': Device, iaddr: seq<int>, s: int, off: int, c: int)
    requires |iaddr| == 13 && 0 <= s < 13 && iaddr[s] == 0 && c != 0 && FileClear(dev, iaddr, Place(s, off))
    requires AgreeBut(dev, dev', c, c) && Empty(dev', c) && c !in FileBag(dev, iaddr)
    ensures FileFreed(dev', iaddr[s := c]) == [c] + FileFreed(dev, iaddr)
    ensures FileClear(dev', iaddr[s := c], Place(s, off))
  {
    hide FileBag, AgreeBut, One, Empty, Freed, Clear, LevelOf;
    NotInSlots(dev, iaddr, c);
    OtherSlots(dev, dev', iaddr, iaddr[s := c], s, c, c);
    EmptyFreed(dev', c, LevelOf(s));
    ClearEmpty(dev', c, LevelOf(s), off);
    assert LevelOf(s) == InodeLevels()[s];
    ForestFirst(dev, dev', iaddr, iaddr[s := c], InodeLevels(), 3, s, c, 0);
  }

  lemma BelowFirst(dev: Device, dev': Device, iaddr: seq<int>, s: int, off: int, t: nat, c: int)
    requires |iaddr| == 13 && 0 <= s < 13 && iaddr[s] != 0 && t < LevelOf(s) && FileClear(dev, iaddr, Place(s, off))
    requires Node(dev, iaddr[s], LevelOf(s), off, t) != 0
    requires Hung(dev, dev', Node(dev, iaddr[s], LevelOf(s), off, t), LevelOf(s) - t - 1, off, c)
    requires NoDup(FileBag(dev, iaddr)) && c !in FileBag(dev, iaddr)
    ensures FileFreed(dev', iaddr) == [c] + FileFreed(dev, iaddr)
    ensures FileClear(dev', iaddr, Place(s, off))
  {
    hide FileBag, AgreeBut, One, Empty, Bag, Node, Kids, NoDup, Idx, LevelOf, Freed, Clear;
    var b, level := iaddr[s], LevelOf(s);
    var q := Node(dev, b, level, off, t);
    NodeIn(dev, b, level, off, t);
    OneBag(dev, b, level);
    OnlySlot(dev, iaddr, s, q);
    NotInSlots(dev, iaddr, c);
    HungFirst(dev, dev', b, level, off, t, c);
    assert AgreeBut(dev, dev', q, c);
    OtherSlots(dev, dev', iaddr, iaddr, s, q, c);
    assert LevelOf(s) == InodeLevels()[s];
    ForestFirst(dev, dev', iaddr, iaddr, InodeLevels(), 3, s, c, 0);
  }

  lemma DataOrder(dev: Device, dev': Device, iaddr: seq<int>, p: Place)
    requires |iaddr| == 13 && IsPlace(p) && NoDup(FileBag(dev, iaddr)) && At(dev, iaddr, p) != 0
    requires AgreeBut(dev, dev', At(dev, iaddr, p), At(dev, iaddr, p))
    ensures FileFreed(dev', iaddr) == FileFreed(dev, iaddr)
    ensures FileClear(dev, iaddr, p) ==> FileClear(dev', iaddr, p)
  {
    hide FileBag, AgreeBut, One, Bag, NoDup, LevelOf, Node, Freed, Clear;
    var x, s := At(dev, iaddr, p), p.slot;
    LeafInSlot(dev, iaddr, p);
    OnlySlot(dev, iaddr, s, x);
    OneBag(dev, iaddr[s], LevelOf(s));
    DataTree(dev, dev', iaddr[s], LevelOf(s), p.off, p.off);
    OtherSlots(dev, dev', iaddr, iaddr, s, x, x);
    assert LevelOf(s) == InodeLevels()[s];
    SameForest(dev, dev', iaddr, InodeLevels(), 3, 0);
  }

  // ----- the free list and the file in one line

  /** The free list as it would be once the file is freed. */
  ghost function Line(dev: Device, iaddr: seq<int>, stack: seq<int>): seq<int>
    requires |iaddr| == 13
  {
    stack + FileFreed(dev, iaddr)
  }

  /** Unless there is something beyond place p, this is as it was, and there still is nothing. */
  ghost predicate InLine(dev: Device, iaddr: seq<int>, stack: seq<int>, dev': Device, iaddr': seq<int>,
                         stack': seq<int>,
                         p: Place)
    requires |iaddr| == |iaddr'| == 13
  {
    FileClear(dev, iaddr, p) ==> FileClear(dev', iaddr', p) && Line(dev', iaddr', stack') == Line(dev, iaddr, stack)
  }

  lemma InLineSelf(dev: Device, iaddr: seq<int>, stack: seq<int>, p: Place)
    requires |iaddr| == 13
    ensures InLine(dev, iaddr, stack, dev, iaddr, stack, p)
  {
  }

  lemma InLineTrans(d1: Device, a1: seq<int>, s1: seq<int>, d2: Device, a2: seq<int>, s2: seq<int>, d3: Device,
                    a3: seq<int>, s3: seq<int>, p: Place)
    requires |a1| == |a2| == |a3| == 13 && InLine(d1, a1, s1, d2, a2, s2, p) && InLine(d2, a2, s2, d3, a3, s3, p)
    ensures InLine(d1, a1, s1, d3, a3, s3, p)
  {
    hide FileClear, Line;
  }

  lemma TakeOne(stack: seq<int>, c: int, s: seq<int>)
    ensures (stack + [c]) + s == stack + ([c] + s)
  {
  }

  lemma RootInLine(dev: Device, dev': Device, iaddr: seq<int>, stack: seq<int>, s: int, off: int, c: int)
    requires |iaddr| == 13 && IsPlace(Place(s, off)) && iaddr[s] == 0 && c != 0
    requires AgreeBut(dev, dev', c, c) && Empty(dev', c) && c !in FileBag(dev, iaddr)
    ensures InLine(dev, iaddr, stack + [c], dev', iaddr[s := c], stack, Place(s, off))
  {
    hide FileBag, AgreeBut, Empty, FileClear, FileFreed;
    if FileClear(dev, iaddr, Place(s, off)) {
      RootFirst(dev, dev', iaddr, s, off, c);
      TakeOne(stack, c, FileFreed(dev, iaddr));
    }
  }

  lemma BelowInLine(dev: Device, dev': Device, iaddr: seq<int>, stack: seq<int>, s: int, off: int, t: nat, c: int)
    requires |iaddr| == 13 && 0 <= s < 13 && iaddr[s] != 0 && t < LevelOf(s)
    requires Node(dev, iaddr[s], LevelOf(s), off, t) != 0
    requires Hung(dev, dev', Node(dev, iaddr[s], LevelOf(s), off, t), LevelOf(s) - t - 1, off, c)
    requires NoDup(FileBag(dev, iaddr)) && c !in FileBag(dev, iaddr)
    ensures InLine(dev, iaddr, stack + [c], dev', iaddr, stack, Place(s, off))
  {
    hide FileBag, Hung, FileClear, FileFreed, Node, LevelOf, NoDup;
    if FileClear(dev, iaddr, Place(s, off)) {
      BelowFirst(dev, dev', iaddr, s, off, t, c);
      TakeOne(stack, c, FileFreed(dev, iaddr));
    }
  }
}
