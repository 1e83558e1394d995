/** What writing a data block and adding a block do to the tree of a file, by the path that leads
    to them. */
module RestorPaths {
  import opened Arith
  import opened RestorDisk
  import opened RestorTree

  ghost predicate AgreeBut(dev: Device, dev': Device, x: int, y: int) {
    forall z :: z != x && z != y ==> (z in dev <==> z in dev') && (z in dev ==> dev'[z] == dev[z])
  }

  lemma AgreeApart(dev: Device, dev': Device, x: int, y: int, m: multiset<int>)
    requires AgreeBut(dev, dev', x, y) && x !in m && y !in m
    ensures AgreeOn(dev, dev', m)
  {
  }

  lemma KidsAgree(dev: Device, dev': Device, x: int, y: int, b: int)
    requires AgreeBut(dev, dev', x, y) && b != x && b != y
    ensures Kids(dev', b) == Kids(dev, b)
  {
  }

  lemma {:induction false} NodeFrame(dev: Device, dev': Device, b: int, level: nat, off: int, t: nat)
    requires t <= level && AgreeOn(dev, dev', Bag(dev, b, level))
    ensures Node(dev', b, level, off, t) == Node(dev, b, level, off, t)
    decreases level
  {
    hide Idx, Bag, One, Kids, AgreeOn;
    if t > 0 {
      var i := Idx(off, level - 1);
      KidPart(dev, b, level, i);
      BagRoot(dev, b, level);
      KidsSame(dev, dev', b, Bag(dev, b, level));
      NodeStep(dev, b, level, off, t);
      NodeStep(dev', b, level, off, t);
      var kid := Kids(dev, b)[i];
      if kid != 0 {
        OneBag(dev, kid, level - 1);
        AgreePart(dev, dev', Bag(dev, b, level), Bag(dev, kid, level - 1));
        NodeFrame(dev, dev', kid, level - 1, off, t - 1);
      }
    }
  }

  lemma AgreePart(dev: Device, dev': Device, m: multiset<int>, part: multiset<int>)
    requires AgreeOn(dev, dev', m) && part <= m
    ensures AgreeOn(dev, dev', part)
  {
  }

  lemma KidsSame(dev: Device, dev': Device, b: int, m: multiset<int>)
    requires AgreeOn(dev, dev', m) && b in m
    ensures Kids(dev', b) == Kids(dev, b)
  {
  }

  lemma OneBag(dev: Device, root: int, level: nat)
    requires root != 0
    ensures One(dev, root, level) == Bag(dev, root, level)
  {
  }

  // ----- writing the data

  /** Writing a data block changes neither the blocks of the file nor where they are found. */
  lemma {:induction false} LeafWrite(dev: Device, dev': Device, b: int, level: nat, off: int, off2: int, t: nat)
    requires Leaf(dev, b, level, off) != 0 && NoDup(Bag(dev, b, level)) && t <= level
    requires AgreeBut(dev, dev', Leaf(dev, b, level, off), Leaf(dev, b, level, off))
    ensures Bag(dev', b, level) == Bag(dev, b, level)
    ensures Node(dev', b, level, off2, t) == Node(dev, b, level, off2, t)
    decreases level
  {
    hide Idx, Bag, One, Kids, NoDup, AgreeBut, AgreeOn;
    var d := Leaf(dev, b, level, off);
    if level == 0 {
      SingleBag(dev, b);
      SingleBag(dev', b);
    } else {
      var i := Idx(off, level - 1);
      var kid := Kids(dev, b)[i];
      NodeStep(dev, b, level, off, level);
      NodeIn(dev, kid, level - 1, off, level - 1);
      OneBag(dev, kid, level - 1);
      OnlyHere(dev, b, level, i, d);
      KidsAgree(dev, dev', d, d, b);
      LeafWrite(dev, dev', kid, level - 1, off, off2, if t > 0 then t - 1 else 0);
      OneBag(dev', kid, level - 1);
      OthersSame(dev, dev', b, level, i, d, d);
      KidChange(dev, dev', b, level, i, multiset{});
      if t > 0 {
        NodeStep(dev, b, level, off2, t);
        NodeStep(dev', b, level, off2, t);
        OtherNode(dev, dev', b, level, i, d, d, off2, t - 1);
      }
    }
  }

  lemma SingleBag(dev: Device, b: int)
    ensures Bag(dev, b, 0) == multiset{b}
  {
  }

  /** The trees at the other kids are as they were. */
  lemma OthersSame(dev: Device, dev': Device, b: int, level: nat, i: int, x: int, y: int)
    requires level > 0 && AgreeBut(dev, dev', x, y)
    requires forall j :: 0 <= j < 128 && j != i ==> x !in One(dev, Kids(dev, b)[j], level - 1)
    requires forall j :: 0 <= j < 128 && j != i ==> y !in One(dev, Kids(dev, b)[j], level - 1)
    ensures forall j :: 0 <= j < 128 && j != i ==>
                  One(dev', Kids(dev, b)[j], level - 1) == One(dev, Kids(dev, b)[j], level - 1)
  {
    hide One, Kids, AgreeBut;
    forall j | 0 <= j < 128 && j != i
      ensures One(dev', Kids(dev, b)[j], level - 1) == One(dev, Kids(dev, b)[j], level - 1)
    {
      AgreeApart(dev, dev', x, y, One(dev, Kids(dev, b)[j], level - 1));
      OneFrame(dev, dev', Kids(dev, b)[j], level - 1);
    }
  }

  lemma OtherNode(dev: Device, dev': Device, b: int, level: nat, i: int, x: int, y: int, off: int, t: nat)
    requires t < level && AgreeBut(dev, dev', x, y)
    requires forall j :: 0 <= j < 128 && j != i ==> x !in One(dev, Kids(dev, b)[j], level - 1)
    requires forall j :: 0 <= j < 128 && j != i ==> y !in One(dev, Kids(dev, b)[j], level - 1)
    ensures var j := Idx(off, level - 1); var kid := Kids(dev, b)[j];
      j != i && kid != 0 ==> Node(dev', kid, level - 1, off, t) == Node(dev, kid, level - 1, off, t)
  {
    hide One, Kids, AgreeBut, Idx;
    var j := Idx(off, level - 1);
    var kid := Kids(dev, b)[j];
    if j != i && kid != 0 {
      OneBag(dev, kid, level - 1);
      AgreeApart(dev, dev', x, y, One(dev, kid, level - 1));
      NodeFrame(dev, dev', kid, level - 1, off, t);
    }
  }

  // ----- adding a block

  ghost predicate Empty(dev: Device, b: int) {
    forall i :: 0 <= i < 128 ==> Kids(dev, b)[i] == 0
  }

  lemma {:induction false} EmptyForest(dev: Device, b: int, levels: seq<nat>, top: nat, k: nat)
    requires Empty(dev, b) && Levels(Kids(dev, b), levels, top) && k <= 128
    ensures Forest(dev, Kids(dev, b), levels, top, k) == multiset{}
    decreases 128 - k
  {
    if k < 128 {
      EmptyForest(dev, b, levels, top, k + 1);
    }
  }

  /** A zeroed block is a tree of itself alone, at any level. */
  lemma EmptyTree(dev: Device, b: int, level: nat, off: int)
    requires Empty(dev, b)
    ensures Bag(dev, b, level) == multiset{b} && Leaf(dev, b, level, off) == if level == 0 then b else 0
  {
    if level > 0 {
      EmptyForest(dev, b, Same(128, level - 1), level - 1, 0);
    }
  }

  /** The offsets take the same way through trees of a level. */
  ghost predicate SameWay(off: int, off2: int, level: nat) {
    forall l: nat :: l < level ==> Idx(off, l) == Idx(off2, l)
  }

  /** dev' is dev with the zeroed block c put in the free place that block p has for off. */
  ghost predicate Hung(dev: Device, dev': Device, p: int, level: nat, off: int, c: int) {
    && AgreeBut(dev, dev', p, c) && c != 0 && p != c && Empty(dev', c)
    && Kids(dev, p)[Idx(off, level)] == 0
    && Kids(dev', p) == Kids(dev, p)[Idx(off, level) := c]
  }

  lemma HungHere(dev: Device, dev': Device, b: int, level: nat, off: int, c: int)
    requires level > 0 && Hung(dev, dev', b, level - 1, off, c)
    requires NoDup(Bag(dev, b, level)) && c !in Bag(dev, b, level)
    ensures Bag(dev', b, level) == Bag(dev, b, level) + multiset{c}
  {
    hide Idx, Bag, One, Kids, NoDup, AgreeBut, Forest, Empty;
    var i := Idx(off, level - 1);
    EmptyTree(dev', c, level - 1, off);
    OneBag(dev', c, level - 1);
    NoTree(dev, level - 1);
    BagStep(dev, b, level);
    BagStep(dev', b, level);
    forall j | 0 <= j < 128 && j != i
      ensures One(dev', Kids(dev', b)[j], level - 1) == One(dev, Kids(dev, b)[j], level - 1)
    {
      KidPart(dev, b, level, j);
      NotRoot(dev, b, level, j);
      AgreeApart(dev, dev', b, c, One(dev, Kids(dev, b)[j], level - 1));
      OneFrame(dev, dev', Kids(dev, b)[j], level - 1);
    }
    ForestChange(dev, dev', Kids(dev, b), Kids(dev', b), Same(128, level - 1), level - 1, 0, i, multiset{c});
  }

  lemma NoTree(dev: Device, level: nat)
    ensures One(dev, 0, level) == multiset{}
  {
  }

  lemma NotRoot(dev: Device, b: int, level: nat, j: int)
    requires level > 0 && 0 <= j < 128 && NoDup(Bag(dev, b, level))
    ensures b !in One(dev, Kids(dev, b)[j], level - 1)
  {
    hide Bag, One, Kids;
    KidPart(dev, b, level, j);
    assert Bag(dev, b, level)[b] <= 1;
  }

  /** The new block joins the tree, and is where the path now leads. */
  lemma {:induction false} HungBelow(dev: Device, dev': Device, b: int, level: nat, off: int, t: nat, c: int)
    requires t < level && Node(dev, b, level, off, t) != 0
    requires Hung(dev, dev', Node(dev, b, level, off, t), level - t - 1, off, c)
    requires NoDup(Bag(dev, b, level)) && c !in Bag(dev, b, level)
    ensures Bag(dev', b, level) == Bag(dev, b, level) + multiset{c}
    ensures Node(dev', b, level, off, t + 1) == c
    decreases t
  {
    hide Idx, Bag, One, Kids, NoDup, AgreeBut, Empty;
    var i, p := Idx(off, level - 1), Node(dev, b, level, off, t);
    NodeStep(dev', b, level, off, t + 1);
    if t == 0 {
      HungHere(dev, dev', b, level, off, c);
    } else {
      var kid := Kids(dev, b)[i];
      NodeStep(dev, b, level, off, t);
      NodeIn(dev, kid, level - 1, off, t - 1);
      OneBag(dev, kid, level - 1);
      OnlyHere(dev, b, level, i, p);
      KidPart(dev, b, level, i);
      BagRoot(dev, b, level);
      KidsAgree(dev, dev', p, c, b);
      HungBelow(dev, dev', kid, level - 1, off, t - 1, c);
      OneBag(dev', kid, level - 1);
      NotInKids(dev, b, level, c);
      OthersSame(dev, dev', b, level, i, p, c);
      KidChange(dev, dev', b, level, i, multiset{c});
    }
  }

  lemma NotInKids(dev: Device, b: int, level: nat, c: int)
    requires level > 0 && c !in Bag(dev, b, level)
    ensures forall j :: 0 <= j < 128 ==> c !in One(dev, Kids(dev, b)[j], level - 1)
  {
    hide Bag, One, Kids;
    forall j | 0 <= j < 128
      ensures c !in One(dev, Kids(dev, b)[j], level - 1)
    {
      KidPart(dev, b, level, j);
    }
  }

  /** The indices that lead from the root of a tree of a level to the t-th block on the way. */
  function Path(off: int, level: nat, t: nat): (r: seq<int>)
    requires t <= level
    ensures |r| == t
    decreases t
  {
    if t == 0 then [] else [Idx(off, level - 1)] + Path(off, level - 1, t - 1)
  }

  lemma PathStep(off: int, off2: int, level: nat, t: nat)
    requires 0 < t <= level
    ensures Path(off, level, t) == Path(off2, level, t) <==>
            Idx(off, level - 1) == Idx(off2, level - 1) && Path(off, level - 1, t - 1) == Path(off2, level - 1, t - 1)
  {
    hide Idx;
    var x, y := Path(off, level, t), Path(off2, level, t);
    assert x[0] == Idx(off, level - 1) && x[1..] == Path(off, level - 1, t - 1);
    assert y[0] == Idx(off2, level - 1) && y[1..] == Path(off2, level - 1, t - 1);
  }

  lemma {:induction false} PathIsWay(off: int, off2: int, level: nat)
    ensures Path(off, level, level) == Path(off2, level, level) <==> SameWay(off, off2, level)
  {
    hide Idx;
    if level > 0 {
      PathStep(off, off2, level, level);
      PathIsWay(off, off2, level - 1);
      WaySplit(off, off2, level);
    }
  }

  lemma EmptyNode(dev: Device, b: int, level: nat, off: int, t: nat)
    requires t <= level && Empty(dev, b)
    ensures Node(dev, b, level, off, t) == if t == 0 then b else 0
  {
  }

  /** Every block on any way is found as before, but for the new one: it is found where its path
      leads, and nothing is found below it yet. */
  lemma {:induction false} HungNode(dev: Device, dev': Device, b: int, level: nat, off: int, t: nat, c: int, off2: int,
                                    t2: nat)
    requires t < level && t2 <= level && Node(dev, b, level, off, t) != 0
    requires Hung(dev, dev', Node(dev, b, level, off, t), level - t - 1, off, c)
    requires NoDup(Bag(dev, b, level)) && c !in Bag(dev, b, level)
    ensures var below := t < t2 && Path(off2, level, t + 1) == Path(off, level, t + 1);
      && (!below ==> Node(dev', b, level, off2, t2) == Node(dev, b, level, off2, t2))
      && (below ==> Node(dev, b, level, off2, t2) == 0 &&
                    Node(dev', b, level, off2, t2) == if t2 == t + 1 then c else 0)
    decreases t
  {
    hide Idx, Bag, One, Kids, NoDup, AgreeBut, Empty, Path;
    if t2 > 0 {
      var i, i2, p := Idx(off, level - 1), Idx(off2, level - 1), Node(dev, b, level, off, t);
      NodeStep(dev, b, level, off2, t2);
      NodeStep(dev', b, level, off2, t2);
      PathStep(off2, off, level, t + 1);
      NotInKids(dev, b, level, c);
      if t == 0 {
        assert p == b;
        NoPath(off2, off, level - 1);
        if i2 == i {
          EmptyNode(dev', c, level - 1, off2, t2 - 1);
        } else {
          ElsewhereHere(dev, dev', b, level, c, i2, off2, t2 - 1);
        }
      } else {
        var kid := Kids(dev, b)[i];
        NodeStep(dev, b, level, off, t);
        NodeIn(dev, kid, level - 1, off, t - 1);
        OneBag(dev, kid, level - 1);
        OnlyHere(dev, b, level, i, p);
        KidPart(dev, b, level, i);
        BagRoot(dev, b, level);
        KidsAgree(dev, dev', p, c, b);
        if i2 == i {
          HungNode(dev, dev', kid, level - 1, off, t - 1, c, off2, t2 - 1);
        } else {
          OtherNode(dev, dev', b, level, i, p, c, off2, t2 - 1);
        }
      }
    }
  }

  lemma NoPath(off: int, off2: int, level: nat)
    ensures Path(off, level, 0) == Path(off2, level, 0)
  {
  }

  /** No other offset is found elsewhere than before. */
  lemma HungLeaf(dev: Device, dev': Device, b: int, level: nat, off: int, t: nat, c: int, off2: int)
    requires t < level && Node(dev, b, level, off, t) != 0
    requires Hung(dev, dev', Node(dev, b, level, off, t), level - t - 1, off, c)
    requires NoDup(Bag(dev, b, level)) && c !in Bag(dev, b, level)
    ensures !(t + 1 == level && SameWay(off, off2, level)) ==> Leaf(dev', b, level, off2) == Leaf(dev, b, level, off2)
    ensures t + 1 == level && SameWay(off, off2, level) ==>
              Leaf(dev, b, level, off2) == 0 && Leaf(dev', b, level, off2) == c
  {
    hide Idx, Bag, Kids, NoDup, AgreeBut, Empty, Path, SameWay, Hung;
    HungNode(dev, dev', b, level, off, t, c, off2, level);
    PathIsWay(off2, off, level);
    SameWayTurned(off, off2, level);
  }

  lemma SameWayTurned(off: int, off2: int, level: nat)
    ensures SameWay(off, off2, level) <==> SameWay(off2, off, level)
  {
  }

  lemma ElsewhereHere(dev: Device, dev': Device, b: int, level: nat, c: int, j: int, off: int, t: nat)
    requires t < level && AgreeBut(dev, dev', b, c) && 0 <= j < 128
    requires NoDup(Bag(dev, b, level)) && c !in Bag(dev, b, level)
    ensures var kid := Kids(dev, b)[j]; kid != 0 ==>
              Node(dev', kid, level - 1, off, t) == Node(dev, kid, level - 1, off, t)
  {
    hide Bag, One, Kids, NoDup, AgreeBut;
    var kid := Kids(dev, b)[j];
    if kid != 0 {
      NotInKids(dev, b, level, c);
      NotRoot(dev, b, level, j);
      OneBag(dev, kid, level - 1);
      AgreeApart(dev, dev', b, c, One(dev, kid, level - 1));
      NodeFrame(dev, dev', kid, level - 1, off, t);
    }
  }

  lemma WaySplit(off: int, off2: int, level: nat)
    requires level > 0
    ensures SameWay(off, off2, level) <==> Idx(off, level - 1) == Idx(off2, level - 1) && SameWay(off, off2, level - 1)
  {
    hide Idx;
  }

  // ----- distinct offsets have distinct blocks

  lemma {:induction false} LeavesDistinct(dev: Device, b: int, level: nat, off: int, off2: int)
    requires NoDup(Bag(dev, b, level)) && Leaf(dev, b, level, off) != 0
    requires Leaf(dev, b, level, off) == Leaf(dev, b, level, off2)
    ensures SameWay(off, off2, level)
    decreases level
  {
    hide Idx, Bag, One, Kids, NoDup;
    if level > 0 {
      var i, i2 := Idx(off, level - 1), Idx(off2, level - 1);
      var d, kid := Leaf(dev, b, level, off), Kids(dev, b)[i];
      NodeStep(dev, b, level, off, level);
      NodeStep(dev, b, level, off2, level);
      NodeIn(dev, kid, level - 1, off, level - 1);
      OneBag(dev, kid, level - 1);
      OnlyHere(dev, b, level, i, d);
      if i2 != i {
        NodeIn(dev, Kids(dev, b)[i2], level - 1, off2, level - 1);
        OneBag(dev, Kids(dev, b)[i2], level - 1);
        assert false;
      }
      LeavesDistinct(dev, kid, level - 1, off, off2);
      WaySplit(off, off2, level);
    }
  }

  /** Offsets below 128^level that go the same way are equal. */
  lemma {:induction false} WayIsOffset(off: int, off2: int, level: nat)
    requires SameWay(off, off2, level)
    ensures off % Pow128(level) == off2 % Pow128(level)
    decreases level
  {
    hide Idx;
    if level > 0 {
      WaySplit(off, off2, level);
      WayIsOffset(off, off2, level - 1);
      ModSplit(off, level - 1);
      ModSplit(off2, level - 1);
    }
  }

  lemma ModSplit(off: int, l: nat)
    ensures off % Pow128(l + 1) == off % Pow128(l) + Pow128(l) * Idx(off, l)
  {
    var p := Pow128(l);
    var q, r := off / p, off % p;
    PieceMath(p, q / 128, q % 128, r);
    ModIs(off, 128 * p, q / 128, p * (q % 128) + r);
  }

  lemma PieceMath(p: int, s: int, i: int, r: int)
    requires p > 0 && 0 <= i < 128 && 0 <= r < p
    ensures p * (128 * s + i) + r == (128 * p) * s + (p * i + r)
    ensures 0 <= p * i + r < 128 * p
  {
    assert p * i >= 0;
    if i < 127 {
      Apart(p, i, 127);
    }
  }
}
