/** The thirteen addresses of an inode and the blocks of a file behind them. */
module RestorInode {
  import opened Arith
  import opened RestorDisk
  import opened RestorTree
  import opened RestorPaths

  /** The first ten addresses are of data blocks, the last three of trees of level 1, 2 and 3. */
  function InodeLevels(): (r: seq<nat>)
    ensures |r| == 13 && r[10] == 1 && r[11] == 2 && r[12] == 3
    ensures forall i :: 0 <= i < 10 ==> r[i] == 0
  {
    [0, 0, 0, 0, 0, 0, 0, 0, 0, 0, 1, 2, 3]
  }

  function LevelOf(slot: int): (r: nat)
    requires 0 <= slot < 13
    ensures r == InodeLevels()[slot] && r <= 3
  {
    if slot < 10 then 0 else slot - 9
  }

  /** All blocks of a file, data and indirect. */
  ghost function FileBag(dev: Device, iaddr: seq<int>): multiset<int>
    requires |iaddr| == 13
  {
    Forest(dev, iaddr, InodeLevels(), 3, 0)
  }

  /** Where a logical block is looked for: under which address, and at which offset. */
  datatype Place = Place(slot: int, off: int) | Beyond

  function PlaceOf(l: int): (r: Place)
    requires l >= 0
    ensures r.Place? ==> 0 <= r.slot < 13 && 0 <= r.off < Pow128(LevelOf(r.slot))
  {
    assert Pow128(1) == 128 && Pow128(2) == 16384 && Pow128(3) == 2097152;
    if l < 10 then Place(l, 0)
    else if l - 10 < 128 then Place(10, l - 10)
    else if l - 138 < 16384 then Place(11, l - 138)
    else if l - 16522 < 2097152 then Place(12, l - 16522)
    else Beyond
  }

  lemma PlacesDiffer(l: int, k: int)
    requires l >= 0 && k >= 0 && PlaceOf(l).Place? && PlaceOf(k) == PlaceOf(l)
    ensures l == k
  {
  }

  /** Logical blocks have their places in the order of the file: under the addresses of the inode one
      after the other, and under each by offset. */
  lemma PlacesInOrder(l: int, k: int)
    requires 0 <= l < k && PlaceOf(k) != Beyond
    ensures var p, q := PlaceOf(l), PlaceOf(k);
            p != Beyond && (p.slot < q.slot || (p.slot == q.slot && p.off < q.off))
  {
  }

  /** No place is left out. */
  lemma PlacesAllUsed(p: Place) returns (l: int)
    requires IsPlace(p)
    ensures l >= 0 && PlaceOf(l) == p
  {
    assert Pow128(0) == 1 && Pow128(1) == 128 && Pow128(2) == 16384 && Pow128(3) == 2097152;
    l := if p.slot < 10 then p.slot
         else if p.slot == 10 then 10 + p.off
         else if p.slot == 11 then 138 + p.off
         else 16522 + p.off;
  }

  /** Where a logical block is found: through none, one, two or three indirect blocks, the indices
      being the digits of its offset to the base 128, highest first. */
  lemma WhereItIs(dev: Device, iaddr: seq<int>, l: int)
    requires |iaddr| == 13 && l >= 0
    ensures l < 10 ==> FileLeaf(dev, iaddr, l) == iaddr[l]
    ensures 10 <= l < 138 ==> FileLeaf(dev, iaddr, l) == Below(dev, iaddr[10], l - 10)
    ensures 138 <= l < 16522 ==>
              FileLeaf(dev, iaddr, l) == Below(dev, Below(dev, iaddr[11], (l - 138) / 128), (l - 138) % 128)
    ensures 16522 <= l < 2113674 ==>
              var off := l - 16522;
              FileLeaf(dev, iaddr, l) ==
              Below(dev, Below(dev, Below(dev, iaddr[12], off / 16384), off / 128 % 128), off % 128)
    ensures l >= 2113674 ==> FileLeaf(dev, iaddr, l) == 0
  {
    hide Kids;
    if 10 <= l < 2113674 {
      var p := PlaceOf(l);
      Indices(p.off);
      if iaddr[p.slot] != 0 {
        NodeStep(dev, iaddr[p.slot], LevelOf(p.slot), p.off, LevelOf(p.slot));
        TwoBelow(dev, iaddr[p.slot], p.off);
        ThreeBelow(dev, iaddr[p.slot], p.off);
      }
    }
  }

  /** The block that an indirect block has at an index; 0 if there is no indirect block. */
  ghost function Below(dev: Device, b: int, i: int): int {
    if b == 0 || !(0 <= i < 128) then 0 else Kids(dev, b)[i]
  }

  lemma Indices(off: int)
    requires 0 <= off < 2097152
    ensures Idx(off, 0) == off % 128 && Idx(off, 1) == off / 128 % 128 && Idx(off, 2) == off / 16384
    ensures off < 16384 ==> Idx(off, 1) == off / 128
    ensures off < 128 ==> Idx(off, 0) == off
  {
    assert Pow128(0) == 1 && Pow128(1) == 128 && Pow128(2) == 16384;
  }

  lemma TwoBelow(dev: Device, b: int, off: int)
    requires b != 0
    ensures Leaf(dev, b, 1, off) == Below(dev, b, Idx(off, 0))
    ensures Leaf(dev, b, 2, off) == Below(dev, Below(dev, b, Idx(off, 1)), Idx(off, 0))
  {
    hide Kids, Idx;
    var kid := Kids(dev, b)[Idx(off, 1)];
    NodeStep(dev, b, 1, off, 1);
    NodeStep(dev, b, 2, off, 2);
    NodeStep(dev, kid, 1, off, 1);
  }

  lemma ThreeBelow(dev: Device, b: int, off: int)
    requires b != 0
    ensures Leaf(dev, b, 3, off) == Below(dev, Below(dev, Below(dev, b, Idx(off, 2)), Idx(off, 1)), Idx(off, 0))
  {
    hide Kids, Idx;
    var kid := Kids(dev, b)[Idx(off, 2)];
    NodeStep(dev, b, 3, off, 3);
    if kid != 0 {
      TwoBelow(dev, kid, off);
    }
  }

  /** The number that a path spells to the base 128, highest digit first. */
  function Spelled(path: seq<int>): int {
    if path == [] then 0 else 128 * Spelled(path[..|path| - 1]) + path[|path| - 1]
  }

  /** The indices on the way to a place spell its offset. */
  lemma {:induction false} PathSpells(off: int, level: nat)
    requires 0 <= off < Pow128(level)
    ensures Spelled(Path(off, level, level)) == off
    ensures forall i :: 0 <= i < level ==> 0 <= Path(off, level, level)[i] < 128
  {
    PathPrefix(off, level, level);
    assert off / Pow128(0) == off;
  }

  lemma {:induction false} PathPrefix(off: int, level: nat, t: nat)
    requires 0 <= off < Pow128(level) && t <= level
    ensures Spelled(Path(off, level, t)) == off / Pow128(level - t)
    ensures forall i :: 0 <= i < t ==> 0 <= Path(off, level, t)[i] < 128
    decreases t
  {
    if t == 0 {
      SmallQuotient(off, Pow128(level));
    } else {
      PathPrefix(off, level, t - 1);
      PathSnoc(off, level, t);
      var path := Path(off, level, t);
      assert path[..t - 1] == Path(off, level, t - 1);
      DigitSplit(off, Pow128(level - t));
    }
  }

  lemma DigitSplit(off: int, p: int)
    requires p > 0
    ensures off / p == 128 * (off / (128 * p)) + off / p % 128
  {
    var q, r := off / p, off % p;
    PieceMath(p, q / 128, q % 128, r);
    ModIs(off, 128 * p, q / 128, p * (q % 128) + r);
  }

  lemma SmallQuotient(a: int, n: int)
    requires 0 <= a < n
    ensures a / n == 0
  {
  }

  /** A path goes on with the next index. */
  lemma {:induction false} PathSnoc(off: int, level: nat, t: nat)
    requires 0 < t <= level
    ensures Path(off, level, t) == Path(off, level, t - 1) + [Idx(off, level - t)]
    decreases t
  {
    hide Idx;
    if t > 1 {
      PathSnoc(off, level - 1, t - 1);
    }
  }

  /** The data block at a place. */
  ghost function At(dev: Device, iaddr: seq<int>, p: Place): int
    requires |iaddr| == 13 && (p.Place? ==> 0 <= p.slot < 13)
  {
    if p == Beyond || iaddr[p.slot] == 0 then 0 else Leaf(dev, iaddr[p.slot], LevelOf(p.slot), p.off)
  }

  /** There is a t-th block on the way to a place. */
  ghost predicate OnWay(p: Place, t: nat) {
    p.Place? && 0 <= p.slot < 13 && t <= LevelOf(p.slot)
  }

  /** The t-th block on the way to a place, or 0; the last one is the data block. */
  ghost function NodeAt(dev: Device, iaddr: seq<int>, p: Place, t: nat): int
    requires |iaddr| == 13 && OnWay(p, t)
  {
    if iaddr[p.slot] == 0 then 0 else Node(dev, iaddr[p.slot], LevelOf(p.slot), p.off, t)
  }

  ghost function FileLeaf(dev: Device, iaddr: seq<int>, l: int): int
    requires |iaddr| == 13 && l >= 0
  {
    At(dev, iaddr, PlaceOf(l))
  }

  lemma SlotPart(dev: Device, iaddr: seq<int>, s: int)
    requires |iaddr| == 13 && 0 <= s < 13
    ensures One(dev, iaddr[s], LevelOf(s)) <= FileBag(dev, iaddr)
    ensures forall r :: 0 <= r < 13 && r != s ==>
                  One(dev, iaddr[s], LevelOf(s)) + One(dev, iaddr[r], LevelOf(r)) <= FileBag(dev, iaddr)
  {
    hide Forest, One;
    ForestHas(dev, iaddr, InodeLevels(), 3, 0, s);
    forall r | 0 <= r < 13 && r != s
      ensures One(dev, iaddr[s], LevelOf(s)) + One(dev, iaddr[r], LevelOf(r)) <= FileBag(dev, iaddr)
    {
      if s < r {
        ForestPair(dev, iaddr, InodeLevels(), 3, 0, s, r);
      } else {
        ForestPair(dev, iaddr, InodeLevels(), 3, 0, r, s);
      }
    }
  }

  /** What is behind one address is behind no other. */
  lemma OnlySlot(dev: Device, iaddr: seq<int>, s: int, x: int)
    requires |iaddr| == 13 && 0 <= s < 13 && NoDup(FileBag(dev, iaddr)) && x in One(dev, iaddr[s], LevelOf(s))
    ensures NoDup(One(dev, iaddr[s], LevelOf(s))) && x in FileBag(dev, iaddr)
    ensures forall r :: 0 <= r < 13 && r != s ==> x !in One(dev, iaddr[r], LevelOf(r))
  {
    hide One, FileBag;
    SlotPart(dev, iaddr, s);
    var whole, part := FileBag(dev, iaddr), One(dev, iaddr[s], LevelOf(s));
    assert whole[x] <= 1;
    forall y
      ensures part[y] <= 1
    {
      assert whole[y] <= 1;
    }
  }

  lemma NotInSlots(dev: Device, iaddr: seq<int>, c: int)
    requires |iaddr| == 13 && c !in FileBag(dev, iaddr)
    ensures forall r :: 0 <= r < 13 ==> c !in One(dev, iaddr[r], LevelOf(r))
  {
    hide One, FileBag;
    forall r | 0 <= r < 13
      ensures c !in One(dev, iaddr[r], LevelOf(r))
    {
      SlotPart(dev, iaddr, r);
    }
  }

  /** A change of the tree behind one address only. */
  lemma SlotChange(dev: Device, dev': Device, iaddr: seq<int>, iaddr': seq<int>, s: int, x: int, y: int,
                   delta: multiset<int>)
    requires |iaddr| == |iaddr'| == 13 && 0 <= s < 13 && iaddr' == iaddr[s := iaddr'[s]]
    requires AgreeBut(dev, dev', x, y)
    requires forall r :: 0 <= r < 13 && r != s ==>
                  x !in One(dev, iaddr[r], LevelOf(r)) && y !in One(dev, iaddr[r], LevelOf(r))
    requires One(dev', iaddr'[s], LevelOf(s)) == One(dev, iaddr[s], LevelOf(s)) + delta
    ensures FileBag(dev', iaddr') == FileBag(dev, iaddr) + delta
    ensures forall p: Place :: p.Place? && 0 <= p.slot < 13 && p.slot != s ==> At(dev', iaddr', p) == At(dev, iaddr, p)
  {
    hide One, AgreeBut, Forest, Leaf, Bag;
    forall r | 0 <= r < 13 && r != s
      ensures One(dev', iaddr'[r], InodeLevels()[r]) == One(dev, iaddr[r], InodeLevels()[r])
    {
      assert LevelOf(r) == InodeLevels()[r];
      AgreeApart(dev, dev', x, y, One(dev, iaddr[r], LevelOf(r)));
      OneFrame(dev, dev', iaddr[r], LevelOf(r));
    }
    assert LevelOf(s) == InodeLevels()[s];
    ForestChange(dev, dev', iaddr, iaddr', InodeLevels(), 3, 0, s, delta);
    forall p: Place | p.Place? && 0 <= p.slot < 13 && p.slot != s
      ensures At(dev', iaddr', p) == At(dev, iaddr, p)
    {
      SlotNodes(dev, dev', iaddr, iaddr', s, x, y, p, LevelOf(p.slot));
      AtIsNode(dev, iaddr, p);
      AtIsNode(dev', iaddr', p);
    }
  }

  lemma AtIsNode(dev: Device, iaddr: seq<int>, p: Place)
    requires |iaddr| == 13 && p.Place? && 0 <= p.slot < 13
    ensures At(dev, iaddr, p) == NodeAt(dev, iaddr, p, LevelOf(p.slot))
  {
  }

  lemma SlotNodes(dev: Device, dev': Device, iaddr: seq<int>, iaddr': seq<int>, s: int, x: int, y: int, p: Place,
                  t: nat)
    requires |iaddr| == |iaddr'| == 13 && 0 <= s < 13 && iaddr' == iaddr[s := iaddr'[s]]
    requires AgreeBut(dev, dev', x, y) && OnWay(p, t) && p.slot != s
    requires x !in One(dev, iaddr[p.slot], LevelOf(p.slot)) && y !in One(dev, iaddr[p.slot], LevelOf(p.slot))
    ensures NodeAt(dev', iaddr', p, t) == NodeAt(dev, iaddr, p, t)
  {
    hide One, AgreeBut, Node, Bag;
    if iaddr[p.slot] != 0 {
      OneBag(dev, iaddr[p.slot], LevelOf(p.slot));
      AgreeApart(dev, dev', x, y, One(dev, iaddr[p.slot], LevelOf(p.slot)));
      NodeFrame(dev, dev', iaddr[p.slot], LevelOf(p.slot), p.off, t);
    }
  }

  // ----- the steps that build a file

  /** An unused address gets a zeroed block. */
  lemma NewRoot(dev: Device, dev': Device, iaddr: seq<int>, s: int, c: int)
    requires |iaddr| == 13 && 0 <= s < 13 && iaddr[s] == 0 && c != 0
    requires AgreeBut(dev, dev', c, c) && Empty(dev', c) && c !in FileBag(dev, iaddr)
    ensures FileBag(dev', iaddr[s := c]) == FileBag(dev, iaddr) + multiset{c}
    ensures forall p: Place :: p.Place? && 0 <= p.slot < 13 && !(p.slot == s && LevelOf(s) == 0) ==>
                  At(dev', iaddr[s := c], p) == At(dev, iaddr, p)
  {
    hide FileBag, AgreeBut, One, Empty, Bag, Leaf;
    NotInSlots(dev, iaddr, c);
    EmptyTree(dev', c, LevelOf(s), 0);
    OneBag(dev', c, LevelOf(s));
    NoTree(dev, LevelOf(s));
    SlotChange(dev, dev', iaddr, iaddr[s := c], s, c, c, multiset{c});
    forall p: Place | p.Place? && 0 <= p.slot < 13 && p.slot == s && LevelOf(s) != 0
      ensures At(dev', iaddr[s := c], p) == At(dev, iaddr, p)
    {
      EmptyTree(dev', c, LevelOf(s), p.off);
    }
  }

  /** A block on the way to a place gets a zeroed block below it. */
  lemma NewBelow(dev: Device, dev': Device, iaddr: seq<int>, s: int, off: int, t: nat, c: int)
    requires |iaddr| == 13 && 0 <= s < 13 && iaddr[s] != 0 && t < LevelOf(s)
    requires Node(dev, iaddr[s], LevelOf(s), off, t) != 0
    requires Hung(dev, dev', Node(dev, iaddr[s], LevelOf(s), off, t), LevelOf(s) - t - 1, off, c)
    requires NoDup(FileBag(dev, iaddr)) && c !in FileBag(dev, iaddr)
    ensures FileBag(dev', iaddr) == FileBag(dev, iaddr) + multiset{c}
    ensures Node(dev', iaddr[s], LevelOf(s), off, t + 1) == c
    ensures forall p: Place :: IsPlace(p) && p != Place(s, off % Pow128(LevelOf(s))) ==>
                                 At(dev', iaddr, p) == At(dev, iaddr, p)
  {
    hide FileBag, AgreeBut, One, Empty, Bag, Leaf, Node, Kids, NoDup, Pow128, Idx, LevelOf;
    var b, level := iaddr[s], LevelOf(s);
    var q := Node(dev, b, level, off, t);
    NodeIn(dev, b, level, off, t);
    OneBag(dev, b, level);
    OnlySlot(dev, iaddr, s, q);
    NotInSlots(dev, iaddr, c);
    HungBelow(dev, dev', b, level, off, t, c);
    OneBag(dev', b, level);
    SlotChange(dev, dev', iaddr, iaddr, s, q, c, multiset{c});
    forall p: Place | p.Place? && p.slot == s && 0 <= p.off < Pow128(level) && p.off != off % Pow128(level)
      ensures At(dev', iaddr, p) == At(dev, iaddr, p)
    {
      HungLeaf(dev, dev', b, level, off, t, c, p.off);
      SmallMod(p.off, Pow128(level));
      if SameWay(off, p.off, level) {
        WayIsOffset(off, p.off, level);
      }
    }
  }

  lemma SmallMod(a: int, n: int)
    requires 0 <= a < n
    ensures a % n == a
  {
  }

  // ----- what is at distinct places

  ghost predicate IsPlace(p: Place) {
    p.Place? && 0 <= p.slot < 13 && 0 <= p.off < Pow128(LevelOf(p.slot))
  }

  lemma SamePlace(dev: Device, iaddr: seq<int>, p: Place, q: Place)
    requires |iaddr| == 13 && NoDup(FileBag(dev, iaddr)) && IsPlace(p) && IsPlace(q)
    requires At(dev, iaddr, p) != 0 && At(dev, iaddr, p) == At(dev, iaddr, q)
    ensures p == q
  {
    hide FileBag, One, Bag, Leaf, NoDup, Pow128, LevelOf;
    LeafInSlot(dev, iaddr, p);
    LeafInSlot(dev, iaddr, q);
    OnlySlot(dev, iaddr, p.slot, At(dev, iaddr, p));
    if p.slot == q.slot {
      OneBag(dev, iaddr[p.slot], LevelOf(p.slot));
      LeavesDistinct(dev, iaddr[p.slot], LevelOf(p.slot), p.off, q.off);
      WayIsOffset(p.off, q.off, LevelOf(p.slot));
      SmallMod(p.off, Pow128(LevelOf(p.slot)));
      SmallMod(q.off, Pow128(LevelOf(p.slot)));
    }
  }

  /** Distinct logical blocks have distinct physical blocks. */
  lemma PlacesDistinct(dev: Device, iaddr: seq<int>, l: int, k: int)
    requires |iaddr| == 13 && NoDup(FileBag(dev, iaddr)) && l >= 0 && k >= 0
    requires FileLeaf(dev, iaddr, l) != 0 && FileLeaf(dev, iaddr, l) == FileLeaf(dev, iaddr, k)
    ensures l == k
  {
    hide FileBag, NoDup, Leaf, Pow128, LevelOf;
    SamePlace(dev, iaddr, PlaceOf(l), PlaceOf(k));
    PlacesDiffer(l, k);
  }

  lemma LeafInSlot(dev: Device, iaddr: seq<int>, p: Place)
    requires |iaddr| == 13 && (p.Place? ==> 0 <= p.slot < 13) && At(dev, iaddr, p) != 0
    ensures At(dev, iaddr, p) in One(dev, iaddr[p.slot], LevelOf(p.slot))
  {
    hide Bag, Node;
    NodeIn(dev, iaddr[p.slot], LevelOf(p.slot), p.off, LevelOf(p.slot));
  }

  // ----- writing data

  lemma DataWrite(dev: Device, dev': Device, iaddr: seq<int>, p: Place, q: Place)
    requires |iaddr| == 13 && (p.Place? ==> 0 <= p.slot < 13) && (q.Place? ==> 0 <= q.slot < 13)
    requires NoDup(FileBag(dev, iaddr)) && At(dev, iaddr, p) != 0
    requires AgreeBut(dev, dev', At(dev, iaddr, p), At(dev, iaddr, p))
    ensures FileBag(dev', iaddr) == FileBag(dev, iaddr) && At(dev', iaddr, q) == At(dev, iaddr, q)
  {
    hide FileBag, AgreeBut, One, Bag, Node, NoDup, LevelOf;
    var x, s := At(dev, iaddr, p), p.slot;
    LeafInSlot(dev, iaddr, p);
    OnlySlot(dev, iaddr, s, x);
    OneBag(dev, iaddr[s], LevelOf(s));
    LeafWrite(dev, dev', iaddr[s], LevelOf(s), p.off, if q.Place? then q.off else 0, LevelOf(s));
    OneBag(dev', iaddr[s], LevelOf(s));
    SlotChange(dev, dev', iaddr, iaddr, s, x, x, multiset{});
  }

  /** A block on the way to a place is not the data block of any place. */
  lemma {:induction false} InnerNotLeaf(dev: Device, b: int, level: nat, off: int, t: nat, off2: int)
    requires t < level && Node(dev, b, level, off, t) != 0 && Leaf(dev, b, level, off2) != 0
    requires NoDup(Bag(dev, b, level))
    ensures Node(dev, b, level, off, t) != Leaf(dev, b, level, off2)
    decreases t
  {
    hide Idx, Bag, One, Kids, NoDup;
    var i, i2 := Idx(off, level - 1), Idx(off2, level - 1);
    var kid2 := Kids(dev, b)[i2];
    NodeStep(dev, b, level, off2, level);
    NodeIn(dev, kid2, level - 1, off2, level - 1);
    OneBag(dev, kid2, level - 1);
    OnlyHere(dev, b, level, i2, Leaf(dev, b, level, off2));
    if t > 0 {
      var kid := Kids(dev, b)[i];
      NodeStep(dev, b, level, off, t);
      NodeIn(dev, kid, level - 1, off, t - 1);
      OneBag(dev, kid, level - 1);
      if i == i2 {
        InnerNotLeaf(dev, kid, level - 1, off, t - 1, off2);
      }
    }
  }

  lemma InnerNotData(dev: Device, iaddr: seq<int>, s: int, off: int, t: nat, p: Place)
    requires |iaddr| == 13 && 0 <= s < 13 && iaddr[s] != 0 && t < LevelOf(s)
    requires Node(dev, iaddr[s], LevelOf(s), off, t) != 0 && NoDup(FileBag(dev, iaddr))
    requires (p.Place? ==> 0 <= p.slot < 13) && At(dev, iaddr, p) != 0
    ensures At(dev, iaddr, p) != Node(dev, iaddr[s], LevelOf(s), off, t)
  {
    hide FileBag, One, Bag, Leaf, NoDup, LevelOf, Node;
    var q := Node(dev, iaddr[s], LevelOf(s), off, t);
    NodeIn(dev, iaddr[s], LevelOf(s), off, t);
    OneBag(dev, iaddr[s], LevelOf(s));
    OnlySlot(dev, iaddr, s, q);
    LeafInSlot(dev, iaddr, p);
    if p.slot == s {
      InnerNotLeaf(dev, iaddr[s], LevelOf(s), off, t, p.off);
    }
  }
}
