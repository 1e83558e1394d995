/** The blocks of a file: data blocks, reached directly from the inode or through one, two or three
    levels of indirect blocks. */
module RestorTree {
  import opened RestorDisk
  import opened RestorFree

  // ----- indirect blocks

  function Indir(b: Block): (r: seq<int>)
    requires |b| == 256
    ensures |r| == 128
  {
    seq(128, i requires 0 <= i < 128 => Long(b, 2 * i))
  }

  lemma IndirRoundTrip(s: seq<int>)
    requires |s| == 128 && Addrs(s)
    ensures IsBlock(Words(s)) && Indir(Words(s)) == s
  {
    hide Words, Addrs;
    forall k | 0 <= k < 256
      ensures 0 <= Words(s)[k] < 0x1_0000
    {
      WordsRange(s, k);
    }
    forall i | 0 <= i < 128
      ensures Long(Words(s), 2 * i) == s[i]
    {
      WordsLong(s, i);
    }
  }

  lemma IndirAddrs(b: Block)
    requires IsBlock(b)
    ensures Addrs(Indir(b))
  {
  }

  /** What an indirect block points to. */
  ghost function Kids(dev: Device, b: int): (r: seq<int>)
    ensures |r| == 128
  {
    if b in dev && |dev[b]| == 256 then Indir(dev[b]) else seq(128, _ => 0)
  }

  // ----- all blocks of a tree

  function Same(n: nat, level: nat): (r: seq<nat>)
    ensures |r| == n && forall i :: 0 <= i < n ==> r[i] == level
  {
    seq(n, _ => level)
  }

  ghost predicate Levels(roots: seq<int>, levels: seq<nat>, top: nat) {
    |levels| == |roots| && forall i :: 0 <= i < |levels| ==> levels[i] <= top
  }

  /** The blocks of the tree at b: level 0 is a data block. */
  ghost function Bag(dev: Device, b: int, level: nat): multiset<int>
    decreases level, 0
  {
    if level == 0 then multiset{b}
    else multiset{b} + Forest(dev, Kids(dev, b), Same(128, level - 1), level - 1, 0)
  }

  /** The blocks of the trees from the k-th on; 0 stands for no tree. */
  ghost function Forest(dev: Device, roots: seq<int>, levels: seq<nat>, top: nat, k: nat): multiset<int>
    requires Levels(roots, levels, top) && k <= |roots|
    decreases top, 1 + |roots| - k
  {
    if k == |roots| then multiset{}
    else (if roots[k] == 0 then multiset{} else Bag(dev, roots[k], levels[k])) + Forest(dev, roots, levels, top, k + 1)
  }

  ghost function One(dev: Device, root: int, level: nat): multiset<int> {
    if root == 0 then multiset{} else Bag(dev, root, level)
  }

  ghost predicate NoDup(m: multiset<int>) {
    forall x :: m[x] <= 1
  }

  ghost predicate AgreeOn(dev: Device, dev': Device, m: multiset<int>) {
    forall x :: x in m ==> (x in dev <==> x in dev') && (x in dev ==> dev'[x] == dev[x])
  }

  lemma ForestStep(dev: Device, roots: seq<int>, levels: seq<nat>, top: nat, k: nat)
    requires Levels(roots, levels, top) && k < |roots|
    ensures Forest(dev, roots, levels, top, k) == One(dev, roots[k], levels[k]) + Forest(dev, roots, levels, top, k + 1)
  {
  }

  /** One tree is part of the forest, and what is before k is apart from what is after. */
  lemma {:induction false} ForestHas(dev: Device, roots: seq<int>, levels: seq<nat>, top: nat, k: nat, j: nat)
    requires Levels(roots, levels, top) && k <= j < |roots|
    ensures One(dev, roots[j], levels[j]) <= Forest(dev, roots, levels, top, k)
    ensures k < j ==>
              One(dev, roots[k], levels[k]) + One(dev, roots[j], levels[j]) <= Forest(dev, roots, levels, top, k)
    decreases j - k
  {
    hide One, Bag;
    ForestStep(dev, roots, levels, top, k);
    if k < j {
      ForestHas(dev, roots, levels, top, k + 1, j);
    }
  }

  lemma {:induction false} BagFrame(dev: Device, dev': Device, b: int, level: nat)
    requires AgreeOn(dev, dev', Bag(dev, b, level))
    ensures Bag(dev', b, level) == Bag(dev, b, level)
    decreases level, 0
  {
    if level > 0 {
      assert b in Bag(dev, b, level);
      ForestFrame(dev, dev', Kids(dev, b), Same(128, level - 1), level - 1, 0);
    }
  }

  lemma {:induction false} ForestFrame(dev: Device, dev': Device, roots: seq<int>, levels: seq<nat>, top: nat, k: nat)
    requires Levels(roots, levels, top) && k <= |roots|
    requires AgreeOn(dev, dev', Forest(dev, roots, levels, top, k))
    ensures Forest(dev', roots, levels, top, k) == Forest(dev, roots, levels, top, k)
    decreases top, 1 + |roots| - k
  {
    if k < |roots| {
      ForestFrame(dev, dev', roots, levels, top, k + 1);
      if roots[k] != 0 {
        BagFrame(dev, dev', roots[k], levels[k]);
      }
    }
  }

  /** The forest changes by delta when its j-th tree does and the others do not. */
  lemma {:induction false} ForestChange(dev: Device, dev': Device, roots: seq<int>, roots': seq<int>, levels: seq<nat>,
                                        top: nat, k: nat, j: nat, delta: multiset<int>)
    requires Levels(roots, levels, top) && Levels(roots', levels, top) && k <= |roots| && j < |roots|
    requires One(dev', roots'[j], levels[j]) == One(dev, roots[j], levels[j]) + delta
    requires forall i :: 0 <= i < |roots| && i != j ==> One(dev', roots'[i], levels[i]) == One(dev, roots[i], levels[i])
    ensures Forest(dev', roots', levels, top, k) ==
            Forest(dev, roots, levels, top, k) + (if k <= j then delta else multiset{})
    decreases |roots| - k
  {
    hide One, Bag;
    if k < |roots| {
      ForestStep(dev, roots, levels, top, k);
      ForestStep(dev', roots', levels, top, k);
      ForestChange(dev, dev', roots, roots', levels, top, k + 1, j, delta);
    } else {
      ForestEnd(dev, roots, levels, top);
      ForestEnd(dev', roots', levels, top);
    }
  }

  lemma ForestEnd(dev: Device, roots: seq<int>, levels: seq<nat>, top: nat)
    requires Levels(roots, levels, top)
    ensures Forest(dev, roots, levels, top, |roots|) == multiset{}
  {
  }

  // ----- paths

  function Pow128(n: nat): (r: int)
    ensures r > 0
  {
    if n == 0 then 1 else 128 * Pow128(n - 1)
  }

  /** The index that an offset has in an indirect block whose kids are trees of a level. */
  function Idx(off: int, level: nat): (r: int)
    ensures 0 <= r < 128
  {
    off / Pow128(level) % 128
  }

  /** The block reached from b, a tree of a level, after t steps towards an offset; 0 for none. */
  ghost function Node(dev: Device, b: int, level: nat, off: int, t: nat): int
    requires t <= level
    decreases t
  {
    if t == 0 then b
    else
      var kid := Kids(dev, b)[Idx(off, level - 1)];
      if kid == 0 then 0 else Node(dev, kid, level - 1, off, t - 1)
  }

  /** The data block for an offset. */
  ghost function Leaf(dev: Device, b: int, level: nat, off: int): int {
    Node(dev, b, level, off, level)
  }

  lemma NodeStep(dev: Device, b: int, level: nat, off: int, t: nat)
    requires 0 < t <= level
    ensures var kid := Kids(dev, b)[Idx(off, level - 1)];
      Node(dev, b, level, off, t) == if kid == 0 then 0 else Node(dev, kid, level - 1, off, t - 1)
  {
  }

  lemma BagStep(dev: Device, b: int, level: nat)
    requires level > 0
    ensures Bag(dev, b, level) == multiset{b} + Forest(dev, Kids(dev, b), Same(128, level - 1), level - 1, 0)
  {
  }

  lemma BagRoot(dev: Device, b: int, level: nat)
    ensures b in Bag(dev, b, level)
  {
  }

  /** The tree at one kid is part of the tree, without its root. */
  lemma KidPart(dev: Device, b: int, level: nat, i: int)
    requires level > 0 && 0 <= i < 128
    ensures multiset{b} + One(dev, Kids(dev, b)[i], level - 1) <= Bag(dev, b, level)
    ensures forall j :: 0 <= j < 128 && j != i ==>
      One(dev, Kids(dev, b)[i], level - 1) + One(dev, Kids(dev, b)[j], level - 1) <= Bag(dev, b, level)
  {
    hide One, Bag, Forest;
    BagStep(dev, b, level);
    var roots, levels := Kids(dev, b), Same(128, level - 1);
    ForestHas(dev, roots, levels, level - 1, 0, i);
    forall j | 0 <= j < 128 && j != i
      ensures One(dev, roots[i], level - 1) + One(dev, roots[j], level - 1) <= Bag(dev, b, level)
    {
      if i < j {
        ForestPair(dev, roots, levels, level - 1, 0, i, j);
      } else {
        ForestPair(dev, roots, levels, level - 1, 0, j, i);
      }
    }
  }

  lemma {:induction false} ForestPair(dev: Device, roots: seq<int>, levels: seq<nat>, top: nat, k: nat, i: nat, j: nat)
    requires Levels(roots, levels, top) && k <= i < j < |roots|
    ensures One(dev, roots[i], levels[i]) + One(dev, roots[j], levels[j]) <= Forest(dev, roots, levels, top, k)
    decreases i - k
  {
    hide One, Bag;
    if k == i {
      ForestHas(dev, roots, levels, top, k, j);
    } else {
      ForestStep(dev, roots, levels, top, k);
      ForestPair(dev, roots, levels, top, k + 1, i, j);
    }
  }

  lemma {:induction false} NodeIn(dev: Device, b: int, level: nat, off: int, t: nat)
    requires t <= level && Node(dev, b, level, off, t) != 0
    ensures Node(dev, b, level, off, t) in Bag(dev, b, level)
    decreases t
  {
    hide Bag, Kids, Idx;
    if t == 0 {
      BagRoot(dev, b, level);
    } else {
      var i := Idx(off, level - 1);
      NodeStep(dev, b, level, off, t);
      NodeIn(dev, Kids(dev, b)[i], level - 1, off, t - 1);
      KidPart(dev, b, level, i);
    }
  }

  /** What is in the tree at one kid is not the root and not in the tree at another. */
  lemma OnlyHere(dev: Device, b: int, level: nat, i: int, x: int)
    requires level > 0 && 0 <= i < 128 && NoDup(Bag(dev, b, level)) && x in One(dev, Kids(dev, b)[i], level - 1)
    ensures x != b && NoDup(One(dev, Kids(dev, b)[i], level - 1))
    ensures forall j :: 0 <= j < 128 && j != i ==> x !in One(dev, Kids(dev, b)[j], level - 1)
  {
    hide One, Bag, Kids;
    KidPart(dev, b, level, i);
    var whole, part := Bag(dev, b, level), One(dev, Kids(dev, b)[i], level - 1);
    assert whole[x] <= 1;
    forall y
      ensures part[y] <= 1
    {
      assert whole[y] <= 1;
    }
  }

  /** A change in the tree at kid i, that touches nothing else of the tree at b. */
  lemma KidChange(dev: Device, dev': Device, b: int, level: nat, i: int, delta: multiset<int>)
    requires level > 0 && 0 <= i < 128 && Kids(dev', b) == Kids(dev, b)
    requires One(dev', Kids(dev, b)[i], level - 1) == One(dev, Kids(dev, b)[i], level - 1) + delta
    requires forall j :: 0 <= j < 128 && j != i ==>
                  One(dev', Kids(dev, b)[j], level - 1) == One(dev, Kids(dev, b)[j], level - 1)
    ensures Bag(dev', b, level) == Bag(dev, b, level) + delta
  {
    hide One, Bag, Kids, Forest;
    BagStep(dev, b, level);
    BagStep(dev', b, level);
    ForestChange(dev, dev', Kids(dev, b), Kids(dev, b), Same(128, level - 1), level - 1, 0, i, delta);
  }

  lemma OneFrame(dev: Device, dev': Device, root: int, level: nat)
    requires AgreeOn(dev, dev', One(dev, root, level))
    ensures One(dev', root, level) == One(dev, root, level)
  {
    if root != 0 {
      BagFrame(dev, dev', root, level);
    }
  }
}
