/** Which blocks a file has, by the paths that lead to them, and how many a tape takes. */
module RestorCount {
  import opened RestorDisk
  import opened RestorTree
  import opened RestorPaths
  import opened RestorInode

  /** A block of a file: the address it is behind and the indices that lead to it. */
  datatype Id = Id(slot: int, path: seq<int>)

  ghost function IdOf(p: Place, t: nat): Id
    requires OnWay(p, t)
  {
    Id(p.slot, Path(p.off, LevelOf(p.slot), t))
  }

  /** The file has exactly the blocks in ids. */
  ghost predicate Grown(dev: Device, iaddr: seq<int>, ids: set<Id>)
    requires |iaddr| == 13
  {
    forall p: Place, t: nat :: OnWay(p, t) ==> (NodeAt(dev, iaddr, p, t) != 0 <==> IdOf(p, t) in ids)
  }

  lemma NoneGrown(dev: Device, iaddr: seq<int>)
    requires |iaddr| == 13 && forall i :: 0 <= i < 13 ==> iaddr[i] == 0
    ensures Grown(dev, iaddr, {})
  {
  }

  lemma GrownAt(dev: Device, iaddr: seq<int>, ids: set<Id>, p: Place, t: nat)
    requires |iaddr| == 13 && Grown(dev, iaddr, ids) && OnWay(p, t)
    ensures NodeAt(dev, iaddr, p, t) != 0 <==> IdOf(p, t) in ids
  {
  }

  // ----- what the steps add

  lemma RootNodes(dev: Device, dev': Device, iaddr: seq<int>, s: int, c: int, p: Place, t: nat)
    requires |iaddr| == 13 && 0 <= s < 13 && c != 0 && OnWay(p, t)
    requires AgreeBut(dev, dev', c, c) && Empty(dev', c) && c !in FileBag(dev, iaddr)
    ensures NodeAt(dev', iaddr[s := c], p, t) ==
            if p.slot != s then NodeAt(dev, iaddr, p, t) else if t == 0 then c else 0
  {
    hide FileBag, AgreeBut, One, Empty, Node, LevelOf;
    if p.slot == s {
      EmptyNode(dev', c, LevelOf(s), p.off, t);
    } else {
      NotInSlots(dev, iaddr, c);
      SlotNodes(dev, dev', iaddr, iaddr[s := c], s, c, c, p, t);
    }
  }

  lemma RootGrown(dev: Device, dev': Device, iaddr: seq<int>, s: int, c: int, ids: set<Id>)
    requires |iaddr| == 13 && 0 <= s < 13 && iaddr[s] == 0 && c != 0 && Grown(dev, iaddr, ids)
    requires AgreeBut(dev, dev', c, c) && Empty(dev', c) && c !in FileBag(dev, iaddr)
    ensures Grown(dev', iaddr[s := c], ids + {Id(s, [])})
  {
    hide FileBag, AgreeBut, Empty, LevelOf, Grown, Node;
    var ids' := ids + {Id(s, [])};
    forall p: Place, t: nat | OnWay(p, t)
      ensures NodeAt(dev', iaddr[s := c], p, t) != 0 <==> IdOf(p, t) in ids'
    {
      GrownAt(dev, iaddr, ids, p, t);
      RootNodes(dev, dev', iaddr, s, c, p, t);
      assert IdOf(p, t) == Id(s, []) <==> p.slot == s && t == 0;
    }
    assert Grown(dev', iaddr[s := c], ids') by { GrownAll(dev', iaddr[s := c], ids'); }
  }

  lemma GrownAll(dev: Device, iaddr: seq<int>, ids: set<Id>)
    requires |iaddr| == 13
    requires forall p: Place, t: nat :: OnWay(p, t) ==> (NodeAt(dev, iaddr, p, t) != 0 <==> IdOf(p, t) in ids)
    ensures Grown(dev, iaddr, ids)
  {
  }

  lemma BelowNodes(dev: Device, dev': Device, iaddr: seq<int>, s: int, off: int, t: nat, c: int, p: Place, t2: nat)
    requires |iaddr| == 13 && 0 <= s < 13 && iaddr[s] != 0 && t < LevelOf(s) && OnWay(p, t2)
    requires Node(dev, iaddr[s], LevelOf(s), off, t) != 0
    requires Hung(dev, dev', Node(dev, iaddr[s], LevelOf(s), off, t), LevelOf(s) - t - 1, off, c)
    requires NoDup(FileBag(dev, iaddr)) && c !in FileBag(dev, iaddr)
    ensures var below := p.slot == s && t < t2 && Path(p.off, LevelOf(s), t + 1) == Path(off, LevelOf(s), t + 1);
      && (!below ==> NodeAt(dev', iaddr, p, t2) == NodeAt(dev, iaddr, p, t2))
      && (below ==> NodeAt(dev, iaddr, p, t2) == 0 && NodeAt(dev', iaddr, p, t2) == if t2 == t + 1 then c else 0)
  {
    hide FileBag, AgreeBut, One, Empty, Bag, Node, Kids, NoDup, Idx, LevelOf, Path;
    var b, level := iaddr[s], LevelOf(s);
    var q := Node(dev, b, level, off, t);
    NodeIn(dev, b, level, off, t);
    OneBag(dev, b, level);
    OnlySlot(dev, iaddr, s, q);
    NotInSlots(dev, iaddr, c);
    if p.slot == s {
      HungNode(dev, dev', b, level, off, t, c, p.off, t2);
    } else {
      SlotNodes(dev, dev', iaddr, iaddr, s, q, c, p, t2);
    }
  }

  lemma BelowGrown(dev: Device, dev': Device, iaddr: seq<int>, s: int, off: int, t: nat, c: int, ids: set<Id>)
    requires |iaddr| == 13 && 0 <= s < 13 && iaddr[s] != 0 && t < LevelOf(s) && Grown(dev, iaddr, ids)
    requires Node(dev, iaddr[s], LevelOf(s), off, t) != 0
    requires Hung(dev, dev', Node(dev, iaddr[s], LevelOf(s), off, t), LevelOf(s) - t - 1, off, c)
    requires NoDup(FileBag(dev, iaddr)) && c !in FileBag(dev, iaddr)
    ensures Grown(dev', iaddr, ids + {IdOf(Place(s, off), t + 1)})
  {
    hide FileBag, LevelOf, Grown, Node, NodeAt, NoDup, Path, AgreeBut, Empty, Kids, Idx;
    var ids' := ids + {IdOf(Place(s, off), t + 1)};
    assert c != 0;
    forall p: Place, t2: nat | OnWay(p, t2)
      ensures NodeAt(dev', iaddr, p, t2) != 0 <==> IdOf(p, t2) in ids'
    {
      GrownAt(dev, iaddr, ids, p, t2);
      BelowNodes(dev, dev', iaddr, s, off, t, c, p, t2);
      SameId(p, t2, Place(s, off), t + 1);
    }
    assert Grown(dev', iaddr, ids') by { GrownAll(dev', iaddr, ids'); }
  }

  lemma SameId(p: Place, t: nat, q: Place, u: nat)
    requires OnWay(p, t) && OnWay(q, u)
    ensures IdOf(p, t) == IdOf(q, u) <==>
              p.slot == q.slot && t == u && Path(p.off, LevelOf(p.slot), t) == Path(q.off, LevelOf(q.slot), u)
  {
  }

  lemma DataGrown(dev: Device, dev': Device, iaddr: seq<int>, p: Place, ids: set<Id>)
    requires |iaddr| == 13 && p.Place? && 0 <= p.slot < 13 && Grown(dev, iaddr, ids)
    requires NoDup(FileBag(dev, iaddr)) && At(dev, iaddr, p) != 0
    requires AgreeBut(dev, dev', At(dev, iaddr, p), At(dev, iaddr, p))
    ensures Grown(dev', iaddr, ids)
  {
    hide FileBag, LevelOf, Grown, NoDup, Path, AgreeBut, At, One, Bag, IdOf, NodeAt;
    forall q: Place, t: nat | OnWay(q, t)
      ensures NodeAt(dev', iaddr, q, t) != 0 <==> IdOf(q, t) in ids
    {
      GrownAt(dev, iaddr, ids, q, t);
      DataNodes(dev, dev', iaddr, p, q, t);
    }
    GrownAll(dev', iaddr, ids);
  }

  lemma DataNodes(dev: Device, dev': Device, iaddr: seq<int>, p: Place, q: Place, t: nat)
    requires |iaddr| == 13 && p.Place? && 0 <= p.slot < 13 && OnWay(q, t)
    requires NoDup(FileBag(dev, iaddr)) && At(dev, iaddr, p) != 0
    requires AgreeBut(dev, dev', At(dev, iaddr, p), At(dev, iaddr, p))
    ensures NodeAt(dev', iaddr, q, t) == NodeAt(dev, iaddr, q, t)
  {
    hide FileBag, AgreeBut, One, Bag, NoDup, LevelOf, Node;
    var x, s := At(dev, iaddr, p), p.slot;
    LeafInSlot(dev, iaddr, p);
    OnlySlot(dev, iaddr, s, x);
    if q.slot == s {
      OneBag(dev, iaddr[s], LevelOf(s));
      LeafWrite(dev, dev', iaddr[s], LevelOf(s), p.off, q.off, t);
    } else {
      SlotNodes(dev, dev', iaddr, iaddr, s, x, x, q, t);
    }
  }

  // ----- how many there are

  /** The first t + 1 blocks on the way to a place. */
  ghost function WayTo(p: Place, t: nat): set<Id>
    requires OnWay(p, t)
  {
    if t == 0 then {IdOf(p, 0)} else WayTo(p, t - 1) + {IdOf(p, t)}
  }

  lemma {:induction false} WayHas(p: Place, t: nat, u: nat)
    requires OnWay(p, u) && t <= u
    ensures IdOf(p, t) in WayTo(p, u) && WayTo(p, t) <= WayTo(p, u)
    decreases u
  {
    hide IdOf;
    if t < u {
      WayHas(p, t, u - 1);
    }
  }

  /** All blocks on the way to a logical block. */
  ghost function Way(l: int): set<Id>
    requires l >= 0
  {
    if PlaceOf(l) == Beyond then {} else WayTo(PlaceOf(l), LevelOf(PlaceOf(l).slot))
  }

  lemma {:induction false} Smaller<T>(a: set<T>, b: set<T>)
    requires a <= b
    ensures |a| <= |b| && (a != b ==> |a| < |b|)
  {
    if a != {} {
      var x :| x in a;
      Smaller(a - {x}, b - {x});
    }
  }

  /** From a file with the blocks in ids0 and n0 free blocks on, the blocks up to the t-th on the
      way to a place have been added, and nothing else: now is what the file has. */
  ghost predicate Spent(dev: Device, iaddr: seq<int>, stack: seq<int>, ids0: set<Id>, n0: int, p: Place, t: nat,
                        now: set<Id>)
    requires |iaddr| == 13 && OnWay(p, t)
  {
    Grown(dev, iaddr, now) && now == ids0 + WayTo(p, t) && |now| + |stack| == |ids0| + n0
  }

  lemma SpentStart(dev: Device, iaddr: seq<int>, stack: seq<int>, ids: set<Id>, p: Place)
    requires |iaddr| == 13 && OnWay(p, 0) && Grown(dev, iaddr, ids) && iaddr[p.slot] != 0
    ensures Spent(dev, iaddr, stack, ids, |stack|, p, 0, ids)
  {
    hide Grown;
    GrownAt(dev, iaddr, ids, p, 0);
    assert ids == ids + WayTo(p, 0);
  }

  lemma SpentOn(dev: Device, iaddr: seq<int>, stack: seq<int>, ids0: set<Id>, n0: int, p: Place, t: nat, now: set<Id>)
    requires |iaddr| == 13 && OnWay(p, t + 1) && Spent(dev, iaddr, stack, ids0, n0, p, t, now)
    requires NodeAt(dev, iaddr, p, t + 1) != 0
    ensures Spent(dev, iaddr, stack, ids0, n0, p, t + 1, now)
  {
    hide Grown, IdOf, NodeAt;
    GrownAt(dev, iaddr, now, p, t + 1);
    assert now == ids0 + WayTo(p, t + 1);
  }

  lemma SpentNew(dev: Device, dev': Device, iaddr: seq<int>, stack: seq<int>, c: int, ids0: set<Id>, n0: int, p: Place,
                 t: nat, now: set<Id>)
    requires |iaddr| == 13 && OnWay(p, t + 1) && Spent(dev, iaddr, stack + [c], ids0, n0, p, t, now)
    requires NodeAt(dev, iaddr, p, t + 1) == 0 && Grown(dev', iaddr, now + {IdOf(p, t + 1)})
    ensures Spent(dev', iaddr, stack, ids0, n0, p, t + 1, now + {IdOf(p, t + 1)})
  {
    hide Grown, IdOf, NodeAt;
    GrownAt(dev, iaddr, now, p, t + 1);
    assert now + {IdOf(p, t + 1)} == ids0 + WayTo(p, t + 1);
  }

  lemma SpentAll(dev: Device, iaddr: seq<int>, ids0: set<Id>, n0: int, p: Place, t: nat, now: set<Id>)
    requires |iaddr| == 13 && p.Place? && 0 <= p.slot < 13 && t < LevelOf(p.slot)
    requires Spent(dev, iaddr, [], ids0, n0, p, t, now) && NodeAt(dev, iaddr, p, t + 1) == 0
    ensures |ids0| + n0 < |ids0 + WayTo(p, LevelOf(p.slot))|
  {
    hide Grown, IdOf, NodeAt;
    GrownAt(dev, iaddr, now, p, t + 1);
    WayHas(p, t, LevelOf(p.slot));
    WayHas(p, t + 1, LevelOf(p.slot));
    assert IdOf(p, t + 1) in ids0 + WayTo(p, LevelOf(p.slot));
    Smaller(now, ids0 + WayTo(p, LevelOf(p.slot)));
  }
}
