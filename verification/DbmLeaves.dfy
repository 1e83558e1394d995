/** The depth-first order of a dbm trie's leaves, and hashinc of dbm.c, which steps through it. */
module DbmLeaves {
  import opened Arith
  import opened DbmTrie

  /** The low n bits of h read backwards, the first bit of the path being the most significant of
      MaxDepth bits: the place of the path in depth-first order. */
  ghost function Path(h: int, n: nat): nat
    requires n <= MaxDepth
  {
    if n == 0 then 0 else Path(h, n - 1) + (if BitOf(h, n - 1) then Pow2(MaxDepth - n) else 0)
  }

  /** Where the leaf of h begins in that order, and where it ends. */
  ghost function Start(bits: iset<int>, h: int): nat {
    Path(h, Depth(bits, h))
  }

  ghost function End(bits: iset<int>, h: int): nat {
    Path(h, Depth(bits, h)) + Pow2(MaxDepth - Depth(bits, h))
  }

  lemma PathNext(h: int, n: nat)
    requires n < MaxDepth
    ensures Path(h, n + 1) == Path(h, n) + (if BitOf(h, n) then Pow2(MaxDepth - n - 1) else 0)
    ensures Pow2(MaxDepth - n) == 2 * Pow2(MaxDepth - n - 1)
  {
    hide BitOf;
  }

  lemma BitsAgree(h: int, g: int, n: nat)
    requires Low(h, n + 1) == Low(g, n + 1)
    ensures Low(h, n) == Low(g, n) && BitOf(h, n) == BitOf(g, n)
  {
    hide BitOf, Low;
    LowAgree(h, g, n, n + 1);
    LowNext(h, n);
    LowNext(g, n);
  }

  lemma {:induction false} PathAgrees(h: int, g: int, n: nat)
    requires n <= MaxDepth && Low(h, n) == Low(g, n)
    ensures Path(h, n) == Path(g, n)
    decreases n
  {
    hide BitOf, Low, Pow2;
    if n > 0 {
      BitsAgree(h, g, n - 1);
      PathAgrees(h, g, n - 1);
    }
  }

  /** Different paths of one length are at least a leaf of that depth apart. */
  lemma {:induction false} PathsApart(h: int, g: int, n: nat)
    requires n <= MaxDepth && Low(h, n) != Low(g, n)
    ensures Path(h, n) + Pow2(MaxDepth - n) <= Path(g, n) || Path(g, n) + Pow2(MaxDepth - n) <= Path(h, n)
    decreases n
  {
    hide BitOf, Low, Path;
    if n == 0 {
      OnlyZero(h, g);
    } else {
      PathNext(h, n - 1);
      PathNext(g, n - 1);
      if Low(h, n - 1) == Low(g, n - 1) {
        PathAgrees(h, g, n - 1);
        LowNext(h, n - 1);
        LowNext(g, n - 1);
      } else {
        PathsApart(h, g, n - 1);
      }
    }
  }

  lemma OnlyZero(h: int, g: int)
    ensures Low(h, 0) == Low(g, 0)
  {
  }

  /** Going deeper stays within the leaf. */
  lemma {:induction false} PathWithin(h: int, d: nat, n: nat)
    requires d <= n <= MaxDepth
    ensures Path(h, d) <= Path(h, n) && Path(h, n) + Pow2(MaxDepth - n) <= Path(h, d) + Pow2(MaxDepth - d)
    decreases n
  {
    hide BitOf, Path;
    if d < n {
      PathWithin(h, d, n - 1);
      PathNext(h, n - 1);
    }
  }

  /** A hash with no bits beyond d is at the start of its leaf. */
  lemma {:induction false} PathShort(h: int, d: nat, n: nat)
    requires d <= n <= MaxDepth && 0 <= h < Pow2(d)
    ensures Path(h, n) == Path(h, d)
    decreases n
  {
    hide BitOf, Path, Low;
    if d < n {
      PathShort(h, d, n - 1);
      PathNext(h, n - 1);
      LowSmall(h, d, n - 1);
      LowSmall(h, d, n);
      LowNext(h, n - 1);
    }
  }

  /** The leaves cover disjoint ranges: a leaf that begins within another is that leaf. */
  lemma LeavesApart(bits: iset<int>, h: int, g: int)
    requires Tree(bits) && Start(bits, h) <= Start(bits, g) < End(bits, h)
    ensures Home(bits, g) == Home(bits, h) && Start(bits, g) == Start(bits, h)
  {
    hide Path, Low, Tree, Depth, Pow2;
    var d, e := Depth(bits, h), Depth(bits, g);
    var s := Low(g, e);
    LowSmall(s, e, e);
    PathAgrees(s, g, e);
    PathShort(s, e, MaxDepth);
    PathWithin(s, d, MaxDepth);
    assert Low(s, d) == Low(h, d) by {
      if Low(s, d) != Low(h, d) {
        PathsApart(s, h, d);
        PowPositive(MaxDepth);
      }
    }
    if d <= e {
      LowLow(g, d, e);
    } else {
      LowSmall(s, e, d);
      LowLow(h, e, d);
    }
    SameLeafEither(bits, h, g);
    PathAgrees(h, g, d);
  }

  lemma PowPositive(n: nat)
    ensures Pow2(n) >= 1
  {
  }

  lemma SameLeafEither(bits: iset<int>, h: int, g: int)
    requires Tree(bits)
    requires Low(h, Depth(bits, h)) == Low(g, Depth(bits, h)) || Low(h, Depth(bits, g)) == Low(g, Depth(bits, g))
    ensures Home(bits, h) == Home(bits, g) && Depth(bits, h) == Depth(bits, g)
    ensures Low(h, Depth(bits, h)) == Low(g, Depth(bits, h))
  {
    hide Low, Tree, Depth;
    SameLeaf(bits, h, g);
    SameLeaf(bits, g, h);
    OnePageOneLeaf(bits, h, g);
  }

  /** Leaves on one page have one start. */
  lemma StartOfPage(bits: iset<int>, h: int, g: int)
    requires Tree(bits) && Home(bits, h) == Home(bits, g)
    ensures Start(bits, h) == Start(bits, g) < End(bits, h) == End(bits, g)
  {
    hide Path, Low, Tree, Depth, Pow2;
    OnePageOneLeaf(bits, h, g);
    PathAgrees(h, g, Depth(bits, h));
    PowPositive(MaxDepth - Depth(bits, h));
  }

  // ----- hashinc

  lemma IncStep(hash: int, j: nat)
    requires j > 0
    ensures Pow2(j) / 2 == Pow2(j - 1)
    ensures Low(hash, j) / Pow2(j - 1) % 2 == 1 <==> BitOf(hash, j - 1)
    ensures Low(hash, j) == Low(hash, j - 1) + (if BitOf(hash, j - 1) then Pow2(j - 1) else 0)
  {
    var h := Low(hash, j);
    LowSmall(h, j, j);
    BitsAgree(h, hash, j - 1);
    LowNext(hash, j - 1);
  }

  /** The last clear bit of the path is set: that leads to the start of the next leaf. */
  lemma IncFound(bits: iset<int>, hash: int, j: nat)
    requires Tree(bits) && 0 < j <= Depth(bits, hash) && !BitOf(hash, j - 1)
    ensures var r := Low(hash, j) + Pow2(j - 1);
      && Start(bits, r) == Path(hash, j) + Pow2(MaxDepth - j) && Low(r, Depth(bits, r)) == r
  {
    hide Path, Low, BitOf, Depth, Tree;
    var s, p := Low(hash, j - 1), Pow2(j - 1);
    LowNext(hash, j - 1);
    var r := s + p;
    SetBit(s, r, j - 1);
    LowAgreeSelf(hash, r, j - 1);
    PathNext(r, j - 1);
    PathNext(hash, j - 1);
    PathAgrees(r, hash, j - 1);
    AtLeast(bits, hash, r, j);
    PathShort(r, j, Depth(bits, r));
    LowSmall(r, j, Depth(bits, r));
  }

  lemma SetBit(s: int, r: int, n: nat)
    requires 0 <= s < Pow2(n) && r == s + Pow2(n)
    ensures Low(r, n) == s && BitOf(r, n) && r < Pow2(n + 1)
  {
    ModIs(r, Pow2(n), 1, s);
    LowSmall(r, n + 1, n + 1);
    LowNext(r, n);
  }

  lemma LowAgreeSelf(hash: int, r: int, n: nat)
    requires Low(r, n) == Low(hash, n)
    ensures forall e: nat :: e <= n ==> Low(r, e) == Low(hash, e)
  {
    hide Low;
    forall e: nat | e <= n
      ensures Low(r, e) == Low(hash, e)
    {
      LowAgree(r, hash, e, n);
    }
  }

  /** A hash that shares the first j - 1 bits of a leaf below depth j - 1 goes as deep. */
  lemma AtLeast(bits: iset<int>, hash: int, r: int, j: nat)
    requires Tree(bits) && 0 < j <= Depth(bits, hash)
    requires forall e: nat :: e <= j - 1 ==> Low(r, e) == Low(hash, e)
    ensures Depth(bits, r) >= j
  {
    hide Low, Depth, Tree;
    DepthLeaf(bits, r);
    DepthLeaf(bits, hash);
  }

  lemma AllOnes(bits: iset<int>, hash: int)
    ensures Path(hash, 0) + Pow2(MaxDepth - 0) == Pow2(MaxDepth) && Pow2(0) == 1
    ensures Low(hash, 0) == 0
  {
  }

  /** The hash that leads to the start of the next leaf, or 0 after the last leaf. */
  method Hashinc(hash: int, hmask: int, ghost bits: iset<int>) returns (r: int)
    requires Tree(bits) && hmask + 1 == Pow2(Depth(bits, hash))
    ensures r == 0 ==> End(bits, hash) == Pow2(MaxDepth)
    ensures r != 0 ==> Start(bits, r) == End(bits, hash) && Low(r, Depth(bits, r)) == r
  {
    hide Path, Low, BitOf, Depth, Tree, Pow2, Start;
    ghost var j: nat := Depth(bits, hash);
    var h, bit := Masked(hash, hmask), hmask + 1;
    MaskedIsLow(hash, hmask, j);
    AllOnes(bits, hash);
    while true
      invariant j <= Depth(bits, hash) && bit == Pow2(j) && h == Low(hash, j)
      invariant Path(hash, j) + Pow2(MaxDepth - j) == End(bits, hash)
      decreases j
    {
      bit := bit / 2;
      if bit == 0 {
        assert j == 0 by {
          if j > 0 {
            IncStep(hash, j);
          }
        }
        return 0;
      }
      assert j > 0 by { AllOnes(bits, hash); }
      IncStep(hash, j);
      PathNext(hash, j - 1);
      if h / bit % 2 == 0 {
        IncFound(bits, hash, j);
        return h + bit;
      }
      h := h - bit;
      j := j - 1;
    }
  }
}
