/** The directory of a dbm database as a binary trie: the bit of node (d, r), the node reached by
    the low d bits r of a hash, has number r + 2^d - 1, and is set when the node has been split.
    The entries of leaf (d, r) are on page r. */
module DbmTrie {
  import opened Arith

  function Pow2(d: nat): (r: int)
    ensures r > 0
  {
    if d == 0 then 1 else 2 * Pow2(d - 1)
  }

  /** The deepest leaf whose page has a 31-bit file offset: page numbers stay below 2^22. */
  const MaxDepth: nat := 22

  /** hash & hmask for hmask = 2^d - 1. */
  function Low(h: int, d: nat): (r: int)
    ensures 0 <= r < Pow2(d)
  {
    h % Pow2(d)
  }

  /** Whether hash & (hmask + 1) is not 0. */
  predicate BitOf(h: int, d: nat) {
    h / Pow2(d) % 2 == 1
  }

  function Node(h: int, d: nat): int {
    Low(h, d) + Pow2(d) - 1
  }

  /** hash & hmask. */
  function Masked(hash: int, hmask: int): (r: int)
    requires hmask >= 0
    ensures 0 <= r <= hmask
  {
    hash % (hmask + 1)
  }

  lemma MaskedIsLow(h: int, hmask: int, d: nat)
    requires hmask >= 0 && hmask + 1 == Pow2(d)
    ensures Masked(h, hmask) == Low(h, d) && Low(h, d) + hmask == Node(h, d)
  {
  }

  // ----- arithmetic of low bits

  lemma TwoPieces(h: int, p: int)
    requires p > 0
    ensures h % (2 * p) == h % p + (if h / p % 2 == 1 then p else 0)
  {
    var q, r := h / p, h % p;
    var s, b := q / 2, q % 2;
    assert h == p * q + r;
    assert q == 2 * s + b;
    assert h == (2 * p) * s + (b * p + r) by {
      assert p * (2 * s + b) == (2 * p) * s + b * p;
    }
    ModIs(h, 2 * p, s, b * p + r);
  }

  lemma LowNext(h: int, d: nat)
    ensures Low(h, d + 1) == Low(h, d) + (if BitOf(h, d) then Pow2(d) else 0)
  {
    TwoPieces(h, Pow2(d));
  }

  lemma {:induction false} LowSmall(r: int, d: nat, e: nat)
    requires d <= e && 0 <= r < Pow2(d)
    ensures Low(r, e) == r && Pow2(d) <= Pow2(e)
    decreases e
  {
    if d < e {
      LowSmall(r, d, e - 1);
    }
    ModIs(r, Pow2(e), 0, r);
  }

  lemma {:induction false} LowLow(h: int, d: nat, e: nat)
    requires d <= e
    ensures Low(Low(h, e), d) == Low(h, d)
    decreases e
  {
    hide Low, BitOf;
    if d < e {
      LowLow(h, d, e - 1);
      LowOnce(h, e - 1);
      LowLow(Low(h, e), d, e - 1);
    } else {
      LowSmall(Low(h, d), d, d);
    }
  }

  lemma LowOnce(h: int, d: nat)
    ensures Low(Low(h, d + 1), d) == Low(h, d)
  {
    LowNext(h, d);
    if BitOf(h, d) {
      ModIs(Low(h, d + 1), Pow2(d), 1, Low(h, d));
    } else {
      ModIs(Low(h, d + 1), Pow2(d), 0, Low(h, d));
    }
  }

  lemma LowAgree(h: int, g: int, d: nat, e: nat)
    requires d <= e && Low(h, e) == Low(g, e)
    ensures Low(h, d) == Low(g, d)
  {
    LowLow(h, d, e);
    LowLow(g, d, e);
  }

  /** Distinct nodes have distinct bit numbers. */
  lemma NodeUnique(r: int, d: nat, s: int, e: nat)
    requires 0 <= r < Pow2(d) && 0 <= s < Pow2(e) && r + Pow2(d) == s + Pow2(e)
    ensures d == e && r == s
  {
    if d < e {
      PowTwice(d, e);
    } else if e < d {
      PowTwice(e, d);
    }
  }

  lemma {:induction false} PowTwice(d: nat, e: nat)
    requires d < e
    ensures 2 * Pow2(d) <= Pow2(e)
    decreases e
  {
    if d + 1 < e {
      PowTwice(d, e - 1);
    }
  }

  // ----- the trie

  ghost predicate Split(bits: iset<int>, r: int, d: nat) {
    r + Pow2(d) - 1 in bits
  }

  /** Only nodes above MaxDepth are split, and only below split nodes. */
  ghost predicate Tree(bits: iset<int>) {
    && (forall h: int, d: nat :: Split(bits, Low(h, d), d) ==> d < MaxDepth)
    && (forall h: int, d: nat, e: nat :: Split(bits, Low(h, e), e) && d <= e ==> Split(bits, Low(h, d), d))
  }

  /** The depth at which the search of dbm_access for h stops when it has come to depth d. */
  ghost function DepthFrom(bits: iset<int>, h: int, d: nat): (r: nat)
    requires d <= MaxDepth
    ensures d <= r <= MaxDepth
    ensures r < MaxDepth ==> !Split(bits, Low(h, r), r)
    decreases MaxDepth - d
  {
    if d < MaxDepth && Split(bits, Low(h, d), d) then DepthFrom(bits, h, d + 1) else d
  }

  ghost function Depth(bits: iset<int>, h: int): (r: nat)
    ensures r <= MaxDepth
  {
    DepthFrom(bits, h, 0)
  }

  /** The page on which an entry of hash h is kept. */
  ghost function Home(bits: iset<int>, h: int): (p: int)
    ensures p >= 0
  {
    Low(h, Depth(bits, h))
  }

  /** The page of a hash: the hash modulo 2^d, where d is the first depth at which the bit of that
      remainder plus 2^d - 1 is not set. */
  lemma HomeExactly(bits: iset<int>, h: int, d: nat)
    requires d <= MaxDepth && h % Pow2(d) + Pow2(d) - 1 !in bits
    requires forall e: nat :: e < d ==> h % Pow2(e) + Pow2(e) - 1 in bits
    ensures Depth(bits, h) == d && Home(bits, h) == h % Pow2(d)
  {
    forall e: nat | e < d
      ensures Split(bits, Low(h, e), e)
    {
      assert h % Pow2(e) + Pow2(e) - 1 in bits;
    }
    DepthFromIs(bits, h, d, 0);
  }

  /** d is the depth of h exactly when its node is a leaf reached through split nodes. */
  ghost predicate LeafAt(bits: iset<int>, h: int, d: nat) {
    !Split(bits, Low(h, d), d) && forall e: nat :: e < d ==> Split(bits, Low(h, e), e)
  }

  lemma {:induction false} DepthFromIs(bits: iset<int>, h: int, d: nat, k: nat)
    requires k <= d <= MaxDepth && LeafAt(bits, h, d)
    ensures DepthFrom(bits, h, k) == d
    decreases d - k
  {
    if k < d {
      DepthFromIs(bits, h, d, k + 1);
    }
  }

  lemma DepthIs(bits: iset<int>, h: int, d: nat)
    requires LeafAt(bits, h, d) && d <= MaxDepth
    ensures Depth(bits, h) == d
  {
    DepthFromIs(bits, h, d, 0);
  }

  lemma {:induction false} DepthFromLeaf(bits: iset<int>, h: int, d: nat)
    requires d <= MaxDepth && forall e: nat :: e < d ==> Split(bits, Low(h, e), e)
    ensures forall e: nat :: e < DepthFrom(bits, h, d) ==> Split(bits, Low(h, e), e)
    decreases MaxDepth - d
  {
    if d < MaxDepth && Split(bits, Low(h, d), d) {
      DepthFromLeaf(bits, h, d + 1);
    }
  }

  lemma DepthLeaf(bits: iset<int>, h: int)
    requires Tree(bits)
    ensures LeafAt(bits, h, Depth(bits, h))
  {
    DepthFromLeaf(bits, h, 0);
  }

  /** Distinct leaves have distinct page numbers: hashes with one page have one leaf. */
  lemma OnePageOneLeaf(bits: iset<int>, h: int, g: int)
    requires Tree(bits) && Home(bits, h) == Home(bits, g)
    ensures Depth(bits, h) == Depth(bits, g)
  {
    DepthLeaf(bits, h);
    DepthLeaf(bits, g);
    var d, e := Depth(bits, h), Depth(bits, g);
    if d < e {
      LowSmall(Home(bits, h), d, d);
      LowLow(g, d, e);
    } else if e < d {
      LowSmall(Home(bits, g), e, e);
      LowLow(h, e, d);
    }
  }

  /** Whether two hashes have the same leaf: exactly when they agree on the leaf's low bits. */
  lemma SameLeaf(bits: iset<int>, h: int, g: int)
    requires Tree(bits)
    ensures Home(bits, h) == Home(bits, g) <==> Low(h, Depth(bits, h)) == Low(g, Depth(bits, h))
  {
    if Home(bits, h) == Home(bits, g) {
      OnePageOneLeaf(bits, h, g);
    }
    var d := Depth(bits, h);
    if Low(h, d) == Low(g, d) {
      DepthLeaf(bits, h);
      forall e: nat | e < d
        ensures Split(bits, Low(g, e), e)
      {
        LowAgree(h, g, e, d);
      }
      DepthIs(bits, g, d);
    }
  }

  // ----- splitting a leaf

  ghost function SplitLeaf(bits: iset<int>, h: int): iset<int> {
    bits + iset{Node(h, Depth(bits, h))}
  }

  lemma SplitMeans(bits: iset<int>, h: int, r: int, d: nat)
    requires 0 <= r < Pow2(d)
    ensures Split(SplitLeaf(bits, h), r, d) <==> Split(bits, r, d) || (d == Depth(bits, h) && r == Home(bits, h))
  {
    if r + Pow2(d) - 1 == Node(h, Depth(bits, h)) {
      NodeUnique(r, d, Home(bits, h), Depth(bits, h));
    }
  }

  lemma SplitTree(bits: iset<int>, h: int)
    requires Tree(bits) && Depth(bits, h) < MaxDepth
    ensures Tree(SplitLeaf(bits, h))
  {
    var bits' := SplitLeaf(bits, h);
    forall g: int, d: nat | Split(bits', Low(g, d), d)
      ensures d < MaxDepth
    {
      SplitMeans(bits, h, Low(g, d), d);
    }
    forall g: int, d: nat, e: nat | Split(bits', Low(g, e), e) && d <= e
      ensures Split(bits', Low(g, d), d)
    {
      SplitMeans(bits, h, Low(g, e), e);
      SplitMeans(bits, h, Low(g, d), d);
      if !Split(bits, Low(g, e), e) && d < e {
        DepthLeaf(bits, h);
        LowAgree(g, h, d, e);
      }
    }
  }

  /** After the split the entries of the leaf are told apart by the next bit of their hash, and
      every other entry stays where it was, which is not on the new page. */
  lemma SplitHome(bits: iset<int>, h: int, g: int)
    requires Tree(bits) && Depth(bits, h) < MaxDepth
    ensures var p, bits' := Home(bits, h), SplitLeaf(bits, h);
      && (Home(bits, g) == p ==>
          && Depth(bits', g) == Depth(bits, h) + 1
          && Home(bits', g) == if BitOf(g, Depth(bits, h)) then p + Pow2(Depth(bits, h)) else p)
      && (Home(bits, g) != p ==> Home(bits', g) == Home(bits, g) && Home(bits, g) != p + Pow2(Depth(bits, h)))
  {
    var d, bits' := Depth(bits, h), SplitLeaf(bits, h);
    SplitTree(bits, h);
    DepthLeaf(bits, g);
    if Home(bits, g) == Home(bits, h) {
      OnePageOneLeaf(bits, h, g);
      SplitDeeper(bits, h, g);
      LowNext(g, d);
    } else {
      SplitElsewhere(bits, h, g);
    }
  }

  lemma SplitDeeper(bits: iset<int>, h: int, g: int)
    requires Tree(bits) && Depth(bits, h) < MaxDepth
    requires Home(bits, g) == Home(bits, h) && Depth(bits, g) == Depth(bits, h)
    ensures Depth(SplitLeaf(bits, h), g) == Depth(bits, h) + 1
  {
    var d, bits' := Depth(bits, h), SplitLeaf(bits, h);
    DepthLeaf(bits, g);
    forall e: nat | e < d + 1
      ensures Split(bits', Low(g, e), e)
    {
      SplitMeans(bits, h, Low(g, e), e);
    }
    SplitMeans(bits, h, Low(g, d + 1), d + 1);
    assert Split(bits, Low(g, d + 1), d + 1) ==> Split(bits, Low(g, d), d);
    DepthIs(bits', g, d + 1);
  }

  lemma SplitElsewhere(bits: iset<int>, h: int, g: int)
    requires Tree(bits) && Depth(bits, h) < MaxDepth && Home(bits, g) != Home(bits, h)
    ensures Depth(SplitLeaf(bits, h), g) == Depth(bits, g)
    ensures Home(bits, g) != Home(bits, h) + Pow2(Depth(bits, h))
  {
    var d, e, bits' := Depth(bits, h), Depth(bits, g), SplitLeaf(bits, h);
    DepthLeaf(bits, g);
    forall k: nat | k < e
      ensures Split(bits', Low(g, k), k)
    {
      SplitMeans(bits, h, Low(g, k), k);
    }
    SplitMeans(bits, h, Low(g, e), e);
    DepthIs(bits', g, e);
    if Low(g, e) == Home(bits, h) + Pow2(d) {
      if e <= d {
        LowSmall(Low(g, e), e, d);
      } else {
        LowLow(g, d, e);
        ModIs(Low(g, e), Pow2(d), 1, Home(bits, h));
        DepthLeaf(bits, h);
      }
    }
  }
}
