/** Doubly linked rings with a header, kept in two link fields: the device chains (b_forw,
    b_back) and the available list (av_forw, av_back) of bio.c. Headers and buffers are
    numbered; f[x] is the element after x and g[x] the one before it. */
module BufferRings {
  import opened BufferProtocol
  import opened BufferSafety

  ghost predicate Distinct(q: seq<int>) {
    forall i, j :: 0 <= i < j < |q| ==> q[i] != q[j]
  }

  /** The elements of the ring in order, starting and ending with the header. */
  ghost function Elt(h: int, q: seq<int>, i: int): int {
    if 1 <= i <= |q| then q[i - 1] else h
  }

  /** Elements i and i + 1 of the ring point at each other. */
  ghost predicate LinkAt(f: seq<int>, g: seq<int>, h: int, q: seq<int>, i: int) {
    var x, y := Elt(h, q, i), Elt(h, q, i + 1);
    0 <= x < |f| && 0 <= y < |g| && f[x] == y && g[y] == x
  }

  /** Going round from header h one meets the elements of q in order, in both directions. */
  ghost predicate Ring(f: seq<int>, g: seq<int>, h: int, q: seq<int>)
  {
    && |f| == |g| && Distinct(q) && h !in q
    && (forall i :: 0 <= i <= |q| ==> LinkAt(f, g, h, q, i))
  }

  /** A ring only depends on the links of its own elements. */
  lemma RingFrame(f: seq<int>, g: seq<int>, h: int, q: seq<int>, f': seq<int>, g': seq<int>)
    requires Ring(f, g, h, q) && |f'| == |f| && |g'| == |g| && 0 <= h < |f|
    requires f'[h] == f[h] && g'[h] == g[h]
    requires forall x :: x in q && 0 <= x < |f| ==> f'[x] == f[x] && g'[x] == g[x]
    ensures Ring(f', g', h, q)
  {
    forall i | 0 <= i <= |q|
      ensures LinkAt(f', g', h, q, i)
    {
      assert LinkAt(f, g, h, q, i);
    }
  }

  lemma {:induction false} RemoveAt(q: seq<int>, k: int)
    requires Distinct(q) && 0 <= k < |q|
    ensures Remove(q, q[k]) == q[..k] + q[k + 1..]
  {
    if k == 0 {
    } else {
      assert q[0] != q[k];
      RemoveAt(q[1..], k - 1);
      assert q[1..][k - 1] == q[k];
      assert q[1..][..k - 1] == q[1..k] && q[1..][k..] == q[k + 1..];
      assert [q[0]] + (q[1..k] + q[k + 1..]) == q[..k] + q[k + 1..];
    }
  }

  /** Apart from the header at both ends, no element occurs twice. */
  lemma EltDistinct(h: int, q: seq<int>, i: int, j: int)
    requires Distinct(q) && h !in q && 0 <= i < j <= |q| + 1 && !(i == 0 && j == |q| + 1)
    ensures Elt(h, q, i) != Elt(h, q, j)
  {
  }

  /** Unlinking an element: the code of notavail, and the first half of a reassignment. */
  lemma RingUnlink(f: seq<int>, g: seq<int>, h: int, q: seq<int>, b: int)
    requires Ring(f, g, h, q) && b in q
    ensures 0 <= b < |f| && 0 <= f[b] < |f| && 0 <= g[b] < |f|
    ensures Ring(f[g[b] := f[b]], g[f[b] := g[b]], h, Remove(q, b))
    ensures forall x :: 0 <= x < |f| && x != h && x !in q ==> f[g[b] := f[b]][x] == f[x] && g[f[b] := g[b]][x] == g[x]
  {
    hide LinkAt, Elt;
    var k :| 0 <= k < |q| && q[k] == b;
    Neighbours(f, g, h, q, k);
    RemoveAt(q, k);
    var r, f', g' := q[..k] + q[k + 1..], f[g[b] := f[b]], g[f[b] := g[b]];
    RemoveOne(q, b);
    forall i | 0 <= i <= |r|
      ensures LinkAt(f', g', h, r, i)
    {
      UnlinkAt(f, g, h, q, k, i);
    }
  }

  /** The links of an element lead to the one before it and the one after it. */
  lemma Neighbours(f: seq<int>, g: seq<int>, h: int, q: seq<int>, k: int)
    requires Ring(f, g, h, q) && 0 <= k < |q|
    ensures var b := q[k];
      && 0 <= b < |f| == |g| && 0 <= f[b] < |f| && 0 <= g[b] < |f|
      && g[b] == Elt(h, q, k) && f[b] == Elt(h, q, k + 2)
      && (g[b] == h || g[b] in q) && (f[b] == h || f[b] in q)
  {
    assert LinkAt(f, g, h, q, k) && LinkAt(f, g, h, q, k + 1);
    assert Elt(h, q, k + 1) == q[k];
  }

  lemma UnlinkAt(f: seq<int>, g: seq<int>, h: int, q: seq<int>, k: int, i: int)
    requires Ring(f, g, h, q) && 0 <= k < |q| && 0 <= i <= |q| - 1
    ensures var x, y := Elt(h, q, k), Elt(h, q, k + 2);
            && 0 <= x < |f| && 0 <= y < |g|
            && LinkAt(f[x := y], g[y := x], h, q[..k] + q[k + 1..], i)
  {
    var r := q[..k] + q[k + 1..];
    assert forall j :: 0 <= j <= |r| + 1 ==> Elt(h, r, j) == Elt(h, q, if j <= k then j else j + 1);
    assert LinkAt(f, g, h, q, k) && LinkAt(f, g, h, q, k + 1);
    if i < k {
      assert LinkAt(f, g, h, q, i);
      EltDistinct(h, q, i, k);
      EltDistinct(h, q, i + 1, k + 2);
    } else if i > k {
      assert LinkAt(f, g, h, q, i + 1);
      EltDistinct(h, q, k, i + 1);
      EltDistinct(h, q, k + 2, i + 2);
    }
  }

  /** Linking an element in directly after the header. */
  lemma RingInsertFront(f: seq<int>, g: seq<int>, h: int, q: seq<int>, b: int)
    requires Ring(f, g, h, q) && 0 <= b < |f| && b != h && b !in q
    ensures 0 <= h < |f| && 0 <= f[h] < |f|
    ensures Ring(f[b := f[h]][h := b], g[f[h] := b][b := h], h, [b] + q)
    ensures forall x :: 0 <= x < |f| && x != h && x != b && x !in q ==>
                          f[b := f[h]][h := b][x] == f[x] && g[f[h] := b][b := h][x] == g[x]
  {
    assert LinkAt(f, g, h, q, 0);
    var r, f', g' := [b] + q, f[b := f[h]][h := b], g[f[h] := b][b := h];
    assert forall j :: 2 <= j <= |r| + 1 ==> Elt(h, r, j) == Elt(h, q, j - 1);
    forall i | 0 <= i <= |r|
      ensures LinkAt(f', g', h, r, i)
    {
      if i >= 2 {
        assert LinkAt(f, g, h, q, i - 1);
        EltDistinct(h, q, 0, i - 1);
        EltDistinct(h, q, 1, i);
      }
    }
  }

  /** Linking an element in directly before the header. */
  lemma RingInsertBack(f: seq<int>, g: seq<int>, h: int, q: seq<int>, b: int)
    requires Ring(f, g, h, q) && 0 <= b < |f| && b != h && b !in q
    ensures 0 <= h < |f| && 0 <= g[h] < |f|
    ensures Ring(f[g[h] := b][b := h], g[b := g[h]][h := b], h, q + [b])
  {
    assert LinkAt(f, g, h, q, |q|);
    var r, f', g' := q + [b], f[g[h] := b][b := h], g[b := g[h]][h := b];
    assert forall j :: 0 <= j <= |q| ==> Elt(h, r, j) == Elt(h, q, j);
    forall i | 0 <= i <= |r|
      ensures LinkAt(f', g', h, r, i)
    {
      if i < |q| {
        assert LinkAt(f, g, h, q, i);
        EltDistinct(h, q, i, |q|);
        EltDistinct(h, q, i + 1, |q| + 1);
      }
    }
  }
}
