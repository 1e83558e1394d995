/** Stone's k-candidate algorithm: stone, newcand and search of diff.c. */
module DiffStone {
  import opened DiffMatching

  datatype Cand = Cand(x: int, y: int, pred: nat)

  /** The free storage pot for candidates; it only ever grows. */
  class Pot {
    var clist: seq<Cand>

    constructor ()
      ensures clist == []
    {
      clist := [];
    }

    method NewCand(x: int, y: int, pred: nat) returns (p: nat)
      modifies this
      ensures p == |old(clist)| && clist == old(clist) + [Cand(x, y, pred)]
    {
      p := |clist|;
      clist := clist + [Cand(x, y, pred)];
    }
  }

  // ----- what the candidates mean

  /** rank[p] is the length of the chain hanging from candidate p. Every candidate but the
      first one mates two equal lines and lies strictly after its predecessor. */
  ghost predicate Linked(cl: seq<Cand>, rank: seq<int>, a: seq<int>, b: seq<int>)
  {
    && |rank| == |cl| && |cl| > 0
    && cl[0] == Cand(0, 0, 0) && rank[0] == 0
    && (forall p :: 1 <= p < |cl| ==> cl[p].pred < p)
    && (forall p :: 1 <= p < |cl| ==> LinkedAt(cl, rank, a, b, p))
  }

  ghost predicate LinkedAt(cl: seq<Cand>, rank: seq<int>, a: seq<int>, b: seq<int>, p: int)
    requires |rank| == |cl| && 0 <= p < |cl|
  {
    && cl[p].pred < p
    && 1 <= cl[p].x <= |a| && 1 <= cl[p].y <= |b|
    && a[cl[p].x - 1] == b[cl[p].y - 1]
    && cl[cl[p].pred].x < cl[p].x && cl[cl[p].pred].y < cl[p].y
    && rank[p] == rank[cl[p].pred] + 1
  }

  lemma LinkedSnoc(cl: seq<Cand>, rank: seq<int>, a: seq<int>, b: seq<int>, d: Cand, l: nat)
    requires Linked(cl, rank, a, b)
    requires d.pred < |cl| && l == rank[d.pred] + 1
    requires 1 <= d.x <= |a| && 1 <= d.y <= |b| && a[d.x - 1] == b[d.y - 1]
    requires cl[d.pred].x < d.x && cl[d.pred].y < d.y
    ensures Linked(cl + [d], rank + [l], a, b)
  {
    forall p | 1 <= p < |cl + [d]|
      ensures LinkedAt(cl + [d], rank + [l], a, b, p)
    {
      if p < |cl| {
        assert LinkedAt(cl, rank, a, b, p);
      }
    }
  }

  /** The common subsequence that unravel reads off the chain of candidate p. */
  ghost function ChainOf(cl: seq<Cand>, p: nat): (q: seq<Mate>)
    requires p < |cl|
    requires forall r :: 1 <= r < |cl| ==> cl[r].pred < r
    decreases p
  {
    if p == 0 then [] else ChainOf(cl, cl[p].pred) + [Mate(cl[p].x, cl[p].y)]
  }

  lemma {:induction false} ChainIsMatching(cl: seq<Cand>, rank: seq<int>, a: seq<int>, b: seq<int>, p: nat)
    requires Linked(cl, rank, a, b) && p < |cl|
    ensures |ChainOf(cl, p)| == rank[p]
    ensures 0 <= cl[p].x <= |a| && 0 <= cl[p].y <= |b|
    ensures Matching(ChainOf(cl, p), a, b, cl[p].x, cl[p].y)
    ensures EndsAt(ChainOf(cl, p), cl[p].x, cl[p].y)
    decreases p
  {
    if p > 0 {
      assert LinkedAt(cl, rank, a, b, p);
      var d := cl[p];
      ChainIsMatching(cl, rank, a, b, d.pred);
      MatchingSnoc(ChainOf(cl, d.pred), a, b, cl[d.pred].x, cl[d.pred].y, d.x, d.y);
    }
  }

  /** The y's of the candidate vector. */
  ghost function Ys(c: seq<int>, k: nat, cl: seq<Cand>): (ys: seq<int>)
    requires k < |c| && forall l :: 0 <= l <= k ==> 0 <= c[l] < |cl|
    ensures |ys| == k + 1
    ensures forall l :: 0 <= l <= k ==> ys[l] == cl[c[l]].y
  {
    seq(k + 1, l requires 0 <= l <= k => cl[c[l]].y)
  }

  ghost predicate Increasing(s: seq<int>) {
    forall l, h :: 0 <= l < h < |s| ==> s[l] < s[h]
  }

  /** klist is a well-formed candidate vector of length k: entry l heads a chain of length l
      of mates in the first i old lines, and the y's strictly increase. */
  ghost predicate Klist(c: seq<int>, k: nat, cl: seq<Cand>, rank: seq<int>, i: int)
  {
    && k < |c| && c[0] == 0 && |cl| == |rank| > 0 && cl[0].y == 0
    && (forall l :: 0 <= l <= k ==> 0 <= c[l] < |cl|)
    && (forall l :: 0 <= l <= k ==> rank[c[l]] == l && cl[c[l]].x <= i)
    && Increasing(Ys(c, k, cl))
  }

  /** Nothing in the first i old lines beats the candidate vector: a common subsequence of
      length l exists only for l <= k, never ends before the y of entry l, and if it ends at
      that y it does not use an earlier mate x. */
  ghost predicate Optimal(c: seq<int>, k: nat, cl: seq<Cand>, a: seq<int>, b: seq<int>, i: int)
    requires k < |c| && forall l :: 0 <= l <= k ==> 0 <= c[l] < |cl|
  {
    forall p :: Matching(p, a, b, i, |b|) ==> Bounded(c, k, cl, p)
  }

  ghost predicate Bounded(c: seq<int>, k: nat, cl: seq<Cand>, p: seq<Mate>)
    requires k < |c| && forall l :: 0 <= l <= k ==> 0 <= c[l] < |cl|
  {
    && |p| <= k
    && (|p| > 0 ==>
          var e, d := p[|p| - 1], cl[c[|p|]];
          d.y < e.y || (d.y == e.y && d.x <= e.x))
  }

  /** The k-candidate of the header comment: (x, y) ends a common subsequence of length l of
      the first i old lines, no such subsequence ends at a smaller y, and x is the earliest
      mate of y that ends one. */
  ghost predicate KCandidate(a: seq<int>, b: seq<int>, i: int, l: nat, x: int, y: int)
  {
    && (exists p :: Matching(p, a, b, i, y) && |p| == l && EndsAt(p, x, y))
    && (forall p: seq<Mate> :: Matching(p, a, b, i, |b|) && |p| == l && l > 0 ==>
                      y < p[l - 1].y || (y == p[l - 1].y && x <= p[l - 1].x))
  }

  ghost predicate EndsAt(p: seq<Mate>, x: int, y: int) {
    if p == [] then x == 0 && y == 0 else p[|p| - 1] == Mate(x, y)
  }

  /** The entries of an optimal vector are exactly the k-candidates of the header comment. */
  lemma KlistHoldsKCandidates(c: seq<int>, k: nat, cl: seq<Cand>, rank: seq<int>,
                              a: seq<int>, b: seq<int>, i: int, l: nat)
    requires 0 <= i <= |a| && l <= k
    requires Linked(cl, rank, a, b) && Klist(c, k, cl, rank, i) && Optimal(c, k, cl, a, b, i)
    ensures KCandidate(a, b, i, l, cl[c[l]].x, cl[c[l]].y)
    ensures forall p :: Matching(p, a, b, i, |b|) ==> |p| <= k
  {
    var p, d := ChainOf(cl, c[l]), cl[c[l]];
    ChainIsMatching(cl, rank, a, b, c[l]);
    assert Matching(p, a, b, i, d.y) && |p| == l && EndsAt(p, d.x, d.y);
    forall q: seq<Mate> | Matching(q, a, b, i, |b|)
      ensures Bounded(c, k, cl, q)
    {
    }
  }

  // ----- the member array

  /** From slot j, member holds one equivalence class ys: exactly the line numbers of the new
      file whose value is v, in increasing order, the first one negated; the slot after it is
      not positive and stops the scan. */
  ghost predicate ClassAt(member: seq<int>, j: int, ys: seq<int>, v: int, b: seq<int>)
  {
    && 0 <= j && 0 < |ys| && j + |ys| < |member|
    && member[j] == -ys[0] && member[j + |ys|] <= 0
    && (forall t :: 0 < t < |ys| ==> member[j + t] == ys[t])
    && Increasing(ys)
    && (forall t :: 0 <= t < |ys| ==> 1 <= ys[t] <= |b| && b[ys[t] - 1] == v)
    && (forall y {:trigger y in ys} :: 1 <= y <= |b| && b[y - 1] == v ==> y in ys)
  }

  /** class sends every old line to its class in member, or to 0 when the new file has no
      equal line. */
  ghost predicate Classified(cls: seq<int>, member: seq<int>, a: seq<int>, b: seq<int>)
  {
    && |cls| > |a|
    && (forall i :: 1 <= i <= |a| ==> ClassifiedAt(cls[i], member, a[i - 1], b))
  }

  ghost predicate ClassifiedAt(j: int, member: seq<int>, v: int, b: seq<int>)
  {
    if j == 0 then v !in b else exists ys :: ClassAt(member, j, ys, v, b)
  }

  // ----- one row, seen as a step from the y's of the rows before to new y's

  /** Each of the first t members of the class that exceeds entry l of y0 bounds entry l + 1 of y1. */
  ghost predicate Covered(y0: seq<int>, y1: seq<int>, ys: seq<int>, t: int)
    requires 0 <= t <= |ys|
  {
    forall s, l :: 0 <= s < t && 0 <= l < |y0| ==> CoveredAt(y0, y1, ys[s], l)
  }

  ghost predicate CoveredAt(y0: seq<int>, y1: seq<int>, y: int, l: int)
    requires 0 <= l < |y0|
  {
    y0[l] < y ==> l + 1 < |y1| && y1[l + 1] <= y
  }

  /** Loop state of one row: entries above oldl are still the old ones, and the candidate held
      in oldc is the old entry f, where either f is oldl, or a y equal to the old entry f + 1
      has just been passed. */
  ghost predicate Scanning(y0: seq<int>, y1: seq<int>, ys: seq<int>, t: int, oldl: nat, f: nat)
  {
    && |y0| == |y1| > 0 && y0[0] == 0 && 0 <= t <= |ys|
    && Increasing(y0) && Increasing(y1) && Increasing(ys) && (|ys| > 0 ==> ys[0] > 0)
    && (forall l :: 0 <= l < |y0| ==> y1[l] <= y0[l])
    && Covered(y0, y1, ys, t)
    && oldl <= f < |y0|
    && (forall l :: oldl < l < |y0| ==> y1[l] == y0[l])
    && (oldl > 0 ==> t > 0 && y1[oldl] <= ys[t - 1])
    && (f == oldl || (t > 0 && f + 1 < |y0| && y0[f + 1] <= ys[t - 1]))
  }

  /** A y not above the candidate it would follow changes nothing. */
  lemma SkipLow(y0: seq<int>, y1: seq<int>, ys: seq<int>, t: int, oldl: nat, f: nat)
    requires Scanning(y0, y1, ys, t, oldl, f) && t < |ys| && ys[t] <= y0[f]
    ensures Scanning(y0, y1, ys, t + 1, oldl, f)
  {
    assert t > 0 ==> ys[t - 1] < ys[t];
    assert f == oldl;
    forall l | 0 <= l < |y0|
      ensures CoveredAt(y0, y1, ys[t], l)
    {
    }
  }

  /** Where search puts y, and which old entry precedes it. */
  lemma Slot(y0: seq<int>, y1: seq<int>, ys: seq<int>, t: int, oldl: nat, f: nat, l: nat)
    requires Scanning(y0, y1, ys, t, oldl, f) && t < |ys| && y0[f] < ys[t]
    requires 1 <= l <= |y1| && y1[l - 1] < ys[t] && (l < |y1| ==> ys[t] <= y1[l])
    ensures oldl < l && (l == oldl + 1 ==> f == oldl)
    ensures y0[l - 1] < ys[t]
  {
    assert t > 0 ==> ys[t - 1] < ys[t];
  }

  /** A y equal to an entry changes nothing. */
  lemma SkipEqual(y0: seq<int>, y1: seq<int>, ys: seq<int>, t: int, oldl: nat, f: nat, l: nat)
    requires Scanning(y0, y1, ys, t, oldl, f) && t < |ys|
    requires oldl < l < |y1| && y1[l] == ys[t] && (l == oldl + 1 ==> f == oldl)
    ensures Scanning(y0, y1, ys, t + 1, oldl, if l == oldl + 1 then f else l - 1)
  {
    forall h | 0 <= h < |y0|
      ensures CoveredAt(y0, y1, ys[t], h)
    {
    }
  }

  /** A y strictly between two entries replaces the upper one. */
  lemma Install(y0: seq<int>, y1: seq<int>, ys: seq<int>, t: int, oldl: nat, f: nat, l: nat)
    requires Scanning(y0, y1, ys, t, oldl, f) && t < |ys|
    requires oldl < l < |y1| && y1[l - 1] < ys[t] < y1[l] && y0[l - 1] < ys[t]
    ensures Scanning(y0, y1[l := ys[t]], ys, t + 1, l, l)
  {
    var y2 := y1[l := ys[t]];
    forall s, h | 0 <= s < t + 1 && 0 <= h < |y0|
      ensures CoveredAt(y0, y2, ys[s], h)
    {
      if s < t {
        assert CoveredAt(y0, y1, ys[s], h);
      }
    }
  }

  /** A y above all entries extends the vector and finishes the row. */
  lemma Extend(y0: seq<int>, y1: seq<int>, ys: seq<int>, t: int, oldl: nat, f: nat)
    requires Scanning(y0, y1, ys, t, oldl, f) && t < |ys|
    requires y1[|y1| - 1] < ys[t]
    ensures Increasing(y1 + [ys[t]]) && Covered(y0, y1 + [ys[t]], ys, |ys|)
  {
    var y2 := y1 + [ys[t]];
    forall s, h | 0 <= s < |ys| && 0 <= h < |y0|
      ensures CoveredAt(y0, y2, ys[s], h)
    {
      if s < t {
        assert CoveredAt(y0, y1, ys[s], h);
      }
    }
  }

  /** An entry only changes by strictly lowering its y. */
  ghost predicate Lowered(c0: seq<int>, k0: nat, c: seq<int>, cl: seq<Cand>)
    requires k0 < |c0| == |c| && forall l :: 0 <= l <= k0 ==> 0 <= c0[l] < |cl| && 0 <= c[l] < |cl|
  {
    forall l :: 0 <= l <= k0 ==> c[l] == c0[l] || cl[c[l]].y < cl[c0[l]].y
  }

  /** The part of a common subsequence before its mate of line i is bounded by the rows before. */
  lemma FrontBounded(p: seq<Mate>, c0: seq<int>, k0: nat, cl: seq<Cand>, a: seq<int>, b: seq<int>, i: int)
    requires 1 <= i <= |a| && k0 < |c0|
    requires forall l :: 0 <= l <= k0 ==> 0 <= c0[l] < |cl|
    requires cl[c0[0]].y == 0
    requires Optimal(c0, k0, cl, a, b, i - 1)
    requires Matching(p, a, b, i, |b|) && p != [] && p[|p| - 1].x == i
    ensures |p| - 1 <= k0 && cl[c0[|p| - 1]].y < p[|p| - 1].y
  {
    var n := |p|;
    var q := p[..n - 1];
    MatchingFront(p, a, b, i, |b|);
    assert Matching(q, a, b, i - 1, |b|);
    assert Bounded(c0, k0, cl, q);
    if n > 1 {
      assert q[n - 2] == p[n - 2];
    }
  }

  /** A common subsequence of the first i lines that uses line i is bounded by the finished row. */
  lemma RowBounds(p: seq<Mate>, c0: seq<int>, k0: nat, c: seq<int>, k: nat, cl: seq<Cand>, rank: seq<int>,
                  a: seq<int>, b: seq<int>, i: int, ys: seq<int>, v: int)
    requires 1 <= i <= |a| && v == a[i - 1]
    requires Klist(c0, k0, cl, rank, i - 1) && Klist(c, k, cl, rank, i)
    requires Optimal(c0, k0, cl, a, b, i - 1)
    requires forall y {:trigger y in ys} :: 1 <= y <= |b| && b[y - 1] == v ==> y in ys
    requires Covered(Ys(c0, k0, cl), Ys(c, k, cl), ys, |ys|)
    requires Matching(p, a, b, i, |b|) && p != [] && p[|p| - 1].x == i
    ensures Bounded(c, k, cl, p)
  {
    var n, y := |p|, p[|p| - 1].y;
    FrontBounded(p, c0, k0, cl, a, b, i);
    assert y in ys;
    var s :| 0 <= s < |ys| && ys[s] == y;
    assert CoveredAt(Ys(c0, k0, cl), Ys(c, k, cl), ys[s], n - 1);
  }

  /** A finished row keeps the vector optimal. */
  lemma RowKeepsOptimal(c0: seq<int>, k0: nat, c: seq<int>, k: nat, cl: seq<Cand>, rank: seq<int>,
                        a: seq<int>, b: seq<int>, i: int, ys: seq<int>)
    requires 1 <= i <= |a| && |c| == |c0| && k0 <= k
    requires Klist(c0, k0, cl, rank, i - 1) && Klist(c, k, cl, rank, i)
    requires Optimal(c0, k0, cl, a, b, i - 1)
    requires forall y {:trigger y in ys} :: 1 <= y <= |b| && b[y - 1] == a[i - 1] ==> y in ys
    requires Covered(Ys(c0, k0, cl), Ys(c, k, cl), ys, |ys|)
    requires Lowered(c0, k0, c, cl)
    ensures Optimal(c, k, cl, a, b, i)
  {
    forall p: seq<Mate> | Matching(p, a, b, i, |b|)
      ensures Bounded(c, k, cl, p)
    {
      if p != [] && p[|p| - 1].x == i {
        RowBounds(p, c0, k0, c, k, cl, rank, a, b, i, ys, a[i - 1]);
      } else {
        assert Matching(p, a, b, i - 1, |b|);
        assert Bounded(c0, k0, cl, p);
      }
    }
  }

  /** An old line without an equal new line changes nothing. */
  lemma UnmatchedKeepsOptimal(c: seq<int>, k: nat, cl: seq<Cand>, a: seq<int>, b: seq<int>, i: int)
    requires 1 <= i <= |a| && a[i - 1] !in b
    requires k < |c| && forall l :: 0 <= l <= k ==> 0 <= c[l] < |cl|
    requires Optimal(c, k, cl, a, b, i - 1)
    ensures Optimal(c, k, cl, a, b, i)
  {
    forall p: seq<Mate> | Matching(p, a, b, i, |b|)
      ensures Bounded(c, k, cl, p)
    {
      assert p != [] ==> b[p[|p| - 1].y - 1] in b;
      assert Matching(p, a, b, i - 1, |b|);
    }
  }

  // ----- the algorithm

  /** Binary search for the slot of y in the candidate vector. */
  method Search(clist: seq<Cand>, c: array<int>, k: nat, y: int) returns (l: nat)
    requires k < c.Length
    requires forall h :: 0 <= h <= k ==> 0 <= c[h] < |clist|
    requires forall g, h :: 0 <= g < h <= k ==> clist[c[g]].y < clist[c[h]].y
    requires clist[c[0]].y < y
    ensures 1 <= l <= k + 1
    ensures clist[c[l - 1]].y < y
    ensures l <= k ==> y <= clist[c[l]].y
  {
    if clist[c[k]].y < y {
      return k + 1;
    }
    var i, j := 0, k + 1;
    l := (i + j) / 2;
    while l > i
      invariant 0 <= i < j <= k + 1
      invariant l == (i + j) / 2
      invariant clist[c[i]].y < y
      invariant j <= k ==> y < clist[c[j]].y
      decreases j - i
    {
      var t := clist[c[l]].y;
      if t > y {
        j := l;
      } else if t < y {
        i := l;
      } else {
        return l;
      }
      l := (i + j) / 2;
    }
    return l + 1;
  }

  /** The row in hand: line i of the old file, its class ys, and the vector and pot it starts from. */
  datatype Row = Row(a: seq<int>, b: seq<int>, i: int, ys: seq<int>, c0: seq<int>, k0: nat, cl0: seq<Cand>)

  /** The vector, pot and chain lengths as the row proceeds. */
  datatype Vec = Vec(c: seq<int>, cl: seq<Cand>, rank: seq<int>)

  /** What holds of the vector throughout a row. */
  ghost predicate Sound(r: Row, v: Vec, k: nat)
  {
    && r.cl0 <= v.cl && |v.c| == |r.c0|
    && r.k0 <= k <= r.k0 + 1 < |r.c0|
    && OneClass(r)
    && Linked(v.cl, v.rank, r.a, r.b)
    && Klist(r.c0, r.k0, v.cl, v.rank, r.i - 1) && Klist(v.c, k, v.cl, v.rank, r.i)
    && Lowered(r.c0, r.k0, v.c, v.cl)
  }

  /** The class of the row consists of new lines equal to old line i. */
  ghost predicate OneClass(r: Row) {
    && 1 <= r.i <= |r.a| && |r.ys| > 0
    && (forall t :: 0 <= t < |r.ys| ==> 1 <= r.ys[t] <= |r.b| && r.b[r.ys[t] - 1] == r.a[r.i - 1])
  }

  /** The loop state of a row with t members of its class offered. */
  ghost predicate Offered(r: Row, v: Vec, t: int, oldl: nat, oldc: nat, f: nat)
  {
    match r
    case Row(a, b, i, ys, c0, k0, cl0) =>
      && Sound(r, v, k0)
      && Scanning(Ys(c0, k0, v.cl), Ys(v.c, k0, v.cl), ys, t, oldl, f)
      && oldc == c0[f]
      && (forall l :: oldl < l <= k0 ==> v.c[l] == c0[l])
  }

  /** A finished row. */
  ghost predicate Finished(r: Row, v: Vec, k: nat)
  {
    match r
    case Row(a, b, i, ys, c0, k0, cl0) =>
      && Sound(r, v, k)
      && Covered(Ys(c0, k0, v.cl), Ys(v.c, k, v.cl), ys, |ys|)
  }

  /** The vector and pot after c[l] = newcand(i, y, pred), for a chain of length l. */
  ghost function Put(v: Vec, l: nat, i: int, y: int, pred: nat): Vec
    requires l < |v.c|
  {
    Vec(v.c[l := |v.cl|], v.cl + [Cand(i, y, pred)], v.rank + [l])
  }

  /** Facts about the loop state that keep the code well defined. */
  lemma OfferedFacts(r: Row, v: Vec, t: int, oldl: nat, oldc: nat, f: nat)
    requires Offered(r, v, t, oldl, oldc, f)
    ensures r.k0 + 1 < |v.c| == |r.c0| && oldc < |v.cl|
    ensures forall l :: 0 <= l <= r.k0 ==> 0 <= v.c[l] < |v.cl| && 0 <= r.c0[l] < |v.cl|
  {
  }

  lemma OfferLow(r: Row, v: Vec, t: int, oldl: nat, oldc: nat, f: nat)
    requires Offered(r, v, t, oldl, oldc, f) && 0 <= t < |r.ys|
    requires r.ys[t] <= v.cl[oldc].y
    ensures Offered(r, v, t + 1, oldl, oldc, f)
  {
    SkipLow(Ys(r.c0, r.k0, v.cl), Ys(v.c, r.k0, v.cl), r.ys, t, oldl, f);
  }

  /** What search must be given. */
  lemma OfferSearch(r: Row, v: Vec, t: int, oldl: nat, oldc: nat, f: nat)
    requires Offered(r, v, t, oldl, oldc, f) && 0 <= t < |r.ys|
    requires v.cl[oldc].y < r.ys[t]
    ensures v.cl[v.c[0]].y < r.ys[t]
    ensures forall g, h :: 0 <= g < h <= r.k0 ==> v.cl[v.c[g]].y < v.cl[v.c[h]].y
  {
    var y0, y1 := Ys(r.c0, r.k0, v.cl), Ys(v.c, r.k0, v.cl);
    assert y0[0] == 0 && y1[0] == 0;
    assert forall g, h :: 0 <= g < h <= r.k0 ==> y1[g] < y1[h];
  }

  /** The candidate that search's slot l must be chained to is the old entry l - 1. */
  lemma OfferSlot(r: Row, v: Vec, t: int, oldl: nat, oldc: nat, f: nat, l: nat)
    requires Offered(r, v, t, oldl, oldc, f) && 0 <= t < |r.ys|
    requires v.cl[oldc].y < r.ys[t]
    requires 1 <= l <= r.k0 + 1 && v.cl[v.c[l - 1]].y < r.ys[t]
    requires l <= r.k0 ==> r.ys[t] <= v.cl[v.c[l]].y
    ensures oldl < l && (l == oldl + 1 ==> f == oldl)
    ensures r.c0[l - 1] == if l == oldl + 1 then oldc else v.c[l - 1]
    ensures v.cl[r.c0[l - 1]].y < r.ys[t]
  {
    Slot(Ys(r.c0, r.k0, v.cl), Ys(v.c, r.k0, v.cl), r.ys, t, oldl, f, l);
  }

  lemma OfferEqual(r: Row, v: Vec, t: int, oldl: nat, oldc: nat, f: nat, l: nat)
    requires Offered(r, v, t, oldl, oldc, f) && 0 <= t < |r.ys|
    requires oldl < l <= r.k0 && v.cl[v.c[l]].y == r.ys[t] && (l == oldl + 1 ==> f == oldl)
    ensures Offered(r, v, t + 1, oldl, r.c0[l - 1], l - 1)
  {
    SkipEqual(Ys(r.c0, r.k0, v.cl), Ys(v.c, r.k0, v.cl), r.ys, t, oldl, f, l);
  }

  /** A candidate added to the pot does not disturb a vector. */
  lemma KlistKept(c: seq<int>, k: nat, cl: seq<Cand>, rank: seq<int>, i: int, d: Cand, l: nat)
    requires Klist(c, k, cl, rank, i)
    ensures Klist(c, k, cl + [d], rank + [l], i) && Ys(c, k, cl + [d]) == Ys(c, k, cl)
  {
    assert Ys(c, k, cl + [d]) == Ys(c, k, cl);
  }

  /** A candidate put into slot l of a vector. */
  lemma KlistReplace(c: seq<int>, k: nat, cl: seq<Cand>, rank: seq<int>, i: int, d: Cand, l: nat)
    requires Klist(c, k, cl, rank, i) && 1 <= l <= k && d.x <= i
    requires Increasing(Ys(c, k, cl)[l := d.y])
    ensures Klist(c[l := |cl|], k, cl + [d], rank + [l], i)
    ensures Ys(c[l := |cl|], k, cl + [d]) == Ys(c, k, cl)[l := d.y]
  {
    hide Increasing;
    assert Ys(c[l := |cl|], k, cl + [d]) == Ys(c, k, cl)[l := d.y];
  }

  /** A candidate put just above a vector. */
  lemma KlistExtend(c: seq<int>, k: nat, cl: seq<Cand>, rank: seq<int>, i: int, d: Cand)
    requires Klist(c, k, cl, rank, i) && k + 1 < |c| && d.x <= i
    requires Increasing(Ys(c, k, cl) + [d.y])
    ensures Klist(c[k + 1 := |cl|], k + 1, cl + [d], rank + [k + 1], i)
    ensures Ys(c[k + 1 := |cl|], k + 1, cl + [d]) == Ys(c, k, cl) + [d.y]
  {
    hide Increasing;
    assert Ys(c[k + 1 := |cl|], k + 1, cl + [d]) == Ys(c, k, cl) + [d.y];
  }

  lemma LoweredPut(c0: seq<int>, k0: nat, c: seq<int>, cl: seq<Cand>, d: Cand, l: nat)
    requires k0 < |c0| == |c| && l < |c| && forall h :: 0 <= h <= k0 ==> 0 <= c0[h] < |cl| && 0 <= c[h] < |cl|
    requires Lowered(c0, k0, c, cl) && (l <= k0 ==> d.y < cl[c[l]].y)
    ensures Lowered(c0, k0, c[l := |cl|], cl + [d])
  {
  }

  /** The new candidate for slot l, chained to the old entry l - 1. */
  ghost function NewAt(r: Row, l: nat, y: int): Cand
    requires 1 <= l <= |r.c0| && 0 <= r.c0[l - 1]
  {
    Cand(r.i, y, r.c0[l - 1])
  }

  /** Adding that candidate to the pot. */
  lemma PotSound(r: Row, v: Vec, l: nat, t: nat)
    requires Sound(r, v, r.k0) && 1 <= l <= r.k0 + 1 && t < |r.ys|
    requires 0 <= r.c0[l - 1] < |v.cl| && v.cl[r.c0[l - 1]].y < r.ys[t]
    ensures var d := NewAt(r, l, r.ys[t]);
            && Linked(v.cl + [d], v.rank + [l], r.a, r.b) && r.cl0 <= v.cl + [d]
            && Klist(r.c0, r.k0, v.cl + [d], v.rank + [l], r.i - 1)
            && Ys(r.c0, r.k0, v.cl + [d]) == Ys(r.c0, r.k0, v.cl)
  {
    var d := NewAt(r, l, r.ys[t]);
    SoundFacts(r, v, r.k0);
    hide Klist, Lowered, Linked;
    assert r.b[r.ys[t] - 1] == r.a[r.i - 1];
    LinkedSnoc(v.cl, v.rank, r.a, r.b, d, l);
    KlistKept(r.c0, r.k0, v.cl, v.rank, r.i - 1, d, l);
  }

  lemma SoundFacts(r: Row, v: Vec, k: nat)
    requires Sound(r, v, k)
    ensures |v.rank| == |v.cl| && r.k0 < |r.c0| == |v.c|
    ensures forall l :: 0 <= l <= r.k0 ==>
                          && 0 <= r.c0[l] < |v.cl| && 0 <= v.c[l] < |v.cl|
                          && v.rank[r.c0[l]] == l && v.cl[r.c0[l]].x < r.i
  {
  }

  lemma OfferInstall(r: Row, v: Vec, t: int, oldl: nat, oldc: nat, f: nat, l: nat)
    requires Offered(r, v, t, oldl, oldc, f) && 0 <= t < |r.ys|
    requires oldl < l <= r.k0 && v.cl[v.c[l - 1]].y < r.ys[t] < v.cl[v.c[l]].y
    requires v.cl[r.c0[l - 1]].y < r.ys[t]
    ensures Offered(r, Put(v, l, r.i, r.ys[t], r.c0[l - 1]), t + 1, l, v.c[l], l)
  {
    hide Linked, Lowered, Klist, Scanning, OneClass, Increasing;
    OfferedFacts(r, v, t, oldl, oldc, f);
    var d := NewAt(r, l, r.ys[t]);
    Install(Ys(r.c0, r.k0, v.cl), Ys(v.c, r.k0, v.cl), r.ys, t, oldl, f, l);
    PotSound(r, v, l, t);
    ScanningIncreases(Ys(r.c0, r.k0, v.cl), Ys(v.c, r.k0, v.cl)[l := r.ys[t]], r.ys, t + 1, l, l);
    KlistReplace(v.c, r.k0, v.cl, v.rank, r.i, d, l);
    LoweredPut(r.c0, r.k0, v.c, v.cl, d, l);
  }

  lemma OfferExtend(r: Row, v: Vec, t: int, oldl: nat, oldc: nat, f: nat)
    requires Offered(r, v, t, oldl, oldc, f) && 0 <= t < |r.ys|
    requires v.cl[v.c[r.k0]].y < r.ys[t] && v.cl[r.c0[r.k0]].y < r.ys[t]
    ensures Finished(r, Put(v, r.k0 + 1, r.i, r.ys[t], r.c0[r.k0]), r.k0 + 1)
  {
    hide Linked, Lowered, Klist, Scanning, OneClass, Covered, Increasing;
    OfferedFacts(r, v, t, oldl, oldc, f);
    var d := NewAt(r, r.k0 + 1, r.ys[t]);
    Extend(Ys(r.c0, r.k0, v.cl), Ys(v.c, r.k0, v.cl), r.ys, t, oldl, f);
    PotSound(r, v, r.k0 + 1, t);
    KlistExtend(v.c, r.k0, v.cl, v.rank, r.i, d);
    LoweredPut(r.c0, r.k0, v.c, v.cl, d, r.k0 + 1);
  }

  lemma ScanningIncreases(y0: seq<int>, y1: seq<int>, ys: seq<int>, t: int, oldl: nat, f: nat)
    requires Scanning(y0, y1, ys, t, oldl, f)
    ensures Increasing(y0) && Increasing(y1)
  {
  }

  /** A row starts with nothing offered. */
  lemma RowStart(r: Row, rank: seq<int>)
    requires 1 <= r.i <= |r.a| && |r.ys| > 0 && r.k0 + 1 < |r.c0| && Increasing(r.ys)
    requires forall t :: 0 <= t < |r.ys| ==> 1 <= r.ys[t] <= |r.b| && r.b[r.ys[t] - 1] == r.a[r.i - 1]
    requires Linked(r.cl0, rank, r.a, r.b) && Klist(r.c0, r.k0, r.cl0, rank, r.i - 1)
    ensures Offered(r, Vec(r.c0, r.cl0, rank), 0, 0, r.c0[0], 0)
  {
  }

  /** A row that has offered its whole class is finished. */
  lemma RowEnd(r: Row, v: Vec, oldl: nat, oldc: nat, f: nat)
    requires Offered(r, v, |r.ys|, oldl, oldc, f)
    ensures Finished(r, v, r.k0)
  {
  }

  /** A finished row keeps the vector optimal. */
  lemma FinishedOptimal(r: Row, v: Vec, k: nat, rank0: seq<int>)
    requires Finished(r, v, k)
    requires Klist(r.c0, r.k0, r.cl0, rank0, r.i - 1)
    requires Optimal(r.c0, r.k0, r.cl0, r.a, r.b, r.i - 1)
    requires forall y {:trigger y in r.ys} :: 1 <= y <= |r.b| && r.b[y - 1] == r.a[r.i - 1] ==> y in r.ys
    ensures r.k0 <= k <= r.k0 + 1
    ensures Linked(v.cl, v.rank, r.a, r.b) && Klist(v.c, k, v.cl, v.rank, r.i)
    ensures Optimal(v.c, k, v.cl, r.a, r.b, r.i)
  {
    OptimalPrefix(r.c0, r.k0, r.cl0, v.cl, r.a, r.b, r.i - 1);
    RowKeepsOptimal(r.c0, r.k0, v.c, k, v.cl, v.rank, r.a, r.b, r.i, r.ys);
  }

  /** Adding candidates at the end of the pot does not disturb an optimal vector. */
  lemma OptimalPrefix(c: seq<int>, k: nat, cl0: seq<Cand>, cl: seq<Cand>, a: seq<int>, b: seq<int>, i: int)
    requires cl0 <= cl && k < |c| && forall l :: 0 <= l <= k ==> 0 <= c[l] < |cl0|
    requires Optimal(c, k, cl0, a, b, i)
    ensures Optimal(c, k, cl, a, b, i)
  {
    forall p: seq<Mate> | Matching(p, a, b, i, |b|)
      ensures Bounded(c, k, cl, p)
    {
      assert Bounded(c, k, cl0, p);
    }
  }

  /** The body of stone's inner loop: offer new-file line y, member t of the class in hand. */
  method Offer(pot: Pot, c: array<int>, k: nat, i: int, y: int, oldl0: nat, oldc0: nat,
               ghost r: Row, ghost rank0: seq<int>, ghost t: int, ghost f0: nat)
    returns (extended: bool, oldl: nat, oldc: nat, ghost rank: seq<int>, ghost f: nat)
    requires Offered(r, Vec(c[..], pot.clist, rank0), t, oldl0, oldc0, f0)
    requires k == r.k0 && i == r.i && 0 <= t < |r.ys| && y == r.ys[t]
    modifies pot, c
    ensures !extended ==> Offered(r, Vec(c[..], pot.clist, rank), t + 1, oldl, oldc, f)
    ensures extended ==> Finished(r, Vec(c[..], pot.clist, rank), k + 1)
  {
    hide Sound, Scanning, Offered, Finished;
    extended, oldl, oldc, rank, f := false, oldl0, oldc0, rank0, f0;
    ghost var v := Vec(c[..], pot.clist, rank);
    OfferedFacts(r, v, t, oldl, oldc, f);
    if y <= pot.clist[oldc].y {
      OfferLow(r, v, t, oldl, oldc, f);
      return;
    }
    OfferSearch(r, v, t, oldl, oldc, f);
    var l := Search(pot.clist, c, k, y);
    OfferSlot(r, v, t, oldl, oldc, f, l);
    if l != oldl + 1 {
      oldc := c[l - 1];
    }
    if l <= k {
      if pot.clist[c[l]].y <= y {
        OfferEqual(r, v, t, oldl, oldc0, f, l);
        f := l - 1;
      } else {
        OfferInstall(r, v, t, oldl, oldc0, f, l);
        var tc := c[l];
        SetCand(pot, c, l, i, y, oldc);
        oldc, oldl, rank, f := tc, l, rank + [l], l;
      }
    } else {
      OfferExtend(r, v, t, oldl, oldc0, f);
      SetCand(pot, c, l, i, y, oldc);
      extended, rank := true, rank + [l];
    }
  }

  lemma KlistHead(c: seq<int>, k: nat, cl: seq<Cand>, rank: seq<int>, i: int)
    requires Klist(c, k, cl, rank, i)
    ensures c[0] == 0
  {
  }

  /** In C, c[l] = newcand(i, y, pred). */
  method SetCand(pot: Pot, c: array<int>, l: nat, i: int, y: int, pred: nat)
    requires l < c.Length
    modifies pot, c
    ensures pot.clist == old(pot.clist) + [Cand(i, y, pred)]
    ensures c[..] == old(c[..])[l := |old(pot.clist)|]
  {
    var p := pot.NewCand(i, y, pred);
    c[l] := p;
  }

  lemma ClassFacts(member: seq<int>, j: int, ys: seq<int>, v: int, b: seq<int>)
    requires ClassAt(member, j, ys, v, b)
    ensures Increasing(ys) && forall t :: 0 <= t < |ys| ==> 1 <= ys[t] <= |b| && b[ys[t] - 1] == v
    ensures forall y {:trigger y in ys} :: 1 <= y <= |b| && b[y - 1] == v ==> y in ys
  {
  }

  /** The words of a class: its lines, the first negated, and then a word that is not positive. */
  lemma ClassWord(member: seq<int>, j: int, ys: seq<int>, v: int, b: seq<int>, t: int)
    requires ClassAt(member, j, ys, v, b) && 0 <= t <= |ys|
    ensures 0 <= j && j + t < |member| && |ys| > 0
    ensures t == 0 ==> member[j] == -ys[0]
    ensures 0 < t < |ys| ==> member[j + t] == ys[t] > 0
    ensures t == |ys| ==> member[j + t] <= 0
  {
  }

  /** One row of stone: line i of the old file, whose class ys starts at member[j0]. */
  method StoneRow(pot: Pot, c: array<int>, k0: nat, i: int, member: array<int>, j0: nat,
                  ghost a: seq<int>, ghost b: seq<int>, ghost ys: seq<int>, ghost rank0: seq<int>)
    returns (k: nat, ghost rank: seq<int>)
    requires 1 <= i <= |a| && k0 + 1 < c.Length && member != c
    requires Linked(pot.clist, rank0, a, b) && Klist(c[..], k0, pot.clist, rank0, i - 1)
    requires Optimal(c[..], k0, pot.clist, a, b, i - 1)
    requires ClassAt(member[..], j0, ys, a[i - 1], b)
    modifies pot, c
    ensures k0 <= k <= k0 + 1
    ensures Linked(pot.clist, rank, a, b) && Klist(c[..], k, pot.clist, rank, i)
    ensures Optimal(c[..], k, pot.clist, a, b, i)
  {
    hide Sound, Scanning, Offered, Finished, Optimal, Klist, Linked, ClassAt;
    ClassFacts(member[..], j0, ys, a[i - 1], b);
    ClassWord(member[..], j0, ys, a[i - 1], b, 0);
    k := k0;
    rank := rank0;
    KlistHead(c[..], k0, pot.clist, rank0, i - 1);
    ghost var r := Row(a, b, i, ys, c[..], k0, pot.clist);
    RowStart(r, rank);
    var j := j0;
    var y := -member[j];
    var oldl: nat, oldc: nat := 0, c[0];
    ghost var t: nat, f: nat := 0, 0;
    while true
      invariant k == k0 && j == j0 + t && 0 <= t < |ys| && y == ys[t]
      invariant Offered(r, Vec(c[..], pot.clist, rank), t, oldl, oldc, f)
      decreases |ys| - t
    {
      var extended;
      extended, oldl, oldc, rank, f := Offer(pot, c, k, i, y, oldl, oldc, r, rank, t, f);
      if extended {
        k := k + 1;
        break;
      }
      ClassWord(member[..], j0, ys, a[i - 1], b, t + 1);
      j, t := j + 1, t + 1;
      y := member[j];
      if y <= 0 {
        RowEnd(r, Vec(c[..], pot.clist, rank), oldl, oldc, f);
        break;
      }
    }
    FinishedOptimal(r, Vec(c[..], pot.clist, rank), k, rank0);
  }

  /** Stone's algorithm: on return the candidate vector c[0..k] is optimal for all of a. */
  method Stone(pot: Pot, cls: array<int>, member: array<int>, c: array<int>, n: nat,
               ghost a: seq<int>, ghost b: seq<int>)
    returns (k: nat, ghost rank: seq<int>)
    requires n == |a| && c.Length > n + 1 && pot.clist == [] && cls != c && member != c
    requires Classified(cls[..], member[..], a, b)
    modifies pot, c
    ensures k <= n
    ensures Linked(pot.clist, rank, a, b) && Klist(c[..], k, pot.clist, rank, n)
    ensures Optimal(c[..], k, pot.clist, a, b, n)
  {
    k := 0;
    c[0] := pot.NewCand(0, 0, 0);
    rank := [0];
    forall p: seq<Mate> | Matching(p, a, b, 0, |b|)
      ensures Bounded(c[..], k, pot.clist, p)
    {
      MatchingLength(p, a, b, 0, |b|);
    }
    for i := 1 to n + 1
      invariant k < i
      invariant Linked(pot.clist, rank, a, b) && Klist(c[..], k, pot.clist, rank, i - 1)
      invariant Optimal(c[..], k, pot.clist, a, b, i - 1)
    {
      var j := cls[i];
      assert ClassifiedAt(j, member[..], a[i - 1], b);
      if j == 0 {
        UnmatchedKeepsOptimal(c[..], k, pot.clist, a, b, i);
      } else {
        ghost var ys :| ClassAt(member[..], j, ys, a[i - 1], b);
        k, rank := StoneRow(pot, c, k, i, member, j, a, b, ys, rank);
      }
    }
  }
}
