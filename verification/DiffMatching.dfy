/** Common subsequences of two files, stated without reference to any algorithm.
    Lines are numbered from 1, as in diff; a line is represented by its value. */
module DiffMatching {

  /** A pair (x, y) says that line x of the old file is mated to line y of the new one. */
  datatype Mate = Mate(x: int, y: int)

  /** p is a common subsequence of the first i lines of a and the first j lines of b:
      mated lines are equal and both line numbers strictly increase. */
  ghost predicate Matching<T>(p: seq<Mate>, a: seq<T>, b: seq<T>, i: int, j: int)
  {
    && i <= |a| && j <= |b|
    && (forall t :: 0 <= t < |p| ==>
                      && 1 <= p[t].x <= i && 1 <= p[t].y <= j
                      && a[p[t].x - 1] == b[p[t].y - 1])
    && (forall s, t :: 0 <= s < t < |p| ==> p[s].x < p[t].x && p[s].y < p[t].y)
  }

  ghost predicate CommonSubsequence<T>(p: seq<Mate>, a: seq<T>, b: seq<T>)
  {
    Matching(p, a, b, |a|, |b|)
  }

  /** n is the length of a longest common subsequence of a and b. */
  ghost predicate IsLcsLength<T>(a: seq<T>, b: seq<T>, n: nat)
  {
    && (exists p :: CommonSubsequence(p, a, b) && |p| == n)
    && (forall p :: CommonSubsequence(p, a, b) ==> |p| <= n)
  }

  lemma LcsLengthUnique<T>(a: seq<T>, b: seq<T>, m: nat, n: nat)
    requires IsLcsLength(a, b, m) && IsLcsLength(a, b, n)
    ensures m == n
  {
    var p :| CommonSubsequence(p, a, b) && |p| == m;
    var q :| CommonSubsequence(q, a, b) && |q| == n;
  }

  /** All but the last mate of a matching lie strictly before the last one. */
  lemma MatchingFront<T>(p: seq<Mate>, a: seq<T>, b: seq<T>, i: int, j: int)
    requires Matching(p, a, b, i, j) && p != []
    ensures Matching(p[..|p| - 1], a, b, p[|p| - 1].x - 1, p[|p| - 1].y - 1)
  {
  }

  /** A common subsequence is no longer than the text it comes from. */
  lemma {:induction false} MatchingLength<T>(p: seq<Mate>, a: seq<T>, b: seq<T>, i: int, j: int)
    requires Matching(p, a, b, i, j) && i >= 0
    ensures |p| <= i
    decreases |p|
  {
    if p != [] {
      MatchingFront(p, a, b, i, j);
      MatchingLength(p[..|p| - 1], a, b, p[|p| - 1].x - 1, p[|p| - 1].y - 1);
    }
  }

  /** A matching may be extended by a mate of equal lines beyond all its lines. */
  lemma MatchingSnoc<T>(p: seq<Mate>, a: seq<T>, b: seq<T>, i: int, j: int, x: int, y: int)
    requires Matching(p, a, b, i, j) && 0 <= i < x <= |a| && 0 <= j < y <= |b| && a[x - 1] == b[y - 1]
    ensures Matching(p + [Mate(x, y)], a, b, x, y)
  {
    var q := p + [Mate(x, y)];
    forall t | 0 <= t < |q|
      ensures 1 <= q[t].x <= x && 1 <= q[t].y <= y && a[q[t].x - 1] == b[q[t].y - 1]
      ensures forall s :: 0 <= s < t ==> q[s].x < q[t].x && q[s].y < q[t].y
    {
      if t < |p| {
        assert q[t] == p[t];
      }
    }
  }

  /** Shift every line number of a matching by (dx, dy). */
  ghost function Shift(p: seq<Mate>, dx: int, dy: int): (q: seq<Mate>)
    ensures |q| == |p|
    ensures forall t :: 0 <= t < |p| ==> q[t] == Mate(p[t].x + dx, p[t].y + dy)
  {
    seq(|p|, t requires 0 <= t < |p| => Mate(p[t].x + dx, p[t].y + dy))
  }

  /** Dropping an equal first line from both files costs at most one mate. */
  lemma DropFirst<T>(p: seq<Mate>, a: seq<T>, b: seq<T>) returns (q: seq<Mate>)
    requires CommonSubsequence(p, a, b) && a != [] && b != []
    ensures CommonSubsequence(q, a[1..], b[1..]) && |q| >= |p| - 1
  {
    if p == [] {
      q := [];
    } else {
      q := Shift(p[1..], -1, -1);
      forall t | 0 <= t < |q|
        ensures 1 <= q[t].x <= |a| - 1 && 1 <= q[t].y <= |b| - 1
        ensures a[1..][q[t].x - 1] == b[1..][q[t].y - 1]
      {
        assert p[1..][t] == p[t + 1];
        assert p[0].x < p[t + 1].x;
      }
    }
  }

  /** Dropping an equal last line from both files costs at most one mate. */
  lemma DropLast<T>(p: seq<Mate>, a: seq<T>, b: seq<T>) returns (q: seq<Mate>)
    requires CommonSubsequence(p, a, b) && a != [] && b != []
    ensures CommonSubsequence(q, a[..|a| - 1], b[..|b| - 1]) && |q| >= |p| - 1
  {
    if p == [] {
      q := [];
    } else {
      q := p[..|p| - 1];
      assert forall t :: 0 <= t < |q| ==> q[t].x < p[|p| - 1].x && q[t].y < p[|p| - 1].y;
    }
  }

  /** Removing a common prefix of length f and a common suffix of length g costs at
      most f + g mates, so it never hides a longer common subsequence. */
  lemma {:induction false} PruneBound<T>(p: seq<Mate>, a: seq<T>, b: seq<T>, f: nat, g: nat)
    returns (q: seq<Mate>)
    requires CommonSubsequence(p, a, b)
    requires f + g <= |a| && f + g <= |b|
    ensures CommonSubsequence(q, a[f..|a| - g], b[f..|b| - g]) && |q| >= |p| - f - g
    decreases f + g
  {
    hide CommonSubsequence;
    var m, n := |a|, |b|;
    if f > 0 {
      var r := DropFirst(p, a, b);
      q := PruneBound(r, a[1..], b[1..], f - 1, g);
      assert a[1..][f - 1..m - 1 - g] == a[f..m - g];
      assert b[1..][f - 1..n - 1 - g] == b[f..n - g];
    } else if g > 0 {
      var r := DropLast(p, a, b);
      q := PruneBound(r, a[..m - 1], b[..n - 1], f, g - 1);
      assert a[..m - 1][f..m - g] == a[f..m - g];
      assert b[..n - 1][f..n - g] == b[f..n - g];
    } else {
      q := p;
      assert a[f..m - g] == a && b[f..n - g] == b;
    }
  }
}
