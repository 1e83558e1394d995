/** What the difference scripts are good for: reversal and minimality. */
module DiffScript {
  import opened DiffMatching
  import opened DiffOutput

  // ----- reading a script backward

  /** Exchange a for d and read each line from right to left. */
  ghost function Invert(hs: seq<Hunk>): (r: seq<Hunk>)
    ensures |r| == |hs| && forall k :: 0 <= k < |hs| ==> r[k] == Hunk(hs[k].c, hs[k].d, hs[k].a, hs[k].b)
  {
    seq(|hs|, k requires 0 <= k < |hs| => Hunk(hs[k].c, hs[k].d, hs[k].a, hs[k].b))
  }

  lemma ProducedPrefix<T>(a: seq<T>, b: seq<T>, hs: seq<Hunk>)
    requires WellFormed(hs, |a|, |b|) && hs != [] && Produced(a, b, hs) <= b
    ensures var h, front := hs[|hs| - 1], hs[..|hs| - 1];
            && WellFormed(front, |a|, |b|) && 0 <= Passed(front) <= h.a - 1 && InRange(h, |a|, |b|)
            && Produced(a, b, front) <= b
            && (var n := |Produced(a, b, front)|;
                var g := h.a - 1 - Passed(front);
                && |Produced(a, b, hs)| == n + g + h.d - h.c + 1 <= |b|
                && a[Passed(front)..h.a - 1] == b[n..n + g])
  {
    FrontWellFormed(hs, |a|, |b|);
    var h, front := hs[|hs| - 1], hs[..|hs| - 1];
    assert InRange(h, |a|, |b|);
    var o, p := Produced(a, b, front), Passed(front);
    assert Produced(a, b, hs) == o + a[p..h.a - 1] + b[h.c - 1..h.d];
    hide WellFormed, Produced;
    PrefixParts(o, a[p..h.a - 1], b[h.c - 1..h.d], b);
  }

  lemma PrefixParts<T>(o: seq<T>, x: seq<T>, y: seq<T>, b: seq<T>)
    requires o + x + y <= b
    ensures |o| + |x| + |y| <= |b| && o <= b && x == b[|o|..|o| + |x|]
  {
    var out := o + x + y;
    assert b[..|out|] == out;
    assert out[..|o|] == o && out[|o|..|o| + |x|] == x;
  }

  lemma {:induction false} InvertProduces<T>(a: seq<T>, b: seq<T>, hs: seq<Hunk>)
    requires WellFormed(hs, |a|, |b|) && Numbered(a, b, hs) && Produced(a, b, hs) <= b
    ensures WellFormed(Invert(hs), |b|, |a|)
    ensures Passed(Invert(hs)) == |Produced(a, b, hs)| && 0 <= Passed(hs) <= |a|
    ensures Produced(b, a, Invert(hs)) == a[..Passed(hs)]
    decreases |hs|
  {
    hide WellFormed, Produced, Numbered, Invert, Passed;
    if hs == [] {
      InvertNothing(a, b);
    } else {
      var h, front := hs[|hs| - 1], hs[..|hs| - 1];
      ProducedPrefix(a, b, hs);
      NumberedFront(a, b, hs);
      InvertProduces(a, b, front);
      assert front + [h] == hs;
      InvertStep(a, b, Invert(front), h, Passed(front), |Produced(a, b, front)|);
      InvertSnoc(front, h);
      PassedSnoc(front, h);
    }
  }

  lemma InvertNothing<T>(a: seq<T>, b: seq<T>)
    ensures Invert([]) == [] && Passed([]) == 0 && WellFormed([], |b|, |a|) && WellFormed([], |a|, |b|)
    ensures Produced(a, b, []) == [] && Produced(b, a, []) == [] == a[..0]
  {
  }

  lemma PassedSnoc(hs: seq<Hunk>, h: Hunk)
    ensures Passed(hs + [h]) == h.b
  {
  }

  lemma InvertStep<T>(a: seq<T>, b: seq<T>, inv: seq<Hunk>, h: Hunk, p: int, n: int)
    requires InRange(h, |a|, |b|) && 0 <= p < h.a && 0 <= n && n + h.a - 1 - p == h.c - 1
    requires a[p..h.a - 1] == b[n..h.c - 1]
    requires WellFormed(inv, |b|, |a|) && Passed(inv) == n && Produced(b, a, inv) == a[..p]
    ensures var t := inv + [Hunk(h.c, h.d, h.a, h.b)];
            WellFormed(t, |b|, |a|) && Passed(t) == h.d && Produced(b, a, t) == a[..h.b]
  {
    hide WellFormed, Produced, Passed, Extended;
    AppendExtends(b, a, inv, Hunk(h.c, h.d, h.a, h.b));
    ExtendedBack(a, b, h, p, n);
  }

  /** What has been produced once a hunk is read: the old lines up to it, and its new ones. */
  ghost function Extended<T>(a: seq<T>, b: seq<T>, done: seq<T>, p: int, h: Hunk): seq<T>
    requires InRange(h, |a|, |b|) && 0 <= p < h.a
  {
    done + a[p..h.a - 1] + b[h.c - 1..h.d]
  }

  lemma AppendExtends<T>(a: seq<T>, b: seq<T>, hs: seq<Hunk>, h: Hunk)
    requires WellFormed(hs, |a|, |b|) && InRange(h, |a|, |b|) && Passed(hs) < h.a
    ensures WellFormed(hs + [h], |a|, |b|) && Passed(hs + [h]) == h.b && 0 <= Passed(hs)
    ensures Produced(a, b, hs + [h]) == Extended(a, b, Produced(a, b, hs), Passed(hs), h)
  {
    hide WellFormed, Numbered, Produced, Passed, Deleted, Added;
    AppendHunk(a, b, hs, h);
  }

  lemma ExtendedBack<T>(a: seq<T>, b: seq<T>, h: Hunk, p: int, n: int)
    requires InRange(h, |a|, |b|) && 0 <= p < h.a && 0 <= n && n + h.a - 1 - p == h.c - 1
    requires a[p..h.a - 1] == b[n..h.c - 1]
    ensures Extended(b, a, a[..p], n, Hunk(h.c, h.d, h.a, h.b)) == a[..h.b]
  {
    JoinThree(a, p, h.a - 1, h.b);
  }

  lemma JoinTwo<T>(a: seq<T>, p: int)
    requires 0 <= p <= |a|
    ensures a[..p] + a[p..] == a
  {
  }

  lemma JoinThree<T>(a: seq<T>, p: int, q: int, r: int)
    requires 0 <= p <= q <= r <= |a|
    ensures a[..p] + a[p..q] + a[q..r] == a[..r]
  {
  }

  lemma InvertSnoc(hs: seq<Hunk>, h: Hunk)
    ensures Invert(hs + [h]) == Invert(hs) + [Hunk(h.c, h.d, h.a, h.b)]
  {
  }

  lemma NumberedFront<T>(a: seq<T>, b: seq<T>, hs: seq<Hunk>)
    requires WellFormed(hs, |a|, |b|) && Numbered(a, b, hs) && hs != []
    ensures WellFormed(hs[..|hs| - 1], |a|, |b|) && Numbered(a, b, hs[..|hs| - 1])
    ensures |Produced(a, b, hs)| == hs[|hs| - 1].d
  {
    FrontWellFormed(hs, |a|, |b|);
  }

  lemma PatchParts<T>(a: seq<T>, b: seq<T>, hs: seq<Hunk>)
    requires WellFormed(hs, |a|, |b|) && Patch(a, b, hs) == b
    ensures 0 <= Passed(hs) <= |a| && Produced(a, b, hs) <= b
    ensures b[|Produced(a, b, hs)|..] == a[Passed(hs)..]
  {
    ConcatParts(Produced(a, b, hs), a[Passed(hs)..], b);
  }

  /** The manual's promise: by exchanging a for d and reading backward, the same script
      converts the new file into the old one. */
  lemma ReadBackward<T>(a: seq<T>, b: seq<T>, hs: seq<Hunk>)
    requires WellFormed(hs, |a|, |b|) && Numbered(a, b, hs) && Patch(a, b, hs) == b
    ensures WellFormed(Invert(hs), |b|, |a|)
    ensures Patch(b, a, Invert(hs)) == a
  {
    PatchParts(a, b, hs);
    InvertProduces(a, b, hs);
    hide WellFormed, Produced, Numbered, Invert, Passed;
    JoinTwo(a, Passed(hs));
  }

  // ----- no script is smaller

  /** Extend a common subsequence by g equal lines in a row. */
  lemma {:induction false} ExtendBlock<T>(p: seq<Mate>, a: seq<T>, b: seq<T>, i: nat, j: nat, g: nat)
    returns (q: seq<Mate>)
    requires Matching(p, a, b, i, j) && i + g <= |a| && j + g <= |b|
    requires forall x :: i <= x < i + g ==> a[x] == b[x - i + j]
    ensures Matching(q, a, b, i + g, j + g) && |q| == |p| + g
    decreases g
  {
    if g == 0 {
      q := p;
    } else {
      var r := ExtendBlock(p, a, b, i, j, g - 1);
      assert a[i + g - 1] == b[j + g - 1];
      MatchingSnoc(r, a, b, i + g - 1, j + g - 1, i + g, j + g);
      q := r + [Mate(i + g, j + g)];
    }
  }

  lemma SameSegment<T>(a: seq<T>, b: seq<T>, i: nat, j: nat, g: nat)
    requires i + g <= |a| && j + g <= |b| && a[i..i + g] == b[j..j + g]
    ensures forall x :: i <= x < i + g ==> a[x] == b[x - i + j]
  {
    forall x | i <= x < i + g
      ensures a[x] == b[x - i + j]
    {
      assert a[i..i + g][x - i] == a[x] && b[j..j + g][x - i] == b[x - i + j];
    }
  }

  /** The old lines that a script keeps form a common subsequence. */
  lemma {:induction false} KeptIsCommon<T>(a: seq<T>, b: seq<T>, hs: seq<Hunk>) returns (p: seq<Mate>)
    requires WellFormed(hs, |a|, |b|) && Produced(a, b, hs) <= b
    ensures 0 <= Passed(hs) <= |a| && Matching(p, a, b, Passed(hs), |Produced(a, b, hs)|)
    ensures |p| == Passed(hs) - Deleted(hs)
    ensures |Produced(a, b, hs)| == |p| + Added(hs)
    decreases |hs|
  {
    if hs == [] {
      p := [];
    } else {
      var h, front := hs[|hs| - 1], hs[..|hs| - 1];
      ProducedPrefix(a, b, hs);
      var q := KeptIsCommon(a, b, front);
      var i, j, g := Passed(front), |Produced(a, b, front)|, h.a - 1 - Passed(front);
      SameSegment(a, b, i, j, g);
      p := ExtendBlock(q, a, b, i, j, g);
    }
  }

  /** All that a script keeps when it makes b out of a. */
  lemma KeptInAll<T>(a: seq<T>, b: seq<T>, hs: seq<Hunk>) returns (q: seq<Mate>)
    requires WellFormed(hs, |a|, |b|) && Patch(a, b, hs) == b
    ensures CommonSubsequence(q, a, b) && |q| == |a| - Deleted(hs) == |b| - Added(hs)
  {
    hide WellFormed, Produced, Passed, Deleted, Added;
    PatchParts(a, b, hs);
    var o := Produced(a, b, hs);
    var p := KeptIsCommon(a, b, hs);
    var i, g := Passed(hs), |a| - Passed(hs);
    SameTail(a, b, i, |o|);
    q := ExtendBlock(p, a, b, i, |o|, g);
  }

  /** Every script that makes b out of a keeps at most a longest common subsequence: it deletes
      at least |a| - n old lines and adds at least |b| - n new ones. */
  lemma NoSmallerScript<T>(a: seq<T>, b: seq<T>, hs: seq<Hunk>, n: nat)
    requires IsLcsLength(a, b, n)
    requires WellFormed(hs, |a|, |b|) && Patch(a, b, hs) == b
    ensures Deleted(hs) >= |a| - n && Added(hs) >= |b| - n
    ensures |a| - Deleted(hs) == |b| - Added(hs)
  {
    hide WellFormed, Patch, Deleted, Added;
    var q := KeptInAll(a, b, hs);
  }

  // ----- a script for every common subsequence

  /** A script up to the last mate of a common subsequence, at old line x and new line y. */
  lemma {:induction false} ScriptUpTo<T>(a: seq<T>, b: seq<T>, p: seq<Mate>) returns (hs: seq<Hunk>, x: int, y: int)
    requires CommonSubsequence(p, a, b)
    ensures if p == [] then x == y == 0 else p[|p| - 1] == Mate(x, y)
    ensures Accounted(a, b, hs, x + 1, y) && Deleted(hs) == x - |p|
    decreases |p|
  {
    hide Accounted, Deleted, Changed;
    if p == [] {
      NothingYet(a, b);
      hs, x, y := [], 0, 0;
      NoneDeleted();
    } else {
      var front, last := p[..|p| - 1], p[|p| - 1];
      var hs0, x0, y0 := ScriptUpTo(a, b, front);
      x, y := last.x, last.y;
      assert x0 < x && y0 < y by {
        if front != [] {
          assert p[|p| - 2] == front[|front| - 1];
        }
      }
      ChangeAccounts(a, b, hs0, x0 + 1, y0, x - 1, y - 1);
      hs := Changed(hs0, x0 + 1, x - 1, y0 + 1, y - 1);
      SkipAccounts(a, b, hs, x, y - 1);
    }
  }

  lemma NoneDeleted()
    ensures Deleted([]) == 0
  {
  }

  /** Whatever two files have in common can be kept. */
  lemma ScriptFor<T>(a: seq<T>, b: seq<T>, p: seq<Mate>) returns (hs: seq<Hunk>)
    requires CommonSubsequence(p, a, b)
    ensures WellFormed(hs, |a|, |b|) && Patch(a, b, hs) == b && Deleted(hs) == |a| - |p|
  {
    hide Deleted, Changed, WellFormed, Produced, Numbered;
    var hs0, x, y := ScriptUpTo(a, b, p);
    Bounds(a, b, p);
    ChangeAccounts(a, b, hs0, x + 1, y, |a|, |b|);
    hs := Changed(hs0, x + 1, |a|, y + 1, |b|);
    assert a[Passed(hs)..|a|] == a[Passed(hs)..] && b[..|b|] == b;
  }

  lemma Bounds<T>(a: seq<T>, b: seq<T>, p: seq<Mate>)
    requires CommonSubsequence(p, a, b)
    ensures p != [] ==> p[|p| - 1].x <= |a| && p[|p| - 1].y <= |b|
  {
  }

  /** No script that makes b out of a deletes or adds fewer lines than this one. */
  ghost predicate Smallest<T>(a: seq<T>, b: seq<T>, script: seq<Hunk>) {
    forall hs :: WellFormed(hs, |a|, |b|) && Patch(a, b, hs) == b ==>
                   Deleted(script) <= Deleted(hs) && Added(script) <= Added(hs)
  }

  /** A script that keeps n lines is a smallest one if and only if no more can be kept. */
  lemma SmallestScript<T>(a: seq<T>, b: seq<T>, script: seq<Hunk>, n: nat)
    requires WellFormed(script, |a|, |b|) && Patch(a, b, script) == b && Deleted(script) == |a| - n
    ensures Smallest(a, b, script) <==> IsLcsLength(a, b, n)
  {
    hide WellFormed, Patch, Deleted, Added, CommonSubsequence;
    var q := KeptInAll(a, b, script);
    if IsLcsLength(a, b, n) {
      forall hs | WellFormed(hs, |a|, |b|) && Patch(a, b, hs) == b
        ensures Deleted(script) <= Deleted(hs) && Added(script) <= Added(hs)
      {
        NoSmallerScript(a, b, hs, n);
      }
    }
    if Smallest(a, b, script) {
      forall p | CommonSubsequence(p, a, b)
        ensures |p| <= n
      {
        var hs := ScriptFor(a, b, p);
        assert Deleted(script) <= Deleted(hs);
      }
    }
  }

  lemma ConcatParts<T>(o: seq<T>, t: seq<T>, b: seq<T>)
    requires o + t == b
    ensures o <= b && b[|o|..] == t
  {
  }

  lemma SameTail<T>(a: seq<T>, b: seq<T>, i: nat, j: nat)
    requires i <= |a| && j <= |b| && a[i..] == b[j..]
    ensures |a| - i == |b| - j
    ensures forall x :: i <= x < |a| ==> a[x] == b[x - i + j]
  {
    assert |a[i..]| == |b[j..]|;
    forall x | i <= x < |a|
      ensures a[x] == b[x - i + j]
    {
      assert a[i..][x - i] == a[x] && b[j..][x - i] == b[x - i + j];
    }
  }
}
