/** The match vector J: unravel of diff.c, and the pipeline that leads to it. */
module DiffEngine {
  import opened DiffMatching
  import opened DiffStone
  import opened DiffClasses

  /** J mates equal lines only and is strictly increasing on its nonzero entries. */
  ghost predicate MatchVector<T>(J: seq<int>, a: seq<T>, b: seq<T>)
  {
    && |J| > |a| && J[0] == 0
    && (forall i :: 1 <= i <= |a| ==> 0 <= J[i] <= |b|)
    && (forall i :: 1 <= i <= |a| && J[i] != 0 ==> a[i - 1] == b[J[i] - 1])
    && (forall i, k :: 1 <= i < k <= |a| && J[i] != 0 && J[k] != 0 ==> J[i] < J[k])
  }

  /** Where the files begin alike, equal lines in equal places are mates. */
  ghost predicate PrefixMated<T>(J: seq<int>, a: seq<T>, b: seq<T>)
    requires |J| > |a|
  {
    forall i :: 0 <= i <= |a| && i <= |b| && a[..i] == b[..i] ==> J[i] == i
  }

  /** The mates recorded in J for old lines 1 to m. */
  ghost function Mates(J: seq<int>, m: nat): (p: seq<Mate>)
    requires m < |J|
  {
    if m == 0 then [] else
      var p := Mates(J, m - 1);
      if J[m] == 0 then p else p + [Mate(m, J[m])]
  }

  lemma {:induction false} MatesAreCommon<T>(J: seq<int>, a: seq<T>, b: seq<T>, m: nat)
    requires MatchVector(J, a, b) && m <= |a|
    ensures Matching(Mates(J, m), a, b, m, |b|)
    ensures forall t :: 0 <= t < |Mates(J, m)| ==>
                          var e := Mates(J, m)[t]; 1 <= e.x <= m && e.y == J[e.x] && e.y != 0
  {
    hide Matching;
    if m > 0 {
      MatesAreCommon(J, a, b, m - 1);
      if J[m] != 0 {
        MatesGrow(J, a, b, m, Mates(J, m - 1));
      } else {
        OneLineMore(Mates(J, m), a, b, m);
      }
    } else {
      assert Matching([], a, b, 0, |b|) by { NoMates(a, b); }
    }
  }

  lemma NoMates<T>(a: seq<T>, b: seq<T>)
    ensures Matching([], a, b, 0, |b|)
  {
  }

  lemma OneLineMore<T>(p: seq<Mate>, a: seq<T>, b: seq<T>, m: nat)
    requires 1 <= m <= |a| && Matching(p, a, b, m - 1, |b|)
    ensures Matching(p, a, b, m, |b|)
  {
  }

  lemma MatesGrow<T>(J: seq<int>, a: seq<T>, b: seq<T>, m: nat, p: seq<Mate>)
    requires MatchVector(J, a, b) && 1 <= m <= |a| && J[m] != 0
    requires Matching(p, a, b, m - 1, |b|)
    requires forall t :: 0 <= t < |p| ==> 1 <= p[t].x < m && p[t].y == J[p[t].x] && p[t].y != 0
    ensures Matching(p + [Mate(m, J[m])], a, b, m, |b|)
  {
    forall t | 0 <= t < |p|
      ensures p[t].y < J[m]
    {
      assert J[p[t].x] < J[m];
    }
    assert Matching(p, a, b, m - 1, J[m] - 1);
    MatchingSnoc(p, a, b, m - 1, J[m] - 1, m, J[m]);
  }

  lemma {:induction false} MatesUpdate(J: seq<int>, m: nat, x: nat, y: int)
    requires m < |J| && 0 < x < |J| && J[x] == 0 && y != 0
    ensures |Mates(J[x := y], m)| == |Mates(J, m)| + if x <= m then 1 else 0
  {
    if m > 0 {
      MatesUpdate(J, m - 1, x, y);
    }
  }

  lemma {:induction false} MatesInitial(J: seq<int>, m: nat, f: nat, g: nat, d: int)
    requires m < |J| && f <= g && g + d >= 0
    requires forall i :: 1 <= i <= m ==> J[i] == if i <= f then i else if i > g then i + d else 0
    ensures |Mates(J, m)| == (if m <= f then m else f) + (if m <= g then 0 else m - g)
  {
    if m > 0 {
      MatesInitial(J, m - 1, f, g, d);
    }
  }

  /** The first loop of unravel: lay down the pruned prefix and suffix. */
  method LayEnds(J: array<int>, pref: nat, suff: nat, a: seq<int>, b: seq<int>)
    requires J.Length > |a|
    requires pref + suff <= |a| && pref + suff <= |b|
    requires a[..pref] == b[..pref] && a[|a| - suff..] == b[|b| - suff..]
    modifies J
    ensures MatchVector(J[..], a, b)
    ensures |Mates(J[..], |a|)| == pref + suff
    ensures forall x, y :: 0 <= x <= |a| - pref - suff && 0 <= y <= |b| - pref - suff ==>
                             Pending(J[..], a, b, pref, x, y)
  {
    hide Mates, MatchVector, Pending;
    var len0, len1 := |a|, |b|;
    for i := 0 to len0 + 1
      invariant forall k :: 0 <= k < i ==>
                              J[k] == if k <= pref then k else if k > len0 - suff then k + len1 - len0 else 0
    {
      J[i] := if i <= pref then i else if i > len0 - suff then i + len1 - len0 else 0;
    }
    MatesInitial(J[..], len0, pref, len0 - suff, len1 - len0);
    InitialVector(J[..], a, b, pref, suff);
  }

  /** unravel: lay down the pruned prefix and suffix, then pull the longest chain out of the pot. */
  method Unravel(clist: seq<Cand>, p: nat, J: array<int>, pref: nat, suff: nat,
                 a: seq<int>, b: seq<int>, ghost rank: seq<int>)
    requires J.Length > |a|
    requires pref + suff <= |a| && pref + suff <= |b|
    requires a[..pref] == b[..pref] && a[|a| - suff..] == b[|b| - suff..]
    requires Linked(clist, rank, a[pref..|a| - suff], b[pref..|b| - suff]) && p < |clist|
    modifies J
    ensures MatchVector(J[..], a, b)
    ensures |Mates(J[..], |a|)| == pref + rank[p] + suff
    ensures forall i :: 0 <= i <= pref ==> J[i] == i
  {
    hide Mates, Linked, MatchVector, Pending;
    ghost var sa, sb := a[pref..|a| - suff], b[pref..|b| - suff];
    LayEnds(J, pref, suff, a, b);
    var q: nat := p;
    LinkedBounds(clist, rank, sa, sb, q);
    while clist[q].y != 0
      invariant q < |clist| && |rank| == |clist|
      invariant 0 <= clist[q].x <= |sa| && 0 <= clist[q].y <= |sb| && (clist[q].y == 0 ==> rank[q] == 0)
      invariant MatchVector(J[..], a, b) && Pending(J[..], a, b, pref, clist[q].x, clist[q].y)
      invariant |Mates(J[..], |a|)| == pref + suff + rank[p] - rank[q]
      decreases q
    {
      ghost var s, d := J[..], clist[q];
      LinkedBounds(clist, rank, sa, sb, q);
      LinkedBounds(clist, rank, sa, sb, d.pred);
      ChainStep(s, a, b, pref, suff, d.x, d.y, clist[d.pred].x, clist[d.pred].y);
      MatesUpdate(s, |a|, d.x + pref, d.y + pref);
      J[clist[q].x + pref] := clist[q].y + pref;
      assert J[..] == s[d.x + pref := d.y + pref];
      q := clist[q].pred;
    }
    PendingPrefix(J[..], a, b, pref, clist[q].x, clist[q].y);
  }

  lemma PendingPrefix(J: seq<int>, a: seq<int>, b: seq<int>, pref: nat, x: int, y: int)
    requires |J| > |a| >= pref && x >= 0 && Pending(J, a, b, pref, x, y) && MatchVector(J, a, b)
    ensures forall i :: 0 <= i <= pref ==> J[i] == i
  {
  }

  /** The prefix that prune finds is all that the files have in common at their start. */
  lemma PrunedPrefix(J: seq<int>, a: seq<int>, b: seq<int>, pref: nat)
    requires |J| > |a| && pref <= |a| && pref <= |b| && forall i :: 0 <= i <= pref ==> J[i] == i
    requires pref == |a| || pref == |b| || a[pref] != b[pref]
    ensures PrefixMated(J, a, b)
  {
    forall i | 0 <= i <= |a| && i <= |b| && a[..i] == b[..i]
      ensures i <= pref
    {
      assert forall k :: 0 <= k < i ==> a[k] == a[..i][k] && b[k] == b[..i][k];
    }
  }

  /** What one candidate says, without the quantifiers. */
  lemma LinkedBounds(cl: seq<Cand>, rank: seq<int>, a: seq<int>, b: seq<int>, q: nat)
    requires Linked(cl, rank, a, b) && q < |cl|
    ensures |rank| == |cl|
    ensures 0 <= cl[q].x <= |a| && 0 <= cl[q].y <= |b|
    ensures cl[q].y == 0 ==> rank[q] == 0
    ensures cl[q].y != 0 ==>
              && LinkedAt(cl, rank, a, b, q)
              && 0 <= cl[cl[q].pred].x && 0 <= cl[cl[q].pred].y
  {
    if q > 0 {
      assert LinkedAt(cl, rank, a, b, q);
      var r := cl[q].pred;
      if r > 0 {
        assert LinkedAt(cl, rank, a, b, r);
      }
    }
  }

  /** The pruned middle up to line x is still unmated, and what lies beyond is mated beyond y. */
  ghost predicate Pending(J: seq<int>, a: seq<int>, b: seq<int>, pref: nat, x: int, y: int)
    requires |J| > |a| && x >= 0
  {
    && (forall i :: 1 <= i <= pref && i <= |a| ==> J[i] == i)
    && (forall i :: pref < i <= pref + x && i <= |a| ==> J[i] == 0)
    && (forall i :: pref + x < i <= |a| ==> J[i] == 0 || J[i] > pref + y)
  }

  lemma InitialVector(J: seq<int>, a: seq<int>, b: seq<int>, pref: nat, suff: nat)
    requires pref + suff <= |a| < |J| && pref + suff <= |b|
    requires a[..pref] == b[..pref] && a[|a| - suff..] == b[|b| - suff..]
    requires forall k :: 0 <= k <= |a| ==>
                           J[k] == if k <= pref then k else if k > |a| - suff then k + |b| - |a| else 0
    ensures MatchVector(J, a, b)
    ensures forall x, y :: 0 <= x <= |a| - pref - suff && 0 <= y <= |b| - pref - suff ==>
                             Pending(J, a, b, pref, x, y)
  {
    forall i | 1 <= i <= |a| && J[i] != 0
      ensures a[i - 1] == b[J[i] - 1]
    {
      if i <= pref {
        assert a[i - 1] == a[..pref][i - 1] == b[..pref][i - 1];
      } else {
        var t := i - 1 - (|a| - suff);
        assert a[i - 1] == a[|a| - suff..][t] == b[|b| - suff..][t];
      }
    }
  }

  /** Recording the mate (x, y) of a chain whose next mate is (x', y'). */
  lemma ChainStep(J: seq<int>, a: seq<int>, b: seq<int>, pref: nat, suff: nat, x: int, y: int, x': int, y': int)
    requires pref + suff <= |a| < |J| && pref + suff <= |b|
    requires 1 <= x <= |a| - pref - suff && 1 <= y <= |b| - pref - suff && 0 <= x' < x && 0 <= y' < y
    requires MatchVector(J, a, b) && Pending(J, a, b, pref, x, y)
    requires a[pref..|a| - suff][x - 1] == b[pref..|b| - suff][y - 1]
    ensures J[x + pref] == 0
    ensures MatchVector(J[x + pref := y + pref], a, b)
    ensures Pending(J[x + pref := y + pref], a, b, pref, x', y')
  {
  }

  /** The chain and the pruned ends together are a longest common subsequence of the files. */
  lemma MatchedIsLongest(J: seq<int>, a: seq<int>, b: seq<int>, pref: nat, suff: nat, k: nat)
    requires pref + suff <= |a| && pref + suff <= |b|
    requires MatchVector(J, a, b) && |Mates(J, |a|)| == pref + k + suff
    requires var sa, sb := a[pref..|a| - suff], b[pref..|b| - suff];
             forall p :: CommonSubsequence(p, sa, sb) ==> |p| <= k
    ensures IsLcsLength(a, b, |Mates(J, |a|)|)
  {
    MatesAreCommon(J, a, b, |a|);
    assert CommonSubsequence(Mates(J, |a|), a, b);
    forall p | CommonSubsequence(p, a, b)
      ensures |p| <= pref + k + suff
    {
      var q := PruneBound(p, a, b, pref, suff);
    }
  }

  /** The storage prepare leaves behind: the values on lines 1 to len, and room for two more lines. */
  method Load(v: seq<int>) returns (file: array<Line>)
    ensures fresh(file) && file.Length == |v| + 3
    ensures forall i :: 1 <= i <= |v| ==> file[i].value == v[i - 1]
  {
    file := new Line[|v| + 3];
    for i := 1 to |v| + 1
      invariant forall k :: 1 <= k < i ==> file[k].value == v[k - 1]
    {
      file[i] := Line(0, v[i - 1]);
    }
  }

  /** sort, equiv and unsort on the pruned files: the class and member words. */
  method Classes(file0: array<Line>, file1: array<Line>, base: nat, n: nat, m: nat, g0: int, g1: int,
                 ghost a: seq<int>, ghost b: seq<int>)
    returns (cls: array<int>, member: array<int>)
    requires file0 != file1 && base + n + 1 < file0.Length && base + m + 1 < file1.Length
    requires n == |a| && m == |b| && 0 !in b
    requires Window(file0[..], base, n) == Lines(a) && Window(file1[..], base, m) == Lines(b)
    modifies file0, file1
    ensures fresh(cls) && fresh(member)
    ensures Classified(cls[..], member[..], a, b)
  {
    hide Sorted, First, Classified, MemberWord, Placed, HasSerial, Lines, Rearranged, Window, Word;
    ghost var w0, w1 := file0[..], file1[..];
    Sort(file0, base, n, g0);
    Sort(file1, base, m, g1);
    SameWindow(w0, file0[..], base, n);
    SameWindow(w1, file1[..], base, m);
    ghost var f0, s := file0[..], Window(file1[..], base, m);
    NonzeroValues(file1[..], base, m, b);
    Equiv(file0, base, n, file1, base, m);
    member := TakeWords(file1, m + 2);
    ghost var v := seq(n, i requires 0 <= i < n => First(s, a[i]) as int);
    ReadyToUnsort(f0, file0[..], base, n, a, s, v);
    Unsort(file0, base, n, v);
    cls := TakeWords(file0, n + 2);
    ClassesClassify(s, a, b, cls[..], member[..]);
  }

  lemma SameWindow(a: seq<Line>, b: seq<Line>, base: nat, n: nat)
    requires Rearranged(a, b, base, n)
    ensures multiset(Window(a, base, n)) == multiset(Window(b, base, n)) && |Window(b, base, n)| == n
  {
  }

  lemma NonzeroValues(file: seq<Line>, base: nat, m: nat, b: seq<int>)
    requires base + m < |file| && 0 !in b && multiset(Window(file, base, m)) == multiset(Lines(b))
    ensures forall q :: base < q <= base + m ==> file[q].value != 0
  {
    var w := Window(file, base, m);
    SameElements(w, b);
    forall q | base < q <= base + m
      ensures file[q].value != 0
    {
      assert file[q] == w[q - base - 1];
    }
  }

  lemma ReadyLine(f0: seq<Line>, f: seq<Line>, base: nat, n: nat, a: seq<int>, s: seq<Line>, v: seq<int>, q: int)
    requires |a| == n == |v| && base + n < |f0| && base < q <= base + n
    requires multiset(Window(f0, base, n)) == multiset(Lines(a))
    requires Placed(f0, f, base, n, n + 1, s, |s| + 1)
    requires forall i :: 0 <= i < n ==> v[i] == First(s, a[i])
    ensures |f| == |f0| && 1 <= f[q].serial <= n && f[q].value == v[f[q].serial - 1]
  {
    hide First, Lines;
    var w := Window(f0, base, n);
    SameElements(w, a);
    assert f0[q] == w[q - base - 1];
  }

  lemma ReadySerial(f0: seq<Line>, f: seq<Line>, base: nat, n: nat, a: seq<int>, s: seq<Line>, k: int)
    requires |a| == n && base + n < |f0| && 1 <= k <= n
    requires multiset(Window(f0, base, n)) == multiset(Lines(a))
    requires Placed(f0, f, base, n, n + 1, s, |s| + 1)
    ensures |f| == |f0| && HasSerial(f, base, n, k)
  {
    hide First, Lines;
    var w := Window(f0, base, n);
    var t := FindLine(w, a, k - 1);
    assert f0[base + 1 + t] == w[t];
    assert f[base + 1 + t].serial == k;
  }

  lemma ReadyToUnsort(f0: seq<Line>, f: seq<Line>, base: nat, n: nat, a: seq<int>, s: seq<Line>, v: seq<int>)
    requires |a| == n == |v| && base + n < |f0|
    requires multiset(Window(f0, base, n)) == multiset(Lines(a))
    requires Placed(f0, f, base, n, n + 1, s, |s| + 1)
    requires forall i :: 0 <= i < n ==> v[i] == First(s, a[i])
    ensures forall q :: base < q <= base + n ==> 1 <= f[q].serial <= n && f[q].value == v[f[q].serial - 1]
    ensures forall k :: 1 <= k <= n ==> HasSerial(f, base, n, k)
  {
    hide First, Lines, Window, HasSerial;
    forall q | base < q <= base + n
      ensures 1 <= f[q].serial <= n && f[q].value == v[f[q].serial - 1]
    {
      ReadyLine(f0, f, base, n, a, s, v, q);
    }
    forall k | 1 <= k <= n
      ensures HasSerial(f, base, n, k)
    {
      ReadySerial(f0, f, base, n, a, s, k);
    }
  }

  /** diff up to and including unravel: the match vector of two files given by their line
      values. Its mates form a longest common subsequence. */
  method MatchFiles(a: seq<int>, b: seq<int>, g0: int, g1: int) returns (J: seq<int>)
    requires 0 !in a && 0 !in b
    ensures |J| == |a| + 2
    ensures MatchVector(J, a, b)
    ensures IsLcsLength(a, b, |Mates(J, |a|)|) && PrefixMated(J, a, b)
  {
    hide MatchVector, Mates, IsLcsLength, PrefixMated, Classified, Linked, Klist, Optimal, Window, Lines;
    var file0 := Load(a);
    var file1 := Load(b);
    var pref, suff, slen0, slen1 := Prune(file0, |a|, file1, |b|);
    ghost var sa, sb := a[pref..|a| - suff], b[pref..|b| - suff];
    PrunedWindows(file0[..], file1[..], a, b, pref, suff);
    assert pref == |a| || pref == |b| || a[pref] != b[pref];
    var cls, member := Classes(file0, file1, pref, slen0, slen1, g0, g1, sa, sb);
    var klist := new int[slen0 + 2];
    var pot := new Pot();
    var k;
    ghost var rank;
    k, rank := Stone(pot, cls, member, klist, slen0, sa, sb);
    LongestChain(klist[..], k, pot.clist, rank, sa, sb);
    var vec := new int[|a| + 2];
    Unravel(pot.clist, klist[k], vec, pref, suff, a, b, rank);
    J := vec[..];
    MatchedIsLongest(J, a, b, pref, suff, k);
    PrunedPrefix(J, a, b, pref);
  }

  lemma LongestChain(c: seq<int>, k: nat, cl: seq<Cand>, rank: seq<int>, a: seq<int>, b: seq<int>)
    requires Linked(cl, rank, a, b) && Klist(c, k, cl, rank, |a|) && Optimal(c, k, cl, a, b, |a|)
    ensures k < |c| && 0 <= c[k] < |cl| == |rank| && rank[c[k]] == k
    ensures forall p :: CommonSubsequence(p, a, b) ==> |p| <= k
  {
    KlistHoldsKCandidates(c, k, cl, rank, a, b, |a|, k);
  }

  lemma PrunedWindows(f0: seq<Line>, f1: seq<Line>, a: seq<int>, b: seq<int>, pref: nat, suff: nat)
    requires pref + suff <= |a| && pref + suff <= |b| && |f0| == |a| + 3 && |f1| == |b| + 3
    requires forall i :: 1 <= i <= |a| ==> f0[i].value == a[i - 1]
    requires forall i :: 1 <= i <= |b| ==> f1[i].value == b[i - 1]
    requires forall i :: 1 <= i <= pref ==> f0[i].value == f1[i].value
    requires forall i :: |a| - suff < i <= |a| ==> f0[i].value == f1[i + |b| - |a|].value
    requires forall i :: pref <= i <= |a| - suff ==> f0[i].serial == i - pref
    requires forall i :: pref <= i <= |b| - suff ==> f1[i].serial == i - pref
    requires 0 !in b
    ensures Window(f0, pref, |a| - pref - suff) == Lines(a[pref..|a| - suff])
    ensures Window(f1, pref, |b| - pref - suff) == Lines(b[pref..|b| - suff])
    ensures a[..pref] == b[..pref] && a[|a| - suff..] == b[|b| - suff..]
    ensures 0 !in b[pref..|b| - suff]
  {
    var ta, tb := a[|a| - suff..], b[|b| - suff..];
    forall t | 0 <= t < suff
      ensures ta[t] == tb[t]
    {
      var i := |a| - suff + t + 1;
      assert f0[i].value == f1[i + |b| - |a|].value;
    }
    forall t | 0 <= t < pref
      ensures a[t] == b[t]
    {
      assert f0[t + 1].value == f1[t + 1].value;
    }
  }
}
