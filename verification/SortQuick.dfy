/** The quicksort of sort.c: a partition with a fat pivot, recursion into the smaller side only,
    and, for the unique option, marking of all but the first of equal lines. */
module SortQuick {

  datatype Line = Line(text: string, marked: bool)

  type Comparison = (string, string) -> int

  /** The comparison is a total preorder. */
  ghost predicate Order(f: Comparison) {
    && (forall x, y :: f(x, y) < 0 <==> f(y, x) > 0)
    && (forall x, y, z :: f(x, y) <= 0 && f(y, z) <= 0 ==> f(x, z) <= 0)
  }

  lemma Signs(f: Comparison, x: string, p: string, v: string)
    requires Order(f) && f(p, v) == 0
    ensures f(x, p) < 0 <==> f(x, v) < 0
    ensures f(x, p) == 0 <==> f(x, v) == 0
    ensures f(p, x) < 0 <==> f(x, v) > 0
    ensures f(p, x) == 0 <==> f(x, v) == 0
  {
    assert f(v, p) == 0;
    assert f(x, p) <= 0 <==> f(x, v) <= 0;
    assert f(p, x) <= 0 <==> f(v, x) <= 0;
  }

  /** Below, equal to or above v all meet at v. */
  lemma Across(f: Comparison, x: string, v: string, y: string)
    requires Order(f)
    ensures f(x, v) < 0 && f(y, v) >= 0 ==> f(x, y) < 0
    ensures f(x, v) <= 0 && f(y, v) > 0 ==> f(x, y) < 0
    ensures f(x, v) == 0 && f(y, v) == 0 ==> f(x, y) == 0
  {
    if f(y, x) <= 0 {
      assert f(x, v) <= 0 ==> f(y, v) <= 0;
      assert f(y, v) >= 0 ==> f(v, y) <= 0;
      assert f(v, y) <= 0 ==> f(v, x) <= 0;
    }
  }

  // ----- rearranging

  ghost function Texts(s: seq<Line>, lo: int, hi: int): seq<string>
    requires 0 <= lo <= hi <= |s|
  {
    seq(hi - lo, i requires 0 <= i < hi - lo => s[lo + i].text)
  }

  /** Only the part from lo to hi has changed, and its texts are the same ones. */
  ghost predicate Shuffled(s: seq<Line>, s': seq<Line>, lo: int, hi: int) {
    && 0 <= lo <= hi <= |s| == |s'|
    && (forall i :: 0 <= i < lo || hi <= i < |s| ==> s'[i] == s[i])
    && multiset(Texts(s', lo, hi)) == multiset(Texts(s, lo, hi))
  }

  lemma ShuffledTrans(s: seq<Line>, s1: seq<Line>, s2: seq<Line>, lo: int, hi: int)
    requires Shuffled(s, s1, lo, hi) && Shuffled(s1, s2, lo, hi)
    ensures Shuffled(s, s2, lo, hi)
  {
  }

  ghost function Swapped(s: seq<Line>, p: int, q: int): seq<Line>
    requires 0 <= p < |s| && 0 <= q < |s|
  {
    s[p := s[q]][q := s[p]]
  }

  lemma SwapShuffles(s: seq<Line>, p: int, q: int, lo: int, hi: int)
    requires 0 <= lo <= p < hi <= |s| && lo <= q < hi
    ensures Shuffled(s, Swapped(s, p, q), lo, hi)
  {
    var t, s' := Texts(s, lo, hi), Swapped(s, p, q);
    assert Texts(s', lo, hi) == t[p - lo := t[q - lo]][q - lo := t[p - lo]];
    SwapTexts(t, p - lo, q - lo);
  }

  lemma SwapTexts(t: seq<string>, p: int, q: int)
    requires 0 <= p < |t| && 0 <= q < |t|
    ensures multiset(t[p := t[q]][q := t[p]]) == multiset(t)
  {
  }

  /** Rearranging a part rearranges the whole. */
  lemma ShuffledWider(s: seq<Line>, s': seq<Line>, lo: int, hi: int, lo0: int, hi0: int)
    requires Shuffled(s, s', lo, hi) && 0 <= lo0 <= lo && hi <= hi0 <= |s|
    ensures Shuffled(s, s', lo0, hi0)
  {
    assert Texts(s, lo0, hi0) == Texts(s, lo0, lo) + Texts(s, lo, hi) + Texts(s, hi, hi0);
    assert Texts(s', lo0, hi0) == Texts(s', lo0, lo) + Texts(s', lo, hi) + Texts(s', hi, hi0);
    assert Texts(s', lo0, lo) == Texts(s, lo0, lo) && Texts(s', hi, hi0) == Texts(s, hi, hi0);
  }

  /** A line of the rearranged part has a text that was in the part before. */
  lemma WasThere(s: seq<Line>, s': seq<Line>, lo: int, hi: int, k: int) returns (j: int)
    requires Shuffled(s, s', lo, hi) && lo <= k < hi
    ensures lo <= j < hi && s[j].text == s'[k].text
  {
    var t, t' := Texts(s, lo, hi), Texts(s', lo, hi);
    assert t'[k - lo] in multiset(t');
    assert t'[k - lo] in t;
    var i :| 0 <= i < |t| && t[i] == t'[k - lo];
    j := lo + i;
  }

  // ----- the partition

  /** While partitioning: below the pivot up to i, equal from lp to hp, above from j on. */
  ghost predicate Regions(f: Comparison, s: seq<Line>, v: string, lo: int, i: int, lp: int, hp: int, j: int, hi: int) {
    && 0 <= lo <= i <= lp <= hp <= j < hi <= |s|
    && (forall k :: lo <= k < i ==> f(s[k].text, v) < 0)
    && (forall k :: lp <= k <= hp ==> f(s[k].text, v) == 0)
    && (forall k :: j < k < hi ==> f(s[k].text, v) > 0)
  }

  ghost predicate Unmarked(s: seq<Line>, lo: int, hi: int) {
    0 <= lo <= hi <= |s| && forall k :: lo <= k < hi ==> !s[k].marked
  }

  method Exchange(a: array<Line>, p: int, q: int)
    requires 0 <= p < a.Length && 0 <= q < a.Length
    modifies a
    ensures a[..] == Swapped(old(a[..]), p, q)
  {
    a[p], a[q] := a[q], a[p];
  }

  /** qstexc: what is at r goes to p, what is at q to r, and what was at p to q. */
  method Rotate(a: array<Line>, p: int, q: int, r: int)
    requires 0 <= p < a.Length && 0 <= q < a.Length && 0 <= r < a.Length && p != q && p != r
    modifies a
    ensures a[..] == Swapped(Swapped(old(a[..]), p, r), r, q)
  {
    var t := a[p];
    a[p] := a[r];
    a[r] := a[q];
    a[q] := t;
  }

  lemma RotateShuffles(s: seq<Line>, p: int, q: int, r: int, lo: int, hi: int)
    requires 0 <= lo <= p < hi <= |s| && lo <= q < hi && lo <= r < hi
    ensures Shuffled(s, Swapped(Swapped(s, p, r), r, q), lo, hi)
  {
    hide Shuffled;
    SwapShuffles(s, p, r, lo, hi);
    SwapShuffles(Swapped(s, p, r), r, q, lo, hi);
    ShuffledTrans(s, Swapped(s, p, r), Swapped(Swapped(s, p, r), r, q), lo, hi);
  }

  /** State of the partition of a from s0. */
  ghost predicate Partial(f: Comparison, s0: seq<Line>, s: seq<Line>, v: string, lo: int, i: int, lp: int, hp: int,
                          j: int, hi: int) {
    Shuffled(s0, s, lo, hi) && Unmarked(s, lo, hi) && Regions(f, s, v, lo, i, lp, hp, j, hi)
  }

  lemma SwapUnmarked(s: seq<Line>, p: int, q: int, lo: int, hi: int)
    requires Unmarked(s, lo, hi) && lo <= p < hi && lo <= q < hi
    ensures Unmarked(Swapped(s, p, q), lo, hi)
  {
  }

  /** A line equal to the pivot, found among the lower ones, joins the middle. */
  lemma EqualBelow(f: Comparison, s0: seq<Line>, s: seq<Line>, v: string, lo: int, i: int, lp: int, hp: int, j: int,
                   hi: int)
    requires Partial(f, s0, s, v, lo, i, lp, hp, j, hi) && i < lp && f(s[i].text, v) == 0
    ensures Partial(f, s0, Swapped(s, i, lp - 1), v, lo, i, lp - 1, hp, j, hi)
  {
    hide Shuffled;
    SwapShuffles(s, i, lp - 1, lo, hi);
    ShuffledTrans(s0, s, Swapped(s, i, lp - 1), lo, hi);
  }

  lemma EqualAbove(f: Comparison, s0: seq<Line>, s: seq<Line>, v: string, lo: int, i: int, lp: int, hp: int, j: int,
                   hi: int)
    requires Partial(f, s0, s, v, lo, i, lp, hp, j, hi) && hp < j && f(s[j].text, v) == 0
    ensures Partial(f, s0, Swapped(s, hp + 1, j), v, lo, i, lp, hp + 1, j, hi)
  {
    hide Shuffled;
    SwapShuffles(s, hp + 1, j, lo, hi);
    ShuffledTrans(s0, s, Swapped(s, hp + 1, j), lo, hi);
  }

  /** A lower line from above goes below, and the middle moves up by one. */
  lemma MiddleUp(f: Comparison, s0: seq<Line>, s: seq<Line>, v: string, lo: int, lp: int, hp: int, j: int, hi: int)
    requires Partial(f, s0, s, v, lo, lp, lp, hp, j, hi) && hp < j && f(s[j].text, v) < 0
    ensures Partial(f, s0, Swapped(Swapped(s, lp, j), j, hp + 1), v, lo, lp + 1, lp + 1, hp + 1, j, hi)
  {
    hide Shuffled;
    RotateShuffles(s, lp, hp + 1, j, lo, hi);
    SwapUnmarked(s, lp, j, lo, hi);
    SwapUnmarked(Swapped(s, lp, j), j, hp + 1, lo, hi);
    ShuffledTrans(s0, s, Swapped(Swapped(s, lp, j), j, hp + 1), lo, hi);
  }

  /** A higher line from below goes above, and the middle moves down by one. */
  lemma MiddleDown(f: Comparison, s0: seq<Line>, s: seq<Line>, v: string, lo: int, i: int, lp: int, hp: int, hi: int)
    requires Partial(f, s0, s, v, lo, i, lp, hp, hp, hi) && i < lp && f(s[i].text, v) > 0
    ensures Partial(f, s0, Swapped(Swapped(s, hp, i), i, lp - 1), v, lo, i, lp - 1, hp - 1, hp - 1, hi)
  {
    hide Shuffled;
    RotateShuffles(s, hp, lp - 1, i, lo, hi);
    SwapUnmarked(s, hp, i, lo, hi);
    SwapUnmarked(Swapped(s, hp, i), i, lp - 1, lo, hi);
    ShuffledTrans(s0, s, Swapped(Swapped(s, hp, i), i, lp - 1), lo, hi);
  }

  lemma BothAcross(f: Comparison, s0: seq<Line>, s: seq<Line>, v: string, lo: int, i: int, lp: int, hp: int, j: int,
                   hi: int)
    requires Partial(f, s0, s, v, lo, i, lp, hp, j, hi) && i < lp
    requires hp < j && f(s[i].text, v) > 0 && f(s[j].text, v) < 0
    ensures Partial(f, s0, Swapped(s, i, j), v, lo, i + 1, lp, hp, j - 1, hi)
  {
    hide Shuffled;
    SwapShuffles(s, i, j, lo, hi);
    ShuffledTrans(s0, s, Swapped(s, i, j), lo, hi);
  }

  /** What the tests on lines i and j say, the pivot lines being equal to v. */
  lemma Tests(f: Comparison, s0: seq<Line>, s: seq<Line>, v: string, lo: int, i: int, lp: int, hp: int, j: int,
              hi: int, x: string)
    requires Order(f) && Partial(f, s0, s, v, lo, i, lp, hp, j, hi)
    ensures f(x, s[lp].text) < 0 <==> f(x, v) < 0
    ensures f(x, s[lp].text) == 0 <==> f(x, v) == 0
    ensures f(s[hp].text, x) > 0 <==> f(x, v) < 0
    ensures f(s[hp].text, x) == 0 <==> f(x, v) == 0
  {
    Signs(f, x, s[lp].text, v);
    Signs(f, x, s[hp].text, v);
  }

  lemma Bounds(f: Comparison, s0: seq<Line>, s: seq<Line>, v: string, lo: int, i: int, lp: int, hp: int, j: int,
               hi: int)
    requires Partial(f, s0, s, v, lo, i, lp, hp, j, hi)
    ensures 0 <= lo <= i <= lp <= hp <= j < hi <= |s|
    ensures !s[i].marked && !s[lp].marked && !s[hp].marked && !s[j].marked
    ensures i < lp && f(s[i].text, v) < 0 ==> Partial(f, s0, s, v, lo, i + 1, lp, hp, j, hi)
    ensures hp < j && f(s[j].text, v) > 0 ==> Partial(f, s0, s, v, lo, i, lp, hp, j - 1, hi)
  {
  }

  method Partition(a: array<Line>, lo: int, hi: int, f: Comparison) returns (lp: int, hp: int, ghost v: string)
    requires Order(f) && 0 <= lo && lo + 1 < hi <= a.Length && Unmarked(a[..], lo, hi)
    modifies a
    ensures Partial(f, old(a[..]), a[..], v, lo, lp, lp, hp, hp, hi)
  {
    hide Order, Shuffled, Unmarked, Regions, Swapped;
    lp := lo + (hi - lo) / 2;
    hp := lp;
    v := a[lp].text;
    ghost var s0 := a[..];
    Begin(f, s0, lo, lp, hi);
    var i, j := lo, hi - 1;
    label outer:
    while true
      invariant a.Length == |s0| && Partial(f, s0, a[..], v, lo, i, lp, hp, j, hi)
      decreases lp - i + (j - hp)
    {
      Bounds(f, s0, a[..], v, lo, i, lp, hp, j, hi);
      Tests(f, s0, a[..], v, lo, i, lp, hp, j, hi, a[i].text);
      if i < lp {
        var c := f(a[i].text, a[lp].text);
        if c == 0 {
          EqualBelow(f, s0, a[..], v, lo, i, lp, hp, j, hi);
          lp := lp - 1;
          Exchange(a, i, lp);
          continue outer;
        }
        if c < 0 {
          i := i + 1;
          continue outer;
        }
      }
      ghost var before := lp - i + (j - hp);
      while j > hp
        invariant Partial(f, s0, a[..], v, lo, i, lp, hp, j, hi) && lo <= i <= lp <= hp <= j < hi
        invariant i < lp ==> f(a[i].text, v) > 0
        invariant lp - i + (j - hp) <= before
        decreases j - hp
      {
        Bounds(f, s0, a[..], v, lo, i, lp, hp, j, hi);
        Tests(f, s0, a[..], v, lo, i, lp, hp, j, hi, a[j].text);
        var c := f(a[hp].text, a[j].text);
        if c == 0 {
          EqualAbove(f, s0, a[..], v, lo, i, lp, hp, j, hi);
          hp := hp + 1;
          LeavesAlone(a[..], hp, j, i);
          Exchange(a, hp, j);
          continue;
        }
        if c > 0 {
          if i == lp {
            MiddleUp(f, s0, a[..], v, lo, lp, hp, j, hi);
            hp := hp + 1;
            Rotate(a, i, hp, j);
            lp := lp + 1;
            i := lp;
            continue;
          }
          BothAcross(f, s0, a[..], v, lo, i, lp, hp, j, hi);
          Exchange(a, i, j);
          j := j - 1;
          i := i + 1;
          continue outer;
        }
        j := j - 1;
      }
      if i == lp {
        return;
      }
      MiddleDown(f, s0, a[..], v, lo, i, lp, hp, hi);
      lp := lp - 1;
      Rotate(a, j, lp, i);
      hp := hp - 1;
      j := hp;
    }
  }

  lemma Begin(f: Comparison, s: seq<Line>, lo: int, mid: int, hi: int)
    requires Order(f) && 0 <= lo <= mid < hi <= |s| && Unmarked(s, lo, hi)
    ensures Partial(f, s, s, s[mid].text, lo, lo, mid, mid, hi - 1, hi)
  {
    var v := s[mid].text;
    assert f(v, v) == 0;
  }

  lemma LeavesAlone(s: seq<Line>, p: int, q: int, i: int)
    requires 0 <= p < |s| && 0 <= q < |s| && 0 <= i < |s| && i != p && i != q
    ensures Swapped(s, p, q)[i] == s[i]
  {
  }

  // ----- the whole sort

  ghost predicate Sorted(f: Comparison, s: seq<Line>, lo: int, hi: int)
    requires 0 <= lo <= hi <= |s|
  {
    forall i, j :: lo <= i < j < hi ==> f(s[i].text, s[j].text) <= 0
  }

  /** Line i is equal to the one before it. */
  ghost predicate Repeats(f: Comparison, s: seq<Line>, lo: int, i: int)
    requires 0 <= lo <= i < |s|
  {
    i > lo && f(s[i - 1].text, s[i].text) == 0
  }

  ghost predicate Marks(f: Comparison, uflg: bool, s: seq<Line>, lo: int, hi: int)
    requires 0 <= lo <= hi <= |s|
  {
    forall i :: lo <= i < hi ==> (s[i].marked <==> uflg && Repeats(f, s, lo, i))
  }

  /** s' is s with the part from lo to hi sorted and, if asked for, its repeated lines marked. */
  ghost predicate Sorts(f: Comparison, uflg: bool, s: seq<Line>, s': seq<Line>, lo: int, hi: int) {
    Shuffled(s, s', lo, hi) && Sorted(f, s', lo, hi) && Marks(f, uflg, s', lo, hi)
  }

  /** s2 is s1 with the middle, but for its first line, marked if asked for. */
  ghost predicate MiddleMarked(uflg: bool, s1: seq<Line>, s2: seq<Line>, lp: int, hp: int) {
    && |s2| == |s1| && 0 <= lp <= hp < |s1|
    && forall k :: 0 <= k < |s1| ==> s2[k] == if uflg && lp < k <= hp then Line(s1[k].text, true) else s1[k]
  }

  method MarkMiddle(a: array<Line>, lp: int, hp: int)
    requires 0 <= lp <= hp < a.Length
    modifies a
    ensures MiddleMarked(true, old(a[..]), a[..], lp, hp)
  {
    var k := lp + 1;
    while k <= hp
      invariant lp + 1 <= k <= hp + 1
      invariant forall j :: 0 <= j < a.Length ==> a[j] == if lp < j < k then Line(old(a[j].text), true) else old(a[j])
    {
      a[k] := Line(a[k].text, true);
      k := k + 1;
    }
  }

  /** Lines compared with v in the sorted lower part, the middle and the sorted upper part. */
  ghost predicate Layered(f: Comparison, s: seq<Line>, v: string, lo: int, lp: int, hp: int, hi: int) {
    && 0 <= lo <= lp <= hp < hi <= |s|
    && (forall k :: lo <= k < lp ==> f(s[k].text, v) < 0)
    && (forall k :: lp <= k <= hp ==> f(s[k].text, v) == 0)
    && (forall k :: hp < k < hi ==> f(s[k].text, v) > 0)
  }

  lemma LayeredKept(f: Comparison, s: seq<Line>, s': seq<Line>, v: string, lo: int, lp: int, hp: int, hi: int,
                    from: int, to: int)
    requires Layered(f, s, v, lo, lp, hp, hi) && Shuffled(s, s', from, to)
    requires (from == lo && to == lp) || (from == hp + 1 && to == hi)
    ensures Layered(f, s', v, lo, lp, hp, hi)
  {
    forall k | from <= k < to
      ensures exists j :: from <= j < to && s[j].text == s'[k].text
    {
      var j := WasThere(s, s', from, to, k);
    }
  }

  /** Two sorted parts with the middle between them are sorted. */
  lemma LayersSorted(f: Comparison, s: seq<Line>, v: string, lo: int, lp: int, hp: int, hi: int)
    requires Order(f) && Layered(f, s, v, lo, lp, hp, hi) && Sorted(f, s, lo, lp) && Sorted(f, s, hp + 1, hi)
    ensures Sorted(f, s, lo, hi)
    ensures lo < lp ==> !Repeats(f, s, lo, lp)
    ensures hp + 1 < hi ==> !Repeats(f, s, lo, hp + 1)
    ensures forall k :: lp < k <= hp ==> Repeats(f, s, lo, k)
  {
    hide Order;
    forall i, j | lo <= i < j < hi
      ensures f(s[i].text, s[j].text) <= 0
    {
      Across(f, s[i].text, v, s[j].text);
    }
    if lo < lp {
      Across(f, s[lp - 1].text, v, s[lp].text);
    }
    if hp + 1 < hi {
      Across(f, s[hp].text, v, s[hp + 1].text);
    }
    forall k | lp < k <= hp
      ensures Repeats(f, s, lo, k)
    {
      Across(f, s[k - 1].text, v, s[k].text);
    }
  }

  lemma LayersMarked(f: Comparison, u: bool, s: seq<Line>, v: string, lo: int, lp: int, hp: int, hi: int)
    requires Layered(f, s, v, lo, lp, hp, hi) && Marks(f, u, s, lo, lp) && Marks(f, u, s, hp + 1, hi)
    requires forall k :: lp <= k <= hp ==> (s[k].marked <==> u && k > lp)
    requires lo < lp ==> !Repeats(f, s, lo, lp)
    requires hp + 1 < hi ==> !Repeats(f, s, lo, hp + 1)
    requires forall k :: lp < k <= hp ==> Repeats(f, s, lo, k)
    ensures Marks(f, u, s, lo, hi)
  {
    forall i | lo <= i < hi
      ensures s[i].marked <==> u && Repeats(f, s, lo, i)
    {
      if i > hp {
        assert s[i].marked <==> u && Repeats(f, s, hp + 1, i);
      }
    }
  }

  lemma MarkedShuffled(u: bool, s1: seq<Line>, s2: seq<Line>, lo: int, lp: int, hp: int, hi: int)
    requires MiddleMarked(u, s1, s2, lp, hp) && 0 <= lo <= lp && hp < hi <= |s1|
    ensures Shuffled(s1, s2, lo, hi)
  {
    assert Texts(s2, lo, hi) == Texts(s1, lo, hi);
  }

  /** After the partition and the marking, sorting one side and then the other sorts the whole. */
  lemma Combine(f: Comparison, u: bool, s0: seq<Line>, s1: seq<Line>, s2: seq<Line>, s3: seq<Line>, s4: seq<Line>,
                v: string, lo: int, lp: int, hp: int, hi: int, lowFirst: bool)
    requires Order(f) && Partial(f, s0, s1, v, lo, lp, lp, hp, hp, hi) && MiddleMarked(u, s1, s2, lp, hp)
    requires if lowFirst then Sorts(f, u, s2, s3, lo, lp) && Sorts(f, u, s3, s4, hp + 1, hi)
             else Sorts(f, u, s2, s3, hp + 1, hi) && Sorts(f, u, s3, s4, lo, lp)
    ensures Sorts(f, u, s0, s4, lo, hi)
  {
    hide Order, Repeats, Shuffled, Sorted, Marks, Layered, Unmarked, Regions, MiddleMarked;
    MarkedLayered(f, u, s0, s1, s2, v, lo, lp, hp, hi);
    LayerBounds(f, s2, v, lo, lp, hp, hi);
    MarkedShuffled(u, s1, s2, lo, lp, hp, hi);
    if lowFirst {
      Sides(f, u, s0, s1, s2, s3, s4, v, lo, lp, hp, hi, lo, lp, hp + 1, hi);
      ShuffledLength(s2, s3, lo, lp);
      SideKept(f, u, s3, s4, lo, lp, hp + 1, hi);
    } else {
      Sides(f, u, s0, s1, s2, s3, s4, v, lo, lp, hp, hi, hp + 1, hi, lo, lp);
      ShuffledLength(s2, s3, hp + 1, hi);
      SideKept(f, u, s3, s4, hp + 1, hi, lo, lp);
    }
    MiddleKept(f, u, s0, s1, s2, s3, s4, v, lo, lp, hp, hi, lowFirst);
    LayerBounds(f, s4, v, lo, lp, hp, hi);
    LayersSorted(f, s4, v, lo, lp, hp, hi);
    LayersMarked(f, u, s4, v, lo, lp, hp, hi);
  }

  lemma MarkedLayered(f: Comparison, u: bool, s0: seq<Line>, s1: seq<Line>, s2: seq<Line>, v: string, lo: int, lp: int,
                      hp: int, hi: int)
    requires Partial(f, s0, s1, v, lo, lp, lp, hp, hp, hi) && MiddleMarked(u, s1, s2, lp, hp)
    ensures Layered(f, s2, v, lo, lp, hp, hi) && |s1| == |s2|
  {
  }

  lemma SideKept(f: Comparison, u: bool, s: seq<Line>, s': seq<Line>, b1: int, e1: int, b2: int, e2: int)
    requires Shuffled(s, s', b2, e2) && 0 <= b1 <= e1 <= |s| && (e1 <= b2 || e2 <= b1)
    requires Sorted(f, s, b1, e1) && Marks(f, u, s, b1, e1)
    ensures |s'| == |s| && Sorted(f, s', b1, e1) && Marks(f, u, s', b1, e1)
  {
    hide Sorted, Marks;
    SameMarks(f, u, s, s', b1, e1);
  }

  lemma MiddleKept(f: Comparison, u: bool, s0: seq<Line>, s1: seq<Line>, s2: seq<Line>, s3: seq<Line>, s4: seq<Line>,
                   v: string, lo: int, lp: int, hp: int, hi: int, lowFirst: bool)
    requires Partial(f, s0, s1, v, lo, lp, lp, hp, hp, hi) && MiddleMarked(u, s1, s2, lp, hp)
    requires if lowFirst then Shuffled(s2, s3, lo, lp) && Shuffled(s3, s4, hp + 1, hi)
                else Shuffled(s2, s3, hp + 1, hi) && Shuffled(s3, s4, lo, lp)
    ensures |s4| == |s2| && hp < |s4| && lp >= 0
    ensures forall k :: lp <= k <= hp ==> (s4[k].marked <==> u && k > lp)
  {
  }

  lemma Sides(f: Comparison, u: bool, s0: seq<Line>, s1: seq<Line>, s2: seq<Line>, s3: seq<Line>, s4: seq<Line>,
              v: string, lo: int, lp: int, hp: int, hi: int, b1: int, e1: int, b2: int, e2: int)
    requires Shuffled(s0, s1, lo, hi) && Shuffled(s1, s2, lo, hi) && Layered(f, s2, v, lo, lp, hp, hi)
    requires Shuffled(s2, s3, b1, e1) && Shuffled(s3, s4, b2, e2)
    requires (b1 == lo && e1 == lp && b2 == hp + 1 && e2 == hi) || (b1 == hp + 1 && e1 == hi && b2 == lo && e2 == lp)
    ensures Shuffled(s0, s4, lo, hi) && Layered(f, s4, v, lo, lp, hp, hi)
  {
    hide Shuffled, Layered;
    LayerBounds(f, s2, v, lo, lp, hp, hi);
    ShuffledLength(s0, s1, lo, hi);
    ShuffledLength(s1, s2, lo, hi);
    ShuffledLength(s2, s3, b1, e1);
    LayeredKept(f, s2, s3, v, lo, lp, hp, hi, b1, e1);
    LayeredKept(f, s3, s4, v, lo, lp, hp, hi, b2, e2);
    ShuffledWider(s2, s3, b1, e1, lo, hi);
    ShuffledWider(s3, s4, b2, e2, lo, hi);
    ShuffledTrans(s0, s1, s2, lo, hi);
    ShuffledTrans(s0, s2, s3, lo, hi);
    ShuffledTrans(s0, s3, s4, lo, hi);
  }

  lemma LayerBounds(f: Comparison, s: seq<Line>, v: string, lo: int, lp: int, hp: int, hi: int)
    requires Layered(f, s, v, lo, lp, hp, hi)
    ensures 0 <= lo <= lp <= hp < hi <= |s|
  {
  }

  lemma ShuffledLength(s: seq<Line>, s': seq<Line>, lo: int, hi: int)
    requires Shuffled(s, s', lo, hi)
    ensures |s'| == |s|
  {
  }

  /** Order and marks of a part are those of any sequence with the same lines there. */
  lemma SameMarks(f: Comparison, u: bool, s: seq<Line>, s': seq<Line>, lo: int, hi: int)
    requires 0 <= lo <= hi <= |s| == |s'|
    ensures (forall i :: lo <= i < hi ==> s'[i] == s[i]) && Sorted(f, s, lo, hi) ==> Sorted(f, s', lo, hi)
    ensures (forall i :: lo <= i < hi ==> s'[i] == s[i]) && Marks(f, u, s, lo, hi) ==> Marks(f, u, s', lo, hi)
  {
    if (forall i :: lo <= i < hi ==> s'[i] == s[i]) && Marks(f, u, s, lo, hi) {
      forall i | lo <= i < hi
        ensures s'[i].marked <==> u && Repeats(f, s', lo, i)
      {
        assert s[i].marked <==> u && Repeats(f, s, lo, i);
      }
    }
  }

  function Pow2(d: nat): nat {
    if d == 0 then 1 else 2 * Pow2(d - 1)
  }

  /** depth is the number of calls that wait for this one's recursive calls at most. */
  method Qsort(a: array<Line>, lo0: int, hi0: int, f: Comparison, uflg: bool) returns (ghost depth: nat)
    requires Order(f) && 0 <= lo0 <= hi0 <= a.Length && Unmarked(a[..], lo0, hi0)
    modifies a
    ensures Sorts(f, uflg, old(a[..]), a[..], lo0, hi0)
    ensures Pow2(depth) <= hi0 - lo0 + 1
    decreases hi0 - lo0
  {
    hide Order, Sorts, Partial, MiddleMarked, Unmarked;
    var lo, hi := lo0, hi0;
    ghost var s0 := a[..];
    depth := 0;
    while hi - lo > 1
      invariant lo0 <= lo <= hi <= hi0 && a.Length == |s0| && Unmarked(a[..], lo, hi)
      invariant forall s :: Sorts(f, uflg, a[..], s, lo, hi) ==> Sorts(f, uflg, s0, s, lo0, hi0)
      invariant Pow2(depth) <= hi0 - lo0 + 1
      decreases hi - lo
    {
      ghost var s := a[..];
      var lp, hp, v := Partition(a, lo, hi, f);
      Bounds(f, s, a[..], v, lo, lp, lp, hp, hp, hi);
      ghost var s1 := a[..];
      if uflg {
        MarkMiddle(a, lp, hp);
      }
      ghost var s2 := a[..];
      NotMarked(uflg, s1, s2, lp, hp);
      SidesUnmarked(f, uflg, s, s1, s2, v, lo, lp, hp, hi);
      ghost var d;
      if lp - lo >= hi - hp {
        d := Qsort(a, hp + 1, hi, f, uflg);
        StillUnmarked(f, uflg, s2, a[..], hp + 1, hi, lo, lp);
        forall t | Sorts(f, uflg, a[..], t, lo, lp)
          ensures Sorts(f, uflg, s, t, lo, hi)
        {
          Combine(f, uflg, s, s1, s2, a[..], t, v, lo, lp, hp, hi, false);
        }
        hi := lp;
      } else {
        d := Qsort(a, lo, lp, f, uflg);
        StillUnmarked(f, uflg, s2, a[..], lo, lp, hp + 1, hi);
        forall t | Sorts(f, uflg, a[..], t, hp + 1, hi)
          ensures Sorts(f, uflg, s, t, lo, hi)
        {
          Combine(f, uflg, s, s1, s2, a[..], t, v, lo, lp, hp, hi, true);
        }
        lo := hp + 1;
      }
      depth := if d + 1 > depth then d + 1 else depth;
    }
    AlreadySorted(f, uflg, a[..], lo, hi);
  }

  lemma NotMarked(u: bool, s1: seq<Line>, s2: seq<Line>, lp: int, hp: int)
    requires 0 <= lp <= hp < |s1| && (if u then MiddleMarked(true, s1, s2, lp, hp) else s1 == s2)
    ensures MiddleMarked(u, s1, s2, lp, hp) && |s1| == |s2|
  {
  }

  lemma SidesUnmarked(f: Comparison, u: bool, s: seq<Line>, s1: seq<Line>, s2: seq<Line>, v: string, lo: int, lp: int,
                      hp: int, hi: int)
    requires Partial(f, s, s1, v, lo, lp, lp, hp, hp, hi) && MiddleMarked(u, s1, s2, lp, hp)
    ensures Unmarked(s2, lo, lp) && Unmarked(s2, hp + 1, hi)
  {
  }

  lemma StillUnmarked(f: Comparison, u: bool, s: seq<Line>, s': seq<Line>, b: int, e: int, lo: int, hi: int)
    requires Sorts(f, u, s, s', b, e) && Unmarked(s, lo, hi) && (hi <= b || e <= lo)
    ensures Unmarked(s', lo, hi)
  {
  }

  lemma AlreadySorted(f: Comparison, u: bool, s: seq<Line>, lo: int, hi: int)
    requires 0 <= lo <= hi <= |s| && hi - lo <= 1 && Unmarked(s, lo, hi)
    ensures Sorts(f, u, s, s, lo, hi)
  {
  }

  // ----- what the marks mean

  /** With the unique option no two lines left unmarked are equal. */
  lemma OneOfEachAtMost(f: Comparison, s: seq<Line>, s': seq<Line>, lo: int, hi: int, i: int, j: int)
    requires Order(f) && Sorts(f, true, s, s', lo, hi) && lo <= i < j < hi && !s'[i].marked && !s'[j].marked
    ensures f(s'[i].text, s'[j].text) < 0
  {
    assert !Repeats(f, s', lo, j);
    if i < j - 1 {
      assert f(s'[i].text, s'[j - 1].text) <= 0;
    }
  }

  /** And every line, marked or not, is equal to one left unmarked. */
  lemma {:induction false} OneOfEachAtLeast(f: Comparison, s: seq<Line>, s': seq<Line>, lo: int, hi: int, i: int)
    returns (j: int)
    requires Order(f) && Sorts(f, true, s, s', lo, hi) && lo <= i < hi
    ensures lo <= j <= i && !s'[j].marked && f(s'[j].text, s'[i].text) == 0
    decreases i
  {
    if s'[i].marked {
      assert Repeats(f, s', lo, i);
      j := OneOfEachAtLeast(f, s, s', lo, hi, i - 1);
      Across(f, s'[j].text, s'[i - 1].text, s'[i].text);
      assert f(s'[i].text, s'[i - 1].text) == 0;
    } else {
      j := i;
      assert f(s'[i].text, s'[i].text) == 0;
    }
  }
}
