/** The arena of the storage allocator dballoc.c: words of memory, some of them headers, each
    pointing to the next header and marked busy or idle. */
module AllocArena {

  /** A pointer word holds twice the address it points to, plus 1 when the block is busy. */
  predicate Busy(v: int) {
    v % 2 == 1
  }

  ghost predicate Idle(mem: seq<int>, a: int) {
    0 <= a < |mem| && !Busy(mem[a])
  }

  function Target(v: int): int {
    v / 2
  }

  /** Header i points to header i + 1, further up. */
  ghost predicate Link(mem: seq<int>, c: seq<int>, i: int)
    requires 0 <= i < |c| - 1
  {
    0 <= c[i] < c[i + 1] < |mem| && Target(mem[c[i]]) == c[i + 1]
  }

  function Top(c: seq<int>): int
    requires |c| > 0
  {
    c[|c| - 1]
  }

  /** The headers c run from the two words of allocs up to the arena top, which points back. */
  ghost predicate Chain(mem: seq<int>, c: seq<int>) {
    && |c| >= 2 && c[0] == 0 && c[1] == 1 && 0 < Top(c) < |mem|
    && (forall i :: 0 <= i < |c| - 1 ==> Link(mem, c, i))
    && mem[Top(c)] == 1 && Busy(mem[0])
  }

  /** The live block at p has its header below it and exactly size words. */
  ghost predicate LiveAt(mem: seq<int>, c: seq<int>, p: int, size: int)
    requires |c| > 0
  {
    && p - 1 in c && 0 < p - 1 < Top(c) && p - 1 < |mem| && size >= 0
    && mem[p - 1] == 2 * (p + size) + 1
  }

  ghost predicate Lives(mem: seq<int>, c: seq<int>, live: map<int, int>)
    requires |c| > 0
  {
    forall p :: p in live ==> LiveAt(mem, c, p, live[p])
  }

  // ----- the order of headers

  lemma {:induction false} Rising(mem: seq<int>, c: seq<int>, i: int, j: int)
    requires Chain(mem, c) && 0 <= i < j < |c|
    ensures c[i] < c[j]
    decreases j
  {
    assert Link(mem, c, j - 1);
    if i < j - 1 {
      Rising(mem, c, i, j - 1);
    }
  }

  lemma IndexOf(c: seq<int>, a: int) returns (i: int)
    requires a in c
    ensures 0 <= i < |c| && c[i] == a
  {
    i :| 0 <= i < |c| && c[i] == a;
  }

  /** Between a header and the one it points to there is no other. */
  lemma NoneBetween(mem: seq<int>, c: seq<int>, i: int, a: int)
    requires Chain(mem, c) && 0 <= i < |c| - 1 && a in c
    ensures a <= c[i] || c[i + 1] <= a
    ensures 0 <= a <= Top(c) && c[i] < c[i + 1]
  {
    hide Chain;
    var j := IndexOf(c, a);
    if j < i { Rising(mem, c, j, i); }
    if i + 1 < j { Rising(mem, c, i + 1, j); }
    if 0 < j { Rising(mem, c, 0, j); }
    if j < |c| - 1 { Rising(mem, c, j, |c| - 1); }
    Rising(mem, c, i, i + 1);
    ChainZero(mem, c);
  }

  lemma ChainZero(mem: seq<int>, c: seq<int>)
    requires Chain(mem, c)
    ensures |c| >= 2 && c[0] == 0
  {
  }

  /** Live blocks do not overlap, nor does one reach past the next header. */
  lemma LiveDisjoint(mem: seq<int>, c: seq<int>, live: map<int, int>, p: int, q: int)
    requires Chain(mem, c) && Lives(mem, c, live) && p in live && q in live && p < q
    ensures p + live[p] <= q - 1
  {
    assert LiveAt(mem, c, p, live[p]) && LiveAt(mem, c, q, live[q]);
    var i := IndexOf(c, p - 1);
    assert Link(mem, c, i);
    NoneBetween(mem, c, i, q - 1);
  }

  // ----- what malloc does to the chain

  ghost function Drop(c: seq<int>, i: int): seq<int>
    requires 0 <= i < |c|
  {
    c[..i] + c[i + 1..]
  }

  /** Idle header i takes over the block of idle header i + 1. */
  lemma Merge(mem: seq<int>, c: seq<int>, i: int, live: map<int, int>)
    requires Chain(mem, c) && Lives(mem, c, live) && 0 <= i < |c| - 1
    requires Idle(mem, c[i]) && Idle(mem, c[i + 1])
    ensures i + 2 < |c| && i > 0
    ensures var mem', c' := mem[c[i] := mem[c[i + 1]]], Drop(c, i + 1);
      Chain(mem', c') && Lives(mem', c', live) && Idle(mem', c[i]) && Top(c') == Top(c)
  {
    assert Link(mem, c, i);
    assert i + 1 != |c| - 1;
    assert i != 0;
    var mem', c' := mem[c[i] := mem[c[i + 1]]], Drop(c, i + 1);
    Rising(mem, c, 0, i);
    Rising(mem, c, i, |c| - 1);
    forall j | 0 <= j < |c'| - 1
      ensures Link(mem', c', j)
    {
      if j == i {
        assert Link(mem, c, i + 1);
      } else if j < i {
        assert Link(mem, c, j);
        Rising(mem, c, j, i);
      } else {
        assert Link(mem, c, j + 1);
        Rising(mem, c, i, j + 1);
      }
    }
    assert Top(c') == Top(c);
    LivesDrop(mem, c, mem', i, live);
  }

  lemma LivesDrop(mem: seq<int>, c: seq<int>, mem': seq<int>, i: int, live: map<int, int>)
    requires |c| > 0 && Lives(mem, c, live) && 0 <= i && i + 2 < |c|
    requires Idle(mem, c[i]) && Idle(mem, c[i + 1])
    requires mem' == mem[c[i] := mem[c[i + 1]]]
    ensures Lives(mem', Drop(c, i + 1), live)
  {
    var c' := Drop(c, i + 1);
    assert Top(c') == Top(c);
    forall p | p in live
      ensures LiveAt(mem', c', p, live[p])
    {
      assert LiveAt(mem, c, p, live[p]);
      var j := IndexOf(c, p - 1);
      if j <= i { assert c'[j] == p - 1; } else { assert c'[j - 1] == p - 1; }
    }
  }

  ghost function Insert(c: seq<int>, i: int, a: int): (r: seq<int>)
    requires 0 <= i <= |c|
    ensures |r| == |c| + 1
  {
    c[..i] + [a] + c[i..]
  }

  lemma InsertAt(c: seq<int>, i: int, a: int)
    requires 0 <= i < |c|
    ensures |Insert(c, i, a)| == |c| + 1 && Top(Insert(c, i, a)) == Top(c)
    ensures forall j :: 0 <= j <= |c| ==> Insert(c, i, a)[j] == if j < i then c[j] else if j == i then a else c[j - 1]
    ensures forall x :: x in Insert(c, i, a) <==> x in c || x == a
  {
    assert forall x :: x in c <==> x in c[..i] || x in c[i..] by { assert c == c[..i] + c[i..]; }
  }

  ghost function SplitMem(mem: seq<int>, p: int, nw: int): seq<int>
    requires 0 <= p < p + nw < |mem|
  {
    mem[p + nw := mem[p]][p := 2 * (p + nw) + 1]
  }

  lemma SplitLink(mem: seq<int>, c: seq<int>, i: int, nw: int, j: int)
    requires Chain(mem, c) && 0 <= i < |c| - 1 && 0 < nw && 0 <= c[i] && c[i] + nw < c[i + 1] < |mem| && 0 <= j < |c|
    ensures Link(SplitMem(mem, c[i], nw), Insert(c, i + 1, c[i] + nw), j)
  {
    hide Chain;
    var c' := Insert(c, i + 1, c[i] + nw);
    if j < i {
      LinkAt(mem, c, j);
      Rising(mem, c, j, i);
      assert c'[j] == c[j] && c'[j + 1] == c[j + 1];
    } else if j > i + 1 {
      LinkAt(mem, c, j - 1);
      Rising(mem, c, i, j - 1);
      NoneBetween(mem, c, i, c[j - 1]);
    } else {
      LinkAt(mem, c, i);
    }
  }

  lemma LinkAt(mem: seq<int>, c: seq<int>, i: int)
    requires Chain(mem, c) && 0 <= i < |c| - 1
    ensures Link(mem, c, i)
  {
  }

  lemma SplitChain(mem: seq<int>, c: seq<int>, i: int, nw: int)
    requires Chain(mem, c) && 0 <= i < |c| - 1 && Idle(mem, c[i]) && 0 < nw && c[i] + nw < c[i + 1]
    ensures c[i + 1] < |mem| && c[i] > 0
    ensures Chain(SplitMem(mem, c[i], nw), Insert(c, i + 1, c[i] + nw))
  {
    hide Link;
    IdleInside(mem, c, i);
    var mem', c' := SplitMem(mem, c[i], nw), Insert(c, i + 1, c[i] + nw);
    InsertAt(c, i + 1, c[i] + nw);
    forall j | 0 <= j < |c'| - 1
      ensures Link(mem', c', j)
    {
      SplitLink(mem, c, i, nw, j);
    }
    Rising(mem, c, i, |c| - 1);
    NoneBetween(mem, c, i, Top(c));
    assert c'[0] == 0 && c'[1] == 1 && c'[|c'| - 1] == Top(c);
  }

  lemma IdleInside(mem: seq<int>, c: seq<int>, i: int)
    requires Chain(mem, c) && 0 <= i < |c| - 1 && Idle(mem, c[i])
    ensures i > 0 && 0 < c[i] < c[i + 1] < |mem|
  {
    assert Link(mem, c, i);
    assert i != 0;
    Rising(mem, c, 0, i);
  }

  lemma SplitLives(mem: seq<int>, c: seq<int>, i: int, nw: int, live: map<int, int>)
    requires Chain(mem, c) && Lives(mem, c, live) && 0 <= i < |c| - 1
    requires Idle(mem, c[i]) && 0 < nw && c[i] + nw < c[i + 1]
    requires c[i + 1] < |mem| && c[i] > 0
    ensures Lives(SplitMem(mem, c[i], nw), Insert(c, i + 1, c[i] + nw), live[c[i] + 1 := nw - 1]) && c[i] + 1 !in live
  {
    hide Chain, Insert, SplitMem, LiveAt, Top, Idle;
    var p := c[i];
    var mem', c' := SplitMem(mem, p, nw), Insert(c, i + 1, p + nw);
    forall q | q in live
      ensures LiveAt(mem', c', q, live[q]) && q != p + 1
    {
      assert LiveAt(mem, c, q, live[q]);
      SplitLive(mem, c, i, nw, q, live[q]);
    }
    SplitTaken(mem, c, i, nw);
  }

  lemma SplitLive(mem: seq<int>, c: seq<int>, i: int, nw: int, q: int, size: int)
    requires Chain(mem, c) && 0 <= i < |c| - 1 && Idle(mem, c[i]) && 0 < nw && c[i] + nw < c[i + 1] < |mem| && c[i] > 0
    requires LiveAt(mem, c, q, size)
    ensures LiveAt(SplitMem(mem, c[i], nw), Insert(c, i + 1, c[i] + nw), q, size) && q != c[i] + 1
  {
    hide Chain, Insert;
    InsertAt(c, i + 1, c[i] + nw);
    NoneBetween(mem, c, i, q - 1);
  }

  lemma SplitTaken(mem: seq<int>, c: seq<int>, i: int, nw: int)
    requires Chain(mem, c) && 0 <= i < |c| - 1 && 0 < nw && c[i] + nw < c[i + 1] < |mem| && c[i] > 0
    ensures LiveAt(SplitMem(mem, c[i], nw), Insert(c, i + 1, c[i] + nw), c[i] + 1, nw - 1)
  {
    hide Chain, Insert;
    InsertAt(c, i + 1, c[i] + nw);
    Rising(mem, c, i, |c| - 1);
    assert c[i] in c;
  }

  /** The first nw words of idle block i become a busy block, the rest stays idle. */
  lemma Split(mem: seq<int>, c: seq<int>, i: int, nw: int, live: map<int, int>)
    requires Chain(mem, c) && Lives(mem, c, live) && 0 <= i < |c| - 1 && Idle(mem, c[i])
    requires 0 < nw && c[i] + nw < c[i + 1]
    ensures c[i + 1] < |mem| && c[i] > 0 && c[i] + 1 !in live
    ensures var mem', c' := SplitMem(mem, c[i], nw), Insert(c, i + 1, c[i] + nw);
      Chain(mem', c') && Lives(mem', c', live[c[i] + 1 := nw - 1]) && Top(c') == Top(c)
  {
    hide Chain, Lives, Insert;
    SplitChain(mem, c, i, nw);
    SplitLives(mem, c, i, nw, live);
    InsertAt(c, i + 1, c[i] + nw);
  }

  /** Idle block i, of just nw words, becomes busy. */
  lemma Take(mem: seq<int>, c: seq<int>, i: int, nw: int, live: map<int, int>)
    requires Chain(mem, c) && Lives(mem, c, live) && 0 <= i < |c| - 1 && Idle(mem, c[i])
    requires c[i] + nw == c[i + 1]
    ensures c[i + 1] < |mem| && c[i] > 0
    ensures var mem' := mem[c[i] := 2 * (c[i] + nw) + 1];
      Chain(mem', c) && Lives(mem', c, live[c[i] + 1 := nw - 1]) && c[i] + 1 !in live
  {
    var p := c[i];
    assert Link(mem, c, i);
    var mem' := mem[p := 2 * (p + nw) + 1];
    assert i != 0;
    Rising(mem, c, 0, i);
    forall j | 0 <= j < |c| - 1
      ensures Link(mem', c, j)
    {
      assert Link(mem, c, j);
      if j < i { Rising(mem, c, j, i); } else if i < j { Rising(mem, c, i, j); }
    }
    Rising(mem, c, i, |c| - 1);
    forall q | q in live
      ensures LiveAt(mem', c, q, live[q]) && q != p + 1
    {
      assert LiveAt(mem, c, q, live[q]);
    }
    assert c[i] == p;
  }

  /** A live block becomes idle. */
  lemma Release(mem: seq<int>, c: seq<int>, live: map<int, int>, p: int)
    requires Chain(mem, c) && Lives(mem, c, live) && p in live
    ensures p - 1 in c && 0 < p - 1 < Top(c) < |mem| && (Target(mem[1]) < p <==> p != 2)
    ensures mem[p - 1] == 2 * (p + live[p]) + 1 && p - 1 < p + live[p] <= Top(c)
    ensures var mem' := mem[p - 1 := mem[p - 1] - 1];
      Chain(mem', c) && Lives(mem', c, live - {p}) && Idle(mem', p - 1)
  {
    assert LiveAt(mem, c, p, live[p]);
    var i := IndexOf(c, p - 1);
    assert Link(mem, c, i);
    assert i != 0 && Link(mem, c, 1);
    NoneBetween(mem, c, 1, p - 1);
    NoneBetween(mem, c, i, Top(c));
    var mem' := mem[p - 1 := mem[p - 1] - 1];
    forall j | 0 <= j < |c| - 1
      ensures Link(mem', c, j)
    {
      assert Link(mem, c, j);
    }
    forall q | q in live && q != p
      ensures LiveAt(mem', c, q, live[q])
    {
      assert LiveAt(mem, c, q, live[q]);
    }
  }

  /** The arena grows: the old top becomes a header, idle if the new words follow it directly and
      a gap marked busy otherwise; n words from a on become an idle block and the new top. */
  ghost function GrownMem(mem: seq<int>, top: int, a: int, n: int): seq<int>
    requires 0 <= top < a < |mem| && 0 < n && a + n <= |mem|
  {
    mem[top := if a == top + 1 then 2 * a else 2 * a + 1][a := 2 * (a + n - 1)][a + n - 1 := 1]
  }

  lemma Grow(mem: seq<int>, c: seq<int>, a: int, n: int, live: map<int, int>)
    requires Chain(mem, c) && Lives(mem, c, live) && Top(c) < a && 1 < n && a + n <= |mem|
    ensures var mem', c' := GrownMem(mem, Top(c), a, n), c + [a, a + n - 1];
      Chain(mem', c') && Lives(mem', c', live) && Idle(mem', a) && Target(mem'[a]) == a + n - 1
  {
    var mem', c' := GrownMem(mem, Top(c), a, n), c + [a, a + n - 1];
    assert c'[|c|] == a && c'[|c| + 1] == a + n - 1;
    forall j | 0 <= j < |c'| - 1
      ensures Link(mem', c', j)
    {
      if j < |c| - 1 {
        assert Link(mem, c, j);
        Rising(mem, c, j, |c| - 1);
      }
    }
    forall q | q in live
      ensures LiveAt(mem', c', q, live[q])
    {
      assert LiveAt(mem, c, q, live[q]);
    }
  }

  // ----- room for a block, in one idle block or in several that follow each other

  ghost predicate BigAt(mem: seq<int>, c: seq<int>, nw: int, k: int)
    requires 0 <= k < |c| - 1
  {
    Idle(mem, c[k]) && c[k] + nw <= c[k + 1]
  }

  /** The first header from i on that is not idle; the arena top never is. */
  ghost function NextBusy(mem: seq<int>, c: seq<int>, i: int): (j: int)
    requires 0 <= i < |c|
    ensures i <= j < |c| && (j < |c| - 1 ==> !Idle(mem, c[j])) && forall k :: i <= k < j ==> Idle(mem, c[k])
    decreases |c| - i
  {
    if i == |c| - 1 || !Idle(mem, c[i]) then i else NextBusy(mem, c, i + 1)
  }

  /** Where the idle blocks that begin with header i end. */
  ghost function EndOf(mem: seq<int>, c: seq<int>, i: int): int
    requires 0 <= i < |c|
  {
    c[NextBusy(mem, c, i)]
  }

  /** The idle blocks that begin with header i have nw words together. */
  ghost predicate FitsAt(mem: seq<int>, c: seq<int>, nw: int, i: int)
    requires 0 <= i < |c|
  {
    Idle(mem, c[i]) && c[i] + nw <= EndOf(mem, c, i)
  }

  /** The first such header at address from or above, of those from index i on; -1 if there is none. */
  ghost function First(mem: seq<int>, c: seq<int>, nw: int, from: int, i: int): int
    requires 0 <= i <= |c|
    decreases |c| - i
  {
    if i == |c| then -1
    else if from <= c[i] && FitsAt(mem, c, nw, i) then c[i]
    else First(mem, c, nw, from, i + 1)
  }

  /** The first of the idle headers directly below header i; i itself if there are none. */
  ghost function RunStart(mem: seq<int>, c: seq<int>, i: int): (k: int)
    requires 0 <= i < |c|
    ensures 0 <= k <= i && (k > 0 ==> !Idle(mem, c[k - 1])) && forall h :: k <= h < i ==> Idle(mem, c[h])
  {
    if i > 0 && Idle(mem, c[i - 1]) then RunStart(mem, c, i - 1) else i
  }

  /** The header at which the idle blocks at the end of the arena begin; the top if there are none. */
  ghost function Tail(mem: seq<int>, c: seq<int>): int
    requires |c| > 0
  {
    c[RunStart(mem, c, |c| - 1)]
  }

  /** The index of a header once header i + 1 is gone. */
  function Shift(i: int, k: int): int {
    if k <= i then k else k - 1
  }

  lemma MergeHeader(mem: seq<int>, c: seq<int>, i: int, k: int)
    requires Chain(mem, c) && 0 <= i && i + 2 < |c| && Idle(mem, c[i]) && Idle(mem, c[i + 1])
    requires 0 <= k < |c| && k != i + 1
    ensures var mem', c' := mem[c[i] := mem[c[i + 1]]], Drop(c, i + 1);
      |c'| == |c| - 1 && c'[Shift(i, k)] == c[k] && (Idle(mem', c[k]) <==> Idle(mem, c[k]))
  {
    if k < i {
      Rising(mem, c, k, i);
    } else if i < k {
      Rising(mem, c, i, k);
    }
  }

  /** Joining idle blocks does not change where a run of them ends. */
  lemma {:induction false} MergeEnd(mem: seq<int>, c: seq<int>, i: int, k: int)
    requires Chain(mem, c) && 0 <= i && i + 2 < |c| && Idle(mem, c[i]) && Idle(mem, c[i + 1])
    requires 0 <= k < |c| && k != i + 1
    ensures var mem', c' := mem[c[i] := mem[c[i + 1]]], Drop(c, i + 1);
      |c'| == |c| - 1 && EndOf(mem', c', Shift(i, k)) == EndOf(mem, c, k)
    decreases |c| - k
  {
    hide Chain, Idle;
    MergeHeader(mem, c, i, k);
    if k < |c| - 1 && Idle(mem, c[k]) {
      MergeEnd(mem, c, i, if k == i then i + 2 else k + 1);
    }
  }

  /** Nor does it change which run is the first with enough room. */
  lemma {:induction false} MergeFirst(mem: seq<int>, c: seq<int>, i: int, nw: int, from: int, k: int)
    requires Chain(mem, c) && 0 <= i && i + 2 < |c| && Idle(mem, c[i]) && Idle(mem, c[i + 1])
    requires 0 <= k <= |c| && k != i + 1 && from <= c[i]
    ensures var mem', c' := mem[c[i] := mem[c[i + 1]]], Drop(c, i + 1);
      |c'| == |c| - 1 && First(mem', c', nw, from, Shift(i, k)) == First(mem, c, nw, from, k)
    decreases |c| - k
  {
    hide Chain, Idle, EndOf;
    if k < |c| {
      MergeHeader(mem, c, i, k);
      MergeEnd(mem, c, i, k);
      if k == i {
        SecondSmaller(mem, c, nw, i);
        MergeFirst(mem, c, i, nw, from, i + 2);
      } else {
        MergeFirst(mem, c, i, nw, from, k + 1);
      }
    }
  }

  /** If a run is too small, so is what is left of it without its first block. */
  lemma SecondSmaller(mem: seq<int>, c: seq<int>, nw: int, i: int)
    requires Chain(mem, c) && 0 <= i && i + 2 < |c| && Idle(mem, c[i]) && Idle(mem, c[i + 1])
    ensures FitsAt(mem, c, nw, i + 1) ==> FitsAt(mem, c, nw, i)
  {
    Rising(mem, c, i, i + 1);
  }

  lemma {:induction false} MergeStart(mem: seq<int>, c: seq<int>, i: int, k: int)
    requires Chain(mem, c) && 0 <= i && i + 2 < |c| && Idle(mem, c[i]) && Idle(mem, c[i + 1])
    requires 0 <= k < |c| && k != i + 1
    ensures var mem', c' := mem[c[i] := mem[c[i + 1]]], Drop(c, i + 1);
      |c'| == |c| - 1 && c'[RunStart(mem', c', Shift(i, k))] == c[RunStart(mem, c, k)]
    decreases k
  {
    hide Chain, Idle;
    MergeHeader(mem, c, i, k);
    if k > 0 {
      var h := if k == i + 2 then i else k - 1;
      MergeHeader(mem, c, i, h);
      MergeStart(mem, c, i, h);
    }
  }

  /** From mem0 with headers c0 to mem with headers c, which has the same ones up to index i: every
      request finds the same run as before, and the last run begins at the same header. */
  ghost predicate SameRuns(mem0: seq<int>, c0: seq<int>, mem: seq<int>, c: seq<int>, i: int) {
    && 0 <= i < |c| && i < |c0| && c[i] == c0[i] && Tail(mem, c) == Tail(mem0, c0)
    && forall nw, from :: from <= c[i] ==>
                            && First(mem, c, nw, from, 0) == First(mem0, c0, nw, from, 0)
                            && First(mem, c, nw, from, i) == First(mem0, c0, nw, from, i)
  }

  lemma SameRunsMerge(mem0: seq<int>, c0: seq<int>, mem: seq<int>, c: seq<int>, i: int)
    requires SameRuns(mem0, c0, mem, c, i) && Chain(mem, c) && i + 2 < |c| && Idle(mem, c[i]) && Idle(mem, c[i + 1])
    ensures SameRuns(mem0, c0, mem[c[i] := mem[c[i + 1]]], Drop(c, i + 1), i)
  {
    hide Chain, First, RunStart;
    var mem', c' := mem[c[i] := mem[c[i + 1]]], Drop(c, i + 1);
    MergeHeader(mem, c, i, i);
    MergeStart(mem, c, i, |c| - 1);
    forall nw, from | from <= c[i]
      ensures First(mem', c', nw, from, 0) == First(mem0, c0, nw, from, 0)
      ensures First(mem', c', nw, from, i) == First(mem0, c0, nw, from, i)
    {
      MergeFirst(mem, c, i, nw, from, 0);
      MergeFirst(mem, c, i, nw, from, i);
    }
  }

  lemma SameRunsSelf(mem: seq<int>, c: seq<int>, i: int)
    requires 0 <= i < |c|
    ensures SameRuns(mem, c, mem, c, i)
  {
  }

  /** A joined block is where its run is looked for. */
  lemma JoinedFits(mem: seq<int>, c: seq<int>, nw: int, i: int)
    requires 0 <= i < |c| - 1 && Idle(mem, c[i]) && !Idle(mem, c[i + 1])
    ensures FitsAt(mem, c, nw, i) <==> BigAt(mem, c, nw, i)
  {
  }

  // ----- the run at the end once the arena has grown

  /** Runs that end before the last one are as they were. */
  lemma {:induction false} GrownEnd(mem: seq<int>, c: seq<int>, m1: seq<int>, a: int, n: int, k: int)
    requires Chain(mem, c) && Grows(mem, c, m1, a, n) && 0 <= k < RunStart(mem, c, |c| - 1)
    ensures EndOf(GrownMem(m1, Top(c), a, n), c + [a, a + n - 1], k) == EndOf(mem, c, k)
    ensures Idle(GrownMem(m1, Top(c), a, n), c[k]) <==> Idle(mem, c[k])
    decreases |c| - k
  {
    var m', c' := GrownMem(m1, Top(c), a, n), c + [a, a + n - 1];
    Rising(mem, c, k, |c| - 1);
    assert c'[k] == c[k] && 0 <= c[k] by { assert Link(mem, c, k); }
    var s := RunStart(mem, c, |c| - 1);
    if Idle(mem, c[k]) {
      assert k + 1 < s;
      GrownEnd(mem, c, m1, a, n, k + 1);
    }
  }

  /** m1 is mem with words after it, n of them, from a on, for the arena. */
  ghost predicate Grows(mem: seq<int>, c: seq<int>, m1: seq<int>, a: int, n: int) {
    |c| > 0 && 0 <= Top(c) < |mem| <= a && 1 < n && a + n <= |m1| && forall i :: 0 <= i < |mem| ==> m1[i] == mem[i]
  }

  /** When no run had room, the first that has it after the arena has grown is the one at the end:
      the last run if the new words follow the arena directly, and the new words otherwise. */
  lemma {:induction false} GrownFirst(mem: seq<int>, c: seq<int>, m1: seq<int>, a: int, n: int, nw: int, k: int)
    requires Chain(mem, c) && Grows(mem, c, m1, a, n) && 0 < nw < n && 0 <= k <= |c| && First(mem, c, nw, 0, k) == -1
    requires k <= if a == Top(c) + 1 then RunStart(mem, c, |c| - 1) else |c|
    ensures First(GrownMem(m1, Top(c), a, n), c + [a, a + n - 1], nw, 0, k) ==
            if a == Top(c) + 1 then Tail(mem, c) else a
    decreases |c| - k
  {
    var m', c', s := GrownMem(m1, Top(c), a, n), c + [a, a + n - 1], RunStart(mem, c, |c| - 1);
    if a == Top(c) + 1 && k == s {
      GrownTail(mem, c, m1, a, n, s);
      TailUp(mem, c, s);
    } else if k == |c| {
      assert c'[k] == a && c'[k + 1] == a + n - 1;
      assert NextBusy(m', c', k) == k + 1;
    } else {
      assert c'[k] == c[k];
      GrownMisses(mem, c, m1, a, n, nw, k);
      GrownFirst(mem, c, m1, a, n, nw, k + 1);
    }
  }

  lemma TailUp(mem: seq<int>, c: seq<int>, s: int)
    requires Chain(mem, c) && s == RunStart(mem, c, |c| - 1)
    ensures 0 <= c[s] <= Top(c)
  {
    if s < |c| - 1 {
      Rising(mem, c, s, |c| - 1);
    }
    if 0 < s {
      Rising(mem, c, 0, s);
    }
  }

  lemma TailRange(mem: seq<int>, c: seq<int>)
    requires Chain(mem, c)
    ensures 0 <= Tail(mem, c) <= Top(c)
  {
    TailUp(mem, c, RunStart(mem, c, |c| - 1));
  }

  /** The last run goes on through the new words. */
  lemma {:induction false} GrownTail(mem: seq<int>, c: seq<int>, m1: seq<int>, a: int, n: int, k: int)
    requires Chain(mem, c) && Grows(mem, c, m1, a, n) && a == Top(c) + 1 && RunStart(mem, c, |c| - 1) <= k < |c|
    ensures EndOf(GrownMem(m1, Top(c), a, n), c + [a, a + n - 1], k) == a + n - 1
    ensures Idle(GrownMem(m1, Top(c), a, n), c[k])
    decreases |c| - k
  {
    var m', c' := GrownMem(m1, Top(c), a, n), c + [a, a + n - 1];
    assert c'[k] == c[k] && c'[|c|] == a && c'[|c| + 1] == a + n - 1;
    if k == |c| - 1 {
      assert NextBusy(m', c', |c|) == |c| + 1;
    } else {
      Rising(mem, c, k, |c| - 1);
      GrownTail(mem, c, m1, a, n, k + 1);
    }
  }

  lemma GrownMisses(mem: seq<int>, c: seq<int>, m1: seq<int>, a: int, n: int, nw: int, k: int)
    requires Chain(mem, c) && Grows(mem, c, m1, a, n) && 0 < nw && 0 <= k < |c| && First(mem, c, nw, 0, k) == -1
    requires a == Top(c) + 1 ==> k < RunStart(mem, c, |c| - 1)
    ensures !FitsAt(GrownMem(m1, Top(c), a, n), c + [a, a + n - 1], nw, k) && First(mem, c, nw, 0, k + 1) == -1
  {
    assert 0 <= c[k] by { ChainAt(mem, c, k); }
    if k < RunStart(mem, c, |c| - 1) {
      GrownEnd(mem, c, m1, a, n, k);
    } else {
      GrownLast(mem, c, m1, a, n, k);
    }
  }

  /** With a gap before the new words the last run ends at the old top. */
  lemma {:induction false} GrownLast(mem: seq<int>, c: seq<int>, m1: seq<int>, a: int, n: int, k: int)
    requires Chain(mem, c) && Grows(mem, c, m1, a, n) && a != Top(c) + 1 && RunStart(mem, c, |c| - 1) <= k < |c|
    ensures EndOf(GrownMem(m1, Top(c), a, n), c + [a, a + n - 1], k) == EndOf(mem, c, k)
    ensures Idle(GrownMem(m1, Top(c), a, n), c[k]) <==> Idle(mem, c[k])
    decreases |c| - k
  {
    var m', c' := GrownMem(m1, Top(c), a, n), c + [a, a + n - 1];
    assert c'[k] == c[k];
    if k < |c| - 1 {
      Rising(mem, c, k, |c| - 1);
      GrownLast(mem, c, m1, a, n, k + 1);
    }
  }

  lemma ChainAt(mem: seq<int>, c: seq<int>, i: int)
    requires Chain(mem, c) && 0 <= i < |c|
    ensures 0 <= c[i] < |mem| && c[i] <= Top(c)
    ensures i < |c| - 1 ==> c[i] < c[i + 1] <= Top(c) && Target(mem[c[i]]) == c[i + 1]
    ensures i == |c| - 1 ==> mem[c[i]] == 1
    ensures c[0] == 0
  {
    hide Target;
    if i < |c| - 1 {
      assert Link(mem, c, i);
      Rising(mem, c, i, |c| - 1);
    }
    if i + 1 < |c| - 1 {
      Rising(mem, c, i + 1, |c| - 1);
    }
  }

  // ----- what is left alone

  /** Of the words of mem0, those that are not headers are as they were, and no header is new. */
  ghost predicate Kept(mem0: seq<int>, c0: seq<int>, mem: seq<int>, c: seq<int>) {
    && |mem0| <= |mem|
    && (forall a :: 0 <= a < |mem0| && a !in c0 ==> mem[a] == mem0[a])
    && (forall a :: a in c && a < |mem0| ==> a in c0)
  }

  lemma DropKept(mem0: seq<int>, c0: seq<int>, mem: seq<int>, c: seq<int>, i: int, v: int)
    requires Kept(mem0, c0, mem, c) && 0 <= i < |c| - 1 && 0 <= c[i] < |mem|
    ensures Kept(mem0, c0, mem[c[i] := v], Drop(c, i + 1))
  {
    assert c[i] in c;
    forall a | a in Drop(c, i + 1)
      ensures a in c
    {
      var j := IndexOf(Drop(c, i + 1), a);
      assert a == c[if j <= i then j else j + 1];
    }
  }

  // ----- headers while blocks are joined

  /** From mem0 with headers c0 to mem with headers c: no header is new, busy words are as they
      were, and idle headers are still idle. */
  ghost predicate Joined(mem0: seq<int>, c0: seq<int>, mem: seq<int>, c: seq<int>) {
    && |mem| == |mem0|
    && (forall a :: a in c ==> a in c0)
    && (forall a :: 0 <= a < |mem| && Busy(mem0[a]) ==> mem[a] == mem0[a])
    && (forall a :: 0 <= a < |mem| && !Busy(mem0[a]) ==> !Busy(mem[a]))
  }

  lemma JoinedDrop(mem0: seq<int>, c0: seq<int>, mem: seq<int>, c: seq<int>, i: int)
    requires Joined(mem0, c0, mem, c) && 0 <= i < |c| - 1 && Idle(mem, c[i]) && Idle(mem, c[i + 1])
    ensures Joined(mem0, c0, mem[c[i] := mem[c[i + 1]]], Drop(c, i + 1))
  {
    forall a | a in Drop(c, i + 1)
      ensures a in c
    {
      var j := IndexOf(Drop(c, i + 1), a);
      assert a == c[if j <= i then j else j + 1];
    }
  }

  // ----- the word after the initial arena

  /** The block at word 2 is not handed out, and never will be: there is, or will be, a gap after
      the initial arena. */
  ghost predicate Gapped(mem: seq<int>, c: seq<int>, live: map<int, int>)
    requires |c| > 0
  {
    && 2 !in live && (Top(c) == 1 ==> |mem| > 2)
    && (Top(c) > 1 ==> |mem| > 1 && Busy(mem[1]))
  }

  /** A gap stays one when the arena grows. */
  lemma GrownGap(mem: seq<int>, c: seq<int>, m1: seq<int>, n: int, live: map<int, int>)
    requires Chain(mem, c) && |m1| == |mem| + n && 1 < n && forall i :: 0 <= i < |mem| ==> m1[i] == mem[i]
    ensures 0 < Top(c) < |mem|
    ensures Gapped(mem, c, live) ==> Gapped(GrownMem(m1, Top(c), |mem|, n), c + [|mem|, |mem| + n - 1], live)
  {
    var mem', c' := GrownMem(m1, Top(c), |mem|, n), c + [|mem|, |mem| + n - 1];
    assert Top(c') == |mem| + n - 1 && mem'[Top(c)] == if |mem| == Top(c) + 1 then 2 * |mem| else 2 * |mem| + 1;
  }

  lemma TopInside(mem: seq<int>, c: seq<int>)
    requires Chain(mem, c)
    ensures |c| >= 2 && 0 < Top(c) < |mem| && 1 in c
  {
    assert c[1] == 1;
  }

  /** In an arena of two words nothing fits, and the top is the only one that can grow. */
  lemma TwoWords(mem: seq<int>, c: seq<int>, nw: int)
    requires Chain(mem, c) && |mem| == 2
    ensures c == [0, 1] && First(mem, c, nw, 0, 0) == -1 && Tail(mem, c) == 1 && Top(c) == 1
  {
    if |c| > 2 {
      Rising(mem, c, 1, |c| - 1);
    }
    assert c == [0, 1] && !Idle(mem, 0) && !Idle(mem, 1);
    assert First(mem, c, nw, 0, 2) == -1 && First(mem, c, nw, 0, 1) == -1;
    assert RunStart(mem, c, 1) == 1;
  }
}
