/** malloc, free and realloc of dballoc.c, over the arena's words. */
module Alloc {
  import opened AllocArena

  class Allocator {
    /** The words of memory up to the break; allocs is words 0 and 1. */
    var mem: seq<int>
    var allocp: int
    var alloct: int
    var allocx: int
    /** The chain headers, and the blocks handed out: the address and the size of each. */
    ghost var c: seq<int>
    ghost var live: map<int, int>

    ghost predicate Linked()
      reads this
    {
      Chain(mem, c) && Lives(mem, c, live) && alloct == Top(c)
    }

    ghost predicate Valid()
      reads this
    {
      Linked() && allocp in c && allocp > 0
    }

    /** The initial arena; the break is past it, other data coming between. */
    constructor (words: seq<int>)
      requires |words| >= 2
      ensures Valid() && live == map[] && |mem| == |words|
      ensures |words| > 2 ==> Gapped(mem, c, live)
    {
      mem := words[0 := 2 * 1 + 1][1 := 2 * 0 + 1];
      allocp, alloct, allocx := 1, 1, 0;
      c, live := [0, 1], map[];
    }

    /** Idle blocks that follow the idle block at p are joined to it. */
    method Coalesce(p: int, ghost i: int) returns (q: int)
      requires Linked() && 0 <= i < |c| - 1 && c[i] == p && Idle(mem, p)
      modifies this`mem, this`c
      ensures Linked() && i < |c| - 1 <= old(|c|) - 1 && c[i] == p && c[i + 1] == q && Idle(mem, p) && !Idle(mem, q)
      ensures forall mem0, c0 :: Kept(mem0, c0, old(mem), old(c)) ==> Kept(mem0, c0, mem, c)
      ensures forall mem0, c0 :: Joined(mem0, c0, old(mem), old(c)) ==> Joined(mem0, c0, mem, c)
      ensures SameRuns(old(mem), old(c), mem, c, i)
    {
      hide Kept, Joined, SameRuns;
      assert Link(mem, c, i);
      SameRunsSelf(mem, c, i);
      q := Target(mem[p]);
      while !Busy(mem[q])
        invariant Linked() && i < |c| - 1 <= old(|c|) - 1 && c[i] == p && c[i + 1] == q && Idle(mem, p)
        invariant 0 <= q < |mem|
        invariant forall mem0, c0 :: Kept(mem0, c0, old(mem), old(c)) ==> Kept(mem0, c0, mem, c)
        invariant forall mem0, c0 :: Joined(mem0, c0, old(mem), old(c)) ==> Joined(mem0, c0, mem, c)
        invariant SameRuns(old(mem), old(c), mem, c, i)
        decreases |c|
      {
        Merge(mem, c, i, live);
        Rising(mem, c, i, i + 1);
        Rising(mem, c, i + 1, |c| - 1);
        assert p < q < alloct;
        forall mem0, c0 | Kept(mem0, c0, mem, c)
          ensures Kept(mem0, c0, mem[p := mem[q]], Drop(c, i + 1))
        {
          DropKept(mem0, c0, mem, c, i, mem[q]);
        }
        forall mem0, c0 | Joined(mem0, c0, mem, c)
          ensures Joined(mem0, c0, mem[p := mem[q]], Drop(c, i + 1))
        {
          JoinedDrop(mem0, c0, mem, c, i);
        }
        SameRunsMerge(old(mem), old(c), mem, c, i);
        mem := mem[p := mem[q]];
        c := Drop(c, i + 1);
        assert Link(mem, c, i);
        q := Target(mem[p]);
      }
    }

    /** The search from p for idle blocks of nw words together, until the arena top has been passed
        twice. The first run with enough room is found, looking from the start to the top and then
        from the bottom. */
    method Search(start: int, nw: int, ghost mem0: seq<int>, ghost c0: seq<int>)
      returns (found: bool, p: int, q: int, ghost i: int)
      requires Linked() && start in c && nw > 0 && Kept(mem0, c0, mem, c)
      modifies this`mem, this`c
      ensures Linked() && Kept(mem0, c0, mem, c)
      ensures found ==> 0 <= i < |c| - 1 && c[i] == p && c[i + 1] == q && BigAt(mem, c, nw, i)
      ensures found <==> old(First(mem, c, nw, 0, 0)) != -1
      ensures found ==> p == FromAround(old(mem), old(c), nw, start)
      ensures !found ==> p == 0 && First(mem, c, nw, 0, 0) == -1
      ensures Joined(old(mem), old(c), mem, c) && Tail(mem, c) == old(Tail(mem, c))
    {
      hide Kept, Chain, Lives, Joined, First, Tail, FitsAt;
      ghost var mem1, c1, low, tail := mem, c, First(mem, c, nw, 0, 0), Tail(mem, c);
      ghost var up := First(mem, c, nw, start, 0);
      JoinedSelf(mem, c);
      p, q := start, start;
      i := 0;
      if start != 0 {
        i := IndexOf(c, start);
      }
      ChainAt(mem, c, 0);
      ChainAt(mem, c, i);
      SkipLower(mem, c, nw, start, i);
      LowNot(mem, c, nw, start);
      var temp := 0;
      while true
        invariant Linked() && Kept(mem0, c0, mem, c) && 0 <= i < |c| && c[i] == p && 0 <= temp <= 1
        invariant temp == 0 ==> start <= p && First(mem, c, nw, start, i) == up
        invariant temp == 1 ==> up == -1 && First(mem, c, nw, 0, i) == low
        invariant First(mem, c, nw, 0, 0) == low && Tail(mem, c) == tail && Joined(mem1, c1, mem, c)
        decreases 2 - temp, |c| - i
      {
        ChainAt(mem, c, i);
        if !Busy(mem[p]) {
          q := Coalesce(p, i);
          assert First(mem, c, nw, 0, 0) == low;
          JoinedFits(mem, c, nw, i);
          if q >= p + nw {
            FoundFirst(mem, c, nw, if temp == 0 then start else 0, i);
            return true, p, q, i;
          }
        }
        ChainAt(mem, c, i);
        BusyNot(mem, c, nw, i);
        NextFirst(mem, c, nw, start, i);
        NextFirst(mem, c, nw, 0, i);
        q := p;
        p := Target(mem[p]);
        if p > q {
          assert p <= alloct;
          i := i + 1;
        } else {
          assert q == alloct && p == 0;
          NoMore(mem, c, nw, if temp == 0 then start else 0);
          temp := temp + 1;
          i := 0;
          if temp > 1 {
            break;
          }
        }
      }
      found := false;
    }

    /** The arena gets the words it lacks from sbrk. */
    method Extend(nw: int, ghost mem0: seq<int>, ghost c0: seq<int>)
      requires Linked() && nw > 0 && Kept(mem0, c0, mem, c) && First(mem, c, nw, 0, 0) == -1
      modifies this`mem, this`c, this`alloct
      ensures Linked() && Kept(mem0, c0, mem, c) && 0 in c
      ensures |mem| == old(|mem|) + (nw + 512) / 512 * 512
      ensures First(mem, c, nw, 0, 0) == (if old(|mem|) == old(alloct) + 1 then old(Tail(mem, c)) else old(|mem|)) >= 0
      ensures old(Gapped(mem, c, live)) ==> Gapped(mem, c, live)
    {
      hide Lives, Kept, Chain, Gapped, First, Tail, RunStart;
      TopInside(mem, c);
      var temp := (nw + 512) / 512 * 512;
      var q := |mem|;
      ghost var m1, top := mem + seq(temp, _ => 0), Top(c);
      GrownGap(mem, c, m1, temp, live);
      GrownFirst(mem, c, m1, q, temp, nw, 0);
      TailRange(mem, c);
      LongerMem(mem, c, seq(temp, _ => 0), live, mem0, c0);
      mem := mem + seq(temp, _ => 0);
      assert q > alloct;
      Grow(mem, c, q, temp, live);
      GrownKept(mem0, c0, mem, c, q, temp);
      mem := mem[alloct := 2 * q];
      if q != alloct + 1 {
        mem := mem[alloct := mem[alloct] + 1];
      }
      alloct := q + temp - 1;
      mem := mem[q := 2 * alloct];
      mem := mem[alloct := 2 * 0 + 1];
      c := c + [q, q + temp - 1];
      assert mem == GrownMem(m1, top, q, temp);
    }

    /** The block found at p is handed out, and what is left over of it stays idle. */
    method Carve(p: int, q: int, nw: int, ghost i: int, ghost mem0: seq<int>, ghost c0: seq<int>) returns (r: int)
      requires Linked() && nw > 0 && Kept(mem0, c0, mem, c)
      requires 0 <= i < |c| - 1 && c[i] == p && c[i + 1] == q && BigAt(mem, c, nw, i)
      modifies this
      ensures Valid() && r == p + 1 && r !in old(live) && live == old(live)[r := nw - 1] && allocp == p + nw
      ensures forall a :: 0 <= a < |mem0| && a !in c0 && a != allocp ==> a < |mem| && mem[a] == mem0[a]
      ensures 0 <= allocp < |mem0| && allocp !in c0 ==> allocx == mem0[allocp]
      ensures |mem| == old(|mem|)
      ensures r - 1 < |mem0| ==> r - 1 in c0
      ensures old(Gapped(mem, c, live)) ==> Gapped(mem, c, live)
    {
      hide Chain, Lives, Insert;
      ghost var m := mem;
      ChainAt(mem, c, i);
      assert p in c && q in c;
      allocp := p + nw;
      assert allocp <= alloct;
      if q > allocp {
        Split(mem, c, i, nw, live);
        InsertAt(c, i + 1, allocp);
        allocx := mem[allocp];
        mem := mem[allocp := mem[p]];
        c := Insert(c, i + 1, allocp);
      } else {
        Take(mem, c, i, nw, live);
      }
      mem := mem[p := 2 * allocp + 1];
      live := live[p + 1 := nw - 1];
      r := p + 1;
    }

    /** malloc. The block is taken from the first run of idle blocks with enough room, looking from
        allocp to the top and then from the bottom; only if there is none does the arena grow, by the
        words asked for rounded up, and then the block is in the run at its end. */
    method Malloc(nbytes: nat) returns (r: int)
      requires Valid()
      modifies this
      ensures Valid() && r !in old(live) && live == old(live)[r := (nbytes + 1) / 2]
      ensures allocp == r + (nbytes + 1) / 2
      ensures forall a :: 0 <= a < old(|mem|) && a !in old(c) && a != allocp ==> a < |mem| && mem[a] == old(mem[a])
      ensures 0 <= allocp < old(|mem|) && allocp !in old(c) ==> allocx == old(mem)[allocp]
      ensures r - 1 < old(|mem|) ==> r - 1 in old(c)
      ensures Untouched(old(mem), mem, old(live))
      ensures old(Gapped(mem, c, live)) ==> Gapped(mem, c, live)
      ensures old(|mem|) == 2 ==> r == 2
      ensures var nw := (nbytes + 3) / 2;
        if old(First(mem, c, nw, 0, 0)) != -1 then
          |mem| == old(|mem|) && r - 1 == FromAround(old(mem), old(c), nw, old(allocp))
        else
          && |mem| == old(|mem|) + (nw + 512) / 512 * 512
          && r - 1 == if old(|mem|) == old(alloct) + 1 then old(Tail(mem, c)) else old(|mem|)
    {
      hide Chain, Lives, Gapped, Joined, First, Tail, FromAround;
      ghost var mem0, c0, live0 := mem, c, live;
      var nw := (nbytes + 3) / 2;
      HeaderRange(mem, c, allocp);
      assert 0 < allocp <= alloct;
      if |mem| == 2 {
        TwoWords(mem, c, nw);
      }
      ghost var i: int;
      var found, p, q := false, allocp, allocp;
      ghost var grown := false;
      while true
        invariant Linked() && live == live0 && p in c && Kept(mem0, c0, mem, c)
        invariant old(Gapped(mem, c, live)) ==> Gapped(mem, c, live)
        invariant !grown ==> mem == mem0 && c == c0 && p == allocp && alloct == old(alloct)
        invariant grown ==>
          && p == 0 && old(First(mem, c, nw, 0, 0)) == -1 && |mem| == |mem0| + (nw + 512) / 512 * 512
          && First(mem, c, nw, 0, 0) == (if |mem0| == old(alloct) + 1 then old(Tail(mem, c)) else |mem0|) >= 0
        invariant allocp == old(allocp)
        decreases !grown
      {
        ghost var m, h := mem, c;
        TopInside(mem, c);
        AroundBottom(mem, c, nw);
        found, p, q, i := Search(p, nw, mem0, c0);
        TopInside(mem, c);
        JoinedGapped(m, h, mem, c, live);
        JoinedLength(m, h, mem, c);
        if found {
          break;
        }
        Extend(nw, mem0, c0);
        grown := true;
      }
      r := Carve(p, q, nw, i, mem0, c0);
      Elsewhere(mem0, c0, live0, mem, c, live, allocp);
    }

    /** free; ok is false where its first assertion fails, which it does for the block at word 2
        and for no other. */
    method Free(p: int) returns (ok: bool)
      requires Valid() && p in live
      modifies this
      ensures Valid() && c == old(c) && |mem| == old(|mem|) && alloct == old(alloct) && allocx == old(allocx)
      ensures ok <==> p != 2
      ensures !ok ==> mem == old(mem) && live == old(live) && allocp == old(allocp)
      ensures ok ==> live == old(live) - {p} && allocp == p - 1
      ensures ok ==> 0 <= p - 1 < |mem| && mem == old(mem)[p - 1 := 2 * (p + old(live)[p])]
      ensures ok ==> p - 1 in c && 0 < p - 1 < alloct && Idle(mem, p - 1) && Untouched(old(mem), mem, live)
      ensures old(Gapped(mem, c, live)) ==> ok && Gapped(mem, c, live)
    {
      hide Chain, Lives;
      Release(mem, c, live, p);
      if !(p > Target(mem[1]) && p <= alloct) {
        return false;
      }
      ok := true;
      allocp := p - 1;
      assert Busy(mem[p - 1]);
      mem := mem[p - 1 := mem[p - 1] - 1];
      live := live - {p};
      FreedElsewhere(old(mem), mem, c, live, p);
      assert allocp < Target(mem[p - 1]) <= alloct;
    }

    /** Other parts of the program move the break, leaving a gap in the arena. */
    method MoveBreak(more: seq<int>)
      requires Valid()
      modifies this`mem
      ensures Valid() && mem == old(mem) + more
      ensures old(Gapped(mem, c, live)) || (alloct == 1 && live == map[] && more != []) ==> Gapped(mem, c, live)
    {
      hide Chain, Lives;
      TopInside(mem, c);
      LongerMem(mem, c, more, live, mem, c);
      mem := mem + more;
    }

    /** The user of a live block writes one of its words. */
    method Write(a: int, v: int, ghost p: int)
      requires Valid() && p in live && p <= a < p + live[p]
      modifies this`mem
      ensures Valid() && a < |mem| == old(|mem|) && mem == old(mem)[a := v]
      ensures old(Gapped(mem, c, live)) ==> Gapped(mem, c, live)
    {
      hide Chain, Lives;
      InBlock(mem, c, live, p, a);
      TopInside(mem, c);
      Poke(mem, c, live, a, v);
      mem := mem[a := v];
    }

    /** The copy loop of realloc: n words from p to q, which is below p or past the words. */
    method Copy(p: int, q: int, n: int)
      requires Valid() && q in live && 0 <= n <= live[q] && 0 <= p && p + n <= |mem|
      requires q < p || p + n <= q
      modifies this`mem
      ensures old(Gapped(mem, c, live)) ==> Gapped(mem, c, live)
      ensures Valid() && |mem| == old(|mem|) && 0 <= q && q + n <= |mem|
      ensures forall a :: q <= a < q + n ==> mem[a] == old(mem)[a - q + p]
      ensures forall a :: 0 <= a < |mem| && !(q <= a < q + n) ==> mem[a] == old(mem)[a]
    {
      hide Chain, Lives;
      BlockRange(mem, c, live, q);
      var k := 0;
      while k < n
        invariant 0 <= k <= n && Valid() && |mem| == old(|mem|)
        invariant old(Gapped(mem, c, live)) ==> Gapped(mem, c, live)
        invariant forall a :: q <= a < q + k ==> mem[a] == old(mem)[a - q + p]
        invariant forall a :: 0 <= a < |mem| && !(q <= a < q + k) ==> mem[a] == old(mem)[a]
      {
        Write(q + k, mem[p + k], q);
        k := k + 1;
      }
    }

    /** The block at p is idle, as free leaves it, or still in use; its words go to the new place
        even if that overlaps the idle block from below. */
    method Realloc(p: int, nbytes: nat) returns (q: int)
      requires Valid() && p - 1 in c && 0 < p - 1 < alloct
      modifies this
      ensures Valid() && q !in old(live) && live == old(live)[q := (nbytes + 1) / 2]
      ensures Untouched(old(mem), mem, old(live))
      ensures old(Gapped(mem, c, live)) ==> Gapped(mem, c, live)
      ensures SameWords(old(mem), p, mem, q, Min((nbytes + 1) / 2, Target(WordAt(old(mem), p - 1)) - p))
    {
      hide Chain, Lives, Untouched, Gapped, SameWords, WordAt, First, Tail, FromAround;
      ghost var m0, c0, live0 := mem, c, live;
      OldBlock(mem, c, p);
      var onw := Target(mem[p - 1]) - p;
      q := Malloc(nbytes);
      var nw := (nbytes + 1) / 2;
      ghost var m1 := mem;
      OldWords(m0, c0, m1, p, onw, allocp, allocx);
      BlockRange(mem, c, live, q);
      ghost var size := onw;
      WordIs(m0, p - 1);
      if q == p {
        WordsHere(m0, m1, p, size, nw, allocp, allocx);
        return;
      }
      Apart(m0, c0, p, onw, q);
      if nw < onw {
        onw := nw;
      }
      Move(p, q, onw, nw, size);
      WordsMoved(m0, m1, mem, p, q, size, nw, allocx);
      StillUntouched(m0, m1, mem, c, live, live0, q);
    }

    /** The last part of realloc: the words are copied, and if the split of the new block overwrote
        one of them, it is put in its new place. */
    method Move(p: int, q: int, n: int, nw: int, ghost size: int)
      requires Valid() && q in live && live[q] == nw && 0 <= p && p + size <= |mem| && n == Min(nw, size) >= 0
      requires q < p || q > p + size
      modifies this`mem
      ensures Valid() && |mem| == old(|mem|) && 0 <= q && q + nw <= |mem|
      ensures old(Gapped(mem, c, live)) ==> Gapped(mem, c, live)
      ensures forall a :: q <= a < q + n ==>
        mem[a] == if q < p && q + nw >= p && a == q + (q + nw - p) then allocx else old(mem)[a - q + p]
      ensures forall a :: 0 <= a < |mem| && !(q <= a < q + nw) ==> mem[a] == old(mem)[a]
    {
      hide Chain, Lives, Gapped;
      BlockRange(mem, c, live, q);
      Copy(p, q, n);
      if q < p && q + nw >= p {
        Write(q + (q + nw - p), allocx, q);
      }
    }
  }

  /** A program whose first act is to get a block and free it again fails in free exactly if the
      first sbrk returns the word after the initial arena. While there is a gap there instead, which
      every call keeps, no call of free fails. */
  method FirstFree(words: seq<int>, nbytes: nat) returns (ok: bool)
    requires |words| >= 2
    ensures ok <==> |words| > 2
  {
    hide Gapped, Chain, Lives;
    var arena := new Allocator(words);
    var p := arena.Malloc(nbytes);
    ok := arena.Free(p);
  }

  ghost function WordAt(mem: seq<int>, a: int): int {
    if 0 <= a < |mem| then mem[a] else 0
  }

  /** The words of the blocks in live are the same in both memories. */
  ghost predicate Untouched(mem0: seq<int>, mem: seq<int>, live: map<int, int>) {
    forall p, a :: p in live && p <= a < p + live[p] ==> WordAt(mem, a) == WordAt(mem0, a)
  }

  lemma InBlock(mem: seq<int>, c: seq<int>, live: map<int, int>, p: int, a: int)
    requires Chain(mem, c) && Lives(mem, c, live) && p in live && p <= a < p + live[p]
    ensures a !in c && 0 < a < Top(c) < |mem|
  {
    hide Chain;
    assert LiveAt(mem, c, p, live[p]);
    var i := IndexOf(c, p - 1);
    ChainAt(mem, c, i);
    ChainAt(mem, c, |c| - 1);
    if a in c {
      NoneBetween(mem, c, i, a);
    }
  }

  lemma BlockRange(mem: seq<int>, c: seq<int>, live: map<int, int>, p: int)
    requires Chain(mem, c) && Lives(mem, c, live) && p in live
    ensures 0 <= p && 0 <= live[p] && p + live[p] <= |mem|
  {
    hide Chain;
    assert LiveAt(mem, c, p, live[p]);
    ChainAt(mem, c, |c| - 1);
    if live[p] > 0 {
      InBlock(mem, c, live, p, p + live[p] - 1);
    }
  }

  function Min(a: int, b: int): int {
    if a < b then a else b
  }

  /** The n words at q in mem are those at p in mem0. */
  ghost predicate SameWords(mem0: seq<int>, p: int, mem: seq<int>, q: int, n: int) {
    0 <= p <= p + n <= |mem0| && 0 <= q && q + n <= |mem| && mem[q..q + n] == mem0[p..p + n]
  }

  lemma WordIs(mem: seq<int>, a: int)
    requires 0 <= a < |mem|
    ensures WordAt(mem, a) == mem[a]
  {
  }

  lemma WordsHere(m0: seq<int>, m1: seq<int>, p: int, size: int, nw: int, at: int, x: int)
    requires 0 <= p <= p + size <= |m0| <= |m1| && 0 <= nw && p + nw <= |m1| && at == p + nw
    requires forall a :: p <= a < p + size ==> m0[a] == if a == at then x else m1[a]
    ensures SameWords(m0, p, m1, p, Min(nw, size))
  {
  }

  /** The words copied, with the one that the split took put back. */
  lemma WordsMoved(m0: seq<int>, m1: seq<int>, m2: seq<int>, p: int, q: int, size: int, nw: int, x: int)
    requires 0 <= p <= p + size <= |m0| <= |m1| == |m2| && 0 <= nw
    requires 0 <= q && q + nw <= |m2| && (q < p || q > p + size)
    requires forall a :: p <= a < p + size ==> m0[a] == if a == q + nw then x else m1[a]
    requires forall a :: q <= a < q + Min(nw, size) ==>
      m2[a] == if q < p && q + nw >= p && a == q + (q + nw - p) then x else m1[a - q + p]
    ensures SameWords(m0, p, m2, q, Min(nw, size))
  {
    var n := Min(nw, size);
    var was, now := m0[p..p + n], m2[q..q + n];
    forall i | 0 <= i < n
      ensures now[i] == was[i]
    {
      assert m2[q + i] == if q < p && q + nw >= p && q + i == q + (q + nw - p) then x else m1[p + i];
    }
  }

  /** What is written into a live block is not in the others. */
  lemma StillUntouched(mem0: seq<int>, mem1: seq<int>, mem: seq<int>, c: seq<int>, live: map<int, int>, live0: map<int,
                       int>, q: int)
    requires Chain(mem, c) && Lives(mem, c, live) && |mem1| == |mem| && q in live && q !in live0
    requires forall p :: p in live0 ==> p in live && live[p] == live0[p]
    requires Untouched(mem0, mem1, live0)
    requires forall a :: 0 <= a < |mem| && !(q <= a < q + live[q]) ==> mem[a] == mem1[a]
    ensures Untouched(mem0, mem, live0)
  {
    hide Chain, Lives;
    forall p, a | p in live0 && p <= a < p + live0[p]
      ensures WordAt(mem, a) == WordAt(mem0, a)
    {
      if p < q {
        LiveDisjoint(mem, c, live, p, q);
      } else {
        LiveDisjoint(mem, c, live, q, p);
      }
      assert WordAt(mem1, a) == WordAt(mem0, a);
    }
  }

  lemma Poke(mem: seq<int>, c: seq<int>, live: map<int, int>, a: int, v: int)
    requires Chain(mem, c) && Lives(mem, c, live) && a !in c && 0 < a < |mem|
    ensures Chain(mem[a := v], c) && Lives(mem[a := v], c, live)
  {
    var mem' := mem[a := v];
    forall i | 0 <= i < |c| - 1
      ensures Link(mem', c, i)
    {
      assert Link(mem, c, i);
      assert c[i] in c;
    }
    assert Top(c) in c;
    forall p | p in live
      ensures LiveAt(mem[a := v], c, p, live[p])
    {
      assert LiveAt(mem, c, p, live[p]);
    }
  }

  /** What malloc writes is not in the blocks that were live. */
  lemma Elsewhere(mem0: seq<int>, c0: seq<int>, live0: map<int, int>, mem: seq<int>, c: seq<int>, live: map<int, int>,
                  at: int)
    requires Chain(mem0, c0) && Lives(mem0, c0, live0) && Chain(mem, c) && Lives(mem, c, live) && at in c
    requires forall p :: p in live0 ==> p in live && live[p] == live0[p]
    requires forall a :: 0 <= a < |mem0| && a !in c0 && a != at ==> a < |mem| && mem[a] == mem0[a]
    ensures Untouched(mem0, mem, live0)
  {
    hide Chain, Lives;
    forall p, a | p in live0 && p <= a < p + live0[p]
      ensures WordAt(mem, a) == WordAt(mem0, a)
    {
      InBlock(mem0, c0, live0, p, a);
      InBlock(mem, c, live, p, a);
    }
  }

  lemma FreedElsewhere(mem0: seq<int>, mem: seq<int>, c: seq<int>, live: map<int, int>, p: int)
    requires Chain(mem, c) && Lives(mem, c, live) && p - 1 in c && |mem| == |mem0|
    requires forall a :: 0 <= a < |mem| && a != p - 1 ==> mem[a] == mem0[a]
    ensures Untouched(mem0, mem, live)
  {
    hide Chain, Lives;
    forall q, a | q in live && q <= a < q + live[q]
      ensures WordAt(mem, a) == WordAt(mem0, a)
    {
      InBlock(mem, c, live, q, a);
    }
  }

  lemma OldBlock(mem: seq<int>, c: seq<int>, p: int)
    requires Chain(mem, c) && p - 1 in c && 0 < p - 1 < Top(c)
    ensures 0 < p - 1 < |mem| && p <= Target(mem[p - 1]) < |mem|
    ensures forall a :: p <= a < Target(mem[p - 1]) ==> a !in c
  {
    var i := IndexOf(c, p - 1);
    hide Chain;
    ChainAt(mem, c, i);
    ChainAt(mem, c, |c| - 1);
    forall a | p <= a < Target(mem[p - 1])
      ensures a !in c
    {
      if a in c {
        NoneBetween(mem, c, i, a);
      }
    }
  }

  /** The block keeps its words, but for one that a split may take, which allocx has. */
  lemma OldWords(mem0: seq<int>, c0: seq<int>, mem: seq<int>, p: int, size: int, at: int, x: int)
    requires 0 <= p <= p + size <= |mem0| <= |mem|
    requires forall a :: p <= a < p + size ==> a !in c0
    requires forall a :: 0 <= a < |mem0| && a !in c0 && a != at ==> a < |mem| && mem[a] == mem0[a]
    requires 0 <= at < |mem0| && at !in c0 ==> x == mem0[at]
    ensures forall a :: p <= a < p + size ==> mem0[a] == if a == at then x else mem[a]
  {
  }

  /** A block elsewhere begins below the old one or past its end. */
  lemma Apart(mem0: seq<int>, c0: seq<int>, p: int, size: int, q: int)
    requires Chain(mem0, c0) && p - 1 in c0 && 0 < p - 1 < Top(c0) && p - 1 < |mem0| && Target(mem0[p - 1]) == p + size
    requires q - 1 < |mem0| ==> q - 1 in c0
    ensures q <= p || q > p + size
  {
    OldBlock(mem0, c0, p);
  }

  lemma JoinedSelf(mem: seq<int>, c: seq<int>)
    ensures Joined(mem, c, mem, c)
  {
  }

  lemma JoinedLength(mem0: seq<int>, c0: seq<int>, mem: seq<int>, c: seq<int>)
    requires Joined(mem0, c0, mem, c)
    ensures |mem| == |mem0|
  {
  }

  lemma JoinedGapped(mem0: seq<int>, c0: seq<int>, mem: seq<int>, c: seq<int>, live: map<int, int>)
    requires Joined(mem0, c0, mem, c) && |c0| > 0 && |c| > 0 && Top(c) == Top(c0)
    ensures Gapped(mem0, c0, live) ==> Gapped(mem, c, live)
  {
  }

  lemma HeaderRange(mem: seq<int>, c: seq<int>, a: int)
    requires Chain(mem, c) && a in c
    ensures 0 <= a <= Top(c)
  {
    hide Chain;
    var i := IndexOf(c, a);
    ChainAt(mem, c, i);
  }

  /** The header at which a search that begins at start ends: the first with enough room from there
      up, or else from the bottom up. */
  ghost function FromAround(mem: seq<int>, c: seq<int>, nw: int, start: int): int {
    if First(mem, c, nw, start, 0) != -1 then First(mem, c, nw, start, 0) else First(mem, c, nw, 0, 0)
  }

  /** Headers below the start are not looked at first. */
  lemma {:induction false} SkipLower(mem: seq<int>, c: seq<int>, nw: int, start: int, i: int)
    requires Chain(mem, c) && 0 <= i < |c| && c[i] == start
    ensures First(mem, c, nw, start, i) == First(mem, c, nw, start, 0)
  {
    hide Chain, FitsAt;
    SkipFrom(mem, c, nw, start, i, 0);
  }

  lemma {:induction false} SkipFrom(mem: seq<int>, c: seq<int>, nw: int, start: int, i: int, k: int)
    requires Chain(mem, c) && 0 <= k <= i < |c| && c[i] == start
    ensures First(mem, c, nw, start, i) == First(mem, c, nw, start, k)
    decreases i - k
  {
    hide Chain, FitsAt;
    if k < i {
      Rising(mem, c, k, i);
      SkipFrom(mem, c, nw, start, i, k + 1);
    }
  }

  lemma FoundFirst(mem: seq<int>, c: seq<int>, nw: int, from: int, i: int)
    requires 0 <= i < |c| && from <= c[i] && FitsAt(mem, c, nw, i)
    ensures First(mem, c, nw, from, i) == c[i]
  {
  }

  lemma BusyNot(mem: seq<int>, c: seq<int>, nw: int, i: int)
    requires 0 <= i < |c|
    ensures FitsAt(mem, c, nw, i) ==> Idle(mem, c[i])
  {
  }

  lemma NextFirst(mem: seq<int>, c: seq<int>, nw: int, from: int, i: int)
    requires 0 <= i < |c| && !FitsAt(mem, c, nw, i)
    ensures First(mem, c, nw, from, i) == First(mem, c, nw, from, i + 1)
  {
  }

  lemma NoMore(mem: seq<int>, c: seq<int>, nw: int, from: int)
    ensures First(mem, c, nw, from, |c|) == -1
  {
  }

  /** What is found from the start up is there from the bottom up, too. */
  lemma LowNot(mem: seq<int>, c: seq<int>, nw: int, start: int)
    requires Chain(mem, c) && start >= 0
    ensures First(mem, c, nw, start, 0) != -1 ==> First(mem, c, nw, 0, 0) != -1
  {
    LowNotFrom(mem, c, nw, start, 0);
  }

  lemma {:induction false} LowNotFrom(mem: seq<int>, c: seq<int>, nw: int, start: int, i: int)
    requires Chain(mem, c) && start >= 0 && 0 <= i <= |c|
    ensures First(mem, c, nw, start, i) != -1 ==> First(mem, c, nw, 0, i) != -1
    decreases |c| - i
  {
    hide Chain, FitsAt;
    if i < |c| {
      ChainAt(mem, c, i);
      LowNotFrom(mem, c, nw, start, i + 1);
    }
  }

  lemma AroundBottom(mem: seq<int>, c: seq<int>, nw: int)
    ensures FromAround(mem, c, nw, 0) == First(mem, c, nw, 0, 0)
  {
  }

  lemma LongerMem(mem: seq<int>, c: seq<int>, more: seq<int>, live: map<int, int>, mem0: seq<int>, c0: seq<int>)
    requires Chain(mem, c) && Lives(mem, c, live) && Kept(mem0, c0, mem, c)
    ensures var m1 := mem + more; Chain(m1, c) && Lives(m1, c, live) && Kept(mem0, c0, m1, c) && |mem0| <= |mem|
  {
    var m1 := mem + more;
    assert forall a :: 0 <= a < |mem| ==> m1[a] == mem[a];
    forall i | 0 <= i < |c| - 1
      ensures Link(m1, c, i)
    {
      assert Link(mem, c, i);
    }
    forall p | p in live
      ensures LiveAt(m1, c, p, live[p])
    {
      assert LiveAt(mem, c, p, live[p]);
    }
  }

  lemma GrownKept(mem0: seq<int>, c0: seq<int>, mem: seq<int>, c: seq<int>, a: int, n: int)
    requires Kept(mem0, c0, mem, c) && |c| > 0 && 0 <= Top(c) < a && |mem0| <= a && 1 < n && a + n <= |mem|
    ensures Kept(mem0, c0, GrownMem(mem, Top(c), a, n), c + [a, a + n - 1])
  {
    assert Top(c) in c;
  }
}
