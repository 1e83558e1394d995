/** The buffer cache with its links: the routines of bio.c working on the headers in place.
    Each routine, between two sleeps, is one step of the protocol. */
module BufferCache {
  import opened BufferProtocol
  import opened BufferSafety
  import opened BufferRings
  import opened BufferRuns

  datatype PassResult = Panic | Pass(outcome: Outcome)

  /** Which chain a buffer of this device is on: chain 0 is headed by bfreelist. */
  function ChainOf(dev: int): int {
    if dev == NODEV then 0 else 1 + Major(dev)
  }

  /** Chain c holds only buffers of its device. */
  ghost predicate Belongs(q: seq<int>, c: int, bufs: seq<Buf>) {
    forall x :: x in q ==> 0 <= x < |bufs| && ChainOf(bufs[x].dev) == c
  }

  /** Buffer b is on the chain of its device. */
  ghost predicate OnChain(bufs: seq<Buf>, chains: seq<seq<int>>, b: int)
    requires 0 <= b < |bufs|
  {
    var c := ChainOf(bufs[b].dev);
    0 <= c < |chains| && b in chains[c]
  }

  /** The device chains are rings, and every buffer is on the chain of its device and on no
      other. Chain c is headed by element |bufs| + c. */
  ghost predicate Chained(bufs: seq<Buf>, forw: seq<int>, back: seq<int>, chains: seq<seq<int>>) {
    && |forw| == |back| == |bufs| + |chains|
    && (forall c :: 0 <= c < |chains| ==> Ring(forw, back, |bufs| + c, chains[c]) && Belongs(chains[c], c, bufs))
    && (forall b :: 0 <= b < |bufs| ==> OnChain(bufs, chains, b))
  }

  /** The chains do not care about anything but the device of a buffer. */
  lemma ChainedFrame(bufs: seq<Buf>, forw: seq<int>, back: seq<int>, chains: seq<seq<int>>, b: int, bp: Buf)
    requires Chained(bufs, forw, back, chains) && 0 <= b < |bufs| && bp.dev == bufs[b].dev
    ensures Chained(bufs[b := bp], forw, back, chains)
  {
    var bufs' := bufs[b := bp];
    forall c | 0 <= c < |chains|
      ensures Ring(forw, back, |bufs| + c, chains[c]) && Belongs(chains[c], c, bufs')
    {
      assert Belongs(chains[c], c, bufs);
    }
    forall x | 0 <= x < |bufs'|
      ensures OnChain(bufs', chains, x)
    {
      assert OnChain(bufs, chains, x);
    }
  }

  /** The links after unlinking b, and after linking it in behind header d. */
  function Unlinked(f: seq<int>, g: seq<int>, b: int): (r: (seq<int>, seq<int>))
    requires 0 <= b < |f| == |g| && 0 <= f[b] < |f| && 0 <= g[b] < |f|
  {
    (f[g[b] := f[b]], g[f[b] := g[b]])
  }

  function LinkedIn(f: seq<int>, g: seq<int>, d: int, b: int): (r: (seq<int>, seq<int>))
    requires 0 <= b < |f| == |g| && 0 <= d < |f| && 0 <= f[d] < |f|
  {
    (f[b := f[d]][d := b], g[f[d] := b][b := d])
  }

  /** Take b off its chain. */
  lemma ChainsUnlink(bufs: seq<Buf>, forw: seq<int>, back: seq<int>, chains: seq<seq<int>>, b: int)
    requires Chained(bufs, forw, back, chains) && 0 <= b < |bufs|
    ensures 0 <= forw[b] < |forw| && 0 <= back[b] < |forw|
    ensures var c := ChainOf(bufs[b].dev); 0 <= c < |chains|
    ensures var c := ChainOf(bufs[b].dev);
            var (f, g) := Unlinked(forw, back, b);
            forall d :: 0 <= d < |chains| ==>
              Ring(f, g, |bufs| + d, if d == c then Remove(chains[d], b) else chains[d])
  {
    assert OnChain(bufs, chains, b);
    var c := ChainOf(bufs[b].dev);
    assert Belongs(chains[c], c, bufs);
    RingUnlink(forw, back, |bufs| + c, chains[c], b);
    var (f, g) := Unlinked(forw, back, b);
    forall d | 0 <= d < |chains|
      ensures Ring(f, g, |bufs| + d, if d == c then Remove(chains[d], b) else chains[d])
    {
      if d != c {
        assert Belongs(chains[d], d, bufs);
        RingFrame(forw, back, |bufs| + d, chains[d], f, g);
      }
    }
  }

  /** Link b, which is on no chain, in at the front of chain e. */
  lemma ChainsLink(n: int, f: seq<int>, g: seq<int>, qs: seq<seq<int>>, b: int, e: int, bufs: seq<Buf>)
    requires |f| == |g| == n + |qs| && 0 <= b < n && 0 <= e < |qs| && n == |bufs|
    requires forall d :: 0 <= d < |qs| ==> Ring(f, g, n + d, qs[d]) && b !in qs[d] && Belongs(qs[d], d, bufs)
    ensures 0 <= f[n + e] < |f|
    ensures var (f', g') := LinkedIn(f, g, n + e, b);
            forall d :: 0 <= d < |qs| ==> Ring(f', g', n + d, if d == e then [b] + qs[d] else qs[d])
  {
    RingInsertFront(f, g, n + e, qs[e], b);
    var (f', g') := LinkedIn(f, g, n + e, b);
    forall d | 0 <= d < |qs|
      ensures Ring(f', g', n + d, if d == e then [b] + qs[d] else qs[d])
    {
      if d != e {
        assert Belongs(qs[d], d, bufs) && Belongs(qs[e], e, bufs);
        RingFrame(f, g, n + d, qs[d], f', g');
      }
    }
  }

  ghost function Without(chains: seq<seq<int>>, c: int, b: int): seq<seq<int>>
    requires 0 <= c < |chains|
  {
    chains[c := Remove(chains[c], b)]
  }

  /** The chains after b has moved from chain c to the front of chain e. */
  ghost function Moved(chains: seq<seq<int>>, c: int, e: int, b: int): seq<seq<int>>
    requires 0 <= c < |chains| && 0 <= e < |chains|
  {
    var qs := Without(chains, c, b);
    qs[e := [b] + qs[e]]
  }

  lemma WithoutBelongs(bufs: seq<Buf>, forw: seq<int>, back: seq<int>, chains: seq<seq<int>>, b: int, d: int)
    requires Chained(bufs, forw, back, chains) && 0 <= b < |bufs| && 0 <= d < |chains|
    ensures var c := ChainOf(bufs[b].dev); 0 <= c < |chains|
    ensures var c := ChainOf(bufs[b].dev);
            && b !in Without(chains, c, b)[d] && Belongs(Without(chains, c, b)[d], d, bufs)
            && forall x :: x != b && x in chains[d] ==> x in Without(chains, c, b)[d]
  {
    assert OnChain(bufs, chains, b);
    var c := ChainOf(bufs[b].dev);
    assert Belongs(chains[d], d, bufs) && Belongs(chains[c], c, bufs);
    assert Ring(forw, back, |bufs| + c, chains[c]);
    RemoveOne(chains[c], b);
  }

  /** Reassigning b to another device, as getblk and geteblk do, keeps the chains in order. */
  lemma Reassign(bufs: seq<Buf>, forw: seq<int>, back: seq<int>, chains: seq<seq<int>>, b: int, bp: Buf)
    requires Chained(bufs, forw, back, chains) && 0 <= b < |bufs|
    requires 0 <= ChainOf(bp.dev) < |chains|
    ensures var c, e := ChainOf(bufs[b].dev), ChainOf(bp.dev);
            && 0 <= c < |chains| && 0 <= forw[b] < |forw| && 0 <= back[b] < |forw|
            && (var (f, g) := Unlinked(forw, back, b);
                && 0 <= f[|bufs| + e] < |f|
                && (var (f', g') := LinkedIn(f, g, |bufs| + e, b);
                    Chained(bufs[b := bp], f', g', Moved(chains, c, e, b))))
  {
    var n, c, e := |bufs|, ChainOf(bufs[b].dev), ChainOf(bp.dev);
    ChainsUnlink(bufs, forw, back, chains, b);
    var (f, g) := Unlinked(forw, back, b);
    var qs := Without(chains, c, b);
    forall d | 0 <= d < |qs|
      ensures Ring(f, g, n + d, qs[d]) && b !in qs[d] && Belongs(qs[d], d, bufs)
    {
      WithoutBelongs(bufs, forw, back, chains, b, d);
    }
    ChainsLink(n, f, g, qs, b, e, bufs);
    MovedChained(bufs, forw, back, chains, b, bp, LinkedIn(f, g, n + e, b).0, LinkedIn(f, g, n + e, b).1);
  }

  lemma MovedChained(bufs: seq<Buf>, forw: seq<int>, back: seq<int>, chains: seq<seq<int>>, b: int, bp: Buf,
                     f: seq<int>, g: seq<int>)
    requires Chained(bufs, forw, back, chains) && 0 <= b < |bufs| && 0 <= ChainOf(bp.dev) < |chains|
    requires 0 <= ChainOf(bufs[b].dev) < |chains| && |f| == |g| == |forw|
    requires var c, e := ChainOf(bufs[b].dev), ChainOf(bp.dev);
             forall d :: 0 <= d < |chains| ==>
               Ring(f, g, |bufs| + d, if d == e then [b] + Without(chains, c, b)[d] else Without(chains, c, b)[d])
    ensures Chained(bufs[b := bp], f, g, Moved(chains, ChainOf(bufs[b].dev), ChainOf(bp.dev), b))
  {
    var c, e, bufs' := ChainOf(bufs[b].dev), ChainOf(bp.dev), bufs[b := bp];
    var qs := Moved(chains, c, e, b);
    forall d | 0 <= d < |qs|
      ensures Ring(f, g, |bufs'| + d, qs[d]) && Belongs(qs[d], d, bufs')
    {
      WithoutBelongs(bufs, forw, back, chains, b, d);
    }
    forall x | 0 <= x < |bufs'|
      ensures OnChain(bufs', qs, x)
    {
      if x != b {
        assert OnChain(bufs, chains, x);
        WithoutBelongs(bufs, forw, back, chains, b, ChainOf(bufs[x].dev));
      }
    }
  }

  /** bflush will write this buffer out. */
  predicate Due(bp: Buf, dev: int) {
    bp.phase == Free && bp.flags.delwri && (dev == NODEV || dev == bp.dev)
  }

  /** A buffer after bflush, in which no completion comes between: B_AGE is set after the strategy
      call. */
  function Flushed(bp: Buf, dev: int): Buf {
    if !Due(bp, dev) then bp
    else bp.(flags := bp.flags.(busy := true, read := false, done := false,
                                 delwri := false, age := true, async := true),
             phase := Loose, io := WriteIo, dirty := false)
  }

  function Idle(n: nat): (bs: seq<Buf>)
    ensures |bs| == n
    ensures forall b :: 0 <= b < n ==>
                          bs[b] == Buf(Flags(false, false, false, false, false, false, false),
                                   NODEV, 0, [], Free, NoIo, false)
  {
    seq(n, b => Buf(Flags(false, false, false, false, false, false, false), NODEV, 0, [], Free, NoIo, false))
  }

  /** What binit has done after i buffers: they are on the chain of bfreelist, newest first,
      and on the available list, oldest first. */
  ghost predicate Entered(n: nat, i: int, forw: seq<int>, back: seq<int>, avForw: seq<int>, avBack: seq<int>,
                          q: seq<int>, avail: seq<int>)
  {
    && 0 <= i <= n && |forw| == |back| > n && |avForw| == |avBack| == n + 1
    && Ring(forw, back, n, q) && Ring(avForw, avBack, n, avail)
    && (forall x :: x in q <==> 0 <= x < i)
    && (forall x :: x in avail <==> 0 <= x < i)
  }

  /** Entering buffer i: link it in behind bfreelist on the chain, and at the back of the
      available list. */
  lemma EnterOne(n: nat, i: int, f: seq<int>, g: seq<int>, af: seq<int>, ag: seq<int>, q: seq<int>, av: seq<int>)
    requires Entered(n, i, f, g, af, ag, q, av) && i < n
    requires forall d :: n < d < |f| ==> f[d] == d && g[d] == d
    ensures |g| == |f| > n && |af| == |ag| == n + 1 && 0 <= f[n] < |f| && 0 <= ag[n] < |af|
    ensures var (f', g') := LinkedIn(f, g, n, i);
            && Entered(n, i + 1, f', g', af[ag[n] := i][i := n], ag[i := ag[n]][n := i], [i] + q, av + [i])
            && forall d :: n < d < |f'| ==> f'[d] == d && g'[d] == d
  {
    RingInsertFront(f, g, n, q, i);
    RingInsertBack(af, ag, n, av, i);
    assert LinkAt(f, g, n, q, 0);
    assert f[n] == n || f[n] in q;
    hide Ring;
    assert forall x :: x in [i] + q <==> x == i || x in q;
    assert forall x :: x in av + [i] <==> x == i || x in av;
  }

  lemma NoneEntered(n: nat, f: seq<int>, af: seq<int>)
    requires |f| > n && |af| == n + 1
    requires (forall d :: 0 <= d < |f| ==> f[d] == d) && (forall d :: 0 <= d <= n ==> af[d] == d)
    ensures Entered(n, 0, f, f, af, af, [], [])
  {
  }

  lemma AllEntered(n: nat, nmajor: nat, f: seq<int>, g: seq<int>, af: seq<int>, ag: seq<int>, q: seq<int>, av: seq<int>)
    requires Entered(n, n, f, g, af, ag, q, av) && |f| == n + 1 + nmajor
    requires forall d :: n < d < |f| ==> f[d] == d && g[d] == d
    ensures |af| == |ag| == n + 1 && Ring(af, ag, n, av) && (forall x :: x in av <==> 0 <= x < n)
    ensures Chained(Idle(n), f, g, [q] + seq(nmajor, c => []))
  {
    var chains: seq<seq<int>> := [q] + seq(nmajor, c => []);
    var bufs := Idle(n);
    forall c | 0 <= c < |chains|
      ensures Ring(f, g, n + c, chains[c]) && Belongs(chains[c], c, bufs)
    {
      if c > 0 {
        assert LinkAt(f, g, n + c, chains[c], 0);
      }
    }
    forall b | 0 <= b < n
      ensures OnChain(bufs, chains, b)
    {
      assert b in q;
    }
  }

  lemma InitialInv(s: State)
    requires s.bufs == Idle(|s.bufs|) && Distinct(s.avail) && s.spoiled == {} && !s.fwanted
    requires forall x :: x in s.avail <==> 0 <= x < |s.bufs|
    ensures Init(s) && Inv(s, s.disk)
  {
    forall i | 0 <= i < |s.avail|
      ensures 0 <= s.avail[i] < |s.bufs|
    {
      assert s.avail[i] in s.avail;
    }
  }

  class Cache {
    /** Buffers are numbered from 0; bfreelist and the d_tab of each major follow them. */
    const nbuf: nat
    const nblkdev: nat
    /** The majors that have a d_tab. */
    const tabs: set<int>
    var bufs: seq<Buf>
    var disk: Disk
    var tapes: set<int>
    var fwanted: bool
    var forw: seq<int>
    var back: seq<int>
    var avForw: seq<int>
    var avBack: seq<int>
    ghost var avail: seq<int>
    ghost var chains: seq<seq<int>>
    ghost var plain: Disk
    ghost var spoiled: set<Block>

    /** The protocol's view of the cache. */
    ghost function Abs(): State
      reads this
    {
      State(bufs, avail, fwanted, disk, tapes, spoiled)
    }

    /** Both kinds of list are well-formed doubly linked rings. */
    ghost predicate Linked()
      reads this
    {
      && |bufs| == nbuf && |avForw| == |avBack| == nbuf + 1
      && |chains| == 1 + nblkdev && nblkdev <= 255
      && Ring(avForw, avBack, nbuf, avail)
      && Chained(bufs, forw, back, chains)
    }

    ghost predicate Valid()
      reads this
    {
      Linked() && Inv(Abs(), plain)
    }

    /** The search loop of incore and getblk: walk the chain of the device. */
    method Scan(dev: int, blkno: int) returns (b: int)
      requires Linked() && Unique(bufs) && 0 <= dev < NODEV && Major(dev) < nblkdev
      ensures b == Find(bufs, dev, blkno)
    {
      var dp := nbuf + 1 + Major(dev);
      ghost var q := chains[1 + Major(dev)];
      ghost var i := 0;
      ghost var k := Find(bufs, dev, blkno);
      assert Ring(forw, back, dp, q) && Belongs(q, 1 + Major(dev), bufs);
      if k >= 0 {
        assert OnChain(bufs, chains, k);
      }
      assert LinkAt(forw, back, dp, q, 0);
      b := forw[dp];
      while b != dp
        invariant 0 <= i <= |q| && b == Elt(dp, q, i + 1)
        invariant k >= 0 ==> k in q[i..]
        decreases |q| - i
      {
        assert b == q[i] && b in q;
        if bufs[b].blkno == blkno && bufs[b].dev == dev {
          assert SameBlock(bufs[b], bufs[k]);
          return;
        }
        assert LinkAt(forw, back, dp, q, i + 1);
        b := forw[b];
        i := i + 1;
      }
      return -1;
    }

    /** incore. */
    method Incore(dev: int, blkno: int) returns (found: bool)
      requires Valid() && 0 <= dev < NODEV && Major(dev) < nblkdev && Major(dev) in tabs
      ensures found <==> exists b :: 0 <= b < |bufs| && bufs[b].dev == dev && bufs[b].blkno == blkno
    {
      var b := Scan(dev, blkno);
      found := b >= 0;
    }

    /** Store a header back, its device unchanged. */
    method Set(b: int, bp: Buf)
      requires Linked() && 0 <= b < nbuf && bp.dev == bufs[b].dev
      modifies `bufs
      ensures Linked() && bufs == old(bufs)[b := bp]
    {
      ChainedFrame(bufs, forw, back, chains, b, bp);
      bufs := bufs[b := bp];
    }

    /** notavail. */
    method NotAvail(b: int, ph: Phase)
      requires Linked() && b in avail && 0 <= b < nbuf
      modifies `bufs, `avForw, `avBack, `avail
      ensures Linked() && Abs() == BufferProtocol.NotAvail(old(Abs()), b, ph)
    {
      hide Ring, Chained;
      RingUnlink(avForw, avBack, nbuf, avail, b);
      var next, prev := avForw[b], avBack[b];
      avForw := avForw[prev := next];
      avBack := avBack[next := prev];
      avail := Remove(avail, b);
      var bp := bufs[b];
      Set(b, bp.(flags := bp.flags.(busy := true), phase := ph));
    }

    /** brelse. */
    method Release(b: int)
      requires Linked() && 0 <= b < nbuf && b !in avail
      modifies `bufs, `avForw, `avBack, `avail, `fwanted
      ensures Linked() && Abs() == BufferProtocol.Release(old(Abs()), b)
    {
      hide Ring, Chained;
      if fwanted {
        fwanted := false;
      }
      var bp := bufs[b];
      if bp.flags.age {
        RingInsertFront(avForw, avBack, nbuf, avail, b);
        var first := avForw[nbuf];
        avBack := avBack[first := b][b := nbuf];
        avForw := avForw[b := first][nbuf := b];
        avail := [b] + avail;
      } else {
        RingInsertBack(avForw, avBack, nbuf, avail, b);
        var last := avBack[nbuf];
        avForw := avForw[last := b][b := nbuf];
        avBack := avBack[b := last][nbuf := b];
        avail := avail + [b];
      }
      Set(b, bp.(flags := bp.flags.(wanted := false, busy := false, async := false, age := false),
                 phase := Free, dirty := false));
    }

    /** bwrite up to the call of the strategy routine. */
    method StartWrite(b: int, ph: Phase, async: bool)
      requires Linked() && 0 <= b < nbuf
      modifies `bufs
      ensures Linked() && Abs() == BufferProtocol.StartWrite(old(Abs()), b, ph, async)
    {
      var bp := bufs[b];
      Set(b, bp.(flags := bp.flags.(read := false, done := false, delwri := false, age := false, async := async),
                 phase := ph, io := WriteIo, dirty := false));
    }

    /** Move b to the front of the chain of dev, and associate it with (dev, blkno). */
    method Rechain(b: int, dev: int, blkno: int)
      requires Linked() && 0 <= b < nbuf && 0 <= ChainOf(dev) <= nblkdev
      modifies `bufs, `forw, `back, `chains
      ensures Linked()
      ensures bufs == old(bufs)[b := old(bufs[b]).(flags := BUSY_ONLY, dev := dev, blkno := blkno)]
    {
      hide Ring, Chained;
      var bp := bufs[b].(flags := BUSY_ONLY, dev := dev, blkno := blkno);
      var dp := nbuf + ChainOf(dev);
      ChainLengths();
      Reassign(bufs, forw, back, chains, b, bp);
      ghost var f0, g0 := forw, back;
      var next, prev := forw[b], back[b];
      forw := forw[prev := next];
      back := back[next := prev];
      ghost var f1, g1 := Unlinked(f0, g0, b).0, Unlinked(f0, g0, b).1;
      assert forw == f1 && back == g1;
      var first := forw[dp];
      forw := forw[b := first];
      back := back[first := b];
      back := back[b := dp];
      forw := forw[dp := b];
      assert (forw, back) == LinkedIn(f1, g1, dp, b);
      chains := Moved(chains, ChainOf(bufs[b].dev), ChainOf(dev), b);
      bufs := bufs[b := bp];
    }

    lemma ChainLengths()
      requires Linked()
      ensures |forw| == |back| == nbuf + 1 + nblkdev
    {
    }

    lemma HeadOfList()
      requires Linked()
      ensures avForw[nbuf] == if avail == [] then nbuf else avail[0]
    {
      assert LinkAt(avForw, avBack, nbuf, avail, 0);
    }

    /** The second half of getblk, and geteblk: take the oldest available buffer. */
    method Grab(p: nat, dev: int, blkno: int, ghost bno: int) returns (o: Outcome)
      requires Linked() && Listed(Abs()) && 0 <= ChainOf(dev) <= nblkdev
      requires bno == if dev == NODEV && avail != [] then bufs[avail[0]].blkno else blkno
      modifies `bufs, `avForw, `avBack, `avail, `fwanted, `forw, `back, `chains
      ensures Linked() && (Abs(), o) == BufferProtocol.Grab(old(Abs()), p, dev, bno)
    {
      hide Ring, Chained;
      HeadOfList();
      if avForw[nbuf] == nbuf {
        ListedHead();
        fwanted := true;
        return SleepOnList;
      }
      ListedHead();
      var b := avForw[nbuf];
      NotAvail(b, Held(p));
      if bufs[b].flags.delwri {
        StartWrite(b, Loose, true);
        return Again;
      }
      Rechain(b, dev, if dev == NODEV then bufs[b].blkno else blkno);
      return Got(b);
    }

    lemma ListedHead()
      requires Linked() && Listed(Abs())
      ensures avail != [] ==> 0 <= avail[0] < nbuf && avail[0] in avail
    {
    }

    // ----- the routines, one step each

    /** getblk, one pass from loop to a return, a sleep or a goto loop. */
    method Getblk(p: nat, dev: int, blkno: int) returns (r: PassResult)
      requires Valid() && 0 <= dev <= NODEV
      modifies this
      ensures Valid() && plain == old(plain)
      ensures Major(dev) >= nblkdev || Major(dev) !in tabs ==> r == Panic && Abs() == old(Abs())
      ensures Major(dev) < nblkdev && Major(dev) in tabs ==>
                && r == Pass(BufferProtocol.Getblk(old(Abs()), p, dev, blkno).1)
                && Abs() == Step(old(Abs()), GetblkPass(p, dev, blkno))
    {
      if Major(dev) >= nblkdev {
        return Panic;
      }
      if Major(dev) !in tabs {
        return Panic;
      }
      ghost var s := Abs();
      StepKeeps(s, GetblkPass(p, dev, blkno), plain);
      hide Ring, Chained, Settled, Tidy, Current;
      var b := Scan(dev, blkno);
      if b >= 0 {
        if bufs[b].flags.busy {
          Set(b, bufs[b].(flags := bufs[b].flags.(wanted := true)));
          return Pass(SleepOnBuf(b));
        }
        NotAvail(b, Held(p));
        return Pass(Got(b));
      }
      var o := Grab(p, dev, blkno, blkno);
      return Pass(o);
    }

    /** geteblk, one pass. */
    method Geteblk(p: nat) returns (o: Outcome)
      requires Valid()
      modifies this
      ensures Valid() && plain == old(plain)
      ensures (Abs(), o) == BufferProtocol.Geteblk(old(Abs()), p)
    {
      ghost var s := Abs();
      StepKeeps(s, GeteblkPass(p), plain);
      hide Ring, Chained, Settled, Tidy, Current, Unique;
      o := Grab(p, NODEV, 0, if avail == [] then 0 else bufs[avail[0]].blkno);
    }

    /** bread and breada: start the read of a block that is not valid in core; ahead, if the
        caller will not wait for it. */
    method StartRead(p: nat, b: int, ahead: bool)
      requires Valid() && HoldsBlock(Abs(), p, b) && !bufs[b].flags.done
      modifies this
      ensures Valid() && plain == old(plain)
      ensures Abs() == Step(old(Abs()), if ahead then ReadAhead(p, b) else ReadStart(p, b))
    {
      StepKeeps(Abs(), if ahead then ReadAhead(p, b) else ReadStart(p, b), plain);
      hide Ring, Chained, Settled, Tidy, Current, Unique, Listed;
      var bp := bufs[b];
      Set(b, bp.(flags := bp.flags.(read := true, async := ahead),
                 phase := if ahead then Loose else Reading(p), io := ReadIo, dirty := false));
    }

    /** bwrite by the holder, up to the wait. */
    method Bwrite(p: nat, b: int)
      requires Valid() && HoldsBlock(Abs(), p, b)
      modifies this
      ensures Valid()
      ensures Abs() == Step(old(Abs()), BufferProtocol.Bwrite(p, b))
      ensures plain == old(plain)[Block(old(bufs[b].dev), old(bufs[b].blkno)) := old(bufs[b].data)]
    {
      StepKeeps(Abs(), BufferProtocol.Bwrite(p, b), plain);
      hide Ring, Chained, Settled, Tidy, Current, Unique, Listed;
      plain := plain[Block(bufs[b].dev, bufs[b].blkno) := bufs[b].data];
      spoiled := spoiled - {BlockOf(bufs[b])};
      StartWrite(b, Writing(p), false);
    }

    /** bawrite. */
    method Bawrite(p: nat, b: int)
      requires Valid() && HoldsBlock(Abs(), p, b)
      modifies this
      ensures Valid()
      ensures Abs() == Step(old(Abs()), BufferProtocol.Bawrite(p, b))
      ensures plain == old(plain)[Block(old(bufs[b].dev), old(bufs[b].blkno)) := old(bufs[b].data)]
    {
      StepKeeps(Abs(), BufferProtocol.Bawrite(p, b), plain);
      hide Ring, Chained, Settled, Tidy, Current, Unique, Listed;
      plain := plain[Block(bufs[b].dev, bufs[b].blkno) := bufs[b].data];
      spoiled := spoiled - {BlockOf(bufs[b])};
      StartWrite(b, Loose, true);
    }

    /** bdwrite: release the buffer with its write still to be done; on a magtape, bawrite. */
    method Bdwrite(p: nat, b: int)
      requires Valid() && HoldsBlock(Abs(), p, b)
      modifies this
      ensures Valid()
      ensures Abs() == Step(old(Abs()), BufferProtocol.Bdwrite(p, b))
      ensures plain == old(plain)[Block(old(bufs[b].dev), old(bufs[b].blkno)) := old(bufs[b].data)]
    {
      hide Ring, Chained, Inv;
      if Major(bufs[b].dev) in tapes {
        Bawrite(p, b);
      } else {
        StepKeeps(Abs(), BufferProtocol.Bdwrite(p, b), plain);
        BusyNotListed(b);
        plain := plain[Block(bufs[b].dev, bufs[b].blkno) := bufs[b].data];
        spoiled := spoiled - {BlockOf(bufs[b])};
        Set(b, bufs[b].(flags := bufs[b].flags.(delwri := true, done := true)));
        Release(b);
      }
    }

    lemma InTransit(b: int)
      requires Valid() && 0 <= b < nbuf && bufs[b].io != NoIo
      ensures b !in avail
    {
      assert Tidy(bufs[b]);
    }

    lemma BusyNotListed(b: int)
      requires Valid() && 0 <= b < nbuf && bufs[b].phase != Free
      ensures b !in avail
    {
      assert Tidy(bufs[b]);
    }

    /** brelse by the holder. */
    method Brelse(p: nat, b: int)
      requires Valid() && Enabled(Abs(), BufferProtocol.Brelse(p, b))
      modifies this
      ensures Valid() && plain == old(plain)
      ensures Abs() == Step(old(Abs()), BufferProtocol.Brelse(p, b))
    {
      hide Ring, Chained, Settled, Tidy, Current, Unique, Listed;
      StepKeeps(Abs(), BufferProtocol.Brelse(p, b), plain);
      BusyNotListed(b);
      if bufs[b].flags.done && bufs[b].dirty {
        spoiled := spoiled + {BlockOf(bufs[b])};
      }
      Release(b);
    }

    /** The end of bwrite: its wait is over and it releases the buffer. */
    method WriteWaited(p: nat, b: int)
      requires Valid() && Enabled(Abs(), BufferProtocol.WriteWaited(p, b))
      modifies this
      ensures Valid() && plain == old(plain)
      ensures Abs() == Step(old(Abs()), BufferProtocol.WriteWaited(p, b))
    {
      hide Ring, Chained, Settled, Tidy, Current, Unique, Listed;
      StepKeeps(Abs(), BufferProtocol.WriteWaited(p, b), plain);
      BusyNotListed(b);
      Release(b);
    }

    /** The end of bread: its wait is over and the caller has the buffer. */
    method ReadWaited(p: nat, b: int)
      requires Valid() && Enabled(Abs(), BufferProtocol.ReadWaited(p, b))
      modifies this
      ensures Valid() && plain == old(plain)
      ensures Abs() == Step(old(Abs()), BufferProtocol.ReadWaited(p, b))
    {
      hide Ring, Chained, Settled, Tidy, Current, Unique, Listed;
      StepKeeps(Abs(), BufferProtocol.ReadWaited(p, b), plain);
      Set(b, bufs[b].(phase := Held(p)));
    }

    /** The holder changes the block in core. */
    method Change(p: nat, b: int, data: Data)
      requires Valid() && Holds(Abs(), p, b)
      modifies this
      ensures Valid() && plain == old(plain)
      ensures Abs() == Step(old(Abs()), Store(p, b, data))
    {
      hide Ring, Chained, Settled, Tidy, Current, Unique, Listed;
      StepKeeps(Abs(), Store(p, b, data), plain);
      Set(b, bufs[b].(data := data, dirty := true));
    }

    /** Every step of the protocol on the real links, the panics of getblk apart. */
    method Perform(e: Event)
      requires Valid() && Enabled(Abs(), e)
      requires e.GetblkPass? ==> Major(e.dev) < nblkdev && Major(e.dev) in tabs
      modifies this
      ensures Valid() && Abs() == Step(old(Abs()), e) && plain == Plain(old(Abs()), e, old(plain))
    {
      hide Linked, Inv, BufferProtocol.Getblk, BufferProtocol.Geteblk, Find;
      SizeOf();
      match e {
        case GetblkPass(p, dev, blkno) =>
          var _ := Getblk(p, dev, blkno);
        case GeteblkPass(p) =>
          var _ := Geteblk(p);
        case ReadStart(p, b) =>
          StartRead(p, b, false);
        case ReadAhead(p, b) =>
          StartRead(p, b, true);
        case ReadWaited(p, b) =>
          ReadWaited(p, b);
        case Store(p, b, data) =>
          Change(p, b, data);
        case Bwrite(p, b) =>
          Bwrite(p, b);
        case WriteWaited(p, b) =>
          WriteWaited(p, b);
        case Bawrite(p, b) =>
          Bawrite(p, b);
        case Bdwrite(p, b) =>
          Bdwrite(p, b);
        case Brelse(p, b) =>
          Brelse(p, b);
        case FlushPass(b) =>
          DueAnyway(b);
          WriteDue(b);
        case AgeLate(b) =>
          SetAge(b);
        case IoDone(b) =>
          Iodone(b);
      }
    }

    lemma DueAnyway(b: int)
      requires Valid() && Enabled(Abs(), FlushPass(b))
      ensures 0 <= b < nbuf == |bufs| && b in avail && Due(bufs[b], NODEV)
    {
      assert Tidy(bufs[b]);
    }

    /** The transfer of b is over: iodone. */
    method Iodone(b: int)
      requires Valid() && Enabled(Abs(), IoDone(b))
      modifies this
      ensures Valid() && plain == old(plain)
      ensures Abs() == Step(old(Abs()), IoDone(b))
    {
      hide Ring, Chained, Inv;
      StepKeeps(Abs(), IoDone(b), plain);
      InTransit(b);
      var bp := bufs[b];
      var k := Block(bp.dev, bp.blkno);
      if bp.io == WriteIo {
        disk := disk[k := bp.data];
      }
      Set(b, bp.(data := if bp.io == ReadIo then Get(disk, k) else bp.data, io := NoIo,
                 flags := bp.flags.(done := true)));
      if bp.flags.async {
        Release(b);
      } else {
        Set(b, bufs[b].(flags := bufs[b].flags.(wanted := false)));
      }
    }

    /** The tail of bwrite for a delayed write: B_AGE is set after the strategy call, when the
        transfer may already be over. */
    method SetAge(b: int)
      requires Valid() && 0 <= b < nbuf
      modifies this
      ensures Valid() && plain == old(plain)
      ensures Abs() == Step(old(Abs()), AgeLate(b))
    {
      StepKeeps(Abs(), AgeLate(b), plain);
      hide Ring, Chained, Settled, Tidy, Current, Unique, Listed;
      Set(b, bufs[b].(flags := bufs[b].flags.(age := true)));
    }

    /** The search of bflush: the first buffer on the available list that is due, or -1. */
    method NextDue(dev: int) returns (b: int)
      requires Valid()
      ensures b == -1 ==> forall x :: 0 <= x < nbuf ==> !Due(bufs[x], dev)
      ensures b != -1 ==> 0 <= b < nbuf && b in avail && Due(bufs[b], dev)
    {
      ghost var i := 0;
      HeadOfList();
      assert forall x :: 0 <= x < nbuf && bufs[x].phase == Free ==> x in avail by {
        forall x | 0 <= x < nbuf && bufs[x].phase == Free
          ensures x in avail
        {
          assert Tidy(bufs[x]);
        }
      }
      b := avForw[nbuf];
      while b != nbuf
        invariant 0 <= i <= |avail| && b == Elt(nbuf, avail, i + 1)
        invariant forall k :: 0 <= k < i ==> !Due(bufs[avail[k]], dev)
        decreases |avail| - i
      {
        assert b == avail[i] && b in avail && 0 <= b < nbuf;
        assert Tidy(bufs[b]);
        if bufs[b].flags.delwri && (dev == NODEV || dev == bufs[b].dev) {
          return;
        }
        assert LinkAt(avForw, avBack, nbuf, avail, i + 1);
        b := avForw[b];
        i := i + 1;
      }
      return -1;
    }

    /** Number of buffers bflush still has to write. */
    ghost function DueCount(bs: seq<Buf>, dev: int): nat {
      if bs == [] then 0 else DueCount(bs[..|bs| - 1], dev) + if Due(bs[|bs| - 1], dev) then 1 else 0
    }

    lemma DueCountDrops(bs: seq<Buf>, dev: int, b: int, bp: Buf)
      requires 0 <= b < |bs| && Due(bs[b], dev) && !Due(bp, dev)
      ensures DueCount(bs[b := bp], dev) < DueCount(bs, dev)
    {
      var n := |bs| - 1;
      if b == n {
        assert bs[b := bp][..n] == bs[..n];
      } else {
        DueCountDrops(bs[..n], dev, b, bp);
        assert bs[b := bp][..n] == bs[..n][b := bp];
      }
    }

    /** bflush: start writing every available buffer of the device whose write was delayed. */
    method Bflush(dev: int)
      requires Valid()
      modifies this
      ensures Valid() && plain == old(plain) && disk == old(disk)
      ensures |bufs| == |old(bufs)|
      ensures forall b :: 0 <= b < |bufs| ==> bufs[b] == Flushed(old(bufs[b]), dev)
    {
      hide Linked, Inv;
      while true
        invariant Valid() && plain == old(plain) && disk == old(disk) && |bufs| == |old(bufs)|
        invariant forall b :: 0 <= b < |bufs| ==>
                                bufs[b] == old(bufs[b]) || bufs[b] == Flushed(old(bufs[b]), dev)
        decreases DueCount(bufs, dev)
      {
        var b := NextDue(dev);
        SizeOf();
        if b == -1 {
          break;
        }
        DueCountDrops(bufs, dev, b, Flushed(bufs[b], dev));
        FlushOne(b, dev);
      }
    }

    lemma SizeOf()
      requires Valid()
      ensures |bufs| == nbuf
    {
    }

    /** Write out one buffer that bflush has found. */
    method FlushOne(b: int, dev: int)
      requires Valid() && 0 <= b < nbuf == |bufs| && b in avail && Due(bufs[b], dev)
      modifies this
      ensures Valid() && plain == old(plain)
      ensures bufs == old(bufs)[b := Flushed(old(bufs[b]), dev)] && disk == old(disk)
    {
      WriteDue(b);
      SetAge(b);
    }

    method WriteDue(b: int)
      requires Valid() && 0 <= b < nbuf == |bufs| && b in avail && bufs[b].flags.delwri
      modifies this
      ensures Valid() && plain == old(plain) && Abs() == Step(old(Abs()), FlushPass(b))
    {
      hide Ring, Chained, Settled, Tidy, Current, Unique, Listed;
      StepKeeps(Abs(), FlushPass(b), plain);
      NotAvail(b, Loose);
      StartWrite(b, Loose, true);
    }

    /** binit: all buffers start out available and associated with no device. */
    constructor (n: nat, nmajor: nat, withTab: set<int>, contents: Disk, magtapes: set<int>)
      requires nmajor <= 255
      ensures Valid() && Init(Abs())
      ensures nbuf == n && nblkdev == nmajor && tabs == withTab
      ensures disk == contents && tapes == magtapes && plain == contents
    {
      hide Entered, Ring, Chained, Inv, Init;
      nbuf, nblkdev, tabs, disk, tapes, fwanted, spoiled := n, nmajor, withTab, contents, magtapes, false, {};
      bufs := Idle(n);
      var f, g := seq(n + 1 + nmajor, i => i), seq(n + 1 + nmajor, i => i);
      var af, ag := seq(n + 1, i => i), seq(n + 1, i => i);
      ghost var q, av: seq<int> := [], [];
      NoneEntered(n, f, af);
      assert f == g && af == ag;
      for i := 0 to n
        invariant |f| == n + 1 + nmajor
        invariant Entered(n, i, f, g, af, ag, q, av)
        invariant |f| == |g| && forall d :: n < d < |f| ==> f[d] == d && g[d] == d
      {
        EnterOne(n, i, f, g, af, ag, q, av);
        var first := f[n];
        g := g[first := i][i := n];
        f := f[i := first][n := i];
        var last := ag[n];
        af := af[last := i][i := n];
        ag := ag[i := last][n := i];
        q, av := [i] + q, av + [i];
      }
      AllEntered(n, nmajor, f, g, af, ag, q, av);
      forw, back, avForw, avBack, avail := f, g, af, ag, av;
      chains := [q] + seq(nmajor, c => []);
      plain := contents;
      new;
      RingFacts(avForw, avBack, nbuf, avail);
      InitialInv(Abs());
    }

    lemma RingFacts(f: seq<int>, g: seq<int>, h: int, q: seq<int>)
      requires Ring(f, g, h, q)
      ensures |f| == |g| && Distinct(q)
    {
    }
  }
}
