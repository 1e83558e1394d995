/** What a read of a block finds after any run, unwritten changes included: the exact form of the
    exception to "reads see the latest write". */
module BufferSeen {
  import opened BufferProtocol
  import opened BufferSafety
  import opened BufferRuns

  /** The buffer has what a read of its block finds, or it is about to be on the disk. */
  predicate Keeper(bp: Buf) {
    bp.flags.done || bp.io == WriteIo
  }

  /** A valid buffer that is not being changed, and one being written, have what m says. */
  ghost predicate Shows(bp: Buf, m: Disk) {
    bp.dev != NODEV && Keeper(bp) && !(bp.flags.done && bp.dirty) ==> bp.data == Get(m, BlockOf(bp))
  }

  /** A block that no buffer keeps is on the disk as m says. */
  ghost predicate Rests(bufs: seq<Buf>, disk: Disk, m: Disk, k: Block) {
    k.dev != NODEV ==>
      Get(disk, k) == Get(m, k) || exists b :: 0 <= b < |bufs| && BlockOf(bufs[b]) == k && Keeper(bufs[b])
  }

  /** m is what reads find, block by block. */
  ghost predicate Look(bufs: seq<Buf>, disk: Disk, m: Disk) {
    && (forall b :: 0 <= b < |bufs| ==> Shows(bufs[b], m))
    && (forall k :: Rests(bufs, disk, m, k))
  }

  /** One buffer changes, and the disk and m at most at the block it had and the block it gets. */
  lemma LookChange(bufs: seq<Buf>, disk: Disk, m: Disk, b: int, bp: Buf, disk': Disk, m': Disk)
    requires Look(bufs, disk, m) && Unique(bufs) && 0 <= b < |bufs| && Shows(bp, m')
    requires forall x :: x != BlockOf(bp) && x != BlockOf(bufs[b]) ==>
                  Get(disk', x) == Get(disk, x) && Get(m', x) == Get(m, x)
    requires bp.dev != NODEV && !Keeper(bp) ==> Get(disk', BlockOf(bp)) == Get(m', BlockOf(bp))
    requires BlockOf(bp) != BlockOf(bufs[b]) ==>
               && (bufs[b].dev != NODEV ==> Get(disk', BlockOf(bufs[b])) == Get(m', BlockOf(bufs[b])))
               && (bp.dev != NODEV ==> forall i :: 0 <= i < |bufs| ==> BlockOf(bufs[i]) != BlockOf(bp))
    ensures Look(bufs[b := bp], disk', m')
  {
    var bufs' := bufs[b := bp];
    forall i | 0 <= i < |bufs'|
      ensures Shows(bufs'[i], m')
    {
      if i != b {
        assert Shows(bufs[i], m);
        assert bufs[i].dev != NODEV ==> !SameBlock(bufs[i], bufs[b]);
      }
    }
    forall k
      ensures Rests(bufs', disk', m', k)
    {
      RestsChange(bufs, disk, m, b, bp, disk', m', k);
    }
  }

  lemma RestsChange(bufs: seq<Buf>, disk: Disk, m: Disk, b: int, bp: Buf, disk': Disk, m': Disk, k: Block)
    requires Look(bufs, disk, m) && 0 <= b < |bufs|
    requires k != BlockOf(bp) && k != BlockOf(bufs[b]) ==> Get(disk', k) == Get(disk, k) && Get(m', k) == Get(m, k)
    requires bp.dev != NODEV && !Keeper(bp) ==> Get(disk', BlockOf(bp)) == Get(m', BlockOf(bp))
    requires BlockOf(bp) != BlockOf(bufs[b]) && bufs[b].dev != NODEV ==>
               Get(disk', BlockOf(bufs[b])) == Get(m', BlockOf(bufs[b]))
    ensures Rests(bufs[b := bp], disk', m', k)
  {
    var bufs' := bufs[b := bp];
    assert Rests(bufs, disk, m, k);
    if k.dev != NODEV && Get(disk', k) != Get(m', k) {
      if k == BlockOf(bp) {
        assert bufs'[b] == bp;
      } else {
        assert k != BlockOf(bufs[b]);
        var i :| 0 <= i < |bufs| && BlockOf(bufs[i]) == k && Keeper(bufs[i]);
        assert bufs'[i] == bufs[i];
      }
    }
  }

  // ----- steps

  /** The buffer that step e takes from its block: getblk and geteblk give it to another. */
  function Victim(s: State, e: Event): int {
    if s.avail == [] || s.bufs == [] then -1
    else if e.GetblkPass? && Find(s.bufs, e.dev, e.blkno) >= 0 then -1
    else if (e.GetblkPass? || e.GeteblkPass?) && 0 <= s.avail[0] < |s.bufs| && !s.bufs[s.avail[0]].flags.delwri then
      s.avail[0]
    else -1
  }

  /** What reads find after a step: a block that is written has the new contents, and so has one of
      which a changed valid buffer is released; one whose buffer is given away is as on the disk. */
  function SeenNext(s: State, e: Event, m: Disk): Disk
    requires Enabled(s, e)
  {
    if e.Bwrite? || e.Bawrite? || e.Bdwrite? || (e.Brelse? && Unwritten(s.bufs[e.b])) then
      m[BlockOf(s.bufs[e.b]) := s.bufs[e.b].data]
    else if Victim(s, e) >= 0 then
      m[BlockOf(s.bufs[Victim(s, e)]) := Get(s.disk, BlockOf(s.bufs[Victim(s, e)]))]
    else m
  }

  /** A step that changes one buffer, which keeps its block, and no more than its flags. */
  lemma LookSame(s: State, plain: Disk, m: Disk, b: int, bp: Buf)
    requires Inv(s, plain) && Look(s.bufs, s.disk, m) && 0 <= b < |s.bufs|
    requires BlockOf(bp) == BlockOf(s.bufs[b]) && Shows(bp, m) && Keeper(bp) == Keeper(s.bufs[b])
    ensures Look(s.bufs[b := bp], s.disk, m)
  {
    hide Listed, Sound, Settled, Tidy;
    if !Keeper(bp) && bp.dev != NODEV {
      NotKept(s, plain, m, b);
    }
    LookChange(s.bufs, s.disk, m, b, bp, s.disk, m);
  }

  lemma NotKept(s: State, plain: Disk, m: Disk, b: int)
    requires Inv(s, plain) && Look(s.bufs, s.disk, m) && 0 <= b < |s.bufs|
    requires !Keeper(s.bufs[b]) && s.bufs[b].dev != NODEV
    ensures Get(s.disk, BlockOf(s.bufs[b])) == Get(m, BlockOf(s.bufs[b]))
  {
    hide Listed, Sound, Settled, Tidy;
    var k := BlockOf(s.bufs[b]);
    assert Rests(s.bufs, s.disk, m, k);
    forall i | 0 <= i < |s.bufs| && BlockOf(s.bufs[i]) == k
      ensures i == b
    {
      assert SameBlock(s.bufs[b], s.bufs[i]);
    }
  }

  /** getblk and geteblk without a block in core. */
  lemma LookGrab(s: State, plain: Disk, m: Disk, p: nat, dev: int, blkno: int)
    requires Inv(s, plain) && Look(s.bufs, s.disk, m) && 0 <= dev <= NODEV && s.avail != []
    requires forall i :: 0 <= i < |s.avail| ==> 0 <= s.avail[i] < |s.bufs|
    requires dev != NODEV ==> forall i :: 0 <= i < |s.bufs| ==> !(s.bufs[i].dev == dev && s.bufs[i].blkno == blkno)
    ensures var t, b := Grab(s, p, dev, blkno).0, s.avail[0];
      var m' := if s.bufs[b].flags.delwri then m else m[BlockOf(s.bufs[b]) := Get(s.disk, BlockOf(s.bufs[b]))];
      Look(t.bufs, t.disk, m')
  {
    hide Listed, Sound, Settled, Look, Shows;
    var b := s.avail[0];
    var bp := s.bufs[b];
    FreeTidy(s, plain, b);
    var bq := Grab(s, p, dev, blkno).0.bufs[b];
    assert Grab(s, p, dev, blkno).0.bufs == s.bufs[b := bq];
    if bp.flags.delwri {
      ShowsAt(s, m, b);
      LookSame(s, plain, m, b, bq);
    } else {
      LookTaken(s, plain, m, b, bq);
    }
  }

  lemma FreeTidy(s: State, plain: Disk, b: int)
    requires Inv(s, plain) && s.avail != [] && b == s.avail[0] && 0 <= b < |s.bufs|
    ensures Tidy(s.bufs[b]) && !s.bufs[b].dirty && s.bufs[b].io == NoIo
  {
    hide Sound, Settled, Unique;
    assert b in s.avail && Tidy(s.bufs[b]);
  }

  lemma ShowsAt(s: State, m: Disk, b: int)
    requires Look(s.bufs, s.disk, m) && 0 <= b < |s.bufs| && s.bufs[b].flags.done && !s.bufs[b].dirty
    ensures forall bp: Buf :: BlockOf(bp) == BlockOf(s.bufs[b]) && bp.data == s.bufs[b].data ==> Shows(bp, m)
  {
    assert Shows(s.bufs[b], m);
  }

  lemma LookTaken(s: State, plain: Disk, m: Disk, b: int, bp: Buf)
    requires Inv(s, plain) && Look(s.bufs, s.disk, m) && 0 <= b < |s.bufs| && !Keeper(bp)
    requires bp.dev != NODEV ==>
              forall i :: 0 <= i < |s.bufs| ==> !(s.bufs[i].dev == bp.dev && s.bufs[i].blkno == bp.blkno)
    ensures var k := BlockOf(s.bufs[b]); Look(s.bufs[b := bp], s.disk, m[k := Get(s.disk, k)])
  {
    hide Listed, Sound, Settled, Tidy;
    var k := BlockOf(s.bufs[b]);
    var m' := m[k := Get(s.disk, k)];
    if bp.dev != NODEV {
      assert Rests(s.bufs, s.disk, m, BlockOf(bp));
    }
    LookChange(s.bufs, s.disk, m, b, bp, s.disk, m');
  }

  /** bwrite, bawrite, bdwrite, and the release of an unwritten change. */
  lemma LookWritten(s: State, plain: Disk, m: Disk, b: int, bp: Buf)
    requires Inv(s, plain) && Look(s.bufs, s.disk, m) && 0 <= b < |s.bufs|
    requires BlockOf(bp) == BlockOf(s.bufs[b]) && bp.data == s.bufs[b].data && Keeper(bp)
    ensures Look(s.bufs[b := bp], s.disk, m[BlockOf(bp) := bp.data])
  {
    hide Listed, Sound, Settled, Tidy;
    LookChange(s.bufs, s.disk, m, b, bp, s.disk, m[BlockOf(bp) := bp.data]);
  }

  /** The transfer is over. */
  lemma LookComplete(s: State, plain: Disk, m: Disk, b: int)
    requires Inv(s, plain) && Look(s.bufs, s.disk, m) && Enabled(s, IoDone(b))
    ensures Look(Complete(s, b).bufs, Complete(s, b).disk, m)
  {
    hide Listed, Sound, Settled;
    var bp, t := s.bufs[b], Complete(s, b);
    assert Tidy(bp) && Shows(bp, m);
    if bp.io == ReadIo && bp.dev != NODEV {
      NotKept(s, plain, m, b);
    }
    LookChange(s.bufs, s.disk, m, b, t.bufs[b], t.disk, m);
    assert t.bufs == s.bufs[b := t.bufs[b]];
  }

  /** Every step keeps m what reads find. */
  lemma LookStep(s: State, plain: Disk, m: Disk, e: Event)
    requires Inv(s, plain) && Look(s.bufs, s.disk, m) && Enabled(s, e) && InBounds(s)
    ensures Look(Step(s, e).bufs, Step(s, e).disk, SeenNext(s, e, m))
  {
    hide Inv, Look;
    match e
    case GetblkPass(p, dev, blkno) => LookGetblk(s, plain, m, p, dev, blkno);
    case GeteblkPass(p) =>
      if s.avail != [] {
        LookGrab(s, plain, m, p, NODEV, s.bufs[s.avail[0]].blkno);
      }
    case IoDone(b) => LookComplete(s, plain, m, b);
    case Bwrite(p, b) => LookWritten(s, plain, m, b, Step(s, e).bufs[b]);
    case Bawrite(p, b) => LookWritten(s, plain, m, b, Step(s, e).bufs[b]);
    case Bdwrite(p, b) =>
      assert Step(s, e).bufs == s.bufs[b := Step(s, e).bufs[b]];
      LookWritten(s, plain, m, b, Step(s, e).bufs[b]);
    case _ => LookQuiet(s, plain, m, e);
  }

  lemma LookGetblk(s: State, plain: Disk, m: Disk, p: nat, dev: int, blkno: int)
    requires Inv(s, plain) && Look(s.bufs, s.disk, m) && 0 <= dev < NODEV && InBounds(s)
    ensures var t := Getblk(s, p, dev, blkno).0; Look(t.bufs, t.disk, SeenNext(s, GetblkPass(p, dev, blkno), m))
  {
    hide Inv, Look, Shows;
    var b := Find(s.bufs, dev, blkno);
    if b >= 0 {
      ShowsStill(s, m, b);
      assert Alike(Getblk(s, p, dev, blkno).0.bufs[b], s.bufs[b]);
      LookSame(s, plain, m, b, Getblk(s, p, dev, blkno).0.bufs[b]);
    } else if s.avail != [] {
      LookGrab(s, plain, m, p, dev, blkno);
    }
  }

  predicate Alike(bp: Buf, bq: Buf) {
    && BlockOf(bp) == BlockOf(bq) && bp.data == bq.data && bp.dirty == bq.dirty
    && bp.flags.done == bq.flags.done && bp.io == bq.io
  }

  /** A change of flags and phase that leaves alone whether the buffer is valid. */
  lemma ShowsStill(s: State, m: Disk, b: int)
    requires Look(s.bufs, s.disk, m) && 0 <= b < |s.bufs|
    ensures forall bp: Buf :: Alike(bp, s.bufs[b]) ==> Shows(bp, m)
  {
    assert Shows(s.bufs[b], m);
  }

  /** The steps that write nothing and take no buffer from its block. */
  lemma LookQuiet(s: State, plain: Disk, m: Disk, e: Event)
    requires Inv(s, plain) && Look(s.bufs, s.disk, m) && Enabled(s, e) && InBounds(s)
    requires !e.GetblkPass? && !e.GeteblkPass? && !e.IoDone? && !e.Bwrite? && !e.Bawrite? && !e.Bdwrite?
    ensures Look(Step(s, e).bufs, Step(s, e).disk, SeenNext(s, e, m))
  {
    hide Look, Listed, Sound, Settled, Unique;
    var b, t := e.b, Step(s, e);
    assert Tidy(s.bufs[b]) && t.bufs == s.bufs[b := t.bufs[b]];
    ShowsStill(s, m, b);
    QuietShows(s, plain, m, e);
    if e.Brelse? && Unwritten(s.bufs[b]) {
      LookWritten(s, plain, m, b, t.bufs[b]);
    } else {
      LookSame(s, plain, m, b, t.bufs[b]);
    }
  }

  lemma QuietShows(s: State, plain: Disk, m: Disk, e: Event)
    requires Inv(s, plain) && Look(s.bufs, s.disk, m) && Enabled(s, e) && InBounds(s)
    requires !e.GetblkPass? && !e.GeteblkPass? && !e.IoDone? && !e.Bwrite? && !e.Bawrite? && !e.Bdwrite?
    ensures !(e.Brelse? && Unwritten(s.bufs[e.b])) ==>
              Shows(Step(s, e).bufs[e.b], m) && Keeper(Step(s, e).bufs[e.b]) == Keeper(s.bufs[e.b])
  {
    hide Look, Listed, Sound, Settled, Unique, Shows;
    var b, bp := e.b, Step(s, e).bufs[e.b];
    assert Tidy(s.bufs[b]);
    ShowsStill(s, m, b);
    if e.FlushPass? {
      NotDirty(s, plain, b);
      ShowsAt(s, m, b);
    } else if e.Store? || e.ReadStart? || e.ReadAhead? || (e.Brelse? && !s.bufs[b].flags.done) {
      DirtyShows(bp, m);
    } else if !(e.Brelse? && Unwritten(s.bufs[b])) {
      assert Alike(bp, s.bufs[b]);
    }
  }

  /** Nothing is asked of a buffer that is not valid or is being changed. */
  lemma DirtyShows(bp: Buf, m: Disk)
    requires bp.io != WriteIo && (bp.flags.done ==> bp.dirty)
    ensures Shows(bp, m)
  {
  }

  lemma NotDirty(s: State, plain: Disk, b: int)
    requires Inv(s, plain) && b in s.avail && 0 <= b < |s.bufs|
    ensures !s.bufs[b].dirty
  {
    hide Sound, Settled, Unique;
    assert Tidy(s.bufs[b]);
  }

  // ----- runs

  /** What reads find after n steps. */
  ghost function Seen(ss: seq<State>, es: seq<Event>, n: nat): Disk
    requires IsRun(ss, es) && n <= |es|
  {
    if n == 0 then ss[0].disk
    else
      assert Follows(ss, es, n - 1);
      SeenNext(ss[n - 1], es[n - 1], Seen(ss, es, n - 1))
  }

  lemma {:induction false} RunLooks(ss: seq<State>, es: seq<Event>, n: nat)
    requires IsRun(ss, es) && n <= |es|
    ensures Look(ss[n].bufs, ss[n].disk, Seen(ss, es, n))
  {
    hide Inv, Init, Step, Look, SeenNext, Enabled, InBounds;
    if n == 0 {
      LookInit(ss[0]);
    } else {
      assert Follows(ss, es, n - 1);
      RunKeeps(ss, es, n - 1);
      RunLooks(ss, es, n - 1);
      LookStep(ss[n - 1], PlainAfter(ss, es, n - 1), Seen(ss, es, n - 1), es[n - 1]);
    }
  }

  lemma LookInit(s: State)
    requires Init(s)
    ensures Look(s.bufs, s.disk, s.disk)
  {
  }

  /** Without exception: what bread returns is what was last written to the block or last released
      unwritten in a valid buffer of it, whichever came later, or, if that buffer has since been
      given to another block, what the disk had then. */
  lemma BreadReturnsSeen(ss: seq<State>, es: seq<Event>, n: nat, p: nat, b: int)
    requires IsRun(ss, es) && 0 < n <= |es| && BreadReturns(ss, es, n, p, b)
    ensures 0 <= b < |ss[n].bufs|
    ensures ss[n].bufs[b].data == Get(Seen(ss, es, n), BlockOf(ss[n].bufs[b]))
  {
    hide Init, Inv, Look, SeenNext;
    BreadReturnsLatest(ss, es, n, p, b);
    RunLooks(ss, es, n);
    RunKeeps(ss, es, n - 1);
    ReturnedShows(ss, es, n, p, b);
  }

  lemma ReturnedShows(ss: seq<State>, es: seq<Event>, n: nat, p: nat, b: int)
    requires IsRun(ss, es) && 0 < n <= |es| && BreadReturns(ss, es, n, p, b) && 0 <= b < |ss[n].bufs|
    requires Inv(ss[n - 1], PlainAfter(ss, es, n - 1))
    requires Look(ss[n].bufs, ss[n].disk, Seen(ss, es, n)) && ss[n].bufs[b].dev != NODEV
    ensures ss[n].bufs[b].data == Get(Seen(ss, es, n), BlockOf(ss[n].bufs[b]))
  {
    hide Init, Unique, Listed, Sound, Settled;
    assert Follows(ss, es, n - 1);
    var s, t := ss[n - 1], ss[n];
    assert Shows(t.bufs[b], Seen(ss, es, n));
    assert Tidy(s.bufs[b]);
  }

  /** A buffer given away owes nothing, so that its block, if not spoiled, is on the disk. */
  lemma VictimSettled(s: State, plain: Disk, e: Event)
    requires Inv(s, plain) && Enabled(s, e) && Victim(s, e) >= 0
    ensures 0 <= Victim(s, e) < |s.bufs|
    ensures var k := BlockOf(s.bufs[Victim(s, e)]);
            k.dev != NODEV && k !in s.spoiled ==> Get(s.disk, k) == Get(plain, k)
  {
    hide Sound;
    var b := Victim(s, e);
    FreeTidy(s, plain, b);
    var k := BlockOf(s.bufs[b]);
    if k.dev != NODEV {
      forall i | 0 <= i < |s.bufs| && s.bufs[i].dev == k.dev && s.bufs[i].blkno == k.blkno
        ensures i == b
      {
        assert SameBlock(s.bufs[b], s.bufs[i]);
      }
    }
  }

  /** For a block that is not spoiled, what reads find is the last write. */
  lemma {:induction false} SeenUnspoiled(ss: seq<State>, es: seq<Event>, n: nat, k: Block)
    requires IsRun(ss, es) && n <= |es| && k.dev != NODEV && !Spoiled(ss, es, n, k)
    ensures Get(Seen(ss, es, n), k) == LastWritten(ss, es, n, k)
  {
    hide Inv, Init, Step, InBounds, Victim;
    if n > 0 {
      var s, e := ss[n - 1], es[n - 1];
      assert Follows(ss, es, n - 1);
      if !Writes(s, e, k) {
        SeenUnspoiled(ss, es, n - 1, k);
        RunKeeps(ss, es, n - 1);
        PlainHoldsLast(ss, es, n - 1, k);
        SpoiledIs(ss, es, n - 1, k);
        if Victim(s, e) >= 0 {
          VictimSettled(s, PlainAfter(ss, es, n - 1), e);
        }
      }
    }
  }
}
