/** What holds over whole runs of the buffer cache: any interleaving of processes and
    completions, of any length. */
module BufferRuns {
  import opened BufferProtocol
  import opened BufferSafety

  /** As binit leaves the pool: all buffers available, associated with no device. */
  ghost predicate Init(s: State) {
    && Listed(s) && s.spoiled == {} && !s.fwanted
    && (forall b :: 0 <= b < |s.bufs| ==>
                      && s.bufs[b].flags == Flags(false, false, false, false, false, false, false)
                      && s.bufs[b].dev == NODEV && s.bufs[b].phase == Free
                      && s.bufs[b].io == NoIo && !s.bufs[b].dirty)
  }

  ghost predicate InBounds(s: State) {
    forall i :: 0 <= i < |s.avail| ==> 0 <= s.avail[i] < |s.bufs|
  }

  /** Each state follows from the one before by an enabled step. */
  ghost predicate IsRun(ss: seq<State>, es: seq<Event>) {
    && |ss| == |es| + 1 && Init(ss[0])
    && (forall i :: 0 <= i < |es| ==> Follows(ss, es, i))
  }

  ghost predicate Follows(ss: seq<State>, es: seq<Event>, i: int)
    requires |ss| == |es| + 1 && 0 <= i < |es|
  {
    InBounds(ss[i]) && Enabled(ss[i], es[i]) && ss[i + 1] == Step(ss[i], es[i])
  }

  /** Step e in state s is a bwrite, bawrite or bdwrite of block k. */
  predicate Writes(s: State, e: Event, k: Block)
    requires Enabled(s, e)
  {
    (e.Bwrite? || e.Bawrite? || e.Bdwrite?) && Block(s.bufs[e.b].dev, s.bufs[e.b].blkno) == k
  }

  /** What was last written to block k in the first n steps; what the disk held at first if
      nothing was. */
  ghost function LastWritten(ss: seq<State>, es: seq<Event>, n: nat, k: Block): Data
    requires IsRun(ss, es) && n <= |es|
  {
    if n == 0 then Get(ss[0].disk, k)
    else
      assert Follows(ss, es, n - 1);
      if Writes(ss[n - 1], es[n - 1], k) then ss[n - 1].bufs[es[n - 1].b].data
      else LastWritten(ss, es, n - 1, k)
  }

  /** Step e in state s releases a valid buffer of block k that was changed and not written. */
  predicate Spoils(s: State, e: Event, k: Block)
    requires Enabled(s, e)
  {
    e.Brelse? && Unwritten(s.bufs[e.b]) && BlockOf(s.bufs[e.b]) == k
  }

  /** Since the last write to block k in the first n steps, a valid buffer of the block was
      released changed and unwritten. */
  ghost predicate Spoiled(ss: seq<State>, es: seq<Event>, n: nat, k: Block)
    requires IsRun(ss, es) && n <= |es|
  {
    n > 0 &&
    (assert Follows(ss, es, n - 1);
     Spoils(ss[n - 1], es[n - 1], k) || (!Writes(ss[n - 1], es[n - 1], k) && Spoiled(ss, es, n - 1, k)))
  }

  lemma {:induction false} SpoiledIs(ss: seq<State>, es: seq<Event>, n: nat, k: Block)
    requires IsRun(ss, es) && n <= |es|
    ensures k in ss[n].spoiled <==> Spoiled(ss, es, n, k)
  {
    hide InBounds, Find;
    if n > 0 {
      assert Follows(ss, es, n - 1);
      SpoiledIs(ss, es, n - 1, k);
    }
  }

  /** The plain disk after n steps. */
  ghost function PlainAfter(ss: seq<State>, es: seq<Event>, n: nat): Disk
    requires IsRun(ss, es) && n <= |es|
  {
    if n == 0 then ss[0].disk
    else
      assert Follows(ss, es, n - 1);
      Plain(ss[n - 1], es[n - 1], PlainAfter(ss, es, n - 1))
  }

  lemma {:induction false} PlainHoldsLast(ss: seq<State>, es: seq<Event>, n: nat, k: Block)
    requires IsRun(ss, es) && n <= |es|
    ensures Get(PlainAfter(ss, es, n), k) == LastWritten(ss, es, n, k)
  {
    hide Step, InBounds, Init;
    if n > 0 {
      assert Follows(ss, es, n - 1);
      PlainHoldsLast(ss, es, n - 1, k);
    }
  }

  lemma {:induction false} RunKeeps(ss: seq<State>, es: seq<Event>, n: nat)
    requires IsRun(ss, es) && n <= |es|
    ensures Inv(ss[n], PlainAfter(ss, es, n))
  {
    hide Inv, Init, Step, Plain, Enabled, InBounds;
    if n == 0 {
      InitInv(ss[0]);
    } else {
      assert Follows(ss, es, n - 1);
      RunKeeps(ss, es, n - 1);
      StepKeeps(ss[n - 1], es[n - 1], PlainAfter(ss, es, n - 1));
    }
  }

  lemma InitInv(s: State)
    requires Init(s)
    ensures Inv(s, s.disk)
  {
  }

  /** In every reachable state a buffer is on the available list exactly when it is not busy,
      and no block has two buffers. */
  lemma AlwaysListed(ss: seq<State>, es: seq<Event>, n: nat)
    requires IsRun(ss, es) && n <= |es|
    ensures Listed(ss[n]) && Unique(ss[n].bufs)
  {
    RunKeeps(ss, es, n);
  }

  /** bread of process p returns buffer b after step n: either getblk found the block valid in
      core, or the wait for the transfer is over. */
  ghost predicate BreadReturns(ss: seq<State>, es: seq<Event>, n: nat, p: nat, b: int)
    requires IsRun(ss, es) && 0 < n <= |es|
  {
    assert Follows(ss, es, n - 1);
    match es[n - 1]
    case GetblkPass(q, dev, blkno) =>
      && q == p && Getblk(ss[n - 1], q, dev, blkno).1 == Got(b)
      && 0 <= b < |ss[n].bufs| && ss[n].bufs[b].flags.done
    case ReadWaited(q, c) => q == p && c == b
    case _ => false
  }

  /** Reads see the latest write: the buffer bread returns is held by the caller and contains
      what was last written to its block, however the writes were made and wherever they are,
      unless a changed valid buffer of the block was released unwritten since then. */
  lemma BreadReturnsLatest(ss: seq<State>, es: seq<Event>, n: nat, p: nat, b: int)
    requires IsRun(ss, es) && 0 < n <= |es| && BreadReturns(ss, es, n, p, b)
    ensures 0 <= b < |ss[n].bufs| && ss[n].bufs[b].phase == Held(p) && ss[n].bufs[b].dev != NODEV
    ensures es[n - 1].GetblkPass? ==> ss[n].bufs[b].dev == es[n - 1].dev && ss[n].bufs[b].blkno == es[n - 1].blkno
    ensures var k := BlockOf(ss[n].bufs[b]);
            !Spoiled(ss, es, n, k) ==> ss[n].bufs[b].data == LastWritten(ss, es, n, k)
  {
    SpoiledIs(ss, es, n, if 0 <= b < |ss[n].bufs| then BlockOf(ss[n].bufs[b]) else Block(0, 0));
    assert Follows(ss, es, n - 1);
    RunKeeps(ss, es, n - 1);
    RunKeeps(ss, es, n);
    var s, t := ss[n - 1], ss[n];
    assert Tidy(t.bufs[b]) && Sound(t, t.bufs[b], PlainAfter(ss, es, n));
    assert Tidy(s.bufs[b]);
    PlainHoldsLast(ss, es, n, Block(t.bufs[b].dev, t.bufs[b].blkno));
  }

  /** No delayed or pending write is ever lost: where the disk is behind, some buffer is
      associated with the block and still to be written, and unless its holder is changing it
      right now it contains the latest write. */
  lemma NoWriteLost(ss: seq<State>, es: seq<Event>, n: nat, k: Block) returns (b: int)
    requires IsRun(ss, es) && n <= |es| && k.dev != NODEV && !Spoiled(ss, es, n, k)
    requires Get(ss[n].disk, k) != LastWritten(ss, es, n, k)
    ensures 0 <= b < |ss[n].bufs| && ss[n].bufs[b].dev == k.dev && ss[n].bufs[b].blkno == k.blkno
    ensures Owes(ss[n].bufs[b])
    ensures ss[n].bufs[b].dirty || ss[n].bufs[b].data == LastWritten(ss, es, n, k)
  {
    RunKeeps(ss, es, n);
    PlainHoldsLast(ss, es, n, k);
    SpoiledIs(ss, es, n, k);
    var s := ss[n];
    assert Owed(s.bufs, k);
    b :| 0 <= b < |s.bufs| && s.bufs[b].dev == k.dev && s.bufs[b].blkno == k.blkno && Owes(s.bufs[b]);
    assert Tidy(s.bufs[b]) && Sound(s, s.bufs[b], PlainAfter(ss, es, n));
  }

  /** Once nothing is left to be written, the disk itself holds every latest write. */
  lemma SyncedDisk(ss: seq<State>, es: seq<Event>, n: nat, k: Block)
    requires IsRun(ss, es) && n <= |es| && k.dev != NODEV && !Spoiled(ss, es, n, k)
    requires forall b :: 0 <= b < |ss[n].bufs| ==> !Owes(ss[n].bufs[b])
    ensures Get(ss[n].disk, k) == LastWritten(ss, es, n, k)
  {
    if Get(ss[n].disk, k) != LastWritten(ss, es, n, k) {
      var b := NoWriteLost(ss, es, n, k);
      assert false;
    }
  }

  // ----- what an unwritten change does

  lemma RunSnoc(ss: seq<State>, es: seq<Event>, e: Event)
    requires IsRun(ss, es) && InBounds(ss[|es|]) && Enabled(ss[|es|], e)
    ensures IsRun(ss + [Step(ss[|es|], e)], es + [e])
  {
    hide Step, Enabled, Init;
    var ss', es' := ss + [Step(ss[|es|], e)], es + [e];
    forall i | 0 <= i < |es'|
      ensures Follows(ss', es', i)
    {
      if i < |es| {
        assert Follows(ss, es, i);
      }
    }
  }

  lemma {:induction false} LastWrittenSame(ss: seq<State>, es: seq<Event>, ss': seq<State>, es': seq<Event>, n: nat,
                                           k: Block)
    requires IsRun(ss, es) && IsRun(ss', es') && n <= |es| <= |es'|
    requires forall i :: 0 <= i <= n ==> ss'[i] == ss[i]
    requires forall i :: 0 <= i < n ==> es'[i] == es[i]
    ensures LastWritten(ss', es', n, k) == LastWritten(ss, es, n, k)
  {
    hide Step, InBounds, Init;
    if n > 0 {
      assert Follows(ss, es, n - 1);
      assert Follows(ss', es', n - 1);
      LastWrittenSame(ss, es, ss', es', n - 1, k);
    }
  }

  /** The unwritten release of different contents is all it takes: a bread of the block that comes
      next returns what nobody wrote. */
  lemma SpoilShows(ss: seq<State>, es: seq<Event>, q: nat) returns (ss': seq<State>, es': seq<Event>, b: int)
    requires IsRun(ss, es) && |es| > 0 && Follows(ss, es, |es| - 1)
    requires es[|es| - 1].Brelse? && Unwritten(ss[|es| - 1].bufs[es[|es| - 1].b])
    requires var bp := ss[|es| - 1].bufs[es[|es| - 1].b]; bp.data != LastWritten(ss, es, |es|, BlockOf(bp))
    ensures IsRun(ss', es') && |es'| == |es| + 1 && es == es'[..|es|] && BreadReturns(ss', es', |es'|, q, b)
    ensures 0 <= b < |ss'[|es'|].bufs|
    ensures ss'[|es'|].bufs[b].data != LastWritten(ss', es', |es'|, BlockOf(ss'[|es'|].bufs[b]))
  {
    hide Step, Enabled, Init, Inv, Getblk;
    var n := |es|;
    RunKeeps(ss, es, n - 1);
    RunKeeps(ss, es, n);
    b := es[n - 1].b;
    Kept(ss[n - 1], es[n - 1], PlainAfter(ss, es, n - 1));
    var s, bp := ss[n], ss[n].bufs[b];
    var e := GetblkPass(q, bp.dev, bp.blkno);
    FoundAgain(s, PlainAfter(ss, es, n), q, b);
    RunSnoc(ss, es, e);
    ss', es' := ss + [Step(s, e)], es + [e];
    LastWrittenSame(ss, es, ss', es', n, BlockOf(bp));
    assert Follows(ss', es', n);
  }

  /** brelse leaves an unwritten change in a valid buffer that anyone may take. */
  lemma Kept(s: State, e: Event, plain: Disk)
    requires Inv(s, plain) && InBounds(s) && Enabled(s, e) && e.Brelse? && Unwritten(s.bufs[e.b])
    ensures 0 <= e.b < |Step(s, e).bufs| == |s.bufs|
    ensures var x, y := s.bufs[e.b], Step(s, e).bufs[e.b];
            y.data == x.data && BlockOf(y) == BlockOf(x) && y.flags.done && !y.flags.busy && y.dev != NODEV
  {
    hide Listed, Unique, Sound;
    assert Tidy(s.bufs[e.b]);
  }

  /** getblk finds a valid buffer that is not busy, and gives it to the caller as it is. */
  lemma FoundAgain(s: State, plain: Disk, q: nat, b: int)
    requires Inv(s, plain) && 0 <= b < |s.bufs| && s.bufs[b].flags.done
    requires !s.bufs[b].flags.busy && s.bufs[b].dev != NODEV
    ensures var e := GetblkPass(q, s.bufs[b].dev, s.bufs[b].blkno);
            && InBounds(s) && Enabled(s, e) && Getblk(s, q, e.dev, e.blkno).1 == Got(b)
            && |Step(s, e).bufs| == |s.bufs| && Step(s, e).bufs[b].flags.done
            && Step(s, e).bufs[b].data == s.bufs[b].data && BlockOf(Step(s, e).bufs[b]) == BlockOf(s.bufs[b])
  {
    hide Sound;
    UniqueFind(s.bufs, b);
    assert Tidy(s.bufs[b]);
  }

  lemma UniqueFind(bufs: seq<Buf>, b: int)
    requires Unique(bufs) && 0 <= b < |bufs| && bufs[b].dev != NODEV
    ensures Find(bufs, bufs[b].dev, bufs[b].blkno) == b
  {
    var f := Find(bufs, bufs[b].dev, bufs[b].blkno);
    if f >= 0 {
      assert SameBlock(bufs[f], bufs[b]);
    }
  }

  /** A run that gets to such a release: the block is read, changed, and let go. */
  lemma ChangedAndReleased() returns (ss: seq<State>, es: seq<Event>)
    ensures IsRun(ss, es) && |es| == 6 && Follows(ss, es, 5)
    ensures es[5].Brelse? && Unwritten(ss[5].bufs[es[5].b])
    ensures var bp := ss[5].bufs[es[5].b]; bp.data != LastWritten(ss, es, 6, BlockOf(bp))
  {
    hide IsRun, Step, Enabled, Follows;
    var q := Flags(false, false, false, false, false, false, false);
    var r := BUSY_ONLY.(read := true);
    var s0 := One(Buf(q, NODEV, 0, [], Free, NoIo, false), [0]);
    ss, es := [s0], [];
    RunBegins(s0);
    FirstSteps(0, []);
    ss, es := RunOn(ss, es, GetblkPass(0, 0, 0), One(Buf(BUSY_ONLY, 0, 0, [], Held(0), NoIo, false), []));
    ss, es := RunOn(ss, es, ReadStart(0, 0), One(Buf(r, 0, 0, [], Reading(0), ReadIo, false), []));
    ss, es := RunOn(ss, es, IoDone(0), One(Buf(r.(done := true), 0, 0, [], Reading(0), NoIo, false), []));
    LastSteps(r.(done := true), []);
    ss, es := RunOn(ss, es, ReadWaited(0, 0), One(Buf(r.(done := true), 0, 0, [], Held(0), NoIo, false), []));
    ss, es := RunOn(ss, es, Store(0, 0, [1]), One(Buf(r.(done := true), 0, 0, [1], Held(0), NoIo, true), []));
    ss, es := RunOn(ss, es, Brelse(0, 0), Step(ss[5], Brelse(0, 0)));
    LastStep(ss, es);
    NothingWritten(ss, es, 6, Block(0, 0));
  }

  /** A pool of one buffer and an empty disk. */
  function One(bp: Buf, avail: seq<int>): State {
    State([bp], avail, false, map[], {}, {})
  }

  lemma RunBegins(s: State)
    requires s == One(Buf(Flags(false, false, false, false, false, false, false), NODEV, 0, [], Free, NoIo, false), [0])
    ensures IsRun([s], [])
  {
  }

  lemma FirstSteps(p: nat, d: Data)
    ensures var s := One(Buf(Flags(false, false, false, false, false, false, false),
                          NODEV, 0, d, Free, NoIo, false), [0]);
            Takes(s, GetblkPass(p, 0, 0), One(Buf(BUSY_ONLY, 0, 0, d, Held(p), NoIo, false), []))
    ensures var r := BUSY_ONLY.(read := true);
            && Takes(One(Buf(BUSY_ONLY, 0, 0, d, Held(p), NoIo, false), []), ReadStart(p, 0),
                     One(Buf(r, 0, 0, d, Reading(p), ReadIo, false), []))
            && Takes(One(Buf(r, 0, 0, d, Reading(p), ReadIo, false), []), IoDone(0),
                     One(Buf(r.(done := true), 0, 0, [], Reading(p), NoIo, false), []))
  {
  }

  lemma LastSteps(f: Flags, d: Data)
    requires f.done && f.busy
    ensures Takes(One(Buf(f, 0, 0, d, Reading(0), NoIo, false), []), ReadWaited(0, 0),
                  One(Buf(f, 0, 0, d, Held(0), NoIo, false), []))
    ensures Takes(One(Buf(f, 0, 0, d, Held(0), NoIo, false), []), Store(0, 0, [1]),
                  One(Buf(f, 0, 0, [1], Held(0), NoIo, true), []))
    ensures var s := One(Buf(f, 0, 0, [1], Held(0), NoIo, true), []);
            InBounds(s) && Enabled(s, Brelse(0, 0)) && Takes(s, Brelse(0, 0), Step(s, Brelse(0, 0)))
  {
  }

  ghost predicate Takes(s: State, e: Event, t: State) {
    InBounds(s) && Enabled(s, e) && Step(s, e) == t
  }

  lemma LastStep(ss: seq<State>, es: seq<Event>)
    requires IsRun(ss, es) && |es| > 0
    ensures Follows(ss, es, |es| - 1)
  {
  }

  lemma RunOn(ss: seq<State>, es: seq<Event>, e: Event, t: State) returns (ss': seq<State>, es': seq<Event>)
    requires IsRun(ss, es) && |ss| == |es| + 1 && Takes(ss[|es|], e, t)
    ensures IsRun(ss', es') && es' == es + [e] && ss' == ss + [t]
  {
    RunSnoc(ss, es, e);
    ss', es' := ss + [t], es + [e];
  }

  lemma {:induction false} NothingWritten(ss: seq<State>, es: seq<Event>, n: nat, k: Block)
    requires IsRun(ss, es) && n <= |es| && forall i :: 0 <= i < n ==>
              !es[i].Bwrite? && !es[i].Bawrite? && !es[i].Bdwrite?
    ensures LastWritten(ss, es, n, k) == Get(ss[0].disk, k)
  {
    hide Step, InBounds, Init;
    if n > 0 {
      assert Follows(ss, es, n - 1);
      NothingWritten(ss, es, n - 1, k);
    }
  }

  /** Step e is taken by process p on buffer b. */
  predicate ByHolder(e: Event, p: nat, b: int) {
    match e
    case GetblkPass(_, _, _) => false
    case GeteblkPass(_) => false
    case FlushPass(_) => false
    case AgeLate(_) => false
    case IoDone(_) => false
    case _ => e.p == p && e.b == b
  }

  /** Buffer b has the same contents, block and holder in both states. */
  predicate Untouched(s: State, t: State, b: int)
    requires 0 <= b < |s.bufs|
  {
    && |t.bufs| == |s.bufs|
    && t.bufs[b].phase == s.bufs[b].phase && t.bufs[b].data == s.bufs[b].data
    && t.bufs[b].dirty == s.bufs[b].dirty && SameBlock(s.bufs[b], t.bufs[b])
  }

  /** A step of the holder of another buffer, or of another holder. */
  lemma OthersStep(s: State, e: Event, p: nat, b: int)
    requires Enabled(s, e) && Holds(s, p, b) && !ByHolder(e, p, b) && b !in s.avail
    requires forall i :: 0 <= i < |s.avail| ==> 0 <= s.avail[i] < |s.bufs|
    requires !e.GetblkPass? && !e.GeteblkPass? && !e.FlushPass? && !e.AgeLate? && !e.IoDone?
    ensures Untouched(s, Step(s, e), b)
  {
    assert e.b != b;
  }

  lemma HeldFacts(s: State, m: Disk, p: nat, b: int)
    requires Inv(s, m) && Holds(s, p, b)
    ensures b !in s.avail && s.bufs[b].io == NoIo && s.bufs[b].flags.busy && Listed(s)
    ensures forall i :: 0 <= i < |s.avail| ==> 0 <= s.avail[i] < |s.bufs|
  {
    hide Unique, Settled, Current;
    assert Tidy(s.bufs[b]);
  }

  lemma GrabLeavesHeld(s: State, q: nat, dev: int, blkno: int, b: int)
    requires Listed(s) && 0 <= b < |s.bufs| && s.bufs[b].flags.busy
    ensures Untouched(s, Grab(s, q, dev, blkno).0, b)
  {
    assert b !in s.avail;
    if s.avail != [] {
      assert s.avail[0] in s.avail;
    }
  }

  /** A held buffer is its holder's alone: no step of another process, of the device or of
      bflush changes its contents, its block, or who holds it. */
  lemma HeldIsExclusive(s: State, m: Disk, e: Event, p: nat, b: int)
    requires Inv(s, m) && Enabled(s, e) && Holds(s, p, b) && !ByHolder(e, p, b)
    ensures Untouched(s, Step(s, e), b)
  {
    hide Unique, Settled, Current, Tidy, Listed;
    HeldFacts(s, m, p, b);
    match e
    case GetblkPass(q, dev, blkno) =>
      if Find(s.bufs, dev, blkno) < 0 {
        GrabLeavesHeld(s, q, dev, blkno, b);
      }
    case GeteblkPass(q) =>
      if s.avail != [] {
        assert s.avail[0] in s.avail;
        GrabLeavesHeld(s, q, NODEV, s.bufs[s.avail[0]].blkno, b);
      }
    case FlushPass(_) =>
    case AgeLate(_) =>
    case IoDone(_) =>
    case _ =>
      OthersStep(s, e, p, b);
  }

  // ----- the block asked for

  lemma BusyFacts(s: State, m: Disk, b: int)
    requires Inv(s, m) && 0 <= b < |s.bufs| && s.bufs[b].flags.busy
    ensures b !in s.avail && Listed(s)
    ensures forall i :: 0 <= i < |s.avail| ==> 0 <= s.avail[i] < |s.bufs|
  {
    hide Unique, Settled, Sound, Tidy;
  }

  /** A busy buffer keeps its block, whoever takes the step. */
  lemma BusyKeepsBlock(s: State, m: Disk, e: Event, b: int)
    requires Inv(s, m) && Enabled(s, e) && 0 <= b < |s.bufs| && s.bufs[b].flags.busy
    ensures |Step(s, e).bufs| == |s.bufs| && BlockOf(Step(s, e).bufs[b]) == BlockOf(s.bufs[b])
  {
    hide Inv, Listed;
    BusyFacts(s, m, b);
    match e
    case GetblkPass(q, dev, blkno) =>
      if Find(s.bufs, dev, blkno) < 0 {
        GrabLeavesHeld(s, q, dev, blkno, b);
      }
    case GeteblkPass(q) =>
      if s.avail != [] {
        GrabLeavesHeld(s, q, NODEV, s.bufs[s.avail[0]].blkno, b);
      }
    case _ =>
  }

  /** A process that waits for its read goes on waiting until its own wait is over. */
  lemma ReadingStays(s: State, m: Disk, e: Event, p: nat, b: int)
    requires Inv(s, m) && Enabled(s, e) && 0 <= b < |s.bufs| && s.bufs[b].phase == Reading(p) && e != ReadWaited(p, b)
    ensures |Step(s, e).bufs| == |s.bufs| && Step(s, e).bufs[b].phase == Reading(p)
  {
    hide Inv, Listed;
    assert s.bufs[b].flags.busy && !s.bufs[b].flags.async by { ReadingFacts(s, m, b); }
    BusyFacts(s, m, b);
    match e
    case GetblkPass(q, dev, blkno) =>
      if Find(s.bufs, dev, blkno) < 0 {
        GrabLeavesHeld(s, q, dev, blkno, b);
      }
    case GeteblkPass(q) =>
      if s.avail != [] {
        GrabLeavesHeld(s, q, NODEV, s.bufs[s.avail[0]].blkno, b);
      }
    case _ =>
  }

  lemma ReadingFacts(s: State, m: Disk, b: int)
    requires Inv(s, m) && 0 <= b < |s.bufs| && s.bufs[b].phase.Reading?
    ensures s.bufs[b].flags.busy && !s.bufs[b].flags.async
  {
    hide Unique, Settled, Sound, Listed;
    assert Tidy(s.bufs[b]);
  }

  /** Process p has buffer b for block k, held or being read. */
  ghost predicate Has(s: State, p: nat, b: int, k: Block) {
    0 <= b < |s.bufs| && (s.bufs[b].phase == Held(p) || s.bufs[b].phase == Reading(p)) && BlockOf(s.bufs[b]) == k
  }

  /** What process p does with buffer b between getting it and the end of the wait for its read. */
  predicate InBread(e: Event, p: nat, b: int) {
    !ByHolder(e, p, b) || e == ReadStart(p, b)
  }

  lemma HasStays(s: State, m: Disk, e: Event, p: nat, b: int, k: Block)
    requires Inv(s, m) && Enabled(s, e) && Has(s, p, b, k) && InBread(e, p, b)
    ensures Has(Step(s, e), p, b, k)
  {
    hide Inv, Step, Enabled;
    HasFacts(s, m, p, b, k);
    BusyKeepsBlock(s, m, e, b);
    if s.bufs[b].phase == Reading(p) {
      ReadingStays(s, m, e, p, b);
    } else if !ByHolder(e, p, b) {
      HeldIsExclusive(s, m, e, p, b);
    } else {
      ReadStartReads(s, m, p, b);
    }
  }

  lemma HasFacts(s: State, m: Disk, p: nat, b: int, k: Block)
    requires Inv(s, m) && Has(s, p, b, k)
    ensures s.bufs[b].flags.busy && InBounds(s)
  {
    hide Unique, Settled, Sound;
    assert Tidy(s.bufs[b]);
  }

  lemma ReadStartReads(s: State, m: Disk, p: nat, b: int)
    requires Inv(s, m) && Enabled(s, ReadStart(p, b))
    ensures Step(s, ReadStart(p, b)).bufs[b].phase == Reading(p)
  {
    hide Unique, Settled, Sound, Tidy;
  }

  /** getblk gives the caller a buffer of the block asked for. */
  lemma GetblkGives(s: State, m: Disk, p: nat, dev: int, blkno: int, b: int)
    requires Inv(s, m) && 0 <= dev < NODEV && InBounds(s) && Getblk(s, p, dev, blkno).1 == Got(b)
    ensures Has(Getblk(s, p, dev, blkno).0, p, b, Block(dev, blkno))
  {
    hide Unique, Settled, Sound, Tidy;
  }

  lemma {:induction false} HasThrough(ss: seq<State>, es: seq<Event>, i: nat, n: nat, p: nat, b: int, k: Block)
    requires IsRun(ss, es) && i <= n <= |es| && Has(ss[i], p, b, k)
    requires forall j :: i <= j < n ==> InBread(es[j], p, b)
    ensures Has(ss[n], p, b, k)
    decreases n - i
  {
    hide Step, Enabled, Init, Inv, Has, InBread, InBounds;
    if i < n {
      HasThrough(ss, es, i, n - 1, p, b, k);
      assert Follows(ss, es, n - 1);
      RunKeeps(ss, es, n - 1);
      HasStays(ss[n - 1], PlainAfter(ss, es, n - 1), es[n - 1], p, b, k);
    }
  }

  /** bread returns the block it was asked for: after getblk has given the process a buffer for
      (dev, blkno) at step i, and the process has waited for its read, doing nothing else with the
      buffer, it holds the buffer of just this block with what was last written to it, unless a
      changed valid buffer of the block was released unwritten since then. */
  lemma BreadGetsItsBlock(ss: seq<State>, es: seq<Event>, i: nat, n: nat, p: nat, b: int, dev: int, blkno: int)
    requires IsRun(ss, es) && i + 1 < n <= |es| && es[i] == GetblkPass(p, dev, blkno) && Follows(ss, es, i)
    requires Getblk(ss[i], p, dev, blkno).1 == Got(b) && es[n - 1] == ReadWaited(p, b)
    requires forall j :: i < j < n - 1 ==> InBread(es[j], p, b)
    ensures 0 <= b < |ss[n].bufs| && ss[n].bufs[b].phase == Held(p) && BlockOf(ss[n].bufs[b]) == Block(dev, blkno)
    ensures !Spoiled(ss, es, n, Block(dev, blkno)) ==> ss[n].bufs[b].data == LastWritten(ss, es, n, Block(dev, blkno))
  {
    hide Init, Inv, InBread, Getblk;
    RunKeeps(ss, es, i);
    GetblkGives(ss[i], PlainAfter(ss, es, i), p, dev, blkno, b);
    HasThrough(ss, es, i + 1, n - 1, p, b, Block(dev, blkno));
    assert Follows(ss, es, n - 1);
    BreadReturnsLatest(ss, es, n, p, b);
    RunKeeps(ss, es, n - 1);
    HasFacts(ss[n - 1], PlainAfter(ss, es, n - 1), p, b, Block(dev, blkno));
    BusyKeepsBlock(ss[n - 1], PlainAfter(ss, es, n - 1), es[n - 1], b);
  }
}
