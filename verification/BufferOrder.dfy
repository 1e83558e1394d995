/** The order in which things happen in the buffer cache, over whole runs: when transfers start,
    that tapes are written in the order of the calls, that nobody sleeps in vain, and which buffer
    is given away first. */
module BufferOrder {
  import opened BufferProtocol
  import opened BufferSafety
  import opened BufferRings
  import opened BufferRuns

  // ----- what every run keeps

  /** B_READ tells the direction of a transfer; who sleeps for a buffer sleeps for a busy one; no
      write to a tape is delayed; and what bwrite waits for is on the disk once the transfer is
      over. */
  ghost predicate Calm(bp: Buf, tapes: set<int>, disk: Disk) {
    && (bp.io == ReadIo ==> bp.flags.read) && (bp.io == WriteIo ==> !bp.flags.read)
    && (bp.flags.wanted ==> bp.flags.busy)
    && (Major(bp.dev) in tapes ==> !bp.flags.delwri)
    && (bp.phase.Writing? ==> bp.dev != NODEV && (bp.io == NoIo ==> Get(disk, BlockOf(bp)) == bp.data))
  }

  ghost predicate AllCalm(s: State) {
    && (s.fwanted ==> s.avail == [])
    && forall b :: 0 <= b < |s.bufs| ==> Calm(s.bufs[b], s.tapes, s.disk)
  }

  /** One buffer changes, and the disk at most at its block. */
  lemma CalmChange(s: State, m: Disk, t: State, b: int)
    requires Inv(s, m) && AllCalm(s) && 0 <= b < |s.bufs| == |t.bufs| && t.bufs == s.bufs[b := t.bufs[b]]
    requires t.tapes == s.tapes && (t.fwanted ==> t.avail == []) && Calm(t.bufs[b], t.tapes, t.disk)
    requires t.disk == s.disk || (BlockOf(t.bufs[b]) == BlockOf(s.bufs[b]) && s.bufs[b].dev != NODEV
                                  && forall k :: k != BlockOf(s.bufs[b]) ==> Get(t.disk, k) == Get(s.disk, k))
    ensures AllCalm(t)
  {
    hide Listed, Sound, Settled, Tidy;
    forall i | 0 <= i < |t.bufs|
      ensures Calm(t.bufs[i], t.tapes, t.disk)
    {
      if i != b {
        assert Calm(s.bufs[i], s.tapes, s.disk);
        assert s.bufs[i].dev != NODEV && s.bufs[b].dev != NODEV ==> !SameBlock(s.bufs[i], s.bufs[b]);
      }
    }
  }

  /** The buffer that a step is about, or -1. */
  function Touched(s: State, e: Event): int {
    match e
    case GetblkPass(_, dev, blkno) =>
      if Find(s.bufs, dev, blkno) >= 0 then Find(s.bufs, dev, blkno) else if s.avail == [] then -1 else s.avail[0]
    case GeteblkPass(_) => if s.avail == [] then -1 else s.avail[0]
    case _ => e.b
  }

  /** No step changes another buffer, or which devices are tapes. */
  lemma OnlyTouched(s: State, m: Disk, e: Event)
    requires Inv(s, m) && Enabled(s, e) && InBounds(s)
    ensures var t, b := Step(s, e), Touched(s, e);
      && t.tapes == s.tapes && |t.bufs| == |s.bufs| && b < |s.bufs|
      && (b < 0 ==> t.bufs == s.bufs && t.disk == s.disk && t.avail == s.avail == [])
      && (b >= 0 ==> t.bufs == s.bufs[b := t.bufs[b]] && BlockKept(s, t, b))
  {
    hide Inv, Getblk, Geteblk, Complete;
    var t, b := Step(s, e), Touched(s, e);
    match e
    case GetblkPass(_, _, _) => GetTouches(s, e);
    case GeteblkPass(_) => GetTouches(s, e);
    case IoDone(_) => CompleteTouches(s, b);
    case _ => TwiceAt(s, t, b);
  }

  lemma GetTouches(s: State, e: Event)
    requires InBounds(s) && (e.GetblkPass? || e.GeteblkPass?) && Enabled(s, e)
    ensures var t, b := Step(s, e), Touched(s, e);
      && t.tapes == s.tapes && |t.bufs| == |s.bufs| && b < |s.bufs| && t.disk == s.disk
      && (b < 0 ==> t.bufs == s.bufs && t.avail == s.avail == []) && (b >= 0 ==> t.bufs == s.bufs[b := t.bufs[b]])
  {
    hide Find, Grab;
    if e.GetblkPass? && Find(s.bufs, e.dev, e.blkno) >= 0 {
      TwiceAt(s, Step(s, e), Touched(s, e));
    } else if s.avail == [] {
      GrabNothing(s, e.p, if e.GetblkPass? then e.dev else NODEV, if e.GetblkPass? then e.blkno else 0);
    } else if e.GetblkPass? {
      GrabTouches(s, e.p, e.dev, e.blkno);
    } else {
      GrabTouches(s, e.p, NODEV, s.bufs[s.avail[0]].blkno);
    }
  }

  lemma GrabNothing(s: State, p: nat, dev: int, blkno: int)
    requires s.avail == []
    ensures Grab(s, p, dev, blkno).0 == s.(fwanted := true)
  {
  }

  /** Where no other buffer is different. */
  lemma TwiceAt(s: State, t: State, b: int)
    requires 0 <= b < |s.bufs| == |t.bufs| && forall i :: 0 <= i < |s.bufs| && i != b ==> t.bufs[i] == s.bufs[i]
    ensures t.bufs == s.bufs[b := t.bufs[b]]
  {
  }

  lemma GrabTouches(s: State, p: nat, dev: int, blkno: int)
    requires s.avail != [] && forall i :: 0 <= i < |s.avail| ==> 0 <= s.avail[i] < |s.bufs|
    ensures var t, b := Grab(s, p, dev, blkno).0, s.avail[0];
      && t.tapes == s.tapes && |t.bufs| == |s.bufs| && t.bufs == s.bufs[b := t.bufs[b]] && t.disk == s.disk
  {
  }

  lemma CompleteTouches(s: State, b: int)
    requires 0 <= b < |s.bufs| && s.bufs[b].io != NoIo
    ensures var t := Complete(s, b);
      && t.tapes == s.tapes && |t.bufs| == |s.bufs| && t.bufs == s.bufs[b := t.bufs[b]] && BlockKept(s, t, b)
  {
  }

  /** The disk changes at most at the block of the buffer, which keeps it then. */
  ghost predicate BlockKept(s: State, t: State, b: int)
    requires 0 <= b < |s.bufs| == |t.bufs|
  {
    t.disk == s.disk ||
    (&& BlockOf(t.bufs[b]) == BlockOf(s.bufs[b]) && s.bufs[b].io == WriteIo
     && t.disk == s.disk[BlockOf(s.bufs[b]) := s.bufs[b].data])
  }

  /** The flags of the buffer that a step is about are right afterwards. */
  lemma CalmTouched(s: State, m: Disk, e: Event)
    requires Inv(s, m) && AllCalm(s) && Enabled(s, e) && InBounds(s) && 0 <= Touched(s, e) < |s.bufs|
    ensures |Step(s, e).bufs| == |s.bufs|
    ensures Calm(Step(s, e).bufs[Touched(s, e)], s.tapes, Step(s, e).disk)
  {
    hide Listed, Sound, Settled, Unique, Getblk, Geteblk;
    var b := Touched(s, e);
    assert Tidy(s.bufs[b]) && Calm(s.bufs[b], s.tapes, s.disk);
    if e.GetblkPass? || e.GeteblkPass? {
      CalmTaken(s, m, e);
    }
  }

  lemma CalmTaken(s: State, m: Disk, e: Event)
    requires Inv(s, m) && AllCalm(s) && Enabled(s, e) && InBounds(s) && 0 <= Touched(s, e) < |s.bufs|
    requires e.GetblkPass? || e.GeteblkPass?
    ensures |Step(s, e).bufs| == |s.bufs|
    ensures Calm(Step(s, e).bufs[Touched(s, e)], s.tapes, Step(s, e).disk)
  {
    hide Listed, Sound, Settled, Unique;
    var b := Touched(s, e);
    assert Tidy(s.bufs[b]) && Calm(s.bufs[b], s.tapes, s.disk);
    TakenFree(s, m, e);
  }

  /** getblk and geteblk take a buffer from the list, or find one busy. */
  lemma TakenFree(s: State, m: Disk, e: Event)
    requires Inv(s, m) && InBounds(s) && (e.GetblkPass? || e.GeteblkPass?) && 0 <= Touched(s, e) < |s.bufs|
    ensures var b := Touched(s, e);
      (e.GetblkPass? && Find(s.bufs, e.dev, e.blkno) >= 0) ||
      (b in s.avail && !s.bufs[b].flags.busy && s.bufs[b].phase == Free)
  {
    hide Sound, Settled, Unique;
    var b := Touched(s, e);
    assert Tidy(s.bufs[b]);
  }

  lemma CalmStep(s: State, m: Disk, e: Event)
    requires Inv(s, m) && AllCalm(s) && Enabled(s, e) && InBounds(s)
    ensures AllCalm(Step(s, e))
  {
    hide Inv, Step, Calm;
    OnlyTouched(s, m, e);
    NoVainSleep(s, m, e);
    if Touched(s, e) >= 0 {
      CalmTouched(s, m, e);
      WriterHasBlock(s, m, e);
      CalmChange(s, m, Step(s, e), Touched(s, e));
    }
  }

  lemma WriterHasBlock(s: State, m: Disk, e: Event)
    requires Inv(s, m) && 0 <= Touched(s, e) < |s.bufs|
    ensures s.bufs[Touched(s, e)].io == WriteIo ==> s.bufs[Touched(s, e)].dev != NODEV
  {
    hide Listed, Sound, Settled, Unique;
    assert Tidy(s.bufs[Touched(s, e)]);
  }

  /** Someone sleeps for any buffer only while none is available. */
  lemma NoVainSleep(s: State, m: Disk, e: Event)
    requires Inv(s, m) && AllCalm(s) && Enabled(s, e) && InBounds(s)
    ensures Step(s, e).fwanted ==> Step(s, e).avail == []
  {
    hide Listed, Sound, Settled, Unique, Tidy, Calm;
  }

  lemma {:induction false} RunCalm(ss: seq<State>, es: seq<Event>, n: nat)
    requires IsRun(ss, es) && n <= |es|
    ensures AllCalm(ss[n])
  {
    hide Inv, Init, Step, Enabled, AllCalm;
    if n == 0 {
      CalmInit(ss[0]);
    } else {
      assert Follows(ss, es, n - 1);
      RunKeeps(ss, es, n - 1);
      RunCalm(ss, es, n - 1);
      CalmStep(ss[n - 1], PlainAfter(ss, es, n - 1), es[n - 1]);
    }
  }

  lemma CalmInit(s: State)
    requires Init(s)
    ensures AllCalm(s)
  {
  }

  // ----- when transfers start

  datatype Transfer = Transfer(block: Block, data: Data)

  /** The write of buffer b starts between two states. */
  predicate Begins(s: State, t: State, b: int)
    requires 0 <= b < |s.bufs| == |t.bufs|
  {
    s.bufs[b].io != WriteIo && t.bufs[b].io == WriteIo
  }

  /** The write of buffer b, if it starts between two states and is to a device of the major. */
  function BegunAt(s: State, t: State, major: int, b: int): seq<Transfer>
    requires 0 <= b < |s.bufs| == |t.bufs|
  {
    if Begins(s, t, b) && Major(t.bufs[b].dev) == major then [Transfer(BlockOf(t.bufs[b]), t.bufs[b].data)] else []
  }

  /** The writes to devices of a major that start between two states, from the first k buffers. */
  function Begun(s: State, t: State, major: int, k: nat): seq<Transfer>
    requires k <= |s.bufs| == |t.bufs|
  {
    if k == 0 then [] else Begun(s, t, major, k - 1) + BegunAt(s, t, major, k - 1)
  }

  /** The write that a step asks for. */
  function Asked(s: State, e: Event, major: int): seq<Transfer>
    requires Enabled(s, e)
  {
    if (e.Bwrite? || e.Bawrite? || e.Bdwrite?) && Major(s.bufs[e.b].dev) == major then
      [Transfer(BlockOf(s.bufs[e.b]), s.bufs[e.b].data)]
    else []
  }

  /** Only the write of buffer b may have started. */
  lemma {:induction false} BegunOne(s: State, t: State, major: int, b: int, k: nat)
    requires k <= |s.bufs| == |t.bufs| && forall i :: 0 <= i < |s.bufs| && i != b ==> t.bufs[i] == s.bufs[i]
    ensures Begun(s, t, major, k) == if 0 <= b < k then BegunAt(s, t, major, b) else []
    decreases k
  {
    hide BegunAt;
    if k > 0 {
      BegunOne(s, t, major, b, k - 1);
      if k - 1 != b {
        NotBegun(s, t, major, k - 1);
      }
    }
  }

  lemma NotBegun(s: State, t: State, major: int, i: int)
    requires 0 <= i < |s.bufs| == |t.bufs| && t.bufs[i] == s.bufs[i]
    ensures BegunAt(s, t, major, i) == []
  {
  }

  /** bwrite and bawrite start the transfer at once, with the contents as they are; so does bdwrite
      on a tape, and on other devices it leaves the write for later. */
  lemma UnderWay(s: State, m: Disk, e: Event)
    requires Inv(s, m) && Enabled(s, e) && InBounds(s) && (e.Bwrite? || e.Bawrite? || e.Bdwrite?)
    ensures var t, x := Step(s, e), s.bufs[e.b];
      && |t.bufs| == |s.bufs| && BlockOf(t.bufs[e.b]) == BlockOf(x) && t.bufs[e.b].data == x.data && x.io == NoIo
      && if e.Bdwrite? && Major(x.dev) !in s.tapes then
           t.bufs[e.b].io == NoIo && t.bufs[e.b].flags.delwri && t.bufs[e.b].phase == Free && e.b in t.avail
         else t.bufs[e.b].io == WriteIo && !t.bufs[e.b].flags.delwri
  {
    hide Listed, Sound, Settled, Unique;
    assert Tidy(s.bufs[e.b]);
  }

  /** On a tape transfers are started by the calls that ask for them and by nothing else. */
  lemma TapeStep(s: State, m: Disk, e: Event, major: int)
    requires Inv(s, m) && AllCalm(s) && Enabled(s, e) && InBounds(s) && major in s.tapes
    ensures |Step(s, e).bufs| == |s.bufs| && Begun(s, Step(s, e), major, |s.bufs|) == Asked(s, e, major)
  {
    hide Inv, Step, AllCalm;
    var t, b := Step(s, e), Touched(s, e);
    OnlyTouched(s, m, e);
    BegunOne(s, t, major, b, |s.bufs|);
    if e.Bwrite? || e.Bawrite? || e.Bdwrite? {
      UnderWay(s, m, e);
    } else if b >= 0 {
      NoOtherStart(s, m, e);
    }
  }

  /** A transfer that no call asks for is that of a delayed write, and so not to a tape. */
  lemma NoOtherStart(s: State, m: Disk, e: Event)
    requires Inv(s, m) && AllCalm(s) && Enabled(s, e) && InBounds(s) && 0 <= Touched(s, e) < |s.bufs|
    requires !e.Bwrite? && !e.Bawrite? && !e.Bdwrite?
    ensures |Step(s, e).bufs| == |s.bufs|
    ensures Begins(s, Step(s, e), Touched(s, e)) ==> Major(Step(s, e).bufs[Touched(s, e)].dev) !in s.tapes
  {
    hide Listed, Sound, Settled, Unique;
    var b := Touched(s, e);
    assert Tidy(s.bufs[b]) && Calm(s.bufs[b], s.tapes, s.disk);
  }

  ghost function AllBegun(ss: seq<State>, es: seq<Event>, n: nat, major: int): seq<Transfer>
    requires IsRun(ss, es) && n <= |es|
  {
    if n == 0 then []
    else
      SameDevices(ss, es, n - 1);
      SameDevices(ss, es, n);
      AllBegun(ss, es, n - 1, major) + Begun(ss[n - 1], ss[n], major, |ss[n].bufs|)
  }

  ghost function AllAsked(ss: seq<State>, es: seq<Event>, n: nat, major: int): seq<Transfer>
    requires IsRun(ss, es) && n <= |es|
  {
    if n == 0 then []
    else
      assert Follows(ss, es, n - 1);
      AllAsked(ss, es, n - 1, major) + Asked(ss[n - 1], es[n - 1], major)
  }

  lemma {:induction false} SameDevices(ss: seq<State>, es: seq<Event>, n: nat)
    requires IsRun(ss, es) && n <= |es|
    ensures ss[n].tapes == ss[0].tapes && |ss[n].bufs| == |ss[0].bufs|
  {
    hide Inv, Init, Step, Enabled;
    if n > 0 {
      assert Follows(ss, es, n - 1);
      SameDevices(ss, es, n - 1);
      RunKeeps(ss, es, n - 1);
      OnlyTouched(ss[n - 1], PlainAfter(ss, es, n - 1), es[n - 1]);
    }
  }

  /** In every run the transfers to a tape start in the order, and with the contents, of the calls
      of bwrite, bawrite and bdwrite; and no buffer of a tape is ever delayed. */
  lemma {:induction false} TapeInOrder(ss: seq<State>, es: seq<Event>, n: nat, major: int)
    requires IsRun(ss, es) && n <= |es| && major in ss[0].tapes
    ensures AllBegun(ss, es, n, major) == AllAsked(ss, es, n, major)
    ensures forall b :: 0 <= b < |ss[n].bufs| && Major(ss[n].bufs[b].dev) == major ==> !ss[n].bufs[b].flags.delwri
    decreases n
  {
    hide Inv, Init, Step, Enabled, InBounds, Begun, Asked;
    SameDevices(ss, es, n);
    RunCalm(ss, es, n);
    assert forall b :: 0 <= b < |ss[n].bufs| ==> Calm(ss[n].bufs[b], ss[n].tapes, ss[n].disk);
    if n > 0 {
      TapeInOrder(ss, es, n - 1, major);
      assert Follows(ss, es, n - 1);
      RunKeeps(ss, es, n - 1);
      RunCalm(ss, es, n - 1);
      SameDevices(ss, es, n - 1);
      TapeStep(ss[n - 1], PlainAfter(ss, es, n - 1), es[n - 1], major);
    }
  }

  // ----- bwrite waits for the disk

  /** Buffer b is being written for process p, as block k with contents x. */
  ghost predicate BeingWritten(s: State, p: nat, b: int, k: Block, x: Data) {
    0 <= b < |s.bufs| && s.bufs[b].phase == Writing(p) && BlockOf(s.bufs[b]) == k && s.bufs[b].data == x
  }

  lemma WritingStays(s: State, m: Disk, e: Event, p: nat, b: int, k: Block, x: Data)
    requires Inv(s, m) && Enabled(s, e) && InBounds(s) && BeingWritten(s, p, b, k, x) && e != WriteWaited(p, b)
    ensures BeingWritten(Step(s, e), p, b, k, x)
  {
    hide Inv, Listed;
    WritingFacts(s, m, b);
    OnlyTouched(s, m, e);
    if Touched(s, e) == b && (e.GetblkPass? || e.GeteblkPass?) {
      TakenFree(s, m, e);
    }
  }

  lemma WritingFacts(s: State, m: Disk, b: int)
    requires Inv(s, m) && 0 <= b < |s.bufs| && s.bufs[b].phase.Writing?
    ensures s.bufs[b].flags.busy && !s.bufs[b].flags.async && b !in s.avail && s.bufs[b].io != ReadIo
    ensures s.bufs[b].flags.done ==> s.bufs[b].io == NoIo
  {
    hide Unique, Settled, Sound;
    assert Tidy(s.bufs[b]);
  }

  lemma {:induction false} WrittenThrough(ss: seq<State>, es: seq<Event>, i: nat, n: nat, p: nat, b: int, k: Block,
                                          x: Data)
    requires IsRun(ss, es) && i <= n <= |es| && BeingWritten(ss[i], p, b, k, x)
    requires forall j :: i <= j < n ==> es[j] != WriteWaited(p, b)
    ensures BeingWritten(ss[n], p, b, k, x)
    decreases n - i
  {
    hide Step, Enabled, Init, Inv, BeingWritten;
    if i < n {
      WrittenThrough(ss, es, i, n - 1, p, b, k, x);
      assert Follows(ss, es, n - 1);
      RunKeeps(ss, es, n - 1);
      WritingStays(ss[n - 1], PlainAfter(ss, es, n - 1), es[n - 1], p, b, k, x);
    }
  }

  /** When bwrite returns, at step n, the disk has the contents that it was called with. */
  lemma BwriteIsOnDisk(ss: seq<State>, es: seq<Event>, i: nat, n: nat, p: nat, b: int)
    requires IsRun(ss, es) && i + 1 < n <= |es| && Follows(ss, es, i)
    requires es[i] == Bwrite(p, b) && es[n - 1] == WriteWaited(p, b)
    requires forall j :: i < j < n - 1 ==> es[j] != WriteWaited(p, b)
    ensures Get(ss[n].disk, BlockOf(ss[i].bufs[b])) == ss[i].bufs[b].data
  {
    hide Init, Inv, AllCalm;
    var k, x := BlockOf(ss[i].bufs[b]), ss[i].bufs[b].data;
    RunKeeps(ss, es, i);
    UnderWay(ss[i], PlainAfter(ss, es, i), es[i]);
    assert BeingWritten(ss[i + 1], p, b, k, x);
    WrittenThrough(ss, es, i + 1, n - 1, p, b, k, x);
    assert Follows(ss, es, n - 1);
    RunKeeps(ss, es, n - 1);
    WritingFacts(ss[n - 1], PlainAfter(ss, es, n - 1), b);
    RunCalm(ss, es, n - 1);
    CalmAt(ss[n - 1], b);
  }

  lemma CalmAt(s: State, b: int)
    requires AllCalm(s) && 0 <= b < |s.bufs|
    ensures Calm(s.bufs[b], s.tapes, s.disk)
  {
  }

  // ----- which buffer is given away

  /** When a buffer came to the available list, and whether it had B_AGE then. */
  datatype Stamp = Stamp(aged: bool, at: int)

  ghost function Place(q: seq<int>, b: int): int {
    if q == [] then 0 else if q[0] == b then 0 else 1 + Place(q[1..], b)
  }

  /** The stamp of buffer b after n steps. Those that binit entered count as released before the
      run, in the order of the list. */
  ghost function StampOf(ss: seq<State>, es: seq<Event>, n: nat, b: int): Stamp
    requires IsRun(ss, es) && n <= |es| && 0 <= b < |ss[0].bufs|
  {
    if n == 0 then Stamp(false, Place(ss[0].avail, b) - |ss[0].avail|)
    else
      SameDevices(ss, es, n - 1);
      if b !in ss[n - 1].avail && b in ss[n].avail then Stamp(ss[n - 1].bufs[b].flags.age, n)
      else StampOf(ss, es, n - 1, b)
  }

  /** x is to be given away before y: of two that were released with B_AGE the later one, of two
      that were not the earlier one, and those with B_AGE before the others. */
  predicate Sooner(x: Stamp, y: Stamp) {
    if x.aged then !y.aged || x.at > y.at else !y.aged && x.at < y.at
  }

  datatype Move = Stays | Leaves(b: int) | Joins(b: int)

  /** What a step does to the list. */
  ghost predicate Moves(s: State, t: State, v: Move) {
    match v
    case Stays => t.avail == s.avail
    case Leaves(b) => b in s.avail && t.avail == Remove(s.avail, b)
    case Joins(b) =>
      && b !in s.avail && 0 <= b < |s.bufs|
      && t.avail == if s.bufs[b].flags.age then [b] + s.avail else s.avail + [b]
  }

  lemma StepMoves(s: State, m: Disk, e: Event) returns (v: Move)
    requires Inv(s, m) && Enabled(s, e) && InBounds(s)
    ensures Moves(s, Step(s, e), v)
  {
    hide Sound, Settled, Unique;
    var b, t := Touched(s, e), Step(s, e);
    if b < 0 {
      return Stays;
    }
    OnlyTouched(s, m, e);
    assert Tidy(s.bufs[b]);
    assert Listed(s);
    if t.bufs[b].flags.busy == s.bufs[b].flags.busy {
      v := Stays;
    } else if t.bufs[b].flags.busy {
      v := Leaves(b);
    } else {
      v := Joins(b);
    }
  }

  /** The same order, on any list with any stamps that are not later than n. */
  ghost predicate Sorted(q: seq<int>, f: map<int, Stamp>, n: int) {
    && (forall i :: 0 <= i < |q| ==> q[i] in f && f[q[i]].at <= n)
    && (forall i, j :: 0 <= i < j < |q| ==> Sooner(f[q[i]], f[q[j]]))
  }

  lemma SortedStays(q: seq<int>, f: map<int, Stamp>, f': map<int, Stamp>, n: int)
    requires Sorted(q, f, n) && forall i :: 0 <= i < |q| ==> q[i] in f' && f'[q[i]] == f[q[i]]
    ensures Sorted(q, f', n + 1)
  {
  }

  lemma SortedLeaves(q: seq<int>, f: map<int, Stamp>, f': map<int, Stamp>, n: int, b: int)
    requires Sorted(q, f, n) && b in q && Distinct(q)
    requires forall i :: 0 <= i < |q| && q[i] != b ==> q[i] in f' && f'[q[i]] == f[q[i]]
    ensures Sorted(Remove(q, b), f', n + 1)
  {
    hide Sooner, Remove;
    var k :| 0 <= k < |q| && q[k] == b;
    RemoveAt(q, k);
    var r := q[..k] + q[k + 1..];
    forall i | 0 <= i < |r|
      ensures r[i] in f' && f'[r[i]].at <= n + 1
    {
      assert r[i] == q[Back(i, k)];
    }
    forall i, j | 0 <= i < j < |r|
      ensures Sooner(f'[r[i]], f'[r[j]])
    {
      assert r[i] == q[Back(i, k)] && r[j] == q[Back(j, k)];
      assert Sooner(f[q[Back(i, k)]], f[q[Back(j, k)]]);
    }
  }

  /** Where an element was before the one at k was taken out. */
  function Back(i: int, k: int): int {
    if i < k then i else i + 1
  }

  lemma SortedJoins(q: seq<int>, f: map<int, Stamp>, f': map<int, Stamp>, n: int, b: int, aged: bool)
    requires Sorted(q, f, n) && b !in q && forall i :: 0 <= i < |q| ==> q[i] in f' && f'[q[i]] == f[q[i]]
    requires b in f' && f'[b] == Stamp(aged, n + 1)
    ensures Sorted(if aged then [b] + q else q + [b], f', n + 1)
  {
  }

  /** The stamps of all buffers. */
  ghost function Stamps(ss: seq<State>, es: seq<Event>, n: nat): (f: map<int, Stamp>)
    requires IsRun(ss, es) && n <= |es|
    ensures forall b :: b in f <==> 0 <= b < |ss[0].bufs|
    ensures forall b :: b in f ==> f[b] == StampOf(ss, es, n, b)
  {
    map b | 0 <= b < |ss[0].bufs| :: StampOf(ss, es, n, b)
  }

  lemma {:induction false} PlaceIs(q: seq<int>, i: nat)
    requires Distinct(q) && i < |q|
    ensures Place(q, q[i]) == i
    decreases i
  {
    if i > 0 {
      assert q[0] != q[i] && q[1..][i - 1] == q[i];
      PlaceIs(q[1..], i - 1);
    }
  }

  lemma {:induction false} RunSorted(ss: seq<State>, es: seq<Event>, n: nat)
    requires IsRun(ss, es) && n <= |es|
    ensures Sorted(ss[n].avail, Stamps(ss, es, n), n)
    decreases n
  {
    hide Inv, Step, Enabled, Sorted, StampOf, Init;
    if n == 0 {
      FirstSorted(ss, es);
    } else {
      assert Follows(ss, es, n - 1);
      RunKeeps(ss, es, n - 1);
      RunSorted(ss, es, n - 1);
      var s, t := ss[n - 1], ss[n];
      var v := StepMoves(s, PlainAfter(ss, es, n - 1), es[n - 1]);
      var f, f' := Stamps(ss, es, n - 1), Stamps(ss, es, n);
      SameDevices(ss, es, n - 1);
      SameDevices(ss, es, n);
      ListFacts(s, PlainAfter(ss, es, n - 1));
      forall b | 0 <= b < |ss[0].bufs|
        ensures !(b !in s.avail && b in t.avail) ==> f'[b] == f[b]
        ensures b !in s.avail && b in t.avail ==> f'[b] == Stamp(s.bufs[b].flags.age, n)
      {
        StampNext(ss, es, n, b);
      }
      match v {
        case Stays => SortedStays(s.avail, f, f', n - 1);
        case Leaves(b) => SortedLeaves(s.avail, f, f', n - 1, b);
        case Joins(b) => SortedJoins(s.avail, f, f', n - 1, b, s.bufs[b].flags.age);
      }
    }
  }

  lemma ListFacts(s: State, m: Disk)
    requires Inv(s, m)
    ensures Distinct(s.avail) && forall i :: 0 <= i < |s.avail| ==> 0 <= s.avail[i] < |s.bufs|
  {
    hide Sound, Settled, Unique, Tidy;
  }

  lemma StampNext(ss: seq<State>, es: seq<Event>, n: nat, b: int)
    requires IsRun(ss, es) && 0 < n <= |es| && 0 <= b < |ss[0].bufs| && |ss[n - 1].bufs| == |ss[0].bufs|
    ensures StampOf(ss, es, n, b) ==
            if b !in ss[n - 1].avail && b in ss[n].avail then Stamp(ss[n - 1].bufs[b].flags.age, n)
            else StampOf(ss, es, n - 1, b)
  {
  }

  lemma FirstSorted(ss: seq<State>, es: seq<Event>)
    requires IsRun(ss, es)
    ensures Sorted(ss[0].avail, Stamps(ss, es, 0), 0)
  {
    var q := ss[0].avail;
    assert Init(ss[0]) && Distinct(q);
    forall i | 0 <= i < |q|
      ensures Place(q, q[i]) == i && 0 <= q[i] < |ss[0].bufs|
    {
      PlaceIs(q, i);
    }
  }

  /** In every run the buffer that getblk and geteblk give away is, among those available, one that
      no other is to be given away before: the one released longest ago, unless some were released
      with B_AGE, and then the latest of those. */
  lemma OldestGoesFirst(ss: seq<State>, es: seq<Event>, n: nat, b: int)
    requires IsRun(ss, es) && n <= |es| && b in ss[n].avail && b != ss[n].avail[0]
    ensures |ss[n].avail| > 0 && 0 <= ss[n].avail[0] < |ss[0].bufs| && 0 <= b < |ss[0].bufs|
    ensures Sooner(StampOf(ss, es, n, ss[n].avail[0]), StampOf(ss, es, n, b))
  {
    hide Init, StampOf;
    RunSorted(ss, es, n);
    var j :| 0 <= j < |ss[n].avail| && ss[n].avail[j] == b;
  }
}
