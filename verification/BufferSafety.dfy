/** Every run of the buffer cache protocol looks like a plain disk. */
module BufferSafety {
  import opened BufferProtocol

  // ----- the available list

  lemma {:induction false} RemoveOne(q: seq<int>, b: int)
    requires forall i, j :: 0 <= i < j < |q| ==> q[i] != q[j]
    ensures forall x :: x in Remove(q, b) <==> x in q && x != b
    ensures forall i, j :: 0 <= i < j < |Remove(q, b)| ==> Remove(q, b)[i] != Remove(q, b)[j]
  {
    if q != [] {
      RemoveOne(q[1..], b);
      assert q == [q[0]] + q[1..];
      if q[0] != b {
        var r := Remove(q[1..], b);
        assert forall x :: x in q[1..] ==> x != q[0];
        var t := [q[0]] + r;
        assert forall x :: x in t <==> x == q[0] || x in r;
        forall i, j | 0 <= i < j < |t|
          ensures t[i] != t[j]
        {
          assert t[j] in r;
        }
      }
    }
  }

  lemma ListedNotAvail(s: State, b: int, ph: Phase)
    requires Listed(s) && 0 <= b < |s.bufs|
    ensures Listed(NotAvail(s, b, ph))
  {
    RemoveOne(s.avail, b);
    var t := NotAvail(s, b, ph);
    forall i | 0 <= i < |t.avail|
      ensures 0 <= t.avail[i] < |t.bufs|
    {
      assert t.avail[i] in t.avail;
    }
  }

  lemma ListedRelease(s: State, b: int)
    requires Listed(s) && 0 <= b < |s.bufs| && s.bufs[b].flags.busy
    ensures Listed(Release(s, b))
  {
    assert b !in s.avail;
    var t := Release(s, b);
    assert forall x :: x in t.avail <==> x in s.avail || x == b;
  }

  // ----- changing one buffer

  /** The parts of the invariant that do not speak of the available list. */
  ghost predicate Contents(s: State, m: Disk) {
    && Unique(s.bufs)
    && (forall b :: 0 <= b < |s.bufs| ==> Tidy(s.bufs[b]))
    && (forall b :: 0 <= b < |s.bufs| ==> Sound(s, s.bufs[b], m))
    && Settled(s, m)
  }

  /** The new block of a buffer is up to date on disk or still owed by the buffer. */
  ghost predicate Accounted(bp: Buf, m: Disk, disk: Disk) {
    Current(bp, m) && (bp.dev != NODEV ==> Get(disk, BlockOf(bp)) == Get(m, BlockOf(bp)) || Owes(bp))
  }

  /** What one buffer, the disk, the plain disk and the record of spoiled blocks become when they
      change at most at the block of bp. */
  ghost predicate OnlyAt(k: Block, s: State, m: Disk, m': Disk, disk': Disk, spoiled': set<Block>) {
    forall x :: x != k ==>
      Get(m', x) == Get(m, x) && Get(disk', x) == Get(s.disk, x) && (x in spoiled' <==> x in s.spoiled)
  }

  /** Buffer b becomes bp. The change is safe if the buffer that loses its block owes it nothing,
      no other buffer has the new block, and the new block is accounted for or spoiled. */
  lemma ReplaceKeeps(s: State, m: Disk, b: int, bp: Buf, m': Disk, disk': Disk, spoiled': set<Block>)
    requires Contents(s, m) && 0 <= b < |s.bufs| && Tidy(bp)
    requires SameBlock(bp, s.bufs[b]) ||
             (!Owes(s.bufs[b]) &&
              (bp.dev == NODEV || forall i :: 0 <= i < |s.bufs| ==> !SameBlock(bp, s.bufs[i])))
    requires OnlyAt(BlockOf(bp), s, m, m', disk', spoiled')
    requires BlockOf(bp) in spoiled' || Accounted(bp, m', disk')
    ensures Contents(At(s, b, bp).(disk := disk', spoiled := spoiled'), m')
  {
    var t := At(s, b, bp).(disk := disk', spoiled := spoiled');
    assert Unique(t.bufs) by {
      forall i, j | 0 <= i < |t.bufs| && 0 <= j < |t.bufs| && t.bufs[i].dev != NODEV && SameBlock(t.bufs[i], t.bufs[j])
        ensures i == j
      {
        assert SameBlock(s.bufs[i], s.bufs[j]) || SameBlock(bp, s.bufs[i]);
      }
    }
    forall i | 0 <= i < |t.bufs|
      ensures Sound(t, t.bufs[i], m')
    {
      if i != b && s.bufs[i].dev != NODEV {
        assert !SameBlock(t.bufs[i], t.bufs[b]);
      }
      assert Tidy(s.bufs[i]) && Sound(s, s.bufs[i], m);
    }
    forall k: Block | k.dev != NODEV && k !in spoiled'
      ensures Get(t.disk, k) == Get(m', k) || Owed(t.bufs, k)
    {
      SettledAt(s, m, b, bp, m', disk', spoiled', k);
    }
  }

  lemma SettledAt(s: State, m: Disk, b: int, bp: Buf, m': Disk, disk': Disk, spoiled': set<Block>, k: Block)
    requires Contents(s, m) && 0 <= b < |s.bufs| && k.dev != NODEV && k !in spoiled'
    requires SameBlock(bp, s.bufs[b]) || !Owes(s.bufs[b])
    requires OnlyAt(BlockOf(bp), s, m, m', disk', spoiled')
    requires BlockOf(bp) in spoiled' || Accounted(bp, m', disk')
    ensures Get(disk', k) == Get(m', k) || Owed(s.bufs[b := bp], k)
  {
    var bufs := s.bufs[b := bp];
    if k == BlockOf(bp) {
      if Owes(bp) {
        assert bufs[b] == bp;
      }
    } else if Get(s.disk, k) != Get(m, k) {
      assert Owed(s.bufs, k);
      var i :| 0 <= i < |s.bufs| && s.bufs[i].dev == k.dev && s.bufs[i].blkno == k.blkno && Owes(s.bufs[i]);
      assert i != b;
      assert bufs[i] == s.bufs[i];
    }
  }

  /** A change of one buffer that keeps its block, the disk and the plain disk. */
  lemma AdjustKeeps(s: State, m: Disk, b: int, bp: Buf)
    requires Contents(s, m) && 0 <= b < |s.bufs|
    requires SameBlock(bp, s.bufs[b]) && Tidy(bp) && Sound(s, bp, m)
    requires Owes(s.bufs[b]) ==> Owes(bp)
    ensures Contents(At(s, b, bp), m)
  {
    var k := BlockOf(bp);
    if bp.dev != NODEV && k !in s.spoiled && Get(s.disk, k) != Get(m, k) {
      OwedBy(s, b);
    }
    ReplaceKeeps(s, m, b, bp, m, s.disk, s.spoiled);
    assert At(s, b, bp).(disk := s.disk, spoiled := s.spoiled) == At(s, b, bp);
  }

  /** Only the buffer associated with a block can owe it. */
  lemma OwedBy(s: State, b: int)
    requires Unique(s.bufs) && 0 <= b < |s.bufs| && s.bufs[b].dev != NODEV
    requires Owed(s.bufs, Block(s.bufs[b].dev, s.bufs[b].blkno))
    ensures Owes(s.bufs[b])
  {
    var i :| 0 <= i < |s.bufs| && SameBlock(s.bufs[i], s.bufs[b]) && Owes(s.bufs[i]);
  }

  /** A block that no buffer is associated with is up to date on disk. */
  lemma NotInCore(s: State, m: Disk, k: Block)
    requires Settled(s, m) && k.dev != NODEV && k !in s.spoiled
    requires forall i :: 0 <= i < |s.bufs| ==> !(s.bufs[i].dev == k.dev && s.bufs[i].blkno == k.blkno)
    ensures Get(s.disk, k) == Get(m, k)
  {
  }

  /** The disk and the available list do not matter to each other. */
  lemma ContentsOfList(s: State, m: Disk, avail: seq<int>, fwanted: bool)
    requires Contents(s, m)
    ensures Contents(s.(avail := avail, fwanted := fwanted), m)
  {
    var t := s.(avail := avail, fwanted := fwanted);
    assert t.bufs == s.bufs && t.disk == s.disk && t.spoiled == s.spoiled;
    assert forall b :: 0 <= b < |s.bufs| ==> Sound(s, s.bufs[b], m) == Sound(t, t.bufs[b], m);
  }

  /** The buffer that brelse leaves behind. */
  function Released(bp: Buf): Buf {
    bp.(flags := bp.flags.(wanted := false, busy := false, async := false, age := false), phase := Free, dirty := false)
  }

  lemma ReleaseKeeps(s: State, m: Disk, b: int)
    requires Listed(s) && 0 <= b < |s.bufs| && s.bufs[b].flags.busy
    requires Contents(s, m) && s.bufs[b].io == NoIo
    ensures !Unwritten(s.bufs[b]) ==> Inv(Release(s, b), m)
    ensures Unwritten(s.bufs[b]) ==> Inv(Spoilt(Release(s, b), s.bufs[b]), m)
  {
    var t, bq := Release(s, b), Released(s.bufs[b]);
    assert Tidy(s.bufs[b]) && Sound(s, s.bufs[b], m);
    ListedRelease(s, b);
    if Unwritten(s.bufs[b]) {
      var spoiled := s.spoiled + {BlockOf(bq)};
      ReplaceKeeps(s, m, b, bq, m, s.disk, spoiled);
      var u := At(s, b, bq).(disk := s.disk, spoiled := spoiled);
      ContentsOfList(u, m, t.avail, t.fwanted);
      assert Spoilt(t, s.bufs[b]) == u.(avail := t.avail, fwanted := t.fwanted);
    } else {
      AdjustKeeps(s, m, b, bq);
      ContentsOfList(At(s, b, bq), m, t.avail, t.fwanted);
    }
  }

  lemma NotAvailKeeps(s: State, m: Disk, b: int, p: nat)
    requires Inv(s, m) && b in s.avail
    ensures 0 <= b < |s.bufs| && s.bufs[b].phase == Free
    ensures Inv(NotAvail(s, b, Held(p)), m)
  {
    var bp := s.bufs[b];
    assert Tidy(bp) && Sound(s, bp, m);
    ListedNotAvail(s, b, Held(p));
    var bq := bp.(flags := bp.flags.(busy := true), phase := Held(p));
    AdjustKeeps(s, m, b, bq);
    ContentsOfList(At(s, b, bq), m, Remove(s.avail, b), s.fwanted);
  }

  lemma AdjustInv(s: State, m: Disk, b: int, bp: Buf)
    requires Inv(s, m) && 0 <= b < |s.bufs|
    requires SameBlock(bp, s.bufs[b]) && Tidy(bp) && Sound(s, bp, m)
    requires Owes(s.bufs[b]) ==> Owes(bp)
    requires bp.flags.busy == s.bufs[b].flags.busy
    ensures Inv(At(s, b, bp), m)
  {
    AdjustKeeps(s, m, b, bp);
  }

  /** bwrite and bawrite by a holder; the plain disk changes at once. */
  lemma WriteKeeps(s: State, m: Disk, b: int, ph: Phase, async: bool)
    requires Inv(s, m) && 0 <= b < |s.bufs| && s.bufs[b].phase.Held? && s.bufs[b].dev != NODEV
    requires (ph == Loose && async) || (ph.Writing? && !async)
    ensures Inv(Mended(StartWrite(s, b, ph, async), s.bufs[b]),
                m[Block(s.bufs[b].dev, s.bufs[b].blkno) := s.bufs[b].data])
  {
    var bp := s.bufs[b];
    var m' := m[Block(bp.dev, bp.blkno) := bp.data];
    assert Tidy(bp);
    var bq := StartWrite(s, b, ph, async).bufs[b];
    ReplaceKeeps(s, m, b, bq, m', s.disk, s.spoiled - {BlockOf(bp)});
    assert At(s, b, bq).(disk := s.disk, spoiled := s.spoiled - {BlockOf(bp)}) ==
           Mended(StartWrite(s, b, ph, async), bp);
  }

  /** Writing out a delayed write that is no longer being touched changes nothing that the
      plain disk can see. */
  lemma WriteOutKeeps(s: State, m: Disk, b: int)
    requires Inv(s, m) && b in s.avail && 0 <= b < |s.bufs| && s.bufs[b].flags.delwri
    ensures forall ph :: Inv(StartWrite(NotAvail(s, b, ph), b, Loose, true), m)
  {
    forall ph
      ensures Inv(StartWrite(NotAvail(s, b, ph), b, Loose, true), m)
    {
      var bp, t := s.bufs[b], StartWrite(NotAvail(s, b, ph), b, Loose, true);
      assert Tidy(bp) && Sound(s, bp, m);
      ListedNotAvail(s, b, ph);
      AdjustKeeps(s, m, b, t.bufs[b]);
      ContentsOfList(At(s, b, t.bufs[b]), m, t.avail, t.fwanted);
      assert t == At(s, b, t.bufs[b]).(avail := t.avail, fwanted := t.fwanted);
    }
  }

  /** Reassigning the oldest available buffer loses nothing: it owes its block nothing. */
  lemma GrabKeeps(s: State, m: Disk, p: nat, dev: int, blkno: int)
    requires Inv(s, m) && 0 <= dev <= NODEV
    requires dev != NODEV ==> forall i :: 0 <= i < |s.bufs| ==> !(s.bufs[i].dev == dev && s.bufs[i].blkno == blkno)
    ensures Inv(Grab(s, p, dev, blkno).0, m)
  {
    hide Unique, Settled, Sound, Tidy;
    if s.avail == [] {
      ContentsOfList(s, m, s.avail, true);
    } else {
      var b := s.avail[0];
      if s.bufs[b].flags.delwri {
        WriteOutKeeps(s, m, b);
      } else {
        assert b in s.avail;
        TidyAt(s, m, b);
        NotAvailKeeps(s, m, b, p);
        ReassignKeeps(NotAvail(s, b, Held(p)), m, b, p, dev, blkno);
      }
    }
  }

  /** A held buffer that owes nothing becomes that of a block no buffer has. */
  lemma ReassignKeeps(s: State, m: Disk, b: int, p: nat, dev: int, blkno: int)
    requires Inv(s, m) && 0 <= b < |s.bufs| && s.bufs[b].phase == Held(p) && !Owes(s.bufs[b]) && 0 <= dev <= NODEV
    requires dev != NODEV ==> forall i :: 0 <= i < |s.bufs| ==> !(s.bufs[i].dev == dev && s.bufs[i].blkno == blkno)
    ensures Inv(At(s, b, s.bufs[b].(flags := BUSY_ONLY, dev := dev, blkno := blkno)), m)
  {
    var bq := s.bufs[b].(flags := BUSY_ONLY, dev := dev, blkno := blkno);
    assert Tidy(s.bufs[b]) && Tidy(bq);
    if dev != NODEV && Block(dev, blkno) !in s.spoiled {
      NotInCore(s, m, Block(dev, blkno));
    }
    ReplaceKeeps(s, m, b, bq, m, s.disk, s.spoiled);
    assert At(s, b, bq).(disk := s.disk, spoiled := s.spoiled) == At(s, b, bq);
  }

  lemma GetblkKeeps(s: State, m: Disk, p: nat, dev: int, blkno: int)
    requires Inv(s, m) && 0 <= dev < NODEV
    ensures Inv(Getblk(s, p, dev, blkno).0, m)
  {
    var b := Find(s.bufs, dev, blkno);
    if b < 0 {
      GrabKeeps(s, m, p, dev, blkno);
    } else if s.bufs[b].flags.busy {
      assert Tidy(s.bufs[b]) && Sound(s, s.bufs[b], m);
      AdjustInv(s, m, b, s.bufs[b].(flags := s.bufs[b].flags.(wanted := true)));
    } else {
      NotAvailKeeps(s, m, b, p);
    }
  }

  /** A completed read has fetched what the plain disk holds: nobody owed the block. */
  lemma ReadFetches(s: State, m: Disk, b: int)
    requires Inv(s, m) && 0 <= b < |s.bufs| && s.bufs[b].io == ReadIo
    ensures s.bufs[b].dev != NODEV
    ensures BlockOf(s.bufs[b]) !in s.spoiled ==>
              Get(s.disk, Block(s.bufs[b].dev, s.bufs[b].blkno)) == Get(m, Block(s.bufs[b].dev, s.bufs[b].blkno))
  {
    var k := Block(s.bufs[b].dev, s.bufs[b].blkno);
    assert Tidy(s.bufs[b]);
    if k !in s.spoiled && Get(s.disk, k) != Get(m, k) {
      OwedBy(s, b);
    }
  }

  /** The buffer as the transfer leaves it, and the disk. */
  function Transferred(s: State, b: int): (r: (Buf, Disk))
    requires 0 <= b < |s.bufs|
  {
    var bp := s.bufs[b];
    var k := Block(bp.dev, bp.blkno);
    (bp.(data := if bp.io == ReadIo then Get(s.disk, k) else bp.data, io := NoIo,
         flags := bp.flags.(done := true)),
     if bp.io == WriteIo then s.disk[k := bp.data] else s.disk)
  }

  /** The buffer a completed transfer leaves behind: released if nobody waits for it. */
  function Completed(s: State, b: int): Buf
    requires 0 <= b < |s.bufs|
  {
    var bq := Transferred(s, b).0;
    if bq.flags.async then Released(bq) else bq.(flags := bq.flags.(wanted := false))
  }

  lemma CompletedKeeps(s: State, m: Disk, b: int)
    requires Inv(s, m) && 0 <= b < |s.bufs| && s.bufs[b].io != NoIo
    ensures Contents(At(s, b, Completed(s, b)).(disk := Transferred(s, b).1), m)
  {
    var bp, bq, disk := s.bufs[b], Completed(s, b), Transferred(s, b).1;
    assert Tidy(bp) && Sound(s, bp, m);
    if bp.io == ReadIo {
      ReadFetches(s, m, b);
    }
    assert Tidy(bq) && SameBlock(bq, bp) && Sound(s, bq, m);
    assert BlockOf(bq) in s.spoiled || Accounted(bq, m, disk);
    hide Tidy, Current;
    ReplaceKeeps(s, m, b, bq, m, disk, s.spoiled);
    assert At(s, b, bq).(disk := disk, spoiled := s.spoiled) == At(s, b, bq).(disk := disk);
  }

  lemma CompleteKeeps(s: State, m: Disk, b: int)
    requires Inv(s, m) && 0 <= b < |s.bufs| && s.bufs[b].io != NoIo
    ensures Inv(Complete(s, b), m)
  {
    assert Tidy(s.bufs[b]);
    CompletedKeeps(s, m, b);
    ListedComplete(s, b);
    hide Tidy, Current, Unique, Settled;
    var t, u := Complete(s, b), At(s, b, Completed(s, b)).(disk := Transferred(s, b).1);
    ContentsOfList(u, m, t.avail, t.fwanted);
    assert t == u.(avail := t.avail, fwanted := t.fwanted);
  }

  lemma ListedComplete(s: State, b: int)
    requires Listed(s) && 0 <= b < |s.bufs| && s.bufs[b].flags.busy
    ensures Listed(Complete(s, b))
  {
    ListedRelease(At(s, b, Transferred(s, b).0), b);
  }

  lemma BdwriteKeeps(s: State, m: Disk, p: nat, b: int)
    requires Inv(s, m) && Enabled(s, Bdwrite(p, b))
    ensures Inv(Step(s, Bdwrite(p, b)), Plain(s, Bdwrite(p, b), m))
  {
    hide Inv, Tidy;
    if Major(s.bufs[b].dev) in s.tapes {
      assert Tidy(s.bufs[b]) by { TidyAt(s, m, b); }
      WriteKeeps(s, m, b, Loose, true);
    } else {
      DelayKeeps(s, m, p, b);
    }
  }

  lemma TidyAt(s: State, m: Disk, b: int)
    requires Inv(s, m) && 0 <= b < |s.bufs|
    ensures Tidy(s.bufs[b])
  {
  }

  lemma DelayKeeps(s: State, m: Disk, p: nat, b: int)
    requires Inv(s, m) && Enabled(s, Bdwrite(p, b)) && Major(s.bufs[b].dev) !in s.tapes
    ensures Inv(Step(s, Bdwrite(p, b)), m[BlockOf(s.bufs[b]) := s.bufs[b].data])
  {
    hide Contents, Listed, Inv;
    DelayedList(s, m, b);
    var m' := m[BlockOf(s.bufs[b]) := s.bufs[b].data];
    var t, u := Step(s, Bdwrite(p, b)),
                At(s, b, Released(Delayed(s.bufs[b]))).(spoiled := s.spoiled - {BlockOf(s.bufs[b])});
    DelayedContents(s, m, b);
    ContentsOfList(u, m', t.avail, t.fwanted);
    assert t == u.(avail := t.avail, fwanted := t.fwanted);
    BothParts(t, m');
  }

  function Delayed(bp: Buf): Buf {
    bp.(flags := bp.flags.(delwri := true, done := true))
  }

  lemma DelayedContents(s: State, m: Disk, b: int)
    requires Inv(s, m) && 0 <= b < |s.bufs| && s.bufs[b].phase.Held? && s.bufs[b].dev != NODEV
    ensures Contents(At(s, b, Released(Delayed(s.bufs[b]))).(spoiled := s.spoiled - {BlockOf(s.bufs[b])}),
                     m[BlockOf(s.bufs[b]) := s.bufs[b].data])
  {
    hide Unique, Listed, Settled;
    var bp := s.bufs[b];
    var m', spoiled := m[BlockOf(bp) := bp.data], s.spoiled - {BlockOf(bp)};
    assert Tidy(bp);
    ReplaceKeeps(s, m, b, Released(Delayed(bp)), m', s.disk, spoiled);
    assert At(s, b, Released(Delayed(bp))).(disk := s.disk, spoiled := spoiled) ==
           At(s, b, Released(Delayed(bp))).(spoiled := spoiled);
  }

  lemma DelayedList(s: State, m: Disk, b: int)
    requires Inv(s, m) && 0 <= b < |s.bufs| && s.bufs[b].phase.Held?
    ensures forall i :: 0 <= i < |s.avail| ==> 0 <= s.avail[i] < |s.bufs|
    ensures var t := Release(At(s, b, Delayed(s.bufs[b])), b); forall spoiled :: Listed(t.(spoiled := spoiled))
  {
    hide Unique, Settled, Sound;
    assert Tidy(s.bufs[b]);
    ListedRelease(At(s, b, Delayed(s.bufs[b])), b);
  }

  lemma BothParts(s: State, m: Disk)
    requires Listed(s) && Contents(s, m)
    ensures Inv(s, m)
  {
  }

  /** Every step keeps the invariant, with the plain disk following along. */
  lemma StepKeeps(s: State, e: Event, m: Disk)
    requires Inv(s, m) && Enabled(s, e)
    ensures Inv(Step(s, e), Plain(s, e, m))
  {
    hide Settled, Unique, Sound, Tidy;
    match e
    case GetblkPass(p, dev, blkno) => GetblkKeeps(s, m, p, dev, blkno);
    case GeteblkPass(p) =>
      GrabKeeps(s, m, p, NODEV, if s.avail == [] then 0 else s.bufs[s.avail[0]].blkno);
    case Bwrite(p, b) => WriteKeeps(s, m, b, Writing(p), false);
    case WriteWaited(p, b) => LetGoKeeps(s, m, e);
    case Bawrite(p, b) => WriteKeeps(s, m, b, Loose, true);
    case Bdwrite(p, b) => BdwriteKeeps(s, m, p, b);
    case Brelse(p, b) => LetGoKeeps(s, m, e);
    case FlushPass(b) => WriteOutKeeps(s, m, b);
    case IoDone(b) => CompleteKeeps(s, m, b);
    case _ => QuietKeeps(s, m, e);
  }

  /** The steps that only change phase, flags or the contents that the holder changes. */
  lemma QuietKeeps(s: State, m: Disk, e: Event)
    requires Inv(s, m) && Enabled(s, e)
    requires e.ReadStart? || e.ReadAhead? || e.ReadWaited? || e.Store? || e.AgeLate?
    ensures Inv(Step(s, e), Plain(s, e, m))
  {
    hide Settled, Unique;
    assert Tidy(s.bufs[e.b]) && Sound(s, s.bufs[e.b], m);
    AdjustInv(s, m, e.b, Step(s, e).bufs[e.b]);
  }

  lemma LetGoKeeps(s: State, m: Disk, e: Event)
    requires Inv(s, m) && Enabled(s, e) && (e.WriteWaited? || e.Brelse?)
    ensures Inv(Step(s, e), Plain(s, e, m))
  {
    hide Settled, Unique;
    assert Tidy(s.bufs[e.b]);
    ReleaseKeeps(s, m, e.b);
  }
}
