/** The block buffer cache of bio.c as a protocol: atomic steps of processes between sleeps, and
    completions at interrupt time. Device errors are not part of this model. */
module BufferProtocol {

  type Data = seq<int>

  /** dev_t is 16 bits wide, major number in the high byte; NODEV is all ones. */
  const NODEV := 65535

  function Major(dev: int): int {
    dev / 256
  }

  datatype Block = Block(dev: int, blkno: int)

  type Disk = map<Block, Data>

  /** A block never written holds an empty value. */
  function Get(m: Disk, k: Block): Data {
    if k in m then m[k] else []
  }

  datatype Flags = Flags(read: bool, done: bool, busy: bool, wanted: bool, age: bool, async: bool, delwri: bool)

  const BUSY_ONLY := Flags(false, false, true, false, false, false, false)

  /** Who may touch a buffer: nobody (it is on the available list), the process that got it,
      that process once its transfer is over, or the device alone (asynchronous transfer). */
  datatype Phase = Free | Held(p: nat) | Reading(p: nat) | Writing(p: nat) | Loose

  datatype Io = NoIo | ReadIo | WriteIo

  /** A buffer header with its block of core. The last three fields are not in struct buf:
      they record what the process and the device are doing, and whether the holder has
      changed the contents since they were last known to be current. */
  datatype Buf = Buf(flags: Flags, dev: int, blkno: int, data: Data, phase: Phase, io: Io, dirty: bool)

  /** The pool, the available list from oldest to newest, the B_WANTED flag of bfreelist, the
      disks, and the majors that are magtapes. The last field is a record of the run: the blocks
      of which a valid buffer was changed and then released unwritten, since their last write. */
  datatype State = State(bufs: seq<Buf>, avail: seq<int>, fwanted: bool,
                         disk: Disk, tapes: set<int>, spoiled: set<Block>)

  function BlockOf(bp: Buf): Block {
    Block(bp.dev, bp.blkno)
  }

  // ----- the pieces the routines are made of

  function At(s: State, b: int, buf: Buf): State
    requires 0 <= b < |s.bufs|
  {
    s.(bufs := s.bufs[b := buf])
  }

  function Remove(q: seq<int>, b: int): (r: seq<int>)
  {
    if q == [] then [] else if q[0] == b then q[1..] else [q[0]] + Remove(q[1..], b)
  }

  /** notavail, for the process or device that ph names. */
  function NotAvail(s: State, b: int, ph: Phase): State
    requires 0 <= b < |s.bufs|
  {
    var bp := s.bufs[b];
    At(s, b, bp.(flags := bp.flags.(busy := true), phase := ph)).(avail := Remove(s.avail, b))
  }

  /** brelse: to the front of the available list if B_AGE, to the back otherwise. */
  function Release(s: State, b: int): State
    requires 0 <= b < |s.bufs|
  {
    var bp := s.bufs[b];
    var q := if bp.flags.age then [b] + s.avail else s.avail + [b];
    At(s, b, bp.(flags := bp.flags.(wanted := false, busy := false, async := false, age := false),
                 phase := Free, dirty := false)).(avail := q, fwanted := false)
  }

  /** bwrite up to and including the call of the strategy routine. */
  function StartWrite(s: State, b: int, ph: Phase, async: bool): State
    requires 0 <= b < |s.bufs|
  {
    var bp := s.bufs[b];
    At(s, b, bp.(flags := bp.flags.(read := false, done := false, delwri := false, age := false, async := async),
                 phase := ph, io := WriteIo, dirty := false))
  }

  /** Start a read, for bread (not asynchronous) or for the read-ahead of breada. */
  function StartRead(s: State, b: int, ph: Phase, async: bool): State
    requires 0 <= b < |s.bufs|
  {
    var bp := s.bufs[b];
    At(s, b, bp.(flags := bp.flags.(read := true, async := async), phase := ph, io := ReadIo, dirty := false))
  }

  /** The device moves the block and calls iodone. */
  function Complete(s: State, b: int): State
    requires 0 <= b < |s.bufs|
  {
    var bp := s.bufs[b];
    var k := Block(bp.dev, bp.blkno);
    var data := if bp.io == ReadIo then Get(s.disk, k) else bp.data;
    var disk := if bp.io == WriteIo then s.disk[k := bp.data] else s.disk;
    var t := At(s, b, bp.(data := data, io := NoIo, flags := bp.flags.(done := true))).(disk := disk);
    if bp.flags.async then Release(t, b)
    else At(t, b, t.bufs[b].(flags := t.bufs[b].flags.(wanted := false)))
  }

  /** The buffer associated with a block, or -1. */
  function Find(bufs: seq<Buf>, dev: int, blkno: int): (b: int)
    ensures -1 <= b < |bufs|
    ensures b >= 0 ==> bufs[b].dev == dev && bufs[b].blkno == blkno
    ensures b < 0 ==> forall i :: 0 <= i < |bufs| ==> !(bufs[i].dev == dev && bufs[i].blkno == blkno)
  {
    if bufs == [] then -1
    else
      var n := |bufs| - 1;
      if bufs[n].dev == dev && bufs[n].blkno == blkno then n
      else
        var b := Find(bufs[..n], dev, blkno);
        b
  }

  datatype Outcome = Got(b: int) | SleepOnBuf(b: int) | SleepOnList | Again

  /** One pass of getblk from loop to a return, a sleep or a goto loop. */
  function Getblk(s: State, p: nat, dev: int, blkno: int): (State, Outcome)
    requires forall i :: 0 <= i < |s.avail| ==> 0 <= s.avail[i] < |s.bufs|
  {
    var b := Find(s.bufs, dev, blkno);
    if b >= 0 then
      if s.bufs[b].flags.busy then
        (At(s, b, s.bufs[b].(flags := s.bufs[b].flags.(wanted := true))), SleepOnBuf(b))
      else
        (NotAvail(s, b, Held(p)), Got(b))
    else
      Grab(s, p, dev, blkno)
  }

  /** Take the oldest available buffer: write it out if its write was delayed, otherwise give it
      to process p as (dev, blkno). */
  function Grab(s: State, p: nat, dev: int, blkno: int): (State, Outcome)
    requires forall i :: 0 <= i < |s.avail| ==> 0 <= s.avail[i] < |s.bufs|
  {
    if s.avail == [] then
      (s.(fwanted := true), SleepOnList)
    else
      var b := s.avail[0];
      var t := NotAvail(s, b, Held(p));
      if s.bufs[b].flags.delwri then
        (StartWrite(t, b, Loose, true), Again)
      else
        (At(t, b, t.bufs[b].(flags := BUSY_ONLY, dev := dev, blkno := blkno)), Got(b))
  }

  /** One pass of geteblk; the block number is left as it was. */
  function Geteblk(s: State, p: nat): (State, Outcome)
    requires forall i :: 0 <= i < |s.avail| ==> 0 <= s.avail[i] < |s.bufs|
  {
    if s.avail == [] then (s.(fwanted := true), SleepOnList)
    else Grab(s, p, NODEV, s.bufs[s.avail[0]].blkno)
  }

  // ----- steps

  /** A step of process p between two sleeps, of the device, or of bflush. */
  datatype Event =
    | GetblkPass(p: nat, dev: int, blkno: int) // getblk, once from loop
    | GeteblkPass(p: nat)                      // geteblk, once from loop
    | ReadStart(p: nat, b: int)                // bread and breada: B_DONE is off, start reading
    | ReadAhead(p: nat, b: int)                // breada: read without waiting
    | ReadWaited(p: nat, b: int)               // iowait of bread is over
    | Store(p: nat, b: int, data: Data)        // the holder changes the block in core
    | Bwrite(p: nat, b: int)                   // bwrite, up to iowait
    | WriteWaited(p: nat, b: int)              // iowait of bwrite is over; brelse
    | Bawrite(p: nat, b: int)
    | Bdwrite(p: nat, b: int)
    | Brelse(p: nat, b: int)
    | FlushPass(b: int)                        // bflush finds b on the available list
    | AgeLate(b: int)                          // bwrite sets B_AGE after the strategy call
    | IoDone(b: int)                           // the device completes the transfer of b

  /** Process p holds b and no transfer is under way. */
  predicate Holds(s: State, p: nat, b: int) {
    0 <= b < |s.bufs| && s.bufs[b].phase == Held(p)
  }

  /** Holds, and b is associated with a block. */
  predicate HoldsBlock(s: State, p: nat, b: int) {
    Holds(s, p, b) && s.bufs[b].dev != NODEV
  }

  /** What the code, its callers and the device guarantee when a step is taken. */
  predicate Enabled(s: State, e: Event) {
    match e
    case GetblkPass(p, dev, blkno) => 0 <= dev < NODEV
    case GeteblkPass(p) => true
    case ReadStart(p, b) => HoldsBlock(s, p, b) && !s.bufs[b].flags.done
    case ReadAhead(p, b) => HoldsBlock(s, p, b) && !s.bufs[b].flags.done
    case ReadWaited(p, b) => 0 <= b < |s.bufs| && s.bufs[b].phase == Reading(p) && s.bufs[b].flags.done
    case Store(p, b, data) => Holds(s, p, b)
    case Bwrite(p, b) => HoldsBlock(s, p, b)
    case WriteWaited(p, b) => 0 <= b < |s.bufs| && s.bufs[b].phase == Writing(p) && s.bufs[b].flags.done
    case Bawrite(p, b) => HoldsBlock(s, p, b)
    case Bdwrite(p, b) => HoldsBlock(s, p, b)
    case Brelse(p, b) => Holds(s, p, b)
    case FlushPass(b) => b in s.avail && 0 <= b < |s.bufs| && s.bufs[b].flags.delwri
    case AgeLate(b) => 0 <= b < |s.bufs|
    case IoDone(b) => 0 <= b < |s.bufs| && s.bufs[b].io != NoIo
  }

  /** A valid buffer has been changed and not written. */
  predicate Unwritten(bp: Buf) {
    bp.flags.done && bp.dirty
  }

  function Spoilt(s: State, bp: Buf): State {
    s.(spoiled := s.spoiled + {BlockOf(bp)})
  }

  function Mended(s: State, bp: Buf): State {
    s.(spoiled := s.spoiled - {BlockOf(bp)})
  }

  function Step(s: State, e: Event): State
    requires Enabled(s, e)
    requires forall i :: 0 <= i < |s.avail| ==> 0 <= s.avail[i] < |s.bufs|
  {
    match e
    case GetblkPass(p, dev, blkno) => Getblk(s, p, dev, blkno).0
    case GeteblkPass(p) => Geteblk(s, p).0
    case ReadStart(p, b) => StartRead(s, b, Reading(p), false)
    case ReadAhead(p, b) => StartRead(s, b, Loose, true)
    case ReadWaited(p, b) => At(s, b, s.bufs[b].(phase := Held(p)))
    case Store(p, b, data) => At(s, b, s.bufs[b].(data := data, dirty := true))
    case Bwrite(p, b) => Mended(StartWrite(s, b, Writing(p), false), s.bufs[b])
    case WriteWaited(p, b) => Release(s, b)
    case Bawrite(p, b) => Mended(StartWrite(s, b, Loose, true), s.bufs[b])
    case Bdwrite(p, b) =>
      Mended(if Major(s.bufs[b].dev) in s.tapes then StartWrite(s, b, Loose, true)
             else Release(At(s, b, s.bufs[b].(flags := s.bufs[b].flags.(delwri := true, done := true))), b), s.bufs[b])
    case Brelse(p, b) => if Unwritten(s.bufs[b]) then Spoilt(Release(s, b), s.bufs[b]) else Release(s, b)
    case FlushPass(b) => StartWrite(NotAvail(s, b, Loose), b, Loose, true)
    case AgeLate(b) => At(s, b, s.bufs[b].(flags := s.bufs[b].flags.(age := true)))
    case IoDone(b) => Complete(s, b)
  }

  // ----- the plain disk

  /** The same steps as a plain array of blocks sees them: only bwrite, bawrite and bdwrite
      matter, and they take effect at once. */
  function Plain(s: State, e: Event, m: Disk): Disk
    requires Enabled(s, e)
  {
    match e
    case Bwrite(p, b) => m[Block(s.bufs[b].dev, s.bufs[b].blkno) := s.bufs[b].data]
    case Bawrite(p, b) => m[Block(s.bufs[b].dev, s.bufs[b].blkno) := s.bufs[b].data]
    case Bdwrite(p, b) => m[Block(s.bufs[b].dev, s.bufs[b].blkno) := s.bufs[b].data]
    case _ => m
  }

  // ----- the invariant

  /** The contract of buf.h: a buffer is on the available list if and only if it is not busy. */
  ghost predicate Listed(s: State) {
    && (forall i :: 0 <= i < |s.avail| ==> 0 <= s.avail[i] < |s.bufs|)
    && (forall i, j :: 0 <= i < j < |s.avail| ==> s.avail[i] != s.avail[j])
    && (forall b :: 0 <= b < |s.bufs| ==> (b in s.avail <==> !s.bufs[b].flags.busy))
  }

  /** No two buffers are associated with the same block. */
  ghost predicate Unique(bufs: seq<Buf>) {
    forall i, j :: 0 <= i < |bufs| && 0 <= j < |bufs| && bufs[i].dev != NODEV && SameBlock(bufs[i], bufs[j]) ==>
                     i == j
  }

  predicate SameBlock(x: Buf, y: Buf) {
    x.dev == y.dev && x.blkno == y.blkno
  }

  /** How flags, phase and transfer of one buffer go together. */
  ghost predicate Tidy(bp: Buf) {
    && 0 <= bp.dev <= NODEV
    && (bp.flags.busy <==> bp.phase != Free)
    && (bp.flags.async <==> bp.phase == Loose)
    && (bp.phase == Free || bp.phase.Held? ==> bp.io == NoIo)
    && (bp.phase == Loose ==> bp.io != NoIo)
    && (bp.phase.Reading? ==> bp.io == ReadIo || (bp.io == NoIo && bp.flags.done))
    && (bp.phase.Writing? ==> bp.io == WriteIo || (bp.io == NoIo && bp.flags.done))
    && (bp.io != NoIo ==> !bp.flags.done)
    && (bp.flags.delwri ==> bp.flags.done && (bp.phase == Free || bp.phase.Held?))
    && (bp.dev == NODEV ==> !bp.flags.done && bp.io == NoIo)
    && (bp.dirty ==> bp.phase.Held?)
  }

  /** The buffer's contents are those of the plain disk, where they are meant to be. */
  ghost predicate Current(bp: Buf, m: Disk) {
    && (bp.flags.done && !bp.dirty ==> bp.data == Get(m, Block(bp.dev, bp.blkno)))
    && (bp.io == WriteIo ==> bp.data == Get(m, Block(bp.dev, bp.blkno)))
  }

  /** The buffer still has to be written. */
  predicate Owes(bp: Buf) {
    bp.dev != NODEV && (bp.flags.delwri || bp.io == WriteIo)
  }

  ghost predicate Owed(bufs: seq<Buf>, k: Block) {
    exists b :: 0 <= b < |bufs| && bufs[b].dev == k.dev && bufs[b].blkno == k.blkno && Owes(bufs[b])
  }

  /** A block of the disk is out of date only while some buffer still has to be written to it,
      unless the block is spoiled. */
  ghost predicate Settled(s: State, m: Disk) {
    forall k: Block :: k.dev != NODEV && k !in s.spoiled ==> Get(s.disk, k) == Get(m, k) || Owed(s.bufs, k)
  }

  ghost predicate Sound(s: State, bp: Buf, m: Disk) {
    BlockOf(bp) in s.spoiled || Current(bp, m)
  }

  ghost predicate Inv(s: State, m: Disk) {
    && Listed(s)
    && Unique(s.bufs)
    && (forall b :: 0 <= b < |s.bufs| ==> Tidy(s.bufs[b]))
    && (forall b :: 0 <= b < |s.bufs| ==> Sound(s, s.bufs[b], m))
    && Settled(s, m)
  }
}
