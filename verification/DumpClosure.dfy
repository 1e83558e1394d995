/** The first phases of dump.c: which inodes are dumped. Besides the changed ones these are the
    directories through which they are reached. */
module DumpClosure {
  import opened DumpMap

  datatype Direct = Direct(ino: int, name: string)

  datatype Kind = Free | Directory | Regular | Special

  /** An inode, with the directory blocks of its contents if it is a directory. */
  datatype Inode = Inode(kind: Kind, mtime: int, ctime: int, blocks: seq<seq<Direct>>)

  /** Inode i of a file system is ilist[i - 1]. */
  type Ilist = seq<Inode>

  predicate Counts(e: Direct) {
    e.ino != 0 && e.name != "." && e.name != ".."
  }

  function BlocksOf(fs: Ilist, d: int): seq<seq<Direct>> {
    if 1 <= d <= |fs| then fs[d - 1].blocks else []
  }

  /** One of the first n blocks has an entry for inode e. */
  ghost predicate ListsUpto(blocks: seq<seq<Direct>>, n: int, e: int) {
    exists b :: 0 <= b < n <= |blocks| && BlockLists(blocks[b], |blocks[b]|, e)
  }

  /** Directory d has an entry for inode e, other than the two for itself and its parent. */
  ghost predicate Lists(fs: Ilist, d: int, e: int) {
    ListsUpto(BlocksOf(fs, d), |BlocksOf(fs, d)|, e)
  }

  ghost predicate BlockLists(block: seq<Direct>, n: int, e: int) {
    exists k :: 0 <= k < n <= |block| && Counts(block[k]) && block[k].ino == e
  }

  ghost predicate BlockNumbered(block: seq<Direct>) {
    forall k :: 0 <= k < |block| ==> 0 <= block[k].ino <= 65536
  }

  /** Every entry of a directory is for a number that the maps have room for. */
  ghost predicate WellNumbered(fs: Ilist) {
    && |fs| <= 65536
    && forall d, b :: 1 <= d <= |fs| && 0 <= b < |BlocksOf(fs, d)| ==> BlockNumbered(BlocksOf(fs, d)[b])
  }

  ghost predicate IsDir(fs: Ilist, i: int) {
    1 <= i <= |fs| && fs[i - 1].kind == Directory
  }

  predicate Changed(x: Inode, ddate: int) {
    x.mtime >= ddate || x.ctime >= ddate
  }

  /** The inodes that mark puts in nodmap. */
  ghost predicate Marked(fs: Ilist, ddate: int, i: int) {
    1 <= i <= |fs| && fs[i - 1].kind != Free && Changed(fs[i - 1], ddate)
  }

  /** A way down from i: each but the last is a directory with an entry for the next. */
  ghost predicate Way(fs: Ilist, w: seq<int>) {
    |w| > 0 && forall k :: 0 <= k < |w| - 1 ==> Down(fs, w, k)
  }

  ghost predicate Down(fs: Ilist, w: seq<int>, k: int)
    requires 0 <= k < |w| - 1
  {
    IsDir(fs, w[k]) && Lists(fs, w[k], w[k + 1])
  }

  /** i is marked, or a directory under which a marked inode is found. */
  ghost predicate Needed(fs: Ilist, ddate: int, i: int) {
    exists w :: Way(fs, w) && w[0] == i && Marked(fs, ddate, w[|w| - 1])
  }

  lemma NeededAbove(fs: Ilist, ddate: int, d: int, e: int)
    requires IsDir(fs, d) && Lists(fs, d, e) && Needed(fs, ddate, e)
    ensures Needed(fs, ddate, d)
  {
    hide Lists, Marked;
    var w :| Way(fs, w) && w[0] == e && Marked(fs, ddate, w[|w| - 1]);
    var w' := [d] + w;
    forall k | 0 <= k < |w'| - 1
      ensures Down(fs, w', k)
    {
      if k > 0 {
        assert Down(fs, w, k - 1);
      }
    }
    assert w'[|w'| - 1] == w[|w| - 1];
  }

  lemma MarkedNeeded(fs: Ilist, ddate: int, i: int)
    requires Marked(fs, ddate, i)
    ensures Needed(fs, ddate, i)
  {
    assert Way(fs, [i]);
    assert [i][0] == i;
  }

  /** What the two maps have to do with each other during phase II: only needed inodes are in
      nodmap, all marked ones are; only directories are in dirmap; and a directory no longer in
      dirmap has nothing below it that is in nodmap or may still come into it. */
  ghost predicate Closing(fs: Ilist, ddate: int, dir: Map, nod: Map) {
    && |dir| == |nod| == 4096
    && (forall i :: In(nod, i) ==> Needed(fs, ddate, i))
    && (forall i :: Marked(fs, ddate, i) ==> In(nod, i))
    && (forall i :: In(dir, i) ==> IsDir(fs, i))
    && (forall d :: IsDir(fs, d) && !In(dir, d) ==> Cleared(fs, dir, nod, d))
  }

  ghost predicate Cleared(fs: Ilist, dir: Map, nod: Map, d: int) {
    !In(nod, d) && forall e :: Lists(fs, d, e) ==> !In(nod, e) && !In(dir, e)
  }

  /** No directory outside nodmap has an entry for an inode in it. */
  ghost predicate Closed(fs: Ilist, nod: Map) {
    forall d, e :: IsDir(fs, d) && Lists(fs, d, e) && In(nod, e) ==> In(nod, d)
  }

  lemma {:induction false} ClosedAbove(fs: Ilist, nod: Map, w: seq<int>)
    requires Closed(fs, nod) && Way(fs, w) && In(nod, w[|w| - 1])
    ensures In(nod, w[0])
    decreases |w|
  {
    hide Lists, IsDir, In;
    if |w| > 1 {
      var rest := w[1..];
      forall k | 0 <= k < |rest| - 1
        ensures Down(fs, rest, k)
      {
        assert Down(fs, w, k + 1);
      }
      ClosedAbove(fs, nod, rest);
      assert Down(fs, w, 0);
    }
  }

  /** When nothing more is to be added, nodmap has just the needed inodes. */
  lemma ClosedIsExact(fs: Ilist, ddate: int, dir: Map, nod: Map, i: int)
    requires Closing(fs, ddate, dir, nod) && Closed(fs, nod)
    ensures In(nod, i) <==> Needed(fs, ddate, i)
  {
    hide Lists, IsDir, In, Marked, Closed;
    if Needed(fs, ddate, i) {
      var w :| Way(fs, w) && w[0] == i && Marked(fs, ddate, w[|w| - 1]);
      ClosedAbove(fs, nod, w);
    }
  }

  // ----- what add does to the maps

  /** A directory with an entry for a member of nodmap joins it. */
  lemma AddOne(fs: Ilist, ddate: int, dir: Map, nod: Map, nod': Map, d: int, e: int)
    requires Closing(fs, ddate, dir, nod) && In(dir, d) && Lists(fs, d, e) && In(nod, e)
    requires |nod'| == 4096 && forall k :: In(nod', k) <==> k == d || In(nod, k)
    ensures Closing(fs, ddate, dir, nod')
  {
    hide Lists, IsDir, In, Marked;
    NeededAbove(fs, ddate, d, e);
    forall x | IsDir(fs, x) && !In(dir, x)
      ensures Cleared(fs, dir, nod', x)
    {
      assert Cleared(fs, dir, nod, x);
    }
  }

  /** A directory without such an entry, and without one for a member of dirmap, leaves dirmap. */
  lemma DropOne(fs: Ilist, ddate: int, dir: Map, nod: Map, dir': Map, d: int)
    requires Closing(fs, ddate, dir, nod) && In(dir, d) && !In(nod, d)
    requires forall e :: Lists(fs, d, e) ==> !In(nod, e) && !In(dir, e)
    requires |dir'| == 4096 && forall k :: In(dir', k) <==> k != d && In(dir, k)
    ensures Closing(fs, ddate, dir', nod)
  {
    hide Lists, IsDir, In, Marked, Needed;
    forall x | IsDir(fs, x) && !In(dir', x)
      ensures Cleared(fs, dir', nod, x)
    {
      if x != d {
        assert Cleared(fs, dir, nod, x);
      }
    }
  }

  class Dump {
    const clrmap: array<Word>
    const dirmap: array<Word>
    const nodmap: array<Word>
    var nadded: int
    var dadded: int
    var nsubdir: int

    ghost predicate Valid()
      reads this
    {
      && clrmap.Length == dirmap.Length == nodmap.Length == 4096
      && clrmap != dirmap && clrmap != nodmap && dirmap != nodmap
    }

    constructor ()
      ensures Valid() && fresh(clrmap) && fresh(dirmap) && fresh(nodmap)
      ensures forall i :: !In(clrmap[..], i) && !In(dirmap[..], i) && !In(nodmap[..], i)
    {
      clrmap, dirmap, nodmap := new Word[4096](_ => {}), new Word[4096](_ => {}), new Word[4096](_ => {});
      nadded, dadded, nsubdir := 0, 0, 0;
    }

    /** One directory block is searched, unless an entry in nodmap has been found already. */
    method Dsrch(block: seq<Direct>)
      requires Valid() && BlockNumbered(block) && dadded >= 0 && nsubdir >= 0
      modifies this`dadded, this`nsubdir
      ensures dadded >= 0 && nsubdir >= old(nsubdir)
      ensures old(dadded) > 0 ==> dadded > 0
      ensures old(dadded) == 0 && dadded > 0 ==> exists e :: BlockLists(block, |block|, e) && In(nodmap[..], e)
      ensures dadded == 0 ==> forall e :: BlockLists(block, |block|, e) ==> !In(nodmap[..], e)
      ensures dadded == 0 && nsubdir == old(nsubdir) ==>
                forall e :: BlockLists(block, |block|, e) ==> !In(dirmap[..], e)
    {
      hide In;
      if dadded > 0 {
        return;
      }
      var i := 0;
      while i < |block|
        invariant 0 <= i <= |block| && dadded == 0 && nsubdir >= old(nsubdir)
        invariant forall e :: BlockLists(block, i, e) ==> !In(nodmap[..], e)
        invariant nsubdir == old(nsubdir) ==> forall e :: BlockLists(block, i, e) ==> !In(dirmap[..], e)
      {
        forall e
          ensures BlockLists(block, i + 1, e) <==> BlockLists(block, i, e) || (Counts(block[i]) && block[i].ino == e)
        {
          EntryNext(block, i, e);
        }
        var ino := block[i].ino;
        if Counts(block[i]) {
          var hit := Bit(nodmap, ino);
          if hit {
            BlockWider(block, i + 1, ino);
            dadded := dadded + 1;
            return;
          }
          var sub := Bit(dirmap, ino);
          if sub {
            nsubdir := nsubdir + 1;
          }
        }
        i := i + 1;
      }
    }

    /** add: a directory of dirmap joins nodmap, leaves dirmap, or stays for the next pass. */
    method Add(fs: Ilist, ddate: int, ino: int)
      requires Valid() && WellNumbered(fs) && Closing(fs, ddate, dirmap[..], nodmap[..])
      requires In(dirmap[..], ino) && nadded >= 0
      modifies this, dirmap, nodmap
      ensures Valid() && Closing(fs, ddate, dirmap[..], nodmap[..]) && nadded >= old(nadded)
      ensures forall k :: k != ino ==> (In(dirmap[..], k) <==> old(In(dirmap[..], k)))
      ensures forall k :: k != ino ==> (In(nodmap[..], k) <==> old(In(nodmap[..], k)))
      ensures old(In(nodmap[..], ino)) ==> In(nodmap[..], ino)
      ensures nadded == old(nadded) ==> nodmap[..] == old(nodmap[..])
      ensures nadded > old(nadded) ==> In(nodmap[..], ino) && !old(In(nodmap[..], ino))
      ensures In(nodmap[..], ino) || Checked(fs, nodmap[..], ino)
    {
      hide In, Lists, Closing, WellNumbered, Needed, Marked, IsDir;
      InRange(dirmap[..], ino);
      var already := Bit(nodmap, ino);
      if already {
        return;
      }
      nsubdir, dadded := 0, 0;
      Search(fs, ino);
      ghost var nod, dir := nodmap[..], dirmap[..];
      if dadded > 0 {
        ghost var e :| Lists(fs, ino, e) && In(nod, e);
        Bis(nodmap, ino);
        AddOne(fs, ddate, dir, nod, nodmap[..], ino, e);
        nadded := nadded + 1;
      }
      if nsubdir == 0 {
        already := Bit(nodmap, ino);
        if !already {
          Bic(dirmap, ino);
          DropOne(fs, ddate, dir, nod, dirmap[..], ino);
        }
      }
    }

    /** icat of dsrch: the blocks of a directory in order. */
    method Search(fs: Ilist, ino: int)
      requires Valid() && WellNumbered(fs) && 1 <= ino <= 16 * dirmap.Length && dadded == 0 && nsubdir == 0
      modifies this`dadded, this`nsubdir
      ensures dadded > 0 ==> exists e :: Lists(fs, ino, e) && In(nodmap[..], e)
      ensures dadded <= 0 ==> dadded == 0 && nsubdir >= 0 && Checked(fs, nodmap[..], ino)
      ensures dadded <= 0 && nsubdir == 0 ==> forall e :: Lists(fs, ino, e) ==> !In(dirmap[..], e)
    {
      hide In, BlockLists;
      var blocks := BlocksOf(fs, ino);
      var b := 0;
      while b < |blocks|
        invariant 0 <= b <= |blocks| && dadded >= 0 && nsubdir >= 0
        invariant dadded > 0 ==> exists e :: ListsUpto(blocks, b, e) && In(nodmap[..], e)
        invariant dadded == 0 ==> forall e :: ListsUpto(blocks, b, e) ==> !In(nodmap[..], e)
        invariant dadded == 0 && nsubdir == 0 ==> forall e :: ListsUpto(blocks, b, e) ==> !In(dirmap[..], e)
      {
        forall e
          ensures ListsUpto(blocks, b + 1, e) <==> ListsUpto(blocks, b, e) || BlockLists(blocks[b], |blocks[b]|, e)
        {
          BlockNext(blocks, b, e);
        }
        Dsrch(blocks[b]);
        b := b + 1;
      }
    }

    /** pass of add over dirmap: the word of sixteen inodes is taken before the first of them. */
    method PassAdd(fs: Ilist, ddate: int)
      requires Valid() && WellNumbered(fs) && Closing(fs, ddate, dirmap[..], nodmap[..]) && nadded == 0
      modifies this, dirmap, nodmap
      ensures Valid() && Closing(fs, ddate, dirmap[..], nodmap[..]) && nadded >= 0
      ensures nadded == 0 ==> Closed(fs, nodmap[..])
      ensures nadded > 0 ==> Count(old(nodmap[..]), 65536) < Count(nodmap[..], 65536)
    {
      hide In, Lists, Closing, Needed, Marked, IsDir, Count, WellNumbered;
      ghost var nod0 := nodmap[..];
      var ino, bits := 0, {};
      FewInodes(fs);
      while ino < |fs|
        invariant 0 <= ino <= |fs| && Valid() && Closing(fs, ddate, dirmap[..], nodmap[..]) && nadded >= 0
        invariant ino % 16 != 0 ==> Snapshot(bits, dirmap[..], ino)
        invariant nadded == 0 ==> nodmap[..] == nod0 && forall d :: 1 <= d <= ino ==> Tried(fs, nod0, d)
        invariant Count(nod0, 65536) <= Count(nodmap[..], 65536)
        invariant nadded > 0 ==> Count(nod0, 65536) < Count(nodmap[..], 65536)
      {
        if ino % 16 == 0 {
          bits := dirmap[ino / 16];
          TakeSnapshot(bits, dirmap[..], ino);
        }
        var bit := ino % 16;
        ino := ino + 1;
        SnapshotAt(bits, dirmap[..], ino);
        ghost var dir, nod := dirmap[..], nodmap[..];
        if bit in bits {
          Add(fs, ddate, ino);
          SnapshotKept(bits, dir, dirmap[..], ino);
          CountGrows(nod, nodmap[..], ino, 65536);
        } else {
          NotDirmap(fs, ddate, dir, nod, ino);
          SnapshotKept(bits, dir, dir, ino);
        }
      }
      if nadded == 0 {
        AllTried(fs, nodmap[..]);
      }
    }

    /** pass of mark over all inodes. */
    method PassMark(fs: Ilist, ddate: int)
      requires Valid() && |fs| <= 65536
      requires forall i :: !In(clrmap[..], i) && !In(dirmap[..], i) && !In(nodmap[..], i)
      modifies clrmap, dirmap, nodmap
      ensures Valid() && Closing(fs, ddate, dirmap[..], nodmap[..])
      ensures forall i :: In(clrmap[..], i) <==> 1 <= i <= |fs| && fs[i - 1].kind != Free
      ensures forall i :: In(dirmap[..], i) <==> IsDir(fs, i)
      ensures forall i :: In(nodmap[..], i) <==>
                1 <= i <= |fs| && fs[i - 1].kind != Free && (fs[i - 1].mtime >= ddate || fs[i - 1].ctime >= ddate)
    {
      hide In, Needed;
      var ino := 0;
      while ino < |fs|
        invariant 0 <= ino <= |fs|
        invariant forall i :: In(clrmap[..], i) <==> 1 <= i <= ino && fs[i - 1].kind != Free
        invariant forall i :: In(dirmap[..], i) <==> i <= ino && IsDir(fs, i)
        invariant forall i :: In(nodmap[..], i) <==> i <= ino && Marked(fs, ddate, i)
      {
        ino := ino + 1;
        var x := fs[ino - 1];
        if x.kind != Free {
          Bis(clrmap, ino);
          if x.kind == Directory {
            Bis(dirmap, ino);
          }
          if Changed(x, ddate) {
            Bis(nodmap, ino);
          }
        }
      }
      forall i | In(nodmap[..], i)
        ensures Needed(fs, ddate, i)
      {
        MarkedNeeded(fs, ddate, i);
      }
    }

    /** Phases I and II of dump. */
    method Select(fs: Ilist, ddate: int)
      requires Valid() && WellNumbered(fs)
      requires forall i :: !In(clrmap[..], i) && !In(dirmap[..], i) && !In(nodmap[..], i)
      modifies this, clrmap, dirmap, nodmap
      ensures forall i :: In(nodmap[..], i) <==> Needed(fs, ddate, i)
    {
      hide In, Needed, Marked, IsDir, Lists, Count, Closing, Closed, WellNumbered;
      FewInodes(fs);
      PassMark(fs, ddate);
      nadded := 0;
      PassAdd(fs, ddate);
      while nadded > 0
        invariant Valid() && Closing(fs, ddate, dirmap[..], nodmap[..]) && nadded >= 0
        invariant nadded == 0 ==> Closed(fs, nodmap[..])
        decreases nadded > 0, 65536 - Count(nodmap[..], 65536)
      {
        CountBound(nodmap[..], 65536);
        nadded := 0;
        PassAdd(fs, ddate);
        CountBound(nodmap[..], 65536);
      }
      forall i
        ensures In(nodmap[..], i) <==> Needed(fs, ddate, i)
      {
        ClosedIsExact(fs, ddate, dirmap[..], nodmap[..], i);
      }
    }
  }

  /** Directory d has no entry for an inode in nodmap. */
  ghost predicate Checked(fs: Ilist, nod: Map, d: int) {
    forall e :: Lists(fs, d, e) ==> !In(nod, e)
  }

  lemma EntryNext(block: seq<Direct>, i: int, e: int)
    requires 0 <= i < |block|
    ensures BlockLists(block, i + 1, e) <==> BlockLists(block, i, e) || (Counts(block[i]) && block[i].ino == e)
  {
  }

  lemma BlockWider(block: seq<Direct>, n: int, e: int)
    requires BlockLists(block, n, e)
    ensures BlockLists(block, |block|, e)
  {
  }

  lemma BlockNext(blocks: seq<seq<Direct>>, b: int, e: int)
    requires 0 <= b < |blocks|
    ensures ListsUpto(blocks, b + 1, e) <==> ListsUpto(blocks, b, e) || BlockLists(blocks[b], |blocks[b]|, e)
  {
    hide BlockLists;
    if BlockLists(blocks[b], |blocks[b]|, e) {
      assert ListsUpto(blocks, b + 1, e);
    }
  }

  lemma InRange(m: Map, i: int)
    requires In(m, i)
    ensures 1 <= i <= 16 * |m|
  {
  }

  lemma FewInodes(fs: Ilist)
    requires WellNumbered(fs)
    ensures |fs| <= 65536
  {
  }

  /** Of the sixteen inodes that include ino + 1, those after ino are in the word taken exactly if
      they are in dirmap now. */
  ghost predicate Snapshot(bits: Word, dir: Map, ino: int) {
    forall k :: ino < k <= ino / 16 * 16 + 16 ==> ((k - 1) % 16 in bits <==> In(dir, k))
  }

  lemma TakeSnapshot(bits: Word, dir: Map, ino: int)
    requires ino >= 0 && ino % 16 == 0 && ino / 16 < |dir| && bits == dir[ino / 16]
    ensures Snapshot(bits, dir, ino)
  {
    forall k | ino < k <= ino / 16 * 16 + 16
      ensures (k - 1) % 16 in bits <==> In(dir, k)
    {
      assert (k - 1) / 16 == ino / 16;
    }
  }

  lemma SnapshotAt(bits: Word, dir: Map, ino: int)
    requires ino >= 1 && Snapshot(bits, dir, ino - 1)
    ensures (ino - 1) % 16 in bits <==> In(dir, ino)
  {
    hide In;
    assert ino <= (ino - 1) / 16 * 16 + 16;
  }

  lemma SnapshotKept(bits: Word, dir: Map, dir': Map, ino: int)
    requires ino >= 1 && Snapshot(bits, dir, ino - 1) && forall k :: k != ino ==> (In(dir', k) <==> In(dir, k))
    ensures ino % 16 != 0 ==> Snapshot(bits, dir', ino)
  {
    hide In;
    if ino % 16 != 0 {
      assert (ino - 1) / 16 == ino / 16;
    }
  }

  /** A directory outside nodmap has been found to list nothing in it. */
  ghost predicate Tried(fs: Ilist, nod: Map, d: int) {
    IsDir(fs, d) ==> In(nod, d) || Checked(fs, nod, d)
  }

  lemma NotDirmap(fs: Ilist, ddate: int, dir: Map, nod: Map, d: int)
    requires Closing(fs, ddate, dir, nod) && !In(dir, d)
    ensures Tried(fs, nod, d)
  {
    hide In, Lists, IsDir, Needed, Marked;
    if IsDir(fs, d) {
      assert Cleared(fs, dir, nod, d);
    }
  }

  lemma AllTried(fs: Ilist, nod: Map)
    requires forall d :: 1 <= d <= |fs| ==> Tried(fs, nod, d)
    ensures Closed(fs, nod)
  {
    hide In, Lists;
    forall d, e | IsDir(fs, d) && Lists(fs, d, e) && In(nod, e)
      ensures In(nod, d)
    {
      assert Tried(fs, nod, d);
    }
  }

  lemma {:induction false} CountGrows(nod: Map, nod': Map, d: int, n: nat)
    requires forall k :: k != d ==> (In(nod', k) <==> In(nod, k))
    requires In(nod, d) ==> In(nod', d)
    ensures Count(nod, n) <= Count(nod', n)
    ensures In(nod', d) && !In(nod, d) && 1 <= d <= n ==> Count(nod, n) < Count(nod', n)
    decreases n
  {
    hide In;
    if n > 0 {
      CountGrows(nod, nod', d, n - 1);
    }
  }

  lemma {:induction false} CountBound(nod: Map, n: nat)
    ensures Count(nod, n) <= n
    decreases n
  {
    hide In;
    if n > 0 {
      CountBound(nod, n - 1);
    }
  }
}
