/** dbm.c's database: the page file with one buffered page, and the directory. To its callers it
    is a finite map. */
module DbmStore {
  import opened DbmPage
  import opened DbmTrie
  import opened DbmHash
  import opened DbmTable
  import opened DbmModel
  import opened DbmPairs
  import opened DbmDirectory

  /** The pages of the file that were ever written; the rest read as zeros. */
  type Pages = map<int, seq<int>>

  function PageOf(pagf: Pages, p: int): seq<int> {
    if p in pagf then pagf[p] else Zeros()
  }

  ghost predicate Stored(pagf: Pages, t: Table) {
    pagf.Keys == t.pages.Keys && forall p :: p in pagf ==> Holds(pagf[p], t.pages[p])
  }

  lemma ReadHolds(pagf: Pages, t: Table, p: int)
    requires Stored(pagf, t)
    ensures Holds(PageOf(pagf, p), On(t, p))
  {
    hide Packed, Contents;
    ZerosEmpty();
  }

  lemma WriteStored(pagf: Pages, t: Table, p: int, m: seq<int>, es: seq<Entry>)
    requires Stored(pagf, t) && Holds(m, es)
    ensures Stored(pagf[p := m], Replace(t, p, es))
  {
    hide Holds;
  }

  /** What store comes to. TooDeep is where the split would need a page number of 23 bits, whose
      offset in the page file no longer fits a long. */
  datatype Outcome = Done | TooBig | TooDeep

  class Database {
    var pagf: Pages
    const pagbuf: array<int>
    var oldb: int
    const dir: Directory
    var hmask: int
    var blkno: int
    var bitno: int
    ghost var table: Table
    ghost var model: Model

    /** The files and the trie are in order, whatever the page buffer holds. */
    ghost predicate Sound()
      reads this, dir, dir.dirbuf
    {
      && pagbuf.Length == 512 && dir.Valid() && table.bits == Bits(dir.dirf)
      && Stored(pagf, table) && Ok(table) && Agrees(table, model) && oldb >= -1
    }

    ghost predicate Valid()
      reads this, pagbuf, dir, dir.dirbuf
    {
      Sound() && (oldb != -1 ==> Holds(pagbuf[..], On(table, oldb)))
    }

    /** dbminit: the files of a database, size being the length of the directory in bytes. */
    constructor (pages: Pages, blocks: Blocks, size: nat, ghost t: Table, ghost m: Model)
      requires Well(blocks) && forall bit :: bit in Bits(blocks) ==> bit < size * 8
      requires Bits(blocks) == t.bits && Stored(pages, t) && Ok(t) && Agrees(t, m)
      ensures Valid() && table == t && model == m && fresh(pagbuf) && fresh(dir) && fresh(dir.dirbuf)
    {
      hide Bits, Stored, Ok, Agrees;
      pagf, oldb, hmask, blkno, bitno := pages, -1, 0, 0, 0;
      pagbuf := new int[512];
      dir := new Directory(blocks, size);
      table, model := t, m;
    }

    /** The global variables after dbm_access for a hash: they name its leaf. */
    ghost predicate At(h: int)
      reads this, dir
    {
      var d := Depth(table.bits, h);
      && hmask + 1 == Pow2(d) && blkno == Home(table.bits, h) && bitno == Node(h, d) && bitno >= 0
      && (bitno <= dir.maxbno ==> dir.oldb == bitno / 8 / 8192)
    }

    /** The search of dbm_access down the trie. */
    method Descend(h: int)
      requires Valid()
      modifies this`hmask, this`blkno, this`bitno, dir`oldb, dir.dirbuf
      ensures Valid() && At(h)
    {
      hide Pow2, Masked, Low, Node, Depth, DepthFrom, Home;
      hide Tree, AllHome, Distinct, Stored, Agrees, Holds, Block, IsSet;
      hmask := 0;
      ghost var d := 0;
      FirstLevel(table.bits, h);
      while true
        invariant Valid() && d <= MaxDepth && hmask + 1 == Pow2(d)
        invariant DepthFrom(table.bits, h, d) == Depth(table.bits, h)
        decreases MaxDepth - d
      {
        blkno := Masked(h, hmask);
        bitno := blkno + hmask;
        MaskedIsLow(h, hmask, d);
        NextLevel(table.bits, h, d);
        var split := dir.Getbit(bitno);
        if !split {
          break;
        }
        hmask := hmask * 2 + 1;
        d := d + 1;
      }
    }

    /** dbm_access: the page of a hash comes into the buffer. */
    method Access(h: int)
      requires Valid()
      modifies this`hmask, this`blkno, this`bitno, this`oldb, pagbuf, dir`oldb, dir.dirbuf
      ensures Valid() && At(h) && oldb == blkno
      ensures Holds(pagbuf[..], On(table, blkno))
    {
      hide Pow2, Low, Stored, Agrees, Holds, Block, Zeros, Node, Depth, Home, Ok;
      Descend(h);
      if blkno != oldb {
        ReadHolds(pagf, table, blkno);
        var page := PageOf(pagf, blkno);
        assert |page| == 512 by { HoldsLength(page, On(table, blkno)); }
        forall i | 0 <= i < 512 {
          pagbuf[i] := page[i];
        }
        assert pagbuf[..] == page;
        HoldsLength(page, On(table, blkno));
        var ok := Chkblk(pagbuf);
        assert ok;
        oldb := blkno;
      }
    }
  
    method Fetch(key: Item) returns (r: Datum)
      requires Valid() && ByteItem(key)
      modifies this`hmask, this`blkno, this`bitno, this`oldb, pagbuf, dir`oldb, dir.dirbuf
      ensures Valid() && r == Value(model, key)
    {
      hide Pow2, Low, Stored, Holds, Block, Zeros, Node, Depth, Home, Ok, Lookup, HasKey, Hash;
      var h := Calchash(key);
      Access(h);
      ghost var es := On(table, blkno);
      assert Lookup(On(table, HomeOf(table, key)), key) == Value(model, key);
      NullLacks(es, key);
      var i := Find(pagbuf, key, es);
      if i == -1 {
        return Null;
      }
      OkDistinct(table, blkno);
      LookupAt(es, i / 2);
      r := PairData(pagbuf, i, es);
    }

    /** The buffered page loses a key it may hold. */
    method TakeOut(key: Item) returns (found: bool, ghost es: seq<Entry>)
      requires Valid() && ByteItem(key) && oldb == blkno == HomeOf(table, key)
      modifies pagbuf
      ensures Holds(pagbuf[..], es) && !HasKey(es, key) && found == (key in model)
      ensures Ok(Replace(table, blkno, es)) && Agrees(Replace(table, blkno, es), model - {key})
      ensures !found ==> es == On(table, blkno)
    {
      hide Stored, Holds, Block, Home, Ok, Lookup, HasKey, Hash, Agrees;
      HomeAgrees(table, model, key);
      es := On(table, blkno);
      var i := Find(pagbuf, key, es);
      found := i != -1;
      if i == -1 {
        ReplaceSame(table, model, blkno);
        NullLacks(es, key);
        assert model - {key} == model;
      } else {
        RemovePair(pagbuf, i, es);
        RemoveKeeps(table, model, blkno, i / 2);
        OkDistinct(table, blkno);
        LookupAt(es, i / 2);
        es := Without(es, i / 2);
      }
    }

    /** The buffered page is written. */
    method WritePage(ghost es: seq<Entry>, ghost m: Model)
      requires Sound() && 0 <= oldb == blkno
      requires Ok(Replace(table, blkno, es)) && Agrees(Replace(table, blkno, es), m)
      requires Holds(pagbuf[..], es)
      modifies this`pagf, this`table, this`model
      ensures Valid() && table == Replace(old(table), blkno, es) && model == m
    {
      hide Stored, Holds, Block, Ok, Agrees;
      WriteStored(pagf, table, blkno, pagbuf[..], es);
      pagf := pagf[blkno := pagbuf[..]];
      table, model := Replace(table, blkno, es), m;
    }
  
    method Delete(key: Item) returns (r: int)
      requires Valid() && ByteItem(key)
      modifies this, pagbuf, dir`oldb, dir.dirbuf
      ensures Valid() && r == (if key in old(model) then 0 else -1)
      ensures model == old(model) - {key}
    {
      hide Stored, Holds, Block, Ok, Agrees, Home, Hash, Pow2, Node, Depth, Low, HasKey;
      var h := Calchash(key);
      Access(h);
      var found, es := TakeOut(key);
      if !found {
        assert model - {key} == model;
        return -1;
      }
      WritePage(es, model - {key});
      r := 0;
    }

    /** The page in the buffer, of which the file still has the older version, is split. */
    method SplitBuffered(h: int, ghost es: seq<Entry>, ghost m: Model)
      requires Sound() && At(h) && oldb == blkno && Depth(table.bits, h) < MaxDepth
      requires Ok(Replace(table, blkno, es)) && Agrees(Replace(table, blkno, es), m)
      requires Holds(pagbuf[..], es)
      modifies this`pagf, this`table, this`model, pagbuf, dir, dir.dirbuf
      ensures Valid() && model == m
      ensures Depth(table.bits, h) == old(Depth(table.bits, h)) + 1
    {
      hide Stored, Holds, Block, Ok, Agrees, Home, Hash, Pow2, Node, Depth, Low, Part, Bits, SplitLeaf, Zeros;
      ghost var d := Depth(table.bits, h);
      ghost var t := Replace(table, blkno, es);
      var ovfbuf := new int[512](_ => 0);
      ZeroPage(ovfbuf[..]);
      Divide(pagbuf, ovfbuf, hmask, d, es);
      ghost var t1 := Replace(table, blkno, Part(es, d, false));
      ghost var t2 := Replace(t1, blkno + hmask + 1, Part(es, d, true));
      WriteStored(pagf, table, blkno, pagbuf[..], Part(es, d, false));
      pagf := pagf[blkno := pagbuf[..]];
      WriteStored(pagf, t1, blkno + hmask + 1, ovfbuf[..], Part(es, d, true));
      pagf := pagf[blkno + hmask + 1 := ovfbuf[..]];
      dir.Setbit(bitno);
      SplitKeeps(t, m, h);
      SplitWritten(table, h, es);
      SamePages(pagf, t2, SplitPage(t, h));
      table, model := SplitPage(t, h), m;
    }
  
    /** One pass of store, from its label loop to its end or to the goto back. */
    method Pass(key: Item, dat: Item) returns (again: bool, out: Outcome)
      requires Valid() && ByteItem(key) && ByteItem(dat)
      modifies this, pagbuf, dir, dir.dirbuf
      ensures Sound()
      ensures again ==> Valid() && model == old(model) - {key} && |key| + |dat| < 508
      ensures again ==> Depth(table.bits, Hash(key)) == old(Depth(table.bits, Hash(key))) + 1
      ensures !again && out == Done ==> Valid() && model == old(model)[key := dat] && FitsBeside(model, key, dat)
      ensures !again && out != Done ==> model == old(model) && (Valid() <==> key !in model)
      ensures old(Depth(table.bits, Hash(key))) == MaxDepth ==> !again
      ensures !again && out == TooDeep ==> old(Depth(table.bits, Hash(key))) == MaxDepth
      ensures !again ==> (out == TooBig <==> |key| + |dat| >= 508)
      ensures !again && out == TooDeep ==> !FitsBeside(old(model) - {key}, key, dat)
    {
      hide Stored, Holds, Block, Ok, Agrees, Home, Hash, Pow2, Node, Depth, Low, Part, Bits, HasKey, FitsBeside, Weight;
      var h := Calchash(key);
      Access(h);
      ghost var t, m := table, model;
      var found, es := TakeOut(key);
      var e := Entry(key, dat);
      var ok := AddPair(pagbuf, e, es);
      AddBack(t, m, blkno, es, e);
      if ok {
        HoldsFits(pagbuf[..], es + [e]);
        StoredFits(Replace(t, blkno, es + [e]), m[key := dat], key);
        WritePage(es + [e], m[key := dat]);
        return false, Done;
      }
      BufferDiffers(pagbuf[..], t, m, key, es);
      if |key| + |dat| + 2 * 2 >= 512 {
        return false, TooBig;
      }
      DeepMask(Depth(t.bits, h));
      if hmask + 1 >= 0x40_0000 {
        DeepFull(t, m, blkno, es, e);
        return false, TooDeep;
      }
      SplitBuffered(h, es, m - {key});
      return true, Done;
    }
  
    method Store(key: Item, dat: Item) returns (out: Outcome)
      requires Valid() && ByteItem(key) && ByteItem(dat)
      modifies this, pagbuf, dir, dir.dirbuf
      ensures out == Done <==> FitsBeside(old(model), key, dat)
      ensures out == TooBig <==> |key| + |dat| >= 508
      ensures out == Done ==> Valid() && model == old(model)[key := dat]
      ensures out == TooBig ==> model == old(model)
      ensures out == TooDeep ==>
                model == if old(Depth(table.bits, Hash(key))) == MaxDepth then old(model) else old(model) - {key}
      ensures out != Done ==> Sound() && (Valid() <==> key !in model)
    {
      hide Sound, Hash, Depth, Beside;
      var again;
      BesideOthers(model, key, dat);
      again, out := Pass(key, dat);
      while again
        invariant Sound() && (again ==> Valid() && |key| + |dat| < 508)
        invariant again ==> model == old(model) - {key}
        invariant !again && out == Done ==> Valid() && model == old(model)[key := dat] && FitsBeside(model, key, dat)
        invariant !again && out != Done ==> (Valid() <==> key !in model)
        invariant !again && out == TooBig ==> model == old(model)
        invariant !again && out == TooDeep ==>
                  model == if old(Depth(table.bits, Hash(key))) == MaxDepth then old(model) else old(model) - {key}
        invariant again ==> old(Depth(table.bits, Hash(key))) < MaxDepth
        invariant !again ==> (out == TooBig <==> |key| + |dat| >= 508)
        invariant !again && out == TooDeep ==> !FitsBeside(old(model) - {key}, key, dat)
        decreases again, MaxDepth - Depth(table.bits, Hash(key))
      {
        assert (old(model) - {key}) - {key} == old(model) - {key};
        assert (old(model) - {key})[key := dat] == old(model)[key := dat];
        again, out := Pass(key, dat);
      }
      if out == TooBig {
        TooBigNeverFits(old(model), key, dat);
      }
    }

    method Do(op: Op) returns (r: Datum)
      requires Valid() && Returns(model, op)
      modifies this, pagbuf, dir, dir.dirbuf
      ensures Valid() && model == Apply(old(model), op) && r == Answer(old(model), op)
    {
      hide FitsBeside, Sound;
      match op {
        case Put(k, v) =>
          var out := Store(k, v);
          r := Null;
        case Drop(k) =>
          var c := Delete(k);
          r := if c == 0 then Datum([]) else Null;
        case Get(k) =>
          r := Fetch(k);
      }
    }

    /** The database does what a finite map does in any sequence of calls whose stores return. */
    method Session(ops: seq<Op>) returns (answers: seq<Datum>)
      requires Valid() && AllReturn(model, ops)
      modifies this, pagbuf, dir, dir.dirbuf
      ensures Valid() && model == After(old(model), ops) && answers == Answers(old(model), ops)
    {
      hide Valid, Returns, Apply, Answer;
      answers := [];
      var i := 0;
      assert ops[0..] == ops;
      while i < |ops|
        invariant 0 <= i <= |ops| && Valid() && AllReturn(model, ops[i..])
        invariant After(model, ops[i..]) == After(old(model), ops)
        invariant answers + Answers(model, ops[i..]) == Answers(old(model), ops)
      {
        assert ops[i..][0] == ops[i] && ops[i..][1..] == ops[i + 1..];
        var r := Do(ops[i]);
        answers := answers + [r];
        i := i + 1;
      }
      assert ops[i..] == [];
    }
  }

  datatype Op = Put(key: Item, data: Item) | Drop(key: Item) | Get(key: Item)

  function Apply(m: Model, op: Op): Model {
    match op
    case Put(k, v) => m[k := v]
    case Drop(k) => m - {k}
    case Get(k) => m
  }

  /** What a call gives back: the data for a fetch, whether there was anything to delete for a
      delete, nothing for a store. */
  function Answer(m: Model, op: Op): Datum {
    match op
    case Put(k, v) => Null
    case Drop(k) => if k in m then Datum([]) else Null
    case Get(k) => Value(m, k)
  }

  function After(m: Model, ops: seq<Op>): Model
    decreases |ops|
  {
    if ops == [] then m else After(Apply(m, ops[0]), ops[1..])
  }

  function Answers(m: Model, ops: seq<Op>): seq<Datum>
    decreases |ops|
  {
    if ops == [] then [] else [Answer(m, ops[0])] + Answers(Apply(m, ops[0]), ops[1..])
  }

  /** Keys and data are bytes, and each store finds room beside the entries of like hash. */
  ghost predicate Returns(m: Model, op: Op) {
    match op
    case Put(k, v) => ByteItem(k) && ByteItem(v) && FitsBeside(m, k, v)
    case Drop(k) => ByteItem(k)
    case Get(k) => ByteItem(k)
  }

  ghost predicate AllReturn(m: Model, ops: seq<Op>)
    decreases |ops|
  {
    ops == [] || (Returns(m, ops[0]) && AllReturn(Apply(m, ops[0]), ops[1..]))
  }

  lemma BesideOthers(m: Model, key: Item, dat: Item)
    ensures Beside(m, key) == Beside(m - {key}, key) == Beside(m[key := dat], key)
    ensures FitsBeside(m, key, dat) <==> FitsBeside(m - {key}, key, dat)
    ensures FitsBeside(m, key, dat) <==> FitsBeside(m[key := dat], key, dat)
  {
    hide Hash, Low;
  }

  /** An entry of 506 bytes or more never fits; store reports only those of 508 or more. */
  lemma TooBigNeverFits(m: Model, key: Item, dat: Item)
    requires |key| + |dat| >= 506
    ensures !FitsBeside(m, key, dat)
  {
    hide MapWeight, Beside;
  }

  /** An entry that shares its hash bits with no other fits exactly when it is below 506 bytes. */
  lemma AloneFits(m: Model, key: Item, dat: Item)
    requires forall k :: k in m && k != key ==> Low(Hash(k), MaxDepth) != Low(Hash(key), MaxDepth)
    ensures FitsBeside(m, key, dat) <==> |key| + |dat| < 506
  {
    hide Hash, Low;
    assert Beside(m, key) == map[];
  }

  /** With the entry added in place of the key's old one, the map is updated at the key. */
  lemma AddBack(t: Table, m: Model, p: int, es: seq<Entry>, e: Entry)
    requires p == HomeOf(t, e.key) && !HasKey(es, e.key)
    requires Ok(Replace(t, p, es)) && Agrees(Replace(t, p, es), m - {e.key})
    ensures Ok(Replace(t, p, es + [e])) && Agrees(Replace(t, p, es + [e]), m[e.key := e.data])
  {
    hide Ok, Agrees, HasKey, Home;
    var t1 := Replace(t, p, es);
    AddKeeps(t1, m - {e.key}, e);
    assert Replace(t1, p, es + [e]) == Replace(t, p, es + [e]);
    assert (m - {e.key})[e.key := e.data] == m[e.key := e.data];
  }

  lemma DeepMask(d: nat)
    requires d <= MaxDepth
    ensures d == MaxDepth <==> Pow2(d) >= 0x40_0000
  {
    assert Pow2(4) == 16;
    assert Pow2(8) == 256;
    assert Pow2(12) == 4096;
    assert Pow2(16) == 65536;
    assert Pow2(20) == 1048576;
    assert Pow2(22) == 4194304;
    if d < MaxDepth {
      PowTwice(d, MaxDepth);
    }
  }

  lemma DeepFull(t: Table, m: Model, p: int, es: seq<Entry>, e: Entry)
    requires p == HomeOf(t, e.key) && Depth(t.bits, Hash(e.key)) == MaxDepth
    requires Ok(Replace(t, p, es)) && Agrees(Replace(t, p, es), m - {e.key})
    requires Weight(es) + EntryWeight(e) + 2 >= 512
    ensures !FitsBeside(m - {e.key}, e.key, e.data)
  {
    hide Ok, Agrees, Home, Hash, Depth, Weight, MapWeight, Beside;
    DeepPage(Replace(t, p, es), m - {e.key}, e.key);
  }

  /** The buffer is still the page in the file exactly when there was nothing to take out. */
  lemma BufferDiffers(buf: seq<int>, t: Table, m: Model, key: Item, es: seq<Entry>)
    requires Holds(buf, es) && !HasKey(es, key) && Agrees(t, m)
    requires key !in m ==> es == On(t, HomeOf(t, key))
    ensures Holds(buf, On(t, HomeOf(t, key))) <==> key !in m
  {
    hide Packed, Contents, Lookup, HasKey, Home;
    HomeAgrees(t, m, key);
    NullLacks(On(t, HomeOf(t, key)), key);
  }

  lemma SamePages(pagf: Pages, t: Table, t': Table)
    requires Stored(pagf, t) && t'.pages == t.pages
    ensures Stored(pagf, t')
  {
  }

  lemma ZeroPage(m: seq<int>)
    requires |m| == 512 && forall i :: 0 <= i < 512 ==> m[i] == 0
    ensures Holds(m, [])
  {
    assert m == Zeros();
    ZerosEmpty();
  }

  /** The two pages written are those of the table after the split. */
  lemma SplitWritten(t: Table, h: int, es: seq<Entry>)
    requires Ok(t) && Depth(t.bits, h) < MaxDepth
    ensures var p, d := Home(t.bits, h), Depth(t.bits, h); var t' := SplitPage(Replace(t, p, es), h);
      && t'.bits == t.bits + iset{Node(h, d)} && Depth(t'.bits, h) == d + 1
      && t'.pages == Replace(Replace(t, p, Part(es, d, false)), p + Pow2(d), Part(es, d, true)).pages
      && On(t', p) == Part(es, d, false)
  {
    hide Part, Pow2, Tree;
    SplitHome(t.bits, h, h);
  }

  lemma OkDistinct(t: Table, p: int)
    requires Ok(t)
    ensures Distinct(On(t, p))
  {
  }

  lemma HomeAgrees(t: Table, m: Model, k: Item)
    requires Agrees(t, m)
    ensures Lookup(On(t, HomeOf(t, k)), k) == Value(m, k)
  {
  }

  lemma ReplaceSame(t: Table, m: Model, p: int)
    requires Ok(t) && Agrees(t, m)
    ensures Ok(Replace(t, p, On(t, p))) && Agrees(Replace(t, p, On(t, p)), m)
  {
    hide Tree, Home, Lookup, Distinct, AllHome;
    var t' := Replace(t, p, On(t, p));
    assert forall q :: On(t', q) == On(t, q);
    forall k
      ensures Lookup(On(t', HomeOf(t', k)), k) == Value(m, k)
    {
      assert Lookup(On(t, HomeOf(t, k)), k) == Value(m, k);
    }
    assert Distinct(On(t, p)) && AllHome(t.bits, On(t, p), p);
    ReplaceOk(t, p, On(t, p));
  }

  lemma HoldsLength(m: seq<int>, es: seq<Entry>)
    requires Holds(m, es)
    ensures |m| == 512 && Bytes(m) && 0 <= Short(m, 0) < 255 && Packed(m)
  {
  }

  /** A new database, of two empty files, is an empty map. */
  lemma EmptyFiles()
    ensures Well(map[]) && Bits(map[]) == iset{}
    ensures Stored(map[], Table(iset{}, map[])) && Ok(Table(iset{}, map[])) && Agrees(Table(iset{}, map[]), map[])
  {
    forall n: nat | n < 8
      ensures !Has(0, n)
    {
      assert (0 as bv8) & Mask(n) == 0;
    }
  }

  lemma FirstLevel(bits: iset<int>, h: int)
    ensures Pow2(0) == 1 && DepthFrom(bits, h, 0) == Depth(bits, h)
  {
  }

  /** One level of the search: it goes on exactly while the node is split. */
  lemma NextLevel(bits: iset<int>, h: int, d: nat)
    requires d <= MaxDepth && Tree(bits) && DepthFrom(bits, h, d) == Depth(bits, h)
    ensures Pow2(d + 1) == 2 * Pow2(d)
    ensures Node(h, d) in bits ==> d < MaxDepth && DepthFrom(bits, h, d + 1) == Depth(bits, h)
    ensures Node(h, d) !in bits ==> d == Depth(bits, h) && Low(h, d) == Home(bits, h)
  {
    assert Split(bits, Low(h, d), d) <==> Node(h, d) in bits;
  }
}
