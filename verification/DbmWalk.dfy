/** firstkey and nextkey of dbm.c: the walk over the keys of a database. */
module DbmWalk {
  import opened DbmPage
  import opened DbmTrie
  import opened DbmHash
  import opened DbmTable
  import opened DbmModel
  import opened DbmPairs
  import opened DbmOrder
  import opened DbmLeaves
  import opened DbmStore

  /** The walk takes the leaves in depth-first order and the keys of a leaf from the largest. */
  ghost predicate Follows(t: Table, a: Item, b: Item) {
    || Start(t.bits, Hash(a)) < Start(t.bits, Hash(b))
    || (HomeOf(t, a) == HomeOf(t, b) && Before(b, a))
  }

  /** r is the first key of those in ks that satisfy the condition of the walk, if there are any. */
  ghost predicate FirstOf(t: Table, ks: iset<Item>, r: Datum) {
    match r
    case Null => ks == iset{}
    case Datum(b) => b in ks && forall k :: k in ks && k != b ==> Follows(t, b, k)
  }

  ghost function AllKeys(m: Model): iset<Item> {
    iset k | k in m
  }

  ghost function KeysFrom(t: Table, m: Model, pos: int): iset<Item> {
    iset k | k in m && Start(t.bits, Hash(k)) >= pos
  }

  ghost function KeysAfter(t: Table, m: Model, key: Item): iset<Item> {
    iset k | k in m && Follows(t, key, k)
  }

  // ----- the keys of one page

  ghost predicate LargestOf(es: seq<Entry>, n: nat, r: Datum)
    requires n <= |es|
  {
    match r
    case Null => n == 0
    case Datum(b) =>
      && (exists j :: 0 <= j < n && es[j].key == b)
      && forall j :: 0 <= j < n && es[j].key != b ==> Before(es[j].key, b)
  }

  ghost predicate LargestBelow(es: seq<Entry>, n: nat, key: Item, r: Datum)
    requires n <= |es|
  {
    match r
    case Null => forall j :: 0 <= j < n ==> !Before(es[j].key, key)
    case Datum(b) =>
      && Before(b, key) && (exists j :: 0 <= j < n && es[j].key == b)
      && forall j :: 0 <= j < n && es[j].key != b && Before(es[j].key, key) ==> Before(es[j].key, b)
  }

  ghost predicate ByteKeys(es: seq<Entry>) {
    forall i :: 0 <= i < |es| ==> ByteItem(es[i].key)
  }

  lemma HoldsByteKeys(m: seq<int>, es: seq<Entry>)
    requires Holds(m, es)
    ensures ByteKeys(es)
  {
    hide Holds;
    forall i | 0 <= i < |es|
      ensures ByteItem(es[i].key)
    {
      EntryBytes(m, es, i);
    }
  }

  lemma LargestNext(es: seq<Entry>, n: nat, b: Item)
    requires n < |es| && LargestOf(es, n, Datum(b)) && ByteKeys(es) && ByteItem(b)
    ensures LargestOf(es, n + 1, Datum(if Before(b, es[n].key) then es[n].key else b))
  {
    hide Before, ByteItem;
    var k := es[n].key;
    CompareZero(b, k);
    forall j | 0 <= j < n + 1 && Before(b, k) && es[j].key != k
      ensures Before(es[j].key, k)
    {
      if es[j].key != b {
        BeforeTransitive(es[j].key, b, k);
      }
    }
    forall j | 0 <= j < n + 1 && !Before(b, k) && es[j].key != b
      ensures Before(es[j].key, b)
    {
      if j == n {
        AfterBefore(b, k);
      }
    }
    assert es[n].key == k;
  }

  lemma AfterBefore(a: Item, b: Item)
    requires ByteItem(a) && ByteItem(b) && a != b && !Before(a, b)
    ensures Before(b, a)
  {
    CompareZero(a, b);
  }

  lemma LargestBelowNext(es: seq<Entry>, n: nat, key: Item, r: Datum)
    requires n < |es| && LargestBelow(es, n, key, r) && ByteKeys(es) && ByteItem(key)
    requires r.Datum? ==> ByteItem(r.bytes)
    ensures var k := es[n].key;
      LargestBelow(es, n + 1, key,
        if Before(k, key) && (r == Null || Before(r.bytes, k)) then Datum(k) else r)
  {
    hide Before, ByteItem;
    var k := es[n].key;
    if Before(k, key) {
      if r.Datum? {
        if Before(r.bytes, k) {
          forall j | 0 <= j < n + 1 && es[j].key != k && Before(es[j].key, key)
            ensures Before(es[j].key, k)
          {
            if es[j].key != r.bytes {
              BeforeTransitive(es[j].key, r.bytes, k);
            }
          }
        } else if k != r.bytes {
          AfterBefore(r.bytes, k);
        }
      } else {
        assert forall j :: 0 <= j < n ==> !Before(es[j].key, key);
      }
    }
  }

  /** The scan of firsthash. */
  method ScanFirst(buf: array<int>, ghost es: seq<Entry>) returns (bitem: Datum)
    requires buf.Length == 512 && Holds(buf[..], es)
    ensures LargestOf(es, |es|, bitem)
  {
    hide Holds, ByteItem, Compare;
    HoldsByteKeys(buf[..], es);
    bitem := PairKey(buf, 0, es);
    var i := 2;
    var item := PairKey(buf, i, es);
    while item != Null
      invariant i % 2 == 0 && i >= 2
      invariant item == if i / 2 < |es| then Datum(es[i / 2].key) else Null
      invariant |es| == 0 ==> bitem == Null
      invariant |es| > 0 ==> i / 2 <= |es| && LargestOf(es, i / 2, bitem) && bitem.Datum? && ByteItem(bitem.bytes)
      decreases |es| - i / 2
    {
      var c := Cmpdatum(bitem.bytes, item.bytes);
      LargestNext(es, i / 2, bitem.bytes);
      if c < 0 {
        bitem := item;
      }
      i := i + 2;
      item := PairKey(buf, i, es);
    }
  }

  /** The scan of nextkey. */
  method ScanBelow(buf: array<int>, key: Item, ghost es: seq<Entry>) returns (bitem: Datum)
    requires buf.Length == 512 && Holds(buf[..], es) && ByteItem(key)
    ensures LargestBelow(es, |es|, key, bitem)
  {
    hide Holds, ByteItem, Compare;
    HoldsByteKeys(buf[..], es);
    bitem := Null;
    var i := 0;
    var item := PairKey(buf, i, es);
    while item != Null
      invariant i % 2 == 0 && 0 <= i / 2 <= |es|
      invariant item == if i / 2 < |es| then Datum(es[i / 2].key) else Null
      invariant LargestBelow(es, i / 2, key, bitem) && (bitem.Datum? ==> ByteItem(bitem.bytes))
      decreases |es| - i / 2
    {
      LargestBelowNext(es, i / 2, key, bitem);
      var c := Cmpdatum(key, item.bytes);
      CompareZero(key, item.bytes);
      if c > 0 {
        if bitem == Null {
          bitem := item;
        } else {
          c := Cmpdatum(bitem.bytes, item.bytes);
          if c < 0 {
            bitem := item;
          }
        }
      }
      i := i + 2;
      item := PairKey(buf, i, es);
    }
  }

  // ----- from page to page

  /** The keys of the map with the page of h as their home are those on that page. */
  lemma OnPage(t: Table, m: Model, p: int, k: Item)
    requires Ok(t) && Agrees(t, m)
    ensures k in m && HomeOf(t, k) == p <==> HasKey(On(t, p), k)
  {
    hide Tree, Home, Hash, Lookup, Distinct, HasKey;
    HomeAgrees(t, m, k);
    NullLacks(On(t, p), k);
    if HomeOf(t, k) != p {
      ElsewhereLacks(t, p, k);
    }
  }

  lemma KeyAt(es: seq<Entry>, k: Item) returns (j: int)
    requires HasKey(es, k)
    ensures 0 <= j < |es| && es[j].key == k
  {
    j :| 0 <= j < |es| && es[j].key == k;
  }

  lemma OkTree(t: Table)
    requires Ok(t)
    ensures Tree(t.bits)
  {
  }

  /** A key at or after the start of a leaf is on its page, or at or after its end. */
  lemma HereOrLater(t: Table, m: Model, h: int, k: Item)
    requires Ok(t) && Agrees(t, m) && k in m && Start(t.bits, Hash(k)) >= Start(t.bits, h)
    ensures HasKey(On(t, Home(t.bits, h)), k) || Start(t.bits, Hash(k)) >= End(t.bits, h)
  {
    hide Tree, Home, Hash, HasKey, Ok, Agrees, Start, End;
    if Start(t.bits, Hash(k)) < End(t.bits, h) {
      OkTree(t);
      LeavesApart(t.bits, h, Hash(k));
      OnPage(t, m, Home(t.bits, h), k);
    }
  }

  /** A key on the page of h. */
  lemma KeyHere(t: Table, m: Model, h: int, j: int)
    requires Ok(t) && Agrees(t, m) && 0 <= j < |On(t, Home(t.bits, h))|
    ensures var k := On(t, Home(t.bits, h))[j].key;
      && k in m && HomeOf(t, k) == Home(t.bits, h)
      && Start(t.bits, Hash(k)) == Start(t.bits, h) < End(t.bits, h)
  {
    hide Tree, Home, Hash, Ok, Agrees, Start, End;
    var k := On(t, Home(t.bits, h))[j].key;
    assert HasKey(On(t, Home(t.bits, h)), k);
    OnPage(t, m, Home(t.bits, h), k);
    OkTree(t);
    StartOfPage(t.bits, h, Hash(k));
  }

  lemma FirstOnPage(t: Table, m: Model, h: int, r: Datum)
    requires Ok(t) && Agrees(t, m)
    requires LargestOf(On(t, Home(t.bits, h)), |On(t, Home(t.bits, h))|, r)
    ensures r != Null ==> FirstOf(t, KeysFrom(t, m, Start(t.bits, h)), r)
    ensures r == Null ==> KeysFrom(t, m, Start(t.bits, h)) == KeysFrom(t, m, End(t.bits, h))
  {
    hide Tree, Home, Hash, Ok, Agrees, Start, End, Before, HasKey;
    var es := On(t, Home(t.bits, h));
    forall k | k in KeysFrom(t, m, Start(t.bits, h))
      ensures r.Datum? && k != r.bytes ==> Follows(t, r.bytes, k)
      ensures r == Null ==> k in KeysFrom(t, m, End(t.bits, h))
    {
      HereOrLater(t, m, h, k);
      if HasKey(es, k) {
        var j := KeyAt(es, k);
        KeyHere(t, m, h, j);
      }
      if r.Datum? {
        var x :| 0 <= x < |es| && es[x].key == r.bytes;
        KeyHere(t, m, h, x);
      }
    }
    if r.Datum? {
      var x :| 0 <= x < |es| && es[x].key == r.bytes;
      KeyHere(t, m, h, x);
    } else {
      EndLater(t, h);
    }
  }

  lemma EndLater(t: Table, h: int)
    requires Ok(t)
    ensures Start(t.bits, h) < End(t.bits, h)
  {
    hide Ok;
    OkTree(t);
    StartOfPage(t.bits, h, h);
  }

  lemma NextOnPage(t: Table, m: Model, key: Item, r: Datum)
    requires Ok(t) && Agrees(t, m)
    requires LargestBelow(On(t, HomeOf(t, key)), |On(t, HomeOf(t, key))|, key, r)
    ensures r != Null ==> FirstOf(t, KeysAfter(t, m, key), r)
    ensures r == Null ==> KeysAfter(t, m, key) == KeysFrom(t, m, End(t.bits, Hash(key)))
  {
    hide Tree, Home, Hash, Ok, Agrees, Start, End, Before, HasKey;
    var h, es := Hash(key), On(t, HomeOf(t, key));
    EndLater(t, h);
    forall k | k in KeysAfter(t, m, key)
      ensures r.Datum? && k != r.bytes ==> Follows(t, r.bytes, k)
      ensures r == Null ==> k in KeysFrom(t, m, End(t.bits, h))
    {
      AfterOnPage(t, m, key, k, es, r);
    }
    if r.Datum? {
      var x :| 0 <= x < |es| && es[x].key == r.bytes;
      KeyHere(t, m, h, x);
    }
  }

  lemma AfterOnPage(t: Table, m: Model, key: Item, k: Item, es: seq<Entry>, r: Datum)
    requires Ok(t) && Agrees(t, m) && es == On(t, HomeOf(t, key)) && LargestBelow(es, |es|, key, r)
    requires k in m && Follows(t, key, k)
    ensures r.Datum? && k != r.bytes ==> Follows(t, r.bytes, k)
    ensures r == Null ==> Start(t.bits, Hash(k)) >= End(t.bits, Hash(key))
  {
    hide Tree, Home, Hash, Ok, Agrees, Start, End, Before, HasKey;
    var h := Hash(key);
    if HomeOf(t, k) == HomeOf(t, key) {
      OnPage(t, m, HomeOf(t, key), k);
      var j := KeyAt(es, k);
      KeyHere(t, m, h, j);
    } else {
      HereOrLater(t, m, h, k);
      OnPage(t, m, HomeOf(t, key), k);
      EndLater(t, h);
    }
    if r.Datum? {
      var x :| 0 <= x < |es| && es[x].key == r.bytes;
      KeyHere(t, m, h, x);
    }
  }

  lemma NothingLeft(t: Table, m: Model)
    ensures KeysFrom(t, m, Pow2(MaxDepth)) == iset{}
  {
    hide Pow2, Path, Hash, Depth;
    forall k | k in m
      ensures Start(t.bits, Hash(k)) < Pow2(MaxDepth)
    {
      StartBelow(t.bits, Hash(k));
    }
  }

  lemma StartBelow(bits: iset<int>, h: int)
    ensures Start(bits, h) < Pow2(MaxDepth)
  {
    PathWithin(h, 0, Depth(bits, h));
  }

  lemma StartZero(t: Table, m: Model)
    ensures Start(t.bits, 0) == 0
    ensures KeysFrom(t, m, Start(t.bits, 0)) == AllKeys(m)
  {
    hide Hash, Depth;
    PathShort(0, 0, Depth(t.bits, 0));
  }

  /** firsthash: the first key at or after the leaf of a hash. */
  method Firsthash(db: Database, hash0: int) returns (r: Datum)
    requires db.Valid()
    modifies db`hmask, db`blkno, db`bitno, db`oldb, db.pagbuf, db.dir`oldb, db.dir.dirbuf
    ensures db.Valid()
    ensures FirstOf(db.table, KeysFrom(db.table, db.model, Start(db.table.bits, hash0)), r)
  {
    hide Stored, Ok, Agrees, Home, Holds, Start, End, KeysFrom, Follows, Pow2, Depth, LargestOf, Node;
    var hash := hash0;
    ghost var t, m := db.table, db.model;
    while true
      invariant db.Valid() && t == db.table && m == db.model
      invariant KeysFrom(t, m, Start(t.bits, hash)) == KeysFrom(t, m, Start(t.bits, hash0))
      decreases Pow2(MaxDepth) - Start(t.bits, hash)
    {
      db.Access(hash);
      r := ScanFirst(db.pagbuf, On(t, db.blkno));
      FirstOnPage(t, m, hash, r);
      if r != Null {
        return;
      }
      OkTree(t);
      var next := Hashinc(hash, db.hmask, t.bits);
      if next == 0 {
        NothingLeft(t, m);
        return Null;
      }
      EndLater(t, hash);
      StartBelow(t.bits, next);
      hash := next;
    }
  }

  method Firstkey(db: Database) returns (r: Datum)
    requires db.Valid()
    modifies db`hmask, db`blkno, db`bitno, db`oldb, db.pagbuf, db.dir`oldb, db.dir.dirbuf
    ensures db.Valid()
    ensures FirstOf(db.table, AllKeys(db.model), r)
  {
    hide Stored, Ok, Agrees, Holds, Start;
    StartZero(db.table, db.model);
    r := Firsthash(db, 0);
  }

  method Nextkey(db: Database, key: Item) returns (r: Datum)
    requires db.Valid() && ByteItem(key)
    modifies db`hmask, db`blkno, db`bitno, db`oldb, db.pagbuf, db.dir`oldb, db.dir.dirbuf
    ensures db.Valid()
    ensures FirstOf(db.table, KeysAfter(db.table, db.model, key), r)
  {
    hide Stored, Ok, Agrees, Home, Holds, Start, End;
    hide KeysFrom, KeysAfter, Follows, Pow2, Depth, LargestBelow, Node, Hash;
    var hash := Calchash(key);
    ghost var t, m := db.table, db.model;
    db.Access(hash);
    r := ScanBelow(db.pagbuf, key, On(t, db.blkno));
    NextOnPage(t, m, key, r);
    if r != Null {
      return;
    }
    OkTree(t);
    hash := Hashinc(hash, db.hmask, t.bits);
    if hash == 0 {
      NothingLeft(t, m);
      return Null;
    }
    r := Firsthash(db, hash);
  }

  // ----- the whole walk

  lemma ModelBytes(pagf: Pages, t: Table, m: Model, k: Item)
    requires Stored(pagf, t) && Ok(t) && Agrees(t, m) && k in m
    ensures ByteItem(k)
  {
    hide Ok, Agrees, Holds, Hash, Home, HasKey;
    var p := HomeOf(t, k);
    OnPage(t, m, p, k);
    ReadHolds(pagf, t, p);
    var j := KeyAt(On(t, p), k);
    EntryBytes(PageOf(pagf, p), On(t, p), j);
  }

  lemma FollowsTransitive(t: Table, a: Item, b: Item, c: Item)
    requires Ok(t) && Follows(t, a, b) && Follows(t, b, c) && ByteItem(a) && ByteItem(b) && ByteItem(c)
    ensures Follows(t, a, c)
  {
    hide Ok, Start, Home, Before, Hash, End;
    OkTree(t);
    if HomeOf(t, a) == HomeOf(t, b) {
      StartOfPage(t.bits, Hash(a), Hash(b));
    }
    if HomeOf(t, b) == HomeOf(t, c) {
      StartOfPage(t.bits, Hash(b), Hash(c));
    }
    if HomeOf(t, a) == HomeOf(t, b) == HomeOf(t, c) && Before(b, a) && Before(c, b) {
      BeforeTransitive(c, b, a);
    }
  }

  lemma NotAfterItself(t: Table, k: Item)
    requires ByteItem(k)
    ensures !Follows(t, k, k)
  {
    CompareZero(k, k);
  }

  /** The next key of the walk is taken from the keys that are left. */
  lemma OneFewer(db: Database, left: iset<Item>, k: Item)
    requires db.Valid() && FirstOf(db.table, left, Datum(k))
    requires forall x, y :: x in left && y in db.model && Follows(db.table, x, y) ==> y in left
    requires left <= AllKeys(db.model)
    ensures KeysAfter(db.table, db.model, k) == left - iset{k}
    ensures k in db.model && ByteItem(k)
    ensures forall x, y :: x in left - iset{k} && y in db.model && Follows(db.table, x, y) ==> y in left - iset{k}
  {
    hide Stored, Ok, Agrees, Holds, Follows;
    ModelBytes(db.pagf, db.table, db.model, k);
    NotAfterItself(db.table, k);
    forall x, y | x in left - iset{k} && y in db.model && Follows(db.table, x, y)
      ensures y in left - iset{k}
    {
      ModelBytes(db.pagf, db.table, db.model, x);
      ModelBytes(db.pagf, db.table, db.model, y);
      FollowsTransitive(db.table, k, x, y);
    }
  }

  /** The traversal loop of the manual: every key is given exactly once, and then none. */
  method Walk(db: Database) returns (keys: seq<Item>)
    requires db.Valid()
    modifies db`hmask, db`blkno, db`bitno, db`oldb, db.pagbuf, db.dir`oldb, db.dir.dirbuf
    ensures db.Valid()
    ensures forall k :: k in keys <==> k in db.model
    ensures forall i, j :: 0 <= i < j < |keys| ==> keys[i] != keys[j]
  {
    hide Follows, Stored, Ok, Agrees, Holds, KeysAfter;
    keys := [];
    ghost var t, m, left := db.table, db.model, AllKeys(db.model);
    ghost var todo := m.Keys;
    var key := Firstkey(db);
    while key != Null
      invariant db.Valid() && t == db.table && m == db.model
      invariant left <= AllKeys(m) && FirstOf(t, left, key)
      invariant forall x, y :: x in left && y in m && Follows(t, x, y) ==> y in left
      invariant forall k :: k in m <==> k in keys || k in left
      invariant forall k :: k in keys ==> k !in left
      invariant forall i, j :: 0 <= i < j < |keys| ==> keys[i] != keys[j]
      invariant forall k :: k in todo <==> k in left
      decreases |todo|
    {
      var k := key.bytes;
      OneFewer(db, left, k);
      key := Nextkey(db, k);
      keys := keys + [k];
      left, todo := left - iset{k}, todo - {k};
    }
  }
}
