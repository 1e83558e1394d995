/** A dbm database as a finite map: what holds of the pages and the trie together, and what adding
    an entry, deleting one and splitting a page do to the map. */
module DbmModel {
  import opened DbmPage
  import opened DbmTrie
  import opened DbmHash
  import opened DbmTable

  type Model = map<Item, Item>

  /** The split nodes of the trie and the entries on each page. */
  datatype Table = Table(bits: iset<int>, pages: map<int, seq<Entry>>)

  ghost function On(t: Table, p: int): seq<Entry> {
    if p in t.pages then t.pages[p] else []
  }

  ghost function HomeOf(t: Table, k: Item): int {
    Home(t.bits, Hash(k))
  }

  ghost predicate AllHome(bits: iset<int>, es: seq<Entry>, p: int) {
    forall i :: 0 <= i < |es| ==> Home(bits, Hash(es[i].key)) == p
  }

  /** Keys are distinct on a page, and each is on the page its hash reaches. */
  ghost predicate Ok(t: Table) {
    && Tree(t.bits)
    && forall p :: Distinct(On(t, p)) && AllHome(t.bits, On(t, p), p)
  }

  function Value(m: Model, k: Item): Datum {
    if k in m then Datum(m[k]) else Null
  }

  /** Looking a key up on its page gives its value in the map. */
  ghost predicate Agrees(t: Table, m: Model) {
    forall k :: Lookup(On(t, HomeOf(t, k)), k) == Value(m, k)
  }

  ghost function Replace(t: Table, p: int, es: seq<Entry>): Table {
    t.(pages := t.pages[p := es])
  }

  lemma ReplaceOk(t: Table, p: int, es: seq<Entry>)
    requires Ok(t) && Distinct(es) && AllHome(t.bits, es, p)
    ensures Ok(Replace(t, p, es))
  {
    hide Distinct, AllHome, Tree;
    forall q
      ensures Distinct(On(Replace(t, p, es), q)) && AllHome(t.bits, On(Replace(t, p, es), q), q)
    {
      assert Distinct(On(t, q)) && AllHome(t.bits, On(t, q), q);
    }
  }

  lemma AddKeeps(t: Table, m: Model, e: Entry)
    requires Ok(t) && Agrees(t, m) && !HasKey(On(t, HomeOf(t, e.key)), e.key)
    ensures var p := HomeOf(t, e.key); var t' := Replace(t, p, On(t, p) + [e]);
      Ok(t') && Agrees(t', m[e.key := e.data])
  {
    hide Tree, Home, Hash, Lookup, Distinct, HasKey;
    var p := HomeOf(t, e.key);
    var es := On(t, p);
    var t' := Replace(t, p, es + [e]);
    LookupAdded(es, e, e.key);
    forall k
      ensures Lookup(On(t', HomeOf(t', k)), k) == Value(m[e.key := e.data], k)
    {
      LookupAdded(es, e, k);
      assert Lookup(On(t, HomeOf(t, k)), k) == Value(m, k);
    }
    assert AllHome(t.bits, es, p);
    ReplaceOk(t, p, es + [e]);
  }

  lemma RemoveKeeps(t: Table, m: Model, p: int, x: int)
    requires Ok(t) && Agrees(t, m) && 0 <= x < |On(t, p)|
    ensures var t' := Replace(t, p, Without(On(t, p), x));
      Ok(t') && Agrees(t', m - {On(t, p)[x].key}) && !HasKey(On(t', p), On(t, p)[x].key)
  {
    hide Tree, Home, Hash, Lookup, Distinct, HasKey;
    var es := On(t, p);
    var e, t' := es[x], Replace(t, p, Without(es, x));
    LookupWithout(es, x, e.key);
    assert AllHome(t.bits, es, p);
    assert HomeOf(t, e.key) == p;
    forall k
      ensures Lookup(On(t', HomeOf(t', k)), k) == Value(m - {e.key}, k)
    {
      LookupWithout(es, x, k);
      assert Lookup(On(t, HomeOf(t, k)), k) == Value(m, k);
    }
    NullLacks(On(t', p), e.key);
    ReplaceOk(t, p, Without(es, x));
  }

  lemma NullLacks(es: seq<Entry>, k: Item)
    ensures HasKey(es, k) <==> Lookup(es, k) != Null
  {
  }

  /** The page of h is split: what its next hash bit sends away goes to a page of its own. */
  ghost function SplitPage(t: Table, h: int): Table {
    var d, p := Depth(t.bits, h), Home(t.bits, h);
    Table(SplitLeaf(t.bits, h), t.pages[p := Part(On(t, p), d, false)][p + Pow2(d) := Part(On(t, p), d, true)])
  }

  lemma PartsApart(t: Table, h: int)
    requires Ok(t) && Depth(t.bits, h) < MaxDepth
    ensures var t', p, d := SplitPage(t, h), Home(t.bits, h), Depth(t.bits, h);
      && AllHome(t'.bits, Part(On(t, p), d, false), p)
      && AllHome(t'.bits, Part(On(t, p), d, true), p + Pow2(d))
  {
    hide Tree, Home, Hash, Pow2, BitOf;
    var t', p, d := SplitPage(t, h), Home(t.bits, h), Depth(t.bits, h);
    var es := On(t, p);
    assert AllHome(t.bits, es, p);
    forall b: bool, i | 0 <= i < |Part(es, d, b)|
      ensures Home(t'.bits, Hash(Part(es, d, b)[i].key)) == if b then p + Pow2(d) else p
    {
      PartGoes(es, d, b, i);
      var e := Part(es, d, b)[i];
      SplitHome(t.bits, h, Hash(e.key));
    }
  }

  /** Nothing is on the page that a split takes into use. */
  lemma NewPageEmpty(t: Table, h: int)
    requires Ok(t) && Depth(t.bits, h) < MaxDepth
    ensures On(t, Home(t.bits, h) + Pow2(Depth(t.bits, h))) == []
  {
    hide Tree, Home, Hash, Pow2, BitOf;
    var q := Home(t.bits, h) + Pow2(Depth(t.bits, h));
    if On(t, q) != [] {
      assert AllHome(t.bits, On(t, q), q);
      SplitHome(t.bits, h, Hash(On(t, q)[0].key));
    }
  }

  lemma SplitOk(t: Table, h: int)
    requires Ok(t) && Depth(t.bits, h) < MaxDepth
    ensures Ok(SplitPage(t, h))
  {
    hide Tree, Home, Hash, Pow2, BitOf, Distinct, Part;
    var t', p, d := SplitPage(t, h), Home(t.bits, h), Depth(t.bits, h);
    SplitTree(t.bits, h);
    PartsApart(t, h);
    LookupPart(On(t, p), d, false, []);
    LookupPart(On(t, p), d, true, []);
    forall q
      ensures Distinct(On(t', q)) && AllHome(t'.bits, On(t', q), q)
    {
      assert Distinct(On(t, q)) && AllHome(t.bits, On(t, q), q);
      if q != p && q != p + Pow2(d) {
        forall i | 0 <= i < |On(t, q)|
          ensures Home(t'.bits, Hash(On(t, q)[i].key)) == q
        {
          SplitHome(t.bits, h, Hash(On(t, q)[i].key));
        }
      }
    }
  }

  /** A split moves entries without losing, adding or changing any. */
  lemma SplitKeeps(t: Table, m: Model, h: int)
    requires Ok(t) && Agrees(t, m) && Depth(t.bits, h) < MaxDepth
    ensures Ok(SplitPage(t, h)) && Agrees(SplitPage(t, h), m)
  {
    hide Tree, Home, Hash, Pow2, BitOf, Distinct, Part, Lookup, AllHome, SplitLeaf;
    var t', p, d := SplitPage(t, h), Home(t.bits, h), Depth(t.bits, h);
    SplitOk(t, h);
    forall k
      ensures Lookup(On(t', HomeOf(t', k)), k) == Value(m, k)
    {
      SplitHome(t.bits, h, Hash(k));
      LookupPart(On(t, p), d, BitOf(Hash(k), d), k);
      assert Lookup(On(t, HomeOf(t, k)), k) == Value(m, k);
    }
  }

  // ----- which entries can be stored

  ghost function MapWeight(m: Model): nat
    decreases |m|
  {
    if m == map[] then 0 else
      var k :| k in m;
      EntryWeight(Entry(k, m[k])) + MapWeight(m - {k})
  }

  lemma {:induction false} MapWeightRemove(m: Model, k: Item)
    requires k in m
    ensures MapWeight(m) == EntryWeight(Entry(k, m[k])) + MapWeight(m - {k})
    decreases |m|
  {
    hide EntryWeight;
    var j :| j in m && MapWeight(m) == EntryWeight(Entry(j, m[j])) + MapWeight(m - {j});
    if j != k {
      MapWeightRemove(m - {j}, k);
      MapWeightRemove(m - {k}, j);
      assert m - {j} - {k} == m - {k} - {j};
    }
  }

  lemma {:induction false} MapWeightSub(m: Model, m': Model)
    requires forall k :: k in m' ==> k in m && m[k] == m'[k]
    ensures MapWeight(m') <= MapWeight(m)
    decreases |m'|
  {
    hide EntryWeight;
    if m' != map[] {
      var k :| k in m';
      MapWeightSub(m - {k}, m' - {k});
      MapWeightRemove(m, k);
      MapWeightRemove(m', k);
    }
  }

  /** Entries that are a map weigh what the map does. */
  lemma {:induction false} PageWeight(es: seq<Entry>, m: Model)
    requires Distinct(es) && forall k :: Lookup(es, k) == Value(m, k)
    ensures MapWeight(m) == Weight(es)
    decreases |es|
  {
    hide EntryWeight, Distinct, HasKey, Lookup;
    if es == [] {
      forall k
        ensures k !in m
      {
        LookupEmpty(0, false, k);
        assert Lookup(es, k) == Value(m, k);
      }
      assert m == map[];
    } else {
      var init, last := es[..|es| - 1], es[|es| - 1];
      assert es == init + [last];
      LastKey(init, last);
      NullLacks(init, last.key);
      forall k
        ensures Lookup(init, k) == Value(m - {last.key}, k)
      {
        LookupAdded(init, last, k);
        assert Lookup(es, k) == Value(m, k);
      }
      LookupAdded(init, last, last.key);
      assert Lookup(es, last.key) == Value(m, last.key);
      PageWeight(init, m - {last.key});
      MapWeightRemove(m, last.key);
    }
  }

  /** The entries that share with a key all the hash bits that a split can tell apart. */
  ghost function Beside(m: Model, key: Item): Model {
    map k | k in m && k != key && Low(Hash(k), MaxDepth) == Low(Hash(key), MaxDepth) :: m[k]
  }

  ghost predicate FitsBeside(m: Model, key: Item, dat: Item) {
    MapWeight(Beside(m, key)) + EntryWeight(Entry(key, dat)) + 2 < 512
  }

  ghost function SamePage(t: Table, m: Model, key: Item): Model {
    map k | k in m && HomeOf(t, k) == HomeOf(t, key) :: m[k]
  }

  /** The page of a key, as a map. */
  lemma PageIsMap(t: Table, m: Model, key: Item)
    requires Ok(t) && Agrees(t, m)
    ensures MapWeight(SamePage(t, m, key)) == Weight(On(t, HomeOf(t, key)))
  {
    hide Tree, Home, Hash, Lookup, Distinct, HasKey, MapWeight, Weight;
    var p := HomeOf(t, key);
    forall k
      ensures Lookup(On(t, p), k) == Value(SamePage(t, m, key), k)
    {
      assert Lookup(On(t, HomeOf(t, k)), k) == Value(m, k);
      if HomeOf(t, k) != p {
        ElsewhereLacks(t, p, k);
      }
    }
    PageWeight(On(t, p), SamePage(t, m, key));
  }

  lemma ElsewhereLacks(t: Table, p: int, k: Item)
    requires Ok(t) && HomeOf(t, k) != p
    ensures Lookup(On(t, p), k) == Null
  {
    assert AllHome(t.bits, On(t, p), p);
  }

  lemma BesideIsHere(t: Table, key: Item, k: Item)
    requires Ok(t) && Low(Hash(k), MaxDepth) == Low(Hash(key), MaxDepth)
    ensures HomeOf(t, k) == HomeOf(t, key)
  {
    hide Tree, Home, Hash, Low, AllHome, Depth;
    LowAgree(Hash(key), Hash(k), Depth(t.bits, Hash(key)), MaxDepth);
    SameLeaf(t.bits, Hash(key), Hash(k));
  }

  /** On a page that cannot be split further are exactly the entries beside the key. */
  lemma DeepPage(t: Table, m: Model, key: Item)
    requires Ok(t) && Agrees(t, m) && key !in m && Depth(t.bits, Hash(key)) == MaxDepth
    ensures Weight(On(t, HomeOf(t, key))) == MapWeight(Beside(m, key))
  {
    hide Tree, Home, Hash, AllHome, Distinct, Agrees, Low, MapWeight, Weight;
    PageIsMap(t, m, key);
    forall k | k in m
      ensures k in SamePage(t, m, key) <==> k in Beside(m, key)
    {
      SameLeaf(t.bits, Hash(key), Hash(k));
      if Low(Hash(k), MaxDepth) == Low(Hash(key), MaxDepth) {
        BesideIsHere(t, key, k);
      }
    }
    assert SamePage(t, m, key) == Beside(m, key);
  }

  /** What is stored fits beside the entries that share its hash bits. */
  lemma StoredFits(t: Table, m: Model, key: Item)
    requires Ok(t) && Agrees(t, m) && key in m && Weight(On(t, HomeOf(t, key))) + 2 < 512
    ensures FitsBeside(m, key, m[key])
  {
    hide Tree, Home, Hash, AllHome, Distinct, Agrees, Low, MapWeight, Weight, Ok;
    PageIsMap(t, m, key);
    var here := Beside(m, key)[key := m[key]];
    forall k | k in here
      ensures k in SamePage(t, m, key)
    {
      if k != key {
        BesideIsHere(t, key, k);
      }
    }
    MapWeightSub(SamePage(t, m, key), here);
    MapWeightRemove(here, key);
    assert here - {key} == Beside(m, key);
  }
}
