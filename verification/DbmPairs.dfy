/** The page buffer of dbm.c as a list of entries: the scans, the insertion and the split that
    fetch, delete and store make on it. */
module DbmPairs {
  import opened DbmPage
  import opened DbmTrie
  import opened DbmHash
  import opened DbmTable
  import opened DbmOrder

  /** The page m holds the entries es. */
  ghost predicate Holds(m: seq<int>, es: seq<Entry>) {
    Packed(m) && |Contents(m)| % 2 == 0 && Entries(Contents(m)) == es
  }

  ghost predicate ByteEntry(e: Entry) {
    ByteItem(e.key) && ByteItem(e.data)
  }

  lemma PageBytes(m: seq<int>, i: int)
    requires Packed(m) && 0 <= i < |Contents(m)|
    ensures ByteItem(Contents(m)[i])
  {
    var n := Short(m, 0);
    OffMono(m, n, i, i + 1);
    assert Contents(m)[i] == ItemAt(m, n, i);
    assert ItemAt(m, n, i) == m[Off(m, i + 1)..Off(m, i)];
  }

  lemma EntryBytes(m: seq<int>, es: seq<Entry>, i: int)
    requires Holds(m, es) && 0 <= i < |es|
    ensures ByteEntry(es[i])
  {
    PageBytes(m, 2 * i);
    PageBytes(m, 2 * i + 1);
  }

  lemma HoldsFits(m: seq<int>, es: seq<Entry>)
    requires Holds(m, es)
    ensures Weight(es) + 2 < 512
  {
    PackedFits(m);
    TotalIsWeight(Contents(m));
  }

  /** The scan that fetch, delete and store begin with: i is where the key is, or -1. */
  method Find(buf: array<int>, key: Item, ghost es: seq<Entry>) returns (i: int)
    requires buf.Length == 512 && Holds(buf[..], es) && ByteItem(key)
    ensures i == -1 || (i % 2 == 0 && 0 <= i / 2 < |es|)
    ensures i == -1 ==> !HasKey(es, key)
    ensures i != -1 ==> es[i / 2].key == key
  {
    hide Packed, Contents, Compare;
    i := 0;
    var item := Makdatum(buf, i);
    while item != Null
      invariant 0 <= i <= |Contents(buf[..])| && i % 2 == 0
      invariant item == if i < |Contents(buf[..])| then Datum(Contents(buf[..])[i]) else Null
      invariant forall j :: 0 <= j < i / 2 ==> es[j].key != key
      decreases |Contents(buf[..])| - i
    {
      var c := Cmpdatum(key, item.bytes);
      PageBytes(buf[..], i);
      CompareZero(key, item.bytes);
      assert es[i / 2].key == item.bytes;
      if c == 0 {
        return;
      }
      i := i + 2;
      item := Makdatum(buf, i);
    }
    i := -1;
  }

  method RemovePair(buf: array<int>, i: int, ghost es: seq<Entry>)
    requires buf.Length == 512 && Holds(buf[..], es) && i % 2 == 0 && 0 <= i / 2 < |es|
    modifies buf
    ensures Holds(buf[..], Without(es, i / 2))
  {
    hide Packed, Contents;
    EntriesWithout(Contents(buf[..]), i / 2);
    var ok := Delitem(buf, i);
    ok := Delitem(buf, i);
  }

  lemma RoomForPair(items: seq<Item>, k: Item, v: Item)
    requires |items| % 2 == 0
    ensures Fits(items + [k] + [v]) <==> Weight(Entries(items)) + EntryWeight(Entry(k, v)) + 2 < 512
    ensures Fits(items + [k] + [v]) ==> Fits(items + [k])
  {
    TotalIsWeight(items);
    TotalSnoc(items, k);
    TotalSnoc(items + [k], v);
  }

  /** The insertion of store: both items go in, or neither stays. */
  method AddPair(buf: array<int>, e: Entry, ghost es: seq<Entry>) returns (ok: bool)
    requires buf.Length == 512 && Holds(buf[..], es) && ByteEntry(e)
    modifies buf
    ensures ok <==> Weight(es) + EntryWeight(e) + 2 < 512
    ensures Holds(buf[..], if ok then es + [e] else es)
  {
    hide Packed, Contents, Fits;
    ghost var items := Contents(buf[..]);
    RoomForPair(items, e.key, e.data);
    EntriesSnoc(items, e.key, e.data);
    var i := Additem(buf, e.key);
    if i < 0 {
      return false;
    }
    var j := Additem(buf, e.data);
    if j < 0 {
      assert Without(items + [e.key], |items|) == items;
      var _ := Delitem(buf, i);
      return false;
    }
    ok := true;
  }

  /** One turn of the split loop that moves a pair to the overflow page; ok is false only where
      the source reports items not in pairs. */
  method MovePair(buf: array<int>, ovf: array<int>, i: int, ghost es: seq<Entry>, ghost os: seq<Entry>)
    returns (ok: bool)
    requires buf.Length == 512 && ovf.Length == 512 && buf != ovf
    requires Holds(buf[..], es) && Holds(ovf[..], os)
    requires i % 2 == 0 && 0 <= i / 2 < |es| && Weight(os) + EntryWeight(es[i / 2]) + 2 < 512
    modifies buf, ovf
    ensures ok && Holds(buf[..], Without(es, i / 2)) && Holds(ovf[..], os + [es[i / 2]])
  {
    hide Packed, Contents, Fits;
    ghost var items, moved, e := Contents(buf[..]), Contents(ovf[..]), es[i / 2];
    RoomForPair(moved, e.key, e.data);
    EntriesSnoc(moved, e.key, e.data);
    EntriesWithout(items, i / 2);
    PageBytes(buf[..], i);
    var item := Makdatum(buf, i);
    assert item == Datum(e.key);
    var r := Additem(ovf, item.bytes);
    ok := Delitem(buf, i);
    PageBytes(buf[..], i);
    item := Makdatum(buf, i);
    assert item == Datum(e.data);
    r := Additem(ovf, item.bytes);
    ok := Delitem(buf, i);
  }

  /** The pages once c of the entries es have been looked at: what is on the page, how many of
      the entries looked at are among it, and what has gone to the overflow page. */
  ghost function Staying(es: seq<Entry>, d: nat, c: nat): seq<Entry>
    requires c <= |es|
  {
    Part(es[..c], d, false) + es[c..]
  }

  ghost function Passed(es: seq<Entry>, d: nat, c: nat): nat
    requires c <= |es|
  {
    |Part(es[..c], d, false)|
  }

  ghost function Gone(es: seq<Entry>, d: nat, c: nat): seq<Entry>
    requires c <= |es|
  {
    Part(es[..c], d, true)
  }

  lemma DividedEnds(es: seq<Entry>, d: nat)
    ensures Staying(es, d, 0) == es && Gone(es, d, 0) == [] && Passed(es, d, 0) == 0
    ensures Staying(es, d, |es|) == Part(es, d, false) && Gone(es, d, |es|) == Part(es, d, true)
  {
    assert es[..0] == [] && es[..|es|] == es;
  }

  lemma NextOn(es: seq<Entry>, d: nat, c: nat)
    requires c <= |es|
    ensures |Staying(es, d, c)| == Passed(es, d, c) + |es| - c
    ensures c < |es| ==> Staying(es, d, c)[Passed(es, d, c)] == es[c]
  {
    hide Part;
  }

  lemma NextGoes(es: seq<Entry>, d: nat, c: nat)
    requires c < |es| && Goes(es[c], d) && Weight(es) + 2 < 512
    ensures Passed(es, d, c) < |Staying(es, d, c)|
    ensures Without(Staying(es, d, c), Passed(es, d, c)) == Staying(es, d, c + 1)
    ensures Passed(es, d, c + 1) == Passed(es, d, c) && Gone(es, d, c + 1) == Gone(es, d, c) + [es[c]]
    ensures Weight(Gone(es, d, c)) + EntryWeight(es[c]) + 2 < 512
  {
    hide Goes, Part, Weight;
    assert es[..c + 1] == es[..c] + [es[c]];
    PartSnoc(es[..c], es[c], d, false);
    PartSnoc(es[..c], es[c], d, true);
    WeightSnoc(Part(es[..c], d, true), es[c]);
    PartWeight(es[..c + 1], d);
    WeightPrefix(es, c + 1);
  }

  lemma NextStays(es: seq<Entry>, d: nat, c: nat)
    requires c < |es| && !Goes(es[c], d)
    ensures Staying(es, d, c) == Staying(es, d, c + 1)
    ensures Passed(es, d, c + 1) == Passed(es, d, c) + 1 && Gone(es, d, c + 1) == Gone(es, d, c)
  {
    hide Goes, Part;
    assert es[..c + 1] == es[..c] + [es[c]];
    PartSnoc(es[..c], es[c], d, false);
    PartSnoc(es[..c], es[c], d, true);
  }

  lemma {:induction false} WeightPrefix(es: seq<Entry>, c: nat)
    requires c <= |es|
    ensures Weight(es[..c]) <= Weight(es)
    decreases |es|
  {
    if c < |es| {
      WeightPrefix(es[..|es| - 1], c);
      assert es[..|es| - 1][..c] == es[..c];
    } else {
      assert es[..c] == es;
    }
  }

  /** The key of the pair at i, or the null datum past the last pair. */
  method PairKey(buf: array<int>, i: int, ghost es: seq<Entry>) returns (item: Datum)
    requires buf.Length == 512 && Holds(buf[..], es) && i % 2 == 0 && 0 <= i / 2
    ensures item == if i / 2 < |es| then Datum(es[i / 2].key) else Null
  {
    hide Packed, Contents;
    item := Makdatum(buf, i);
  }

  method PairData(buf: array<int>, i: int, ghost es: seq<Entry>) returns (item: Datum)
    requires buf.Length == 512 && Holds(buf[..], es) && i % 2 == 0 && 0 <= i / 2 < |es|
    ensures item == Datum(es[i / 2].data)
  {
    hide Packed, Contents;
    item := Makdatum(buf, i + 1);
  }

  /** Whether a key goes: calchash(item) & (hmask + 1). */
  method GoesOver(key: Item, hmask: int, ghost d: nat) returns (r: bool)
    requires hmask + 1 == Pow2(d)
    ensures r == BitOf(Hash(key), d)
  {
    hide Hash;
    var h := Calchash(key);
    r := h / (hmask + 1) % 2 == 1;
  }

  /** The split loop of store: the entries with the next hash bit set go to the overflow page. */
  method Divide(buf: array<int>, ovf: array<int>, hmask: int, ghost d: nat, ghost es: seq<Entry>)
    requires buf.Length == 512 && ovf.Length == 512 && buf != ovf
    requires hmask + 1 == Pow2(d) && Holds(buf[..], es) && Holds(ovf[..], [])
    modifies buf, ovf
    ensures Holds(buf[..], Part(es, d, false)) && Holds(ovf[..], Part(es, d, true))
  {
    hide Holds, Part, Hash, Pow2, BitOf, Staying, Passed, Gone, Without;
    HoldsFits(buf[..], es);
    DividedEnds(es, d);
    NextOn(es, d, 0);
    ghost var c := 0;
    var i := 0;
    var item := PairKey(buf, i, es);
    while item != Null
      invariant 0 <= c <= |es|
      invariant Holds(buf[..], Staying(es, d, c)) && Holds(ovf[..], Gone(es, d, c))
      invariant i == 2 * Passed(es, d, c)
      invariant item == if c < |es| then Datum(es[c].key) else Null
      decreases |es| - c
    {
      var over := GoesOver(item.bytes, hmask, d);
      NextOn(es, d, c);
      if over {
        NextGoes(es, d, c);
        var ok := MovePair(buf, ovf, i, Staying(es, d, c), Gone(es, d, c));
      } else {
        NextStays(es, d, c);
        i := i + 2;
      }
      c := c + 1;
      NextOn(es, d, c);
      item := PairKey(buf, i, Staying(es, d, c));
    }
  }
}
