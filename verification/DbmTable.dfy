/** What a dbm database holds: entries on the pages their hashes reach through the trie. */
module DbmTable {
  import opened DbmPage
  import opened DbmTrie
  import opened DbmHash

  datatype Entry = Entry(key: Item, data: Item)

  // ----- the items of a page, taken in pairs

  ghost function Entries(items: seq<Item>): (r: seq<Entry>)
    requires |items| % 2 == 0
    ensures |r| == |items| / 2
  {
    seq(|items| / 2, i requires 0 <= i < |items| / 2 => Entry(items[2 * i], items[2 * i + 1]))
  }

  lemma EntriesSnoc(items: seq<Item>, k: Item, v: Item)
    requires |items| % 2 == 0
    ensures Entries(items + [k] + [v]) == Entries(items) + [Entry(k, v)]
  {
    var n := |items| / 2;
    assert (items + [k] + [v])[2 * n] == k && (items + [k] + [v])[2 * n + 1] == v;
  }

  lemma EntriesWithout(items: seq<Item>, i: int)
    requires |items| % 2 == 0 && 0 <= i < |items| / 2
    ensures |Without(Without(items, 2 * i), 2 * i)| == |items| - 2
    ensures Entries(Without(Without(items, 2 * i), 2 * i)) == Without(Entries(items), i)
  {
    var rest := Without(Without(items, 2 * i), 2 * i);
    assert rest == items[..2 * i] + items[2 * i + 2..];
  }

  function EntryWeight(e: Entry): nat {
    |e.key| + |e.data| + 4
  }

  function Weight(es: seq<Entry>): nat {
    if es == [] then 0 else Weight(es[..|es| - 1]) + EntryWeight(es[|es| - 1])
  }

  lemma WeightSnoc(es: seq<Entry>, e: Entry)
    ensures Weight(es + [e]) == Weight(es) + EntryWeight(e)
  {
    assert (es + [e])[..|es|] == es;
  }

  /** The room a page's items take, in terms of its entries. */
  lemma {:induction false} TotalIsWeight(items: seq<Item>)
    requires |items| % 2 == 0
    ensures Total(items) + 2 * |items| == Weight(Entries(items))
    decreases |items|
  {
    var n := |items|;
    if n > 0 {
      TotalIsWeight(items[..n - 2]);
      assert items[..n - 1][..n - 2] == items[..n - 2];
      assert Entries(items)[..n / 2 - 1] == Entries(items[..n - 2]);
    }
  }

  // ----- looking a key up among entries

  ghost predicate Distinct(es: seq<Entry>) {
    forall i, j :: 0 <= i < j < |es| ==> es[i].key != es[j].key
  }

  ghost predicate HasKey(es: seq<Entry>, k: Item) {
    exists i :: 0 <= i < |es| && es[i].key == k
  }

  ghost function Lookup(es: seq<Entry>, k: Item): Datum {
    if HasKey(es, k) then
      var i :| 0 <= i < |es| && es[i].key == k;
      Datum(es[i].data)
    else
      Null
  }

  lemma LookupAt(es: seq<Entry>, i: int)
    requires Distinct(es) && 0 <= i < |es|
    ensures HasKey(es, es[i].key) && Lookup(es, es[i].key) == Datum(es[i].data)
  {
  }

  lemma LookupAdded(es: seq<Entry>, e: Entry, k: Item)
    requires Distinct(es) && !HasKey(es, e.key)
    ensures Distinct(es + [e])
    ensures Lookup(es + [e], k) == if k == e.key then Datum(e.data) else Lookup(es, k)
  {
    var es' := es + [e];
    forall i, j | 0 <= i < j < |es'|
      ensures es'[i].key != es'[j].key
    {
    }
    if k == e.key {
      LookupAt(es', |es|);
    } else if HasKey(es, k) {
      var i :| 0 <= i < |es| && es[i].key == k;
      LookupAt(es, i);
      assert es'[i] == es[i];
      LookupAt(es', i);
    }
  }

  lemma LookupWithout(es: seq<Entry>, x: int, k: Item)
    requires Distinct(es) && 0 <= x < |es|
    ensures Distinct(Without(es, x))
    ensures Lookup(Without(es, x), k) == if k == es[x].key then Null else Lookup(es, k)
  {
    var es' := Without(es, x);
    forall i | 0 <= i < |es'|
      ensures es'[i] == es[if i < x then i else i + 1]
    {
    }
    if k != es[x].key && HasKey(es, k) {
      var i :| 0 <= i < |es| && es[i].key == k;
      LookupAt(es, i);
      var j := if i < x then i else i - 1;
      assert es'[j] == es[i];
      LookupAt(es', j);
    }
  }

  // ----- the entries a split moves and the ones it leaves

  ghost predicate Goes(e: Entry, d: nat) {
    BitOf(Hash(e.key), d)
  }

  ghost function Part(es: seq<Entry>, d: nat, b: bool): (r: seq<Entry>) {
    if es == [] then [] else
      var last := es[|es| - 1];
      Part(es[..|es| - 1], d, b) + (if Goes(last, d) == b then [last] else [])
  }

  lemma PartSnoc(es: seq<Entry>, e: Entry, d: nat, b: bool)
    ensures Part(es + [e], d, b) == if Goes(e, d) == b then Part(es, d, b) + [e] else Part(es, d, b)
  {
    hide Goes;
    assert (es + [e])[..|es|] == es;
  }

  lemma {:induction false} PartWeight(es: seq<Entry>, d: nat)
    ensures Weight(Part(es, d, false)) + Weight(Part(es, d, true)) == Weight(es)
    decreases |es|
  {
    hide Goes, Part;
    if es == [] {
      assert Part(es, d, false) == Part(es, d, true) == [] by { LookupEmpty(d, false, []); LookupEmpty(d, true, []); }
    } else {
      var init, last := es[..|es| - 1], es[|es| - 1];
      assert es == init + [last];
      PartWeight(init, d);
      PartSnoc(init, last, d, false);
      PartSnoc(init, last, d, true);
      WeightSnoc(Part(init, d, Goes(last, d)), last);
    }
  }

  lemma {:induction false} PartLacks(es: seq<Entry>, d: nat, b: bool, k: Item)
    requires !HasKey(es, k)
    ensures !HasKey(Part(es, d, b), k)
    decreases |es|
  {
    hide Goes;
    if es != [] {
      var init, last := es[..|es| - 1], es[|es| - 1];
      assert last.key != k;
      PartLacks(init, d, b, k);
    }
  }

  lemma {:induction false} PartGoes(es: seq<Entry>, d: nat, b: bool, i: int)
    requires 0 <= i < |Part(es, d, b)|
    ensures Part(es, d, b)[i] in es && Goes(Part(es, d, b)[i], d) == b
    decreases |es|
  {
    hide Goes;
    var init, last := es[..|es| - 1], es[|es| - 1];
    if i < |Part(init, d, b)| {
      PartGoes(init, d, b, i);
    }
  }

  lemma LastKey(init: seq<Entry>, last: Entry)
    ensures Distinct(init + [last]) ==> Distinct(init) && !HasKey(init, last.key)
  {
    var es := init + [last];
    assert es[|init|] == last;
    assert forall i :: 0 <= i < |init| ==> es[i] == init[i];
  }

  /** Each key is found in the part its hash sends it to, as it was found before the split. */
  lemma {:induction false} LookupPart(es: seq<Entry>, d: nat, b: bool, k: Item)
    requires Distinct(es)
    ensures Distinct(Part(es, d, b))
    ensures BitOf(Hash(k), d) == b ==> Lookup(Part(es, d, b), k) == Lookup(es, k)
    decreases |es|
  {
    hide BitOf, Hash, Lookup, HasKey, Distinct, Part;
    if es == [] {
      LookupEmpty(d, b, k);
    } else {
      var init, last := es[..|es| - 1], es[|es| - 1];
      assert es == init + [last];
      LastKey(init, last);
      LookupPart(init, d, b, k);
      LookupAdded(init, last, k);
      PartLacks(init, d, b, last.key);
      PartSnoc(init, last, d, b);
      if Goes(last, d) == b {
        LookupAdded(Part(init, d, b), last, k);
      }
    }
  }

  lemma LookupEmpty(d: nat, b: bool, k: Item)
    ensures Distinct([]) && Lookup([], k) == Null && !HasKey([], k) && Part([], d, b) == []
  {
  }
}
