/** tsort.c: the graph read from pairs of names, and the order printed, with cycles broken where
    findloop chooses. Nodes are numbered in the order of the node list. */
module Tsort {

  datatype Status = Dead | Live | Once | Twice

  type Preds = seq<seq<int>>

  ghost predicate Graph(preds: Preds) {
    forall j, k :: 0 <= j < |preds| && 0 <= k < |preds[j]| ==> 0 <= preds[j][k] < |preds|
  }

  /** The walk w goes from each node to one of its predecessors, among nodes of a. */
  ghost predicate Walk(preds: Preds, a: set<int>, w: seq<int>) {
    && (forall k :: 0 <= k < |w| ==> 0 <= w[k] < |preds| && w[k] in a)
    && (forall k :: 0 <= k < |w| - 1 ==> Step(preds, w, k))
  }

  ghost predicate Step(preds: Preds, w: seq<int>, k: int)
    requires 0 <= k < |w| - 1
  {
    0 <= w[k] < |preds| && w[k + 1] in preds[w[k]]
  }

  ghost predicate Cycle(preds: Preds, a: set<int>, i: int, w: seq<int>) {
    |w| >= 2 && w[0] == i && w[|w| - 1] == i && Walk(preds, a, w)
  }

  ghost predicate OnCycle(preds: Preds, a: set<int>, i: int) {
    exists w :: Cycle(preds, a, i, w)
  }

  /** The nodes that have not been printed. */
  ghost function Alive(live: seq<Status>): set<int> {
    set i | 0 <= i < |live| && live[i] != Dead
  }

  ghost predicate Settled(live: seq<Status>) {
    forall i :: 0 <= i < |live| ==> live[i] == Dead || live[i] == Live
  }

  /** The predecessor that findloop follows: the first on the list that is not dead. */
  function FirstAlive(live: seq<Status>, ps: seq<int>): int
    requires forall k :: 0 <= k < |ps| ==> 0 <= ps[k] < |live|
  {
    if ps == [] then -1
    else if live[ps[0]] != Dead then ps[0]
    else FirstAlive(live, ps[1..])
  }

  lemma {:induction false} FirstAliveIs(live: seq<Status>, ps: seq<int>)
    requires forall k :: 0 <= k < |ps| ==> 0 <= ps[k] < |live|
    ensures FirstAlive(live, ps) == -1 <==> forall k :: 0 <= k < |ps| ==> live[ps[k]] == Dead
    ensures FirstAlive(live, ps) != -1 ==> FirstAlive(live, ps) in ps && FirstAlive(live, ps) in Alive(live)
    decreases |ps|
  {
    if ps != [] && live[ps[0]] == Dead {
      FirstAliveIs(live, ps[1..]);
      assert forall k :: 1 <= k < |ps| ==> ps[k] == ps[1..][k - 1];
    }
  }

  lemma {:induction false} FirstAliveSame(live: seq<Status>, live': seq<Status>, ps: seq<int>)
    requires |live| == |live'| && forall k :: 0 <= k < |ps| ==> 0 <= ps[k] < |live|
    requires forall i :: 0 <= i < |live| ==> (live[i] == Dead <==> live'[i] == Dead)
    ensures FirstAlive(live, ps) == FirstAlive(live', ps)
    decreases |ps|
  {
    if ps != [] && live[ps[0]] == Dead {
      FirstAliveSame(live, live', ps[1..]);
    }
  }

  ghost predicate HasAlive(live: seq<Status>, ps: seq<int>) {
    exists k :: 0 <= k < |ps| && ps[k] in Alive(live)
  }

  /** Every unprinted node waits for an unprinted predecessor. */
  ghost predicate Stuck(preds: Preds, live: seq<Status>) {
    |live| == |preds| && forall i :: 0 <= i < |live| && live[i] != Dead ==> HasAlive(live, preds[i])
  }

  ghost predicate SameDead(live: seq<Status>, live': seq<Status>) {
    |live| == |live'| && forall i :: 0 <= i < |live| ==> (live[i] == Dead <==> live'[i] == Dead)
  }

  ghost predicate Next(preds: Preds, live: seq<Status>, w: seq<int>, k: int)
    requires Graph(preds) && |live| == |preds| && 0 <= k < |w| - 1
  {
    0 <= w[k] < |preds| && w[k + 1] == FirstAlive(live, preds[w[k]]) && w[k + 1] in preds[w[k]]
  }

  /** w is the way findloop goes, over unprinted nodes. */
  ghost predicate Trail(preds: Preds, live: seq<Status>, w: seq<int>)
    requires Graph(preds) && |live| == |preds|
  {
    && |w| > 0
    && (forall k :: 0 <= k < |w| ==> w[k] in Alive(live))
    && (forall k :: 0 <= k < |w| - 1 ==> Next(preds, live, w, k))
  }

  lemma TrailSnoc(preds: Preds, live: seq<Status>, w: seq<int>, n: int)
    requires Graph(preds) && |live| == |preds| && Trail(preds, live, w)
    requires n == FirstAlive(live, preds[w[|w| - 1]]) && n in preds[w[|w| - 1]] && n in Alive(live)
    ensures Trail(preds, live, w + [n])
  {
    var w' := w + [n];
    forall k | 0 <= k < |w'| - 1
      ensures Next(preds, live, w', k)
    {
      if k < |w| - 1 {
        assert Next(preds, live, w, k);
      }
    }
  }

  lemma TrailCycle(preds: Preds, live: seq<Status>, w: seq<int>, q: int)
    requires Graph(preds) && |live| == |preds| && Trail(preds, live, w) && 0 <= q < |w| - 1 && w[q] == w[|w| - 1]
    ensures OnCycle(preds, Alive(live), w[q])
  {
    var c := w[q..];
    forall k | 0 <= k < |c| - 1
      ensures Step(preds, c, k)
    {
      assert Next(preds, live, w, q + k);
    }
    assert Cycle(preds, Alive(live), w[q], c);
  }

  ghost function LiveSet(live: seq<Status>): set<int> {
    set i | 0 <= i < |live| && live[i] == Live
  }

  lemma OneFewer(live: seq<Status>, i: int)
    requires 0 <= i < |live| && live[i] == Live
    ensures |LiveSet(live[i := Once])| < |LiveSet(live)|
    ensures |LiveSet(live[i := Dead])| < |LiveSet(live)|
  {
    assert LiveSet(live[i := Once]) == LiveSet(live) - {i};
    assert LiveSet(live[i := Dead]) == LiveSet(live) - {i};
  }

  /** In the first walk: the nodes of w before its last are those seen once, each once. */
  ghost predicate Seen(live0: seq<Status>, live: seq<Status>, w: seq<int>) {
    && |live| == |live0| && |w| > 0
    && (forall k :: 0 <= k < |w| - 1 ==> 0 <= w[k] < |live|)
    && (forall x :: 0 <= x < |live| ==> live[x] == if x in w[..|w| - 1] then Once else live0[x])
    && (forall j, k :: 0 <= j < k < |w| - 1 ==> w[j] != w[k])
  }

  lemma SeenSnoc(live0: seq<Status>, live: seq<Status>, w: seq<int>, n: int)
    requires Seen(live0, live, w) && Settled(live0) && 0 <= w[|w| - 1] < |live| && live[w[|w| - 1]] == Live
    ensures Seen(live0, live[w[|w| - 1] := Once], w + [n])
  {
    var i := w[|w| - 1];
    assert (w + [n])[..|w|] == w == w[..|w| - 1] + [i];
    assert i !in w[..|w| - 1];
    forall j, k | 0 <= j < k < |w|
      ensures w[j] != w[k]
    {
      if k == |w| - 1 {
        assert w[j] == w[..|w| - 1][j];
      }
    }
  }

  lemma SeenSame(live0: seq<Status>, live: seq<Status>, w: seq<int>)
    requires Seen(live0, live, w) && forall k :: 0 <= k < |w| ==> w[k] in Alive(live0)
    ensures SameDead(live0, live) && Alive(live) == Alive(live0)
  {
    forall x | 0 <= x < |live|
      ensures live0[x] == Dead <==> live[x] == Dead
    {
      if x in w[..|w| - 1] {
        var k :| 0 <= k < |w| - 1 && w[..|w| - 1][k] == x;
        assert w[k] in Alive(live0);
      }
    }
  }

  function With(names: seq<string>, s: string): seq<string> {
    if s in names then names else names + [s]
  }

  /** The names of the pairs in the order in which they are first mentioned. */
  ghost function FirstMentions(pairs: seq<(string, string)>): seq<string> {
    if pairs == [] then []
    else
      var last := pairs[|pairs| - 1];
      With(With(FirstMentions(pairs[..|pairs| - 1]), last.0), last.1)
  }

  lemma MentionsSnoc(pairs: seq<(string, string)>, pair: (string, string))
    ensures FirstMentions(pairs + [pair]) == With(With(FirstMentions(pairs), pair.0), pair.1)
  {
    assert (pairs + [pair])[..|pairs|] == pairs;
  }

  /** What is read later comes after what was read before. */
  lemma {:induction false} MentionsInOrder(pairs: seq<(string, string)>, more: seq<(string, string)>)
    ensures FirstMentions(pairs) <= FirstMentions(pairs + more)
    decreases |more|
  {
    if more == [] {
      assert pairs + more == pairs;
    } else {
      var front := more[..|more| - 1];
      MentionsInOrder(pairs, front);
      assert (pairs + more)[..|pairs + more| - 1] == pairs + front;
    }
  }

  ghost predicate AllLive(live: seq<Status>) {
    forall i :: 0 <= i < |live| ==> live[i] == Live
  }

  class Sorter {
    var names: seq<string>
    var preds: Preds
    var live: seq<Status>

    ghost predicate Valid()
      reads this
    {
      |names| == |preds| == |live| && Graph(preds)
    }

    /** The names read are the nodes, and a pair of different names is an edge. */
    ghost predicate Read(pairs: seq<(string, string)>)
      reads this
    {
      Valid() && Nodes(names, pairs) && names == FirstMentions(pairs) && Edges(names, preds, pairs) && AllLive(live)
    }

    constructor ()
      ensures Read([])
    {
      names, preds, live := [], [], [];
    }

    /** The node of a name, which joins the list if it is new. */
    method Index(s: string) returns (i: int)
      requires Valid() && AllLive(live)
      modifies this
      ensures Valid() && AllLive(live) && 0 <= i < |names| && names[i] == s
      ensures names == With(old(names), s)
      ensures preds == if s in old(names) then old(preds) else old(preds) + [[]]
    {
      i := 0;
      while i < |names|
        invariant 0 <= i <= |names| && s !in names[..i]
      {
        if names[i] == s {
          return;
        }
        i := i + 1;
      }
      assert names[..i] == names;
      names, preds, live := names + [s], preds + [[]], live + [Live];
    }

    method Present(i: int, j: int) returns (r: bool)
      requires Valid() && 0 <= j < |preds|
      ensures r <==> i in preds[j]
    {
      var t := 0;
      while t < |preds[j]|
        invariant 0 <= t <= |preds[j]| && i !in preds[j][..t]
      {
        if preds[j][t] == i {
          return true;
        }
        t := t + 1;
      }
      assert preds[j][..t] == preds[j];
      return false;
    }

    /** One turn of the reading loop. */
    method Enter(pair: (string, string), ghost pairs: seq<(string, string)>)
      requires Read(pairs)
      modifies this
      ensures Read(pairs + [pair])
    {
      hide Distinct, Named, AllMentioned, Edges, Graph, AllLive, FirstMentions;
      ghost var names0 := names;
      if pair.0 !in names {
        NodeAdded(names, preds, pairs, pair.0);
      }
      var i := Index(pair.0);
      if pair.1 !in names {
        NodeAdded(names, preds, pairs, pair.1);
      }
      var j := Index(pair.1);
      NamesRead(names0, pairs, pair, names);
      MentionsSnoc(pairs, pair);
      EdgeRead(names, preds, pairs, pair, i, j);
      var there := Present(i, j);
      if i == j || there {
        return;
      }
      preds := preds[j := [i] + preds[j]];
    }

    /** Whether a predecessor of i is unprinted. */
    method Anypred(i: int) returns (r: bool)
      requires Valid() && 0 <= i < |preds| && Settled(live)
      ensures r <==> HasAlive(live, preds[i])
    {
      var t := 0;
      while t < |preds[i]|
        invariant 0 <= t <= |preds[i]|
        invariant forall k :: 0 <= k < t ==> preds[i][k] !in Alive(live)
      {
        if live[preds[i][t]] == Live {
          return true;
        }
        t := t + 1;
      }
      return false;
    }

    /** The inner loop of findloop; it does not run off the list when some predecessor is alive. */
    method Follow(i: int) returns (n: int)
      requires Valid() && 0 <= i < |preds| && HasAlive(live, preds[i])
      ensures n == FirstAlive(live, preds[i]) && n in Alive(live) && n in preds[i]
    {
      var p := 0;
      FirstAliveIs(live, preds[i]);
      assert preds[i][0..] == preds[i];
      while true
        invariant 0 <= p <= |preds[i]|
        invariant FirstAlive(live, preds[i][p..]) == FirstAlive(live, preds[i])
        decreases |preds[i]| - p
      {
        assert p < |preds[i]|;
        assert preds[i][p..][1..] == preds[i][p + 1..];
        n := preds[i][p];
        if live[n] != Dead {
          break;
        }
        p := p + 1;
      }
    }

    /** findloop's first walk, until it meets a node that it has passed. */
    method FirstWalk(start: int) returns (i: int, ghost w: seq<int>, ghost q: int)
      requires Valid() && Settled(live) && Stuck(preds, live) && start in Alive(live)
      modifies this`live
      ensures Valid() && Trail(preds, old(live), w) && Seen(old(live), live, w)
      ensures 0 <= q < |w| - 1 && w[q] == w[|w| - 1] == i && w[0] == start
    {
      hide Graph, Trail, Seen, FirstAlive, Stuck, SameDead;
      ghost var live0 := live;
      i, w := start, [start];
      StartTrail(preds, live, start);
      while live[i] == Live
        invariant Valid() && Trail(preds, live0, w) && Seen(live0, live, w)
        invariant |w| > 0 && w[|w| - 1] == i && w[0] == start
        invariant i in Alive(live0) && |live| == |live0|
        decreases |LiveSet(live)|
      {
        OneFewer(live, i);
        SeenSnoc(live0, live, w, i);
        live := live[i := Once];
        TrailAlive(preds, live0, w);
        SeenAlive(live0, live, w, i);
        StuckAt(preds, live0, live, i);
        var n := Follow(i);
        FirstAliveAgain(preds, live0, live, i);
        TrailSnoc(preds, live0, w, n);
        SeenNext(live0, live, w, i, n);
        w := w + [n];
        i := n;
      }
      q := MetAt(live0, live, w);
    }

    /** findloop's second walk, once around the cycle. */
    method SecondWalk(start: int, ghost live0: seq<Status>, ghost w: seq<int>, ghost q: int) returns (i: int)
      requires Valid() && Graph(preds) && |live0| == |preds| && Settled(live0) && Stuck(preds, live0)
      requires Trail(preds, live0, w) && Seen(live0, live, w) && 0 <= q < |w| - 1 && w[q] == w[|w| - 1] == start
      modifies this`live
      ensures Valid() && SameDead(live0, live) && i == start
    {
      hide Graph, Trail, FirstAlive, Stuck, HasAlive;
      ghost var live1, t := live, q;
      TrailAlive(preds, live0, w);
      SeenSame(live0, live, w);
      OnceOn(live0, live, w, q);
      i := start;
      while live[i] == Once
        invariant Valid() && |live| == |live0| && SameDead(live0, live) && q <= t <= |w| - 1 && i == w[t]
        invariant forall k :: q <= k < t ==> 0 <= w[k] < |live| && live[w[k]] == Twice
        invariant forall k :: t <= k < |w| - 1 ==> 0 <= w[k] < |live| && live[w[k]] == Once
        decreases |w| - t
      {
        assert t < |w| - 1;
        live := live[i := Twice];
        StuckAt(preds, live0, live, i);
        i := Follow(i);
        FirstAliveAgain(preds, live0, live, w[t]);
        TrailAt(preds, live0, w, t);
        t := t + 1;
      }
    }

    /** A node on a cycle of unprinted nodes, when every unprinted node waits for another: where the
        way w from the first unprinted node, which always goes on to the first unprinted predecessor,
        first comes back to itself. */
    method Findloop() returns (i: int, ghost w: seq<int>)
      requires Valid() && Settled(live) && Stuck(preds, live) && Alive(live) != {}
      modifies this`live
      ensures Valid() && live == old(live)
      ensures i in Alive(live) && OnCycle(preds, Alive(live), i)
      ensures Trail(preds, live, w) && (forall k :: k in Alive(live) ==> w[0] <= k)
      ensures w[|w| - 1] == i && i in w[..|w| - 1] && forall j, k :: 0 <= j < k < |w| - 1 ==> w[j] != w[k]
    {
      hide Graph, Trail, Stuck, Seen, OnCycle;
      ghost var live0 := live;
      i := 0;
      while i < |live|
        invariant 0 <= i <= |live| && forall k :: 0 <= k < i ==> live[k] != Live
      {
        if live[i] == Live {
          break;
        }
        i := i + 1;
      }
      ghost var q;
      i, w, q := FirstWalk(i);
      OnceOn(live0, live, w, q);
      assert w[..|w| - 1][q] == i;
      TrailCycle(preds, live0, w, q);
      TrailAlive(preds, live0, w);
      i := SecondWalk(i, live0, w, q);
      var j := 0;
      while j < |live|
        invariant 0 <= j <= |live| && |live| == |live0| && SameDead(live0, live)
        invariant forall k :: 0 <= k < j ==> live[k] == live0[k]
      {
        if live[j] != Dead {
          live := live[j := Live];
        }
        j := j + 1;
      }
      assert live == live0;
    }

    /** One sweep: the first unprinted node without unprinted predecessors, if there is one. */
    method Sweep() returns (any: bool, i: int)
      requires Valid() && Settled(live)
      ensures any <==> Alive(live) != {}
      ensures 0 <= i <= |live|
      ensures any && i < |live| ==> live[i] == Live && !HasAlive(live, preds[i])
      ensures forall k :: 0 <= k < i && live[k] != Dead ==> HasAlive(live, preds[k])
      ensures any && i == |live| ==> Stuck(preds, live)
    {
      hide HasAlive, Graph;
      any, i := false, 0;
      while i < |live|
        invariant 0 <= i <= |live|
        invariant forall k :: 0 <= k < i && live[k] != Dead ==> HasAlive(live, preds[k])
        invariant any <==> exists k :: 0 <= k < i && live[k] != Dead
      {
        if live[i] == Live {
          any := true;
          assert i in Alive(live);
          var waits := Anypred(i);
          if !waits {
            return;
          }
        }
        i := i + 1;
      }
      if any {
        ghost var k :| 0 <= k < i && live[k] != Dead;
        assert k in Alive(live);
      }
    }

    /** The second loop of main: the order in which the nodes are printed. */
    method Print() returns (out: seq<int>)
      requires Valid() && AllLive(live)
      modifies this`live
      ensures Valid() && Ordering(preds, out)
    {
      hide Graph, OnCycle, HasAlive, Stuck;
      out := [];
      assert Alive(live) == Left(|preds|, out);
      while true
        invariant Valid() && Settled(live) && Alive(live) == Left(|preds|, out)
        invariant InOrder(preds, out)
        decreases |LiveSet(live)|
      {
        var any, i := Sweep();
        if !any {
          break;
        }
        if i == |live| {
          ghost var w;
          i, w := Findloop();
        }
        PrintOne(preds, live, out, i);
        OneFewer(live, i);
        out := out + [i];
        live := live[i := Dead];
      }
      NoneLeft(|preds|, out);
    }

    /** tsort: the names printed for the pairs read. */
    method Sort(pairs: seq<(string, string)>) returns (out: seq<string>)
      requires Read([])
      modifies this
      ensures Distinct(out) && forall s :: s in out <==> Mentioned(pairs, s)
      ensures Valid() && names == FirstMentions(pairs) && Edges(names, preds, pairs)
      ensures exists order: seq<int> :: Ordering(preds, order) && Spelled(names, order, out)
      ensures Acyclic(preds) ==>
                forall x, y :: 0 <= x < |out| && 0 <= y < |out| && x != y && (out[x], out[y]) in pairs ==> x < y
    {
      hide Distinct, Named, AllMentioned, Edges, Graph, Ordering, Acyclic, Mentioned;
      var k := 0;
      assert pairs[..0] == [];
      while k < |pairs|
        invariant 0 <= k <= |pairs| && Read(pairs[..k])
      {
        assert pairs[..k + 1] == pairs[..k] + [pairs[k]];
        Enter(pairs[k], pairs[..k]);
        k := k + 1;
      }
      assert pairs[..k] == pairs;
      var order := Print();
      Printable(preds, order);
      var list := names;
      out := seq(|order|, x requires 0 <= x < |order| && 0 <= order[x] < |list| => list[order[x]]);
      NamesPrinted(names, preds, pairs, order, out);
      assert Spelled(names, order, out);
    }
  }

  /** The nodes in order, by their names. */
  ghost predicate Spelled(names: seq<string>, order: seq<int>, out: seq<string>) {
    |out| == |order| && forall x :: 0 <= x < |order| ==> 0 <= order[x] < |names| && out[x] == names[order[x]]
  }

  /** The nodes below n that are not in s. */
  ghost function Left(n: nat, s: seq<int>): set<int> {
    set i | 0 <= i < n && i !in s
  }

  /** Once the nodes in done are printed, no unprinted node has to come before i. */
  ghost predicate Ready(preds: Preds, done: seq<int>, i: int) {
    0 <= i < |preds| && i !in done && forall p :: p in preds[i] ==> p in done
  }

  /** When out[k] is printed, it is the first node on the list that no unprinted node has to come
      before, or there is none and it is on a cycle of unprinted nodes. */
  ghost predicate Due(preds: Preds, out: seq<int>, k: int)
    requires 0 <= k < |out|
  {
    && 0 <= out[k] < |preds| && out[k] !in out[..k]
    && if Ready(preds, out[..k], out[k]) then forall i :: 0 <= i < out[k] ==> !Ready(preds, out[..k], i)
       else (forall i :: !Ready(preds, out[..k], i)) && OnCycle(preds, Left(|preds|, out[..k]), out[k])
  }

  ghost predicate InOrder(preds: Preds, out: seq<int>) {
    forall k :: 0 <= k < |out| ==> Due(preds, out, k)
  }

  /** Every node is printed once, when it is due. */
  ghost predicate Ordering(preds: Preds, out: seq<int>) {
    InOrder(preds, out) && forall i :: 0 <= i < |preds| ==> i in out
  }

  lemma PrintOne(preds: Preds, live: seq<Status>, out: seq<int>, i: int)
    requires Graph(preds) && |live| == |preds| && Settled(live)
    requires Alive(live) == Left(|preds|, out) && InOrder(preds, out)
    requires 0 <= i < |live| && live[i] == Live
    requires if HasAlive(live, preds[i]) then Stuck(preds, live) && OnCycle(preds, Alive(live), i)
             else forall k :: 0 <= k < i && live[k] != Dead ==> HasAlive(live, preds[k])
    ensures InOrder(preds, out + [i]) && Settled(live[i := Dead]) && Alive(live[i := Dead]) == Left(|preds|, out + [i])
  {
    hide OnCycle;
    var out' := out + [i];
    assert out'[..|out|] == out;
    assert i in Alive(live);
    assert Alive(live[i := Dead]) == Alive(live) - {i};
    assert Left(|preds|, out') == Left(|preds|, out) - {i};
    forall k | 0 <= k < |out'|
      ensures Due(preds, out', k)
    {
      if k < |out| {
        assert out'[..k] == out[..k];
        assert Due(preds, out, k);
      } else {
        forall x
          ensures Ready(preds, out, x) <==> 0 <= x < |preds| && live[x] != Dead && !HasAlive(live, preds[x])
        {
          ReadyIs(preds, live, out, x);
        }
      }
    }
  }

  lemma ReadyIs(preds: Preds, live: seq<Status>, out: seq<int>, x: int)
    requires Graph(preds) && |live| == |preds| && Alive(live) == Left(|preds|, out)
    ensures Ready(preds, out, x) <==> 0 <= x < |preds| && live[x] != Dead && !HasAlive(live, preds[x])
  {
    if 0 <= x < |preds| {
      assert x in Alive(live) <==> x in Left(|preds|, out);
      forall p | p in preds[x]
        ensures p in Alive(live) <==> p !in out
      {
        var k :| 0 <= k < |preds[x]| && preds[x][k] == p;
        assert p in Alive(live) <==> p in Left(|preds|, out);
      }
    }
  }

  /** Without cycles there is just one such order. */
  lemma {:induction false} OneOrder(preds: Preds, out: seq<int>, out': seq<int>, k: nat)
    requires Acyclic(preds) && Ordering(preds, out) && Ordering(preds, out') && k <= |out| && k <= |out'|
    ensures out[..k] == out'[..k]
  {
    hide OnCycle, Ready;
    if k > 0 {
      OneOrder(preds, out, out', k - 1);
      NeverStuck(preds, out, k - 1);
      NeverStuck(preds, out', k - 1);
      var x, y := out[k - 1], out'[k - 1];
      assert x == y;
      assert out[..k] == out[..k - 1] + [x] && out'[..k] == out'[..k - 1] + [y];
    }
  }

  lemma NeverStuck(preds: Preds, out: seq<int>, k: int)
    requires Acyclic(preds) && Ordering(preds, out) && 0 <= k < |out|
    ensures Ready(preds, out[..k], out[k]) && 0 <= out[k]
    ensures forall i :: 0 <= i < out[k] ==> !Ready(preds, out[..k], i)
  {
    hide OnCycle, Ready;
    assert Due(preds, out, k);
    if OnCycle(preds, Left(|preds|, out[..k]), out[k]) {
      CycleWider(preds, Left(|preds|, out[..k]), Left(|preds|, []), out[k]);
    }
  }

  lemma OrderIsOnly(preds: Preds, out: seq<int>, out': seq<int>)
    requires Acyclic(preds) && Ordering(preds, out) && Ordering(preds, out')
    ensures out == out'
  {
    hide Acyclic, OnCycle;
    if |out| <= |out'| {
      OnlyPrefix(preds, out, out');
    } else {
      OnlyPrefix(preds, out', out);
    }
  }

  lemma OnlyPrefix(preds: Preds, out: seq<int>, out': seq<int>)
    requires Acyclic(preds) && Ordering(preds, out) && Ordering(preds, out') && |out| <= |out'|
    ensures out == out'
  {
    hide Acyclic, OnCycle;
    var n := |out|;
    OneOrder(preds, out, out', n);
    assert out[..n] == out;
    assert n < |out'| ==> Due(preds, out', n);
    assert out'[..n] == out';
  }

  lemma NoneLeft(n: nat, out: seq<int>)
    requires Left(n, out) == {}
    ensures forall i :: 0 <= i < n ==> i in out
  {
    forall i | 0 <= i < n
      ensures i in out
    {
      assert i !in Left(n, out);
    }
  }

  // ----- what an order of this kind is

  ghost predicate Acyclic(preds: Preds) {
    forall i :: !OnCycle(preds, Left(|preds|, []), i)
  }

  lemma CycleWider(preds: Preds, a: set<int>, b: set<int>, i: int)
    requires OnCycle(preds, a, i) && a <= b
    ensures OnCycle(preds, b, i)
  {
    var w :| Cycle(preds, a, i, w);
    assert Cycle(preds, b, i, w);
  }

  /** Of a graph without cycles every node is printed after all its predecessors. */
  lemma AcyclicOrder(preds: Preds, out: seq<int>, k: int, p: int)
    requires Ordering(preds, out) && Acyclic(preds) && 0 <= k < |out| && 0 <= out[k] < |preds| && p in preds[out[k]]
    ensures p in out[..k]
  {
    hide OnCycle;
    NeverStuck(preds, out, k);
  }

  /** Each node is printed once. */
  lemma PrintedOnce(preds: Preds, out: seq<int>, j: int, k: int)
    requires Ordering(preds, out) && 0 <= j < k < |out|
    ensures out[j] != out[k]
  {
    hide OnCycle;
    assert Due(preds, out, k);
    assert out[j] == out[..k][j];
  }

  lemma {:induction false} WalkDown(preds: Preds, out: seq<int>, w: seq<int>, k: int) returns (j: int)
    requires Graph(preds) && forall j, p :: 0 <= j < |out| && 0 <= out[j] < |preds| && p in preds[out[j]] ==>
              p in out[..j]
    requires Walk(preds, Left(|preds|, []), w) && |w| > 0 && 0 <= k < |out| && out[k] == w[0]
    ensures 0 <= j <= k - (|w| - 1) && out[j] == w[|w| - 1]
    decreases |w|
  {
    if |w| == 1 {
      j := k;
    } else {
      assert Step(preds, w, 0);
      assert w[1] in out[..k];
      var i :| 0 <= i < k && out[..k][i] == w[1];
      var rest := w[1..];
      forall x | 0 <= x < |rest| - 1
        ensures Step(preds, rest, x)
      {
        assert Step(preds, w, x + 1);
      }
      j := WalkDown(preds, out, rest, i);
    }
  }

  /** Only a graph without cycles can be printed with every node after its predecessors. */
  lemma OrderedIsAcyclic(preds: Preds, out: seq<int>)
    requires Graph(preds) && Ordering(preds, out)
    requires forall j, p :: 0 <= j < |out| && 0 <= out[j] < |preds| && p in preds[out[j]] ==> p in out[..j]
    ensures Acyclic(preds)
  {
    hide Ordering, Graph;
    forall i
      ensures !OnCycle(preds, Left(|preds|, []), i)
    {
      if OnCycle(preds, Left(|preds|, []), i) {
        var w :| Cycle(preds, Left(|preds|, []), i, w);
        var k := PlaceOf(preds, out, i);
        var j := WalkDown(preds, out, w, k);
        PrintedOnce(preds, out, j, k);
      }
    }
  }

  lemma PlaceOf(preds: Preds, out: seq<int>, i: int) returns (k: int)
    requires Ordering(preds, out) && 0 <= i < |preds|
    ensures 0 <= k < |out| && out[k] == i
  {
    assert i in out;
    k :| 0 <= k < |out| && out[k] == i;
  }

  lemma Printable(preds: Preds, order: seq<int>)
    requires Ordering(preds, order)
    ensures forall x :: 0 <= x < |order| ==> 0 <= order[x] < |preds|
  {
    hide OnCycle;
    forall x | 0 <= x < |order|
      ensures 0 <= order[x] < |preds|
    {
      assert Due(preds, order, x);
    }
  }

  lemma NamesPrinted(names: seq<string>, preds: Preds, pairs: seq<(string, string)>, order: seq<int>, out: seq<string>)
    requires Nodes(names, pairs) && Edges(names, preds, pairs)
    requires Ordering(preds, order) && |names| == |preds| && |out| == |order|
    requires forall x :: 0 <= x < |order| ==> 0 <= order[x] < |names| && out[x] == names[order[x]]
    ensures Distinct(out) && forall s :: s in out <==> Mentioned(pairs, s)
    ensures Acyclic(preds) ==>
              forall x, y :: 0 <= x < |out| && 0 <= y < |out| && x != y && (out[x], out[y]) in pairs ==> x < y
  {
    hide Acyclic, Ordering, Mentioned;
    forall x, y | 0 <= x < y < |out|
      ensures out[x] != out[y]
    {
      PrintedOnce(preds, order, x, y);
      assert names[order[x]] != names[order[y]];
    }
    forall s
      ensures s in out <==> Mentioned(pairs, s)
    {
      if Mentioned(pairs, s) {
        MentionedIn(names, pairs, s);
        var i :| 0 <= i < |names| && names[i] == s;
        var x := PlaceOf(preds, order, i);
        assert out[x] == s;
      }
    }
    if Acyclic(preds) {
      forall x, y | 0 <= x < |out| && 0 <= y < |out| && x != y && (out[x], out[y]) in pairs
        ensures x < y
      {
        assert order[x] in preds[order[y]];
        AcyclicOrder(preds, order, y, order[x]);
        var z :| 0 <= z < y && order[..y][z] == order[x];
        if z < x {
          PrintedOnce(preds, order, z, x);
        }
      }
    }
  }

  lemma MentionedIn(names: seq<string>, pairs: seq<(string, string)>, s: string)
    requires Named(names, pairs) && Mentioned(pairs, s)
    ensures s in names
  {
  }

  // ----- reading the graph

  ghost predicate Mentioned(pairs: seq<(string, string)>, s: string) {
    exists k :: 0 <= k < |pairs| && (pairs[k].0 == s || pairs[k].1 == s)
  }

  ghost predicate Distinct(names: seq<string>) {
    forall i, j :: 0 <= i < j < |names| ==> names[i] != names[j]
  }

  ghost predicate Named(names: seq<string>, pairs: seq<(string, string)>) {
    forall k :: 0 <= k < |pairs| ==> pairs[k].0 in names && pairs[k].1 in names
  }

  ghost predicate AllMentioned(names: seq<string>, pairs: seq<(string, string)>) {
    forall s :: s in names ==> Mentioned(pairs, s)
  }

  /** The names are those of the pairs, each once. */
  ghost predicate Nodes(names: seq<string>, pairs: seq<(string, string)>) {
    Distinct(names) && Named(names, pairs) && AllMentioned(names, pairs)
  }

  ghost predicate Edges(names: seq<string>, preds: Preds, pairs: seq<(string, string)>) {
    && |names| == |preds|
    && forall i, j :: 0 <= i < |names| && 0 <= j < |names| ==>
      (i in preds[j] <==> i != j && (names[i], names[j]) in pairs)
  }

  /** A node without edges joins the graph. */
  lemma NodeAdded(names: seq<string>, preds: Preds, pairs: seq<(string, string)>, s: string)
    requires Distinct(names) && Named(names, pairs) && Edges(names, preds, pairs) && Graph(preds) && s !in names
    ensures Distinct(names + [s]) && Named(names + [s], pairs) && Edges(names + [s], preds + [[]], pairs)
  {
    var names', preds' := names + [s], preds + [[]];
    forall i, j | 0 <= i < |names'| && 0 <= j < |names'|
      ensures i in preds'[j] <==> i != j && (names'[i], names'[j]) in pairs
    {
      if i == |names| || j == |names| {
        assert (names'[i], names'[j]) !in pairs;
      }
    }
  }

  lemma NamesRead(names: seq<string>, pairs: seq<(string, string)>, pair: (string, string), names': seq<string>)
    requires AllMentioned(names, pairs) && Named(names', pairs)
    requires names' == With(With(names, pair.0), pair.1)
    ensures AllMentioned(names', pairs + [pair]) && Named(names', pairs + [pair])
  {
    var pairs' := pairs + [pair];
    forall s | s in names'
      ensures Mentioned(pairs', s)
    {
      if s in names {
        assert Mentioned(pairs, s);
        var k :| 0 <= k < |pairs| && (pairs[k].0 == s || pairs[k].1 == s);
        assert pairs'[k] == pairs[k];
      } else {
        assert pairs'[|pairs|] == pair;
      }
    }
  }

  /** An edge joins the graph, unless it is there. */
  lemma EdgeRead(names: seq<string>, preds: Preds, pairs: seq<(string, string)>, pair: (string, string), i: int, j: int)
    requires Distinct(names) && Edges(names, preds, pairs) && Graph(preds)
    requires 0 <= i < |names| && 0 <= j < |names| && pair == (names[i], names[j])
    ensures var preds' := if i == j || i in preds[j] then preds else preds[j := [i] + preds[j]];
      Edges(names, preds', pairs + [pair]) && Graph(preds')
  {
    var preds' := if i == j || i in preds[j] then preds else preds[j := [i] + preds[j]];
    forall x, y | 0 <= x < |names| && 0 <= y < |names|
      ensures x in preds'[y] <==> x != y && (names[x], names[y]) in pairs + [pair]
    {
      assert (names[x], names[y]) == pair <==> x == i && y == j;
      assert y == j && x != i ==> (x in preds'[y] <==> x in preds[y]);
    }
  }

  lemma StartTrail(preds: Preds, live: seq<Status>, start: int)
    requires Graph(preds) && |live| == |preds| && start in Alive(live)
    ensures Trail(preds, live, [start]) && Seen(live, live, [start])
  {
  }

  lemma TrailAlive(preds: Preds, live: seq<Status>, w: seq<int>)
    requires Graph(preds) && |live| == |preds| && Trail(preds, live, w)
    ensures |w| > 0 && forall k :: 0 <= k < |w| ==> w[k] in Alive(live) && 0 <= w[k] < |live|
  {
  }

  lemma TrailAt(preds: Preds, live: seq<Status>, w: seq<int>, k: int)
    requires Graph(preds) && |live| == |preds| && Trail(preds, live, w) && 0 <= k < |w| - 1
    ensures 0 <= w[k] < |preds| && HasPreds(preds, live, w[k]) && w[k + 1] == FirstAlive(live, preds[w[k]])
  {
    assert Next(preds, live, w, k);
  }

  /** The predecessors of a node are nodes. */
  ghost predicate HasPreds(preds: Preds, live: seq<Status>, i: int)
    requires 0 <= i < |preds|
  {
    forall k :: 0 <= k < |preds[i]| ==> 0 <= preds[i][k] < |live|
  }

  lemma SeenAlive(live0: seq<Status>, live: seq<Status>, w: seq<int>, i: int)
    requires |w| > 0 && w[|w| - 1] == i && Seen(live0, live, w + [i]) && forall k :: 0 <= k < |w| ==>
              w[k] in Alive(live0)
    ensures SameDead(live0, live) && Alive(live) == Alive(live0)
  {
    assert forall k :: 0 <= k < |w + [i]| ==> (w + [i])[k] in Alive(live0);
    SeenSame(live0, live, w + [i]);
  }

  lemma SeenNext(live0: seq<Status>, live: seq<Status>, w: seq<int>, i: int, n: int)
    requires Seen(live0, live, w + [i])
    ensures Seen(live0, live, w + [n])
  {
    assert (w + [n])[..|w|] == w == (w + [i])[..|w|];
    assert forall k :: 0 <= k < |w| ==> (w + [n])[k] == (w + [i])[k];
  }

  lemma StuckAt(preds: Preds, live0: seq<Status>, live: seq<Status>, i: int)
    requires Stuck(preds, live0) && SameDead(live0, live) && i in Alive(live0)
    ensures HasAlive(live, preds[i])
  {
    assert HasAlive(live0, preds[i]);
    var k :| 0 <= k < |preds[i]| && preds[i][k] in Alive(live0);
    assert preds[i][k] in Alive(live);
  }

  lemma FirstAliveAgain(preds: Preds, live0: seq<Status>, live: seq<Status>, i: int)
    requires Graph(preds) && |live0| == |preds| && SameDead(live0, live) && 0 <= i < |preds|
    ensures HasPreds(preds, live, i) && HasPreds(preds, live0, i)
    ensures FirstAlive(live, preds[i]) == FirstAlive(live0, preds[i])
  {
    FirstAliveSame(live, live0, preds[i]);
  }

  lemma MetAt(live0: seq<Status>, live: seq<Status>, w: seq<int>) returns (q: int)
    requires Seen(live0, live, w) && Settled(live0) && w[|w| - 1] in Alive(live0) && live[w[|w| - 1]] != Live
    ensures 0 <= q < |w| - 1 && w[q] == w[|w| - 1]
  {
    assert w[|w| - 1] in w[..|w| - 1];
    q :| 0 <= q < |w| - 1 && w[..|w| - 1][q] == w[|w| - 1];
  }

  lemma OnceOn(live0: seq<Status>, live: seq<Status>, w: seq<int>, q: int)
    requires Seen(live0, live, w) && 0 <= q < |w| - 1
    ensures forall k :: q <= k < |w| - 1 ==> 0 <= w[k] < |live| && live[w[k]] == Once
    ensures forall j, k :: 0 <= j < k < |w| - 1 ==> w[j] != w[k]
  {
    forall k | q <= k < |w| - 1
      ensures live[w[k]] == Once
    {
      assert w[k] == w[..|w| - 1][k];
    }
  }
}
