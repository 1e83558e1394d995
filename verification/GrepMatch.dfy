/** The matcher of grep.c: advance, which backs up from the longest repetition, and the scan over
    the places of a line. Patterns are lists of compiled items. */
module GrepMatch {

  datatype Elem = Chr(c: int) | Dot | Dol | Class(s: set<int>) | Bra(n: int) | Ket(n: int)

  /** An element of a compiled pattern, repeated any number of times if starred. */
  datatype Item = Item(e: Elem, star: bool)

  /** The text of a line: chars other than 0, which ends it. */
  ghost predicate IsText(t: seq<int>) {
    forall i :: 0 <= i < |t| ==> 1 <= t[i] < 256
  }

  /** No element fits the terminator, and only elements that fit one char are starred. */
  ghost predicate WellFormed(items: seq<Item>) {
    forall i :: 0 <= i < |items| ==> ItemOk(items[i])
  }

  predicate ItemOk(x: Item) {
    && (x.e.Chr? ==> x.e.c != 0)
    && (x.e.Class? ==> 0 !in x.e.s)
    && (x.star ==> x.e.Chr? || x.e.Dot? || x.e.Class?)
  }

  // ----- what a pattern means

  /** Whether a char is of the kind an element asks for; a class looks at seven bits of it. */
  predicate Fits(e: Elem, c: int) {
    match e
    case Chr(x) => c == x
    case Dot => c != 0
    case Class(s) => c % 128 in s
    case _ => false
  }

  ghost predicate AllFit(e: Elem, t: seq<int>, i: int, k: int) {
    0 <= i <= k <= |t| && forall x :: i <= x < k ==> Fits(e, t[x])
  }

  /** The items match the piece of the text from i to j. */
  ghost predicate Piece(items: seq<Item>, t: seq<int>, i: int, j: int)
    decreases |items|
  {
    0 <= i <= j <= |t| &&
    if items == [] then i == j
    else
      var e, rest := items[0].e, items[1..];
      if items[0].star then exists k :: AllFit(e, t, i, k) && Piece(rest, t, k, j)
      else if e.Dol? then i == |t| && Piece(rest, t, i, j)
      else if e.Bra? || e.Ket? then Piece(rest, t, i, j)
      else i < |t| && Fits(e, t[i]) && Piece(rest, t, i + 1, j)
  }

  /** The items match some piece that begins at i. */
  ghost predicate Prefix(items: seq<Item>, t: seq<int>, i: int) {
    exists j :: Piece(items, t, i, j)
  }

  lemma PrefixNil(t: seq<int>, i: int)
    requires 0 <= i <= |t|
    ensures Prefix([], t, i)
  {
    assert Piece([], t, i, i);
  }

  lemma PrefixOne(items: seq<Item>, t: seq<int>, i: int)
    requires items != [] && !items[0].star && 0 <= i <= |t|
    ensures var e, rest := items[0].e, items[1..];
      Prefix(items, t, i) <==>
        if e.Dol? then i == |t| && Prefix(rest, t, i)
        else if e.Bra? || e.Ket? then Prefix(rest, t, i)
        else i < |t| && Fits(e, t[i]) && Prefix(rest, t, i + 1)
  {
    hide Fits;
    var e, rest := items[0].e, items[1..];
    if e.Dol? || e.Bra? || e.Ket? {
      if Prefix(rest, t, i) && (e.Dol? ==> i == |t|) {
        var j :| Piece(rest, t, i, j);
        PieceBounds(rest, t, i, j);
        assert Piece(items, t, i, j);
      }
      if Prefix(items, t, i) {
        var j :| Piece(items, t, i, j);
        assert Piece(rest, t, i, j);
      }
    } else {
      if i < |t| && Fits(e, t[i]) && Prefix(rest, t, i + 1) {
        var j :| Piece(rest, t, i + 1, j);
        PieceBounds(rest, t, i + 1, j);
        assert Piece(items, t, i, j);
      }
      if Prefix(items, t, i) {
        var j :| Piece(items, t, i, j);
        assert Piece(rest, t, i + 1, j);
      }
    }
  }

  lemma PrefixStar(items: seq<Item>, t: seq<int>, i: int)
    requires items != [] && items[0].star && 0 <= i <= |t|
    ensures Prefix(items, t, i) <==> exists k :: AllFit(items[0].e, t, i, k) && Prefix(items[1..], t, k)
  {
    hide Fits;
    var e, rest := items[0].e, items[1..];
    if k :| AllFit(e, t, i, k) && Prefix(rest, t, k) {
      var j :| Piece(rest, t, k, j);
      PieceBounds(rest, t, k, j);
      assert Piece(items, t, i, j);
    }
    if Prefix(items, t, i) {
      var j :| Piece(items, t, i, j);
      var k :| AllFit(e, t, i, k) && Piece(rest, t, k, j);
      assert Prefix(rest, t, k);
    }
  }

  lemma PieceBounds(items: seq<Item>, t: seq<int>, i: int, j: int)
    requires Piece(items, t, i, j)
    ensures 0 <= i <= j <= |t|
  {
  }

  // ----- the matcher

  /** The char at a place of the line, or the terminator after it; nothing beyond is read. */
  function Char(t: seq<int>, lp: int): int
    requires 0 <= lp <= |t|
  {
    if lp < |t| then t[lp] else 0
  }

  lemma EndFitsNot(x: Item)
    requires ItemOk(x)
    ensures !Fits(x.e, 0)
  {
  }

  /** The loop that takes as many chars as fit; n is where it stops. */
  method Longest(e: Elem, t: seq<int>, lp: int) returns (n: int)
    requires ItemOk(Item(e, true)) && 0 <= lp <= |t|
    ensures lp <= n <= |t| && AllFit(e, t, lp, n) && (n < |t| ==> !Fits(e, t[n]))
  {
    n := lp;
    while Fits(e, Char(t, n))
      invariant lp <= n <= |t| && AllFit(e, t, lp, n)
      decreases |t| - n
    {
      EndFitsNot(Item(e, true));
      n := n + 1;
    }
  }

  /** A repetition can stop at the places up to the longest one. */
  lemma StarChoices(items: seq<Item>, t: seq<int>, lp: int, n: int)
    requires items != [] && items[0].star && 0 <= lp <= n <= |t|
    requires AllFit(items[0].e, t, lp, n) && (n < |t| ==> !Fits(items[0].e, t[n]))
    ensures Prefix(items, t, lp) <==> exists k :: lp <= k <= n && Prefix(items[1..], t, k)
  {
    hide Fits, Prefix;
    PrefixStar(items, t, lp);
    var e, rest := items[0].e, items[1..];
    if k :| lp <= k <= n && Prefix(rest, t, k) {
      assert AllFit(e, t, lp, k);
    }
    if k :| AllFit(e, t, lp, k) && Prefix(rest, t, k) {
      assert k <= n;
    }
  }

  /** A pattern that begins with a char matches only where that char is. */
  lemma CharFirst(items: seq<Item>, t: seq<int>, k: int)
    requires items != [] && items[0].e.Chr? && !items[0].star && ItemOk(items[0]) && 0 <= k <= |t|
    ensures Char(t, k) != items[0].e.c ==> !Prefix(items, t, k)
  {
    PrefixOne(items, t, k);
  }

  method Advance(t: seq<int>, lp0: int, items: seq<Item>, ep0: int) returns (r: bool)
    requires IsText(t) && WellFormed(items) && 0 <= lp0 <= |t| && 0 <= ep0 <= |items|
    ensures r <==> Prefix(items[ep0..], t, lp0)
    decreases |items| - ep0, 0
  {
    hide IsText, Prefix, Fits, AllFit;
    var lp, ep := lp0, ep0;
    while true
      invariant 0 <= lp <= |t| && ep0 <= ep <= |items|
      invariant Prefix(items[ep..], t, lp) <==> Prefix(items[ep0..], t, lp0)
      decreases |items| - ep
    {
      if ep == |items| {
        PrefixNil(t, lp);
        return true;
      }
      var x := items[ep];
      ghost var here := items[ep..];
      assert here[0] == x && here[1..] == items[ep + 1..];
      EndFitsNot(x);
      ep := ep + 1;
      if !x.star {
        PrefixOne(here, t, lp);
        match x.e {
          case Bra(_) =>
          case Ket(_) =>
          case Dol =>
            if Char(t, lp) != 0 {
              TextNotEnd(t, lp);
              return false;
            }
            TextNotEnd(t, lp);
          case _ =>
            if !Fits(x.e, Char(t, lp)) {
              return false;
            }
            lp := lp + 1;
        }
        continue;
      }
      var curlp := lp;
      lp := Longest(x.e, t, lp);
      StarChoices(here, t, curlp, lp);
      if lp == curlp {
        continue;
      }
      r := Backup(t, curlp, lp, items, ep);
      return;
    }
  }

  lemma TextNotEnd(t: seq<int>, lp: int)
    requires IsText(t) && 0 <= lp <= |t|
    ensures Char(t, lp) == 0 <==> lp == |t|
  {
  }

  /** The end of advance: the rest is tried at the places from lp0 down to curlp, with a look at
      the first char if the rest begins with one. */
  method Backup(t: seq<int>, curlp: int, lp0: int, items: seq<Item>, ep: int) returns (r: bool)
    requires IsText(t) && WellFormed(items) && 0 <= curlp <= lp0 <= |t| && 0 <= ep <= |items|
    ensures r <==> exists k :: curlp <= k <= lp0 && Prefix(items[ep..], t, k)
    decreases |items| - ep, 1
  {
    hide IsText, Prefix;
    var lp := lp0;
    var quick := ep < |items| && items[ep].e.Chr? && !items[ep].star;
    while true
      invariant curlp <= lp <= lp0
      invariant forall k :: lp < k <= lp0 ==> !Prefix(items[ep..], t, k)
      decreases lp
    {
      if quick {
        assert items[ep..][0] == items[ep];
        CharFirst(items[ep..], t, lp);
      }
      if !quick || Char(t, lp) == items[ep].e.c {
        r := Advance(t, lp, items, ep);
        if r {
          return;
        }
      }
      if lp <= curlp {
        break;
      }
      lp := lp - 1;
    }
    r := false;
  }

  // ----- the line

  /** A line is selected by a pattern: at its start, or anywhere. */
  ghost predicate Selected(circf: bool, items: seq<Item>, t: seq<int>) {
    if circf then Prefix(items, t, 0) else exists i :: 0 <= i <= |t| && Prefix(items, t, i)
  }

  /** The scan of execute over one line. */
  method Scan(circf: bool, items: seq<Item>, t: seq<int>) returns (found: bool)
    requires IsText(t) && WellFormed(items)
    ensures found <==> Selected(circf, items, t)
  {
    hide Prefix;
    assert items[0..] == items;
    if circf {
      found := Advance(t, 0, items, 0);
      return;
    }
    var p1 := 0;
    var quick := 0 < |items| && items[0].e.Chr? && !items[0].star;
    while true
      invariant 0 <= p1 <= |t|
      invariant forall k :: 0 <= k < p1 ==> !Prefix(items, t, k)
      decreases |t| - p1
    {
      if quick {
        CharFirst(items, t, p1);
      }
      if !quick || Char(t, p1) == items[0].e.c {
        found := Advance(t, p1, items, 0);
        if found {
          return;
        }
      }
      if Char(t, p1) == 0 {
        break;
      }
      p1 := p1 + 1;
    }
    found := false;
  }
}
