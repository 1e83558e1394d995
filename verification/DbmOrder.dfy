/** cmpdatum of dbm.c: the order in which the keys of a page are walked. */
module DbmOrder {
  import opened DbmPage

  /** A char of the PDP-11 is signed. */
  function Signed(b: int): int {
    if b < 128 then b else b - 256
  }

  function FirstDifference(a: Item, b: Item, i: nat): int
    requires |a| == |b| && i <= |a|
    decreases |a| - i
  {
    if i == |a| then 0
    else if a[i] != b[i] then Signed(a[i]) - Signed(b[i])
    else FirstDifference(a, b, i + 1)
  }

  /** Shorter first, then by the first differing byte. */
  function Compare(a: Item, b: Item): int {
    if |a| != |b| then |a| - |b| else FirstDifference(a, b, 0)
  }

  method Cmpdatum(a: Item, b: Item) returns (r: int)
    ensures r == Compare(a, b)
  {
    var n := |a|;
    if n != |b| {
      return n - |b|;
    }
    var p := 0;
    while n > 0
      invariant n + p == |a| && p <= |a| && Compare(a, b) == FirstDifference(a, b, p)
    {
      if a[p] != b[p] {
        return Signed(a[p]) - Signed(b[p]);
      }
      p, n := p + 1, n - 1;
    }
    r := 0;
  }

  ghost predicate Before(a: Item, b: Item) {
    Compare(a, b) < 0
  }

  lemma {:induction false} DifferenceZero(a: Item, b: Item, i: nat)
    requires |a| == |b| && i <= |a| && ByteItem(a) && ByteItem(b)
    ensures FirstDifference(a, b, i) == 0 <==> a[i..] == b[i..]
    ensures FirstDifference(a, b, i) == -FirstDifference(b, a, i)
    decreases |a| - i
  {
    if i < |a| {
      assert a[i..] == [a[i]] + a[i + 1..] && b[i..] == [b[i]] + b[i + 1..];
      DifferenceZero(a, b, i + 1);
      if a[i] != b[i] {
        assert a[i..][0] != b[i..][0];
      }
    }
  }

  lemma {:induction false} DifferenceTransitive(a: Item, b: Item, c: Item, i: nat)
    requires |a| == |b| == |c| && i <= |a| && ByteItem(a) && ByteItem(b) && ByteItem(c)
    requires FirstDifference(a, b, i) < 0 && FirstDifference(b, c, i) < 0
    ensures FirstDifference(a, c, i) < 0
    decreases |a| - i
  {
    if i < |a| && a[i] == b[i] == c[i] {
      DifferenceTransitive(a, b, c, i + 1);
    }
  }

  /** Exactly one of before, equal and after holds. */
  lemma CompareZero(a: Item, b: Item)
    requires ByteItem(a) && ByteItem(b)
    ensures Compare(a, b) == 0 <==> a == b
    ensures Before(a, b) <==> Compare(b, a) > 0
    ensures Before(b, a) <==> Compare(a, b) > 0
  {
    if |a| == |b| {
      DifferenceZero(a, b, 0);
      assert a[0..] == a && b[0..] == b;
    }
  }

  /** The byte at k, counted from the lowest char up: 128 to 255, which are negative, come first. */
  function Height(a: Item, k: int): int
    requires 0 <= k < |a|
  {
    (a[k] + 128) % 256
  }

  lemma {:induction false} DifferenceDecides(a: Item, b: Item, i: nat)
    requires |a| == |b| && i <= |a| && ByteItem(a) && ByteItem(b)
    ensures FirstDifference(a, b, i) < 0 <==>
            exists k :: i <= k < |a| && a[i..k] == b[i..k] && Height(a, k) < Height(b, k)
    decreases |a| - i
  {
    if i < |a| {
      DifferenceDecides(a, b, i + 1);
      if a[i] == b[i] {
        forall k | i < k < |a|
          ensures a[i..k] == b[i..k] <==> a[i + 1..k] == b[i + 1..k]
        {
          assert a[i..k] == [a[i]] + a[i + 1..k] && b[i..k] == [b[i]] + b[i + 1..k];
        }
      } else {
        assert a[i..i] == b[i..i];
        forall k | i < k < |a|
          ensures a[i..k] != b[i..k]
        {
          assert a[i..k][0] != b[i..k][0];
        }
      }
    }
  }

  /** A key is before another if it is shorter, or as long and smaller in the first char in which
      they differ. */
  lemma BeforeExactly(a: Item, b: Item)
    requires ByteItem(a) && ByteItem(b)
    ensures Before(a, b) <==>
            |a| < |b| || (|a| == |b| && exists k :: 0 <= k < |a| && a[..k] == b[..k] && Height(a, k) < Height(b, k))
  {
    if |a| == |b| {
      DifferenceDecides(a, b, 0);
      assert forall k :: 0 <= k < |a| ==> a[0..k] == a[..k] && b[0..k] == b[..k];
    }
  }

  lemma BeforeTransitive(a: Item, b: Item, c: Item)
    requires ByteItem(a) && ByteItem(b) && ByteItem(c) && Before(a, b) && Before(b, c)
    ensures Before(a, c)
  {
    if |a| == |b| == |c| {
      DifferenceTransitive(a, b, c, 0);
    }
  }
}
