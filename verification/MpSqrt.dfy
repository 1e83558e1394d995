/** Square root by Newton's method: msqrt.c. */
module MpSqrt {
  import opened MpNumber
  import opened MpAdd
  import opened MpMult
  import opened MpDivide
  import opened MpLong
  import opened MpGcd

  /** The first guess: one digit above zeros. It lies above the root. */
  lemma FirstGuess(a: seq<int>, x: seq<int>)
    requires Canonical(a) && a != []
    requires |x| == (if |a| % 2 == 1 then (1 + |a|) / 2 else 1 + |a| / 2)
    requires forall j :: 0 <= j < |x| - 1 ==> x[j] == 0
    requires x[|x| - 1] == if |a| % 2 == 1 then 256 else 1
    ensures Canonical(x) && 1 <= Val(x) && Val(a) < Val(x) * Val(x)
  {
    hide Val, Pow;
    var m := |x| - 1;
    PrefixSnoc(x, m);
    assert x[..m + 1] == x;
    ValZeros(x[..m]);
    ValBound(a);
    PowAdd(m, m);
    assert Val(x) == Pow(m) * x[m];
    ValLower(x);
    if |a| % 2 == 1 {
      PowStep(m + m);
      assert |a| == m + m + 1;
      assert (Pow(m) * 256) * (Pow(m) * 256) == 65536 * (Pow(m) * Pow(m));
    } else {
      assert |a| == m + m;
      assert Pow(m) * 1 == Pow(m);
    }
  }

  /** Newton's step from above the root stays above it. */
  lemma NewtonAbove(a: int, x: int, q: int, rem: int, y: int, bit: int)
    requires 1 <= a && 1 <= x && a == q * x + rem && 0 <= rem < x
    requires x + q == 2 * y + bit && 0 <= bit < 2
    ensures a < (y + 1) * (y + 1)
  {
    var t := x + q + 1;
    SquareOfSum(x, q + 1);
    OneMore(x, q);
    QuotientPositive(x, q, a, rem);
    SquareMono(t, 2 * (y + 1));
    SquareTwice(y + 1);
  }

  lemma QuotientPositive(x: int, q: int, a: int, rem: int)
    requires 1 <= a && 1 <= x && a == q * x + rem && 0 <= rem < x
    ensures q >= 0
  {
    assert q < 0 ==> q * x <= (-1) * x;
  }

  /** The square of a sum is at least four times the product. */
  lemma SquareOfSum(x: int, z: int)
    ensures (x + z) * (x + z) >= 4 * (x * z)
  {
    var d := x - z;
    assert d * d >= 0;
    assert (x + z) * (x + z) - 4 * (x * z) == d * d;
  }

  lemma OneMore(x: int, q: int)
    ensures x * (q + 1) == q * x + x
  {
  }

  lemma SquareTwice(y: int)
    ensures (2 * y) * (2 * y) == 4 * (y * y)
  {
  }

  lemma SquareMono(x: int, y: int)
    requires 0 <= x <= y
    ensures x * x <= y * y
  {
    MulMono(x, y, x);
    MulMono(x, y, y);
  }

  /** Where the step no longer descends, x is the root. */
  lemma NewtonStops(a: int, x: int, q: int, rem: int, y: int, bit: int)
    requires 1 <= x && a == q * x + rem && 0 <= rem && x + q == 2 * y + bit && 0 <= bit < 2 && x <= y
    ensures x * x <= a
  {
    MulMono(x, q, x);
  }

  /** msqrt: the integer square root b of a, and the remainder r = a - b * b. */
  method Msqrt(a: seq<int>) returns (b: seq<int>, r: seq<int>)
    requires Canonical(a) && |a| <= 32767
    ensures Canonical(b) && Canonical(r)
    ensures Val(b) * Val(b) <= Val(a) < (Val(b) + 1) * (Val(b) + 1)
    ensures Val(r) == Val(a) - Val(b) * Val(b)
  {
    hide Val, Pow;
    EmptyVal();
    if a == [] {
      return [], [];
    }
    var len := if |a| % 2 == 1 then (1 + |a|) / 2 else 1 + |a| / 2;
    var top := if |a| % 2 == 1 then 256 else 1;
    var x := seq(len, j requires 0 <= j < len => if j == len - 1 then top else 0);
    FirstGuess(a, x);
    ValBound(a);
    ZeroIsEmpty(a);
    AboveNext(Val(a), Val(x));
    while true
      invariant Canonical(x) && 1 <= Val(x) && |x| <= 32767
      invariant Val(a) < (Val(x) + 1) * (Val(x) + 1)
      decreases Val(x)
    {
      ZeroIsEmpty(x);
      var y, junk := MDiv(a, x);
      ghost var q := Val(y);
      y := Madd(x, y);
      var bit;
      y, bit := SDiv(y, 2);
      NewtonAbove(Val(a), Val(x), q, Val(junk), Val(y), bit);
      var cmp := Mcmp(x, y);
      if cmp <= 0 {
        NewtonStops(Val(a), Val(x), q, Val(junk), Val(y), bit);
        break;
      }
      ValBound(y);
      RootPositive(Val(a), Val(y));
      NotLonger(y, x);
      x := y;
    }
    b := x;
    ZeroIsEmpty(x);
    x := Mult(x, x);
    var d := Msub(a, x);
    r := d.mag;
  }

  lemma AboveNext(a: int, x: int)
    requires a < x * x && 1 <= x
    ensures a < (x + 1) * (x + 1)
  {
    SquareMono(x, x + 1);
  }

  lemma RootPositive(a: int, y: int)
    requires 1 <= a < (y + 1) * (y + 1) && y >= 0
    ensures y >= 1
  {
    assert y == 0 ==> (y + 1) * (y + 1) == 1;
  }
}
