/** Multiplication: mult.c. A column of products is summed in an unsigned view of a long whose
    top bit is cleared and counted in a separate carry. */
module MpMult {
  import opened MpNumber
  import opened MpAdd

  // ----- the product as a sum of columns

  /** The contribution of digit j of a to column i. */
  ghost function Term(a: seq<int>, b: seq<int>, i: int, j: int): int
    requires 0 <= j < |a|
  {
    if 0 <= i - j < |b| then a[j] * b[i - j] else 0
  }

  /** Column i restricted to the first j digits of a. */
  ghost function Column(a: seq<int>, b: seq<int>, i: int, j: nat): int
    requires j <= |a|
  {
    if j == 0 then 0 else Column(a, b, i, j - 1) + Term(a, b, i, j - 1)
  }

  /** The first n columns with their weights. */
  ghost function Columns(a: seq<int>, b: seq<int>, n: nat): int {
    if n == 0 then 0 else Columns(a, b, n - 1) + Pow(n - 1) * Column(a, b, n - 1, |a|)
  }

  /** Digit k of b shifted up by s places, in column i. */
  ghost function Shifted(b: seq<int>, s: int, i: int): int {
    if 0 <= i - s < |b| then b[i - s] else 0
  }

  ghost function ShiftedSum(b: seq<int>, s: int, n: nat): int {
    if n == 0 then 0 else ShiftedSum(b, s, n - 1) + Pow(n - 1) * Shifted(b, s, n - 1)
  }

  lemma {:induction false} ShiftedSumVal(b: seq<int>, s: nat, n: nat)
    ensures n <= s ==> ShiftedSum(b, s, n) == 0
    ensures s <= n <= s + |b| ==> ShiftedSum(b, s, n) == Pow(s) * Val(b[..n - s])
    ensures n >= s + |b| ==> ShiftedSum(b, s, n) == Pow(s) * Val(b)
    decreases n
  {
    assert b[..|b|] == b;
    if n > 0 {
      ShiftedSumVal(b, s, n - 1);
      var k := n - 1 - s;
      if 0 <= k < |b| {
        PrefixSnoc(b, k);
        PowAdd(s, k);
        assert ShiftedSum(b, s, n) == ShiftedSum(b, s, n - 1) + Pow(s + k) * b[k];
        hide Val, Pow, ShiftedSum;
        ShiftMath(Pow(s), Val(b[..k]), Pow(k), b[k]);
      }
    }
  }

  lemma ShiftMath(ps: int, v: int, pk: int, d: int)
    ensures ps * v + (ps * pk) * d == ps * (v + pk * d)
  {
    MulAssoc(ps, pk, d);
  }

  lemma {:induction false} ColumnPrefix(a: seq<int>, b: seq<int>, i: int, j: nat, m: nat)
    requires j <= m <= |a|
    ensures Column(a, b, i, j) == Column(a[..m], b, i, j)
  {
    if j > 0 {
      ColumnPrefix(a, b, i, j - 1, m);
    }
  }

  /** One more digit of a adds a shifted multiple of b to the columns. */
  lemma {:induction false} ColumnsSnoc(a: seq<int>, b: seq<int>, n: nat)
    requires a != []
    ensures Columns(a, b, n) == Columns(a[..|a| - 1], b, n) + a[|a| - 1] * ShiftedSum(b, |a| - 1, n)
    decreases n
  {
    if n > 0 {
      ColumnsSnoc(a, b, n - 1);
      ColumnSnoc(a, b, n - 1);
      var m := |a| - 1;
      assert Columns(a, b, n) == Columns(a, b, n - 1) + Pow(n - 1) * Column(a, b, n - 1, |a|);
      assert Columns(a[..m], b, n) == Columns(a[..m], b, n - 1) + Pow(n - 1) * Column(a[..m], b, n - 1, m);
      assert ShiftedSum(b, m, n) == ShiftedSum(b, m, n - 1) + Pow(n - 1) * Shifted(b, m, n - 1);
      hide Columns, Column, ShiftedSum, Shifted, Pow;
      SnocMath(Columns(a[..m], b, n - 1), ShiftedSum(b, m, n - 1), Pow(n - 1), Column(a[..m], b, n - 1, m),
               a[m], Shifted(b, m, n - 1));
    }
  }

  lemma ColumnSnoc(a: seq<int>, b: seq<int>, i: nat)
    requires a != []
    ensures var m := |a| - 1; Column(a, b, i, |a|) == Column(a[..m], b, i, m) + a[m] * Shifted(b, m, i)
  {
    var m := |a| - 1;
    ColumnPrefix(a, b, i, m, m);
    assert Term(a, b, i, m) == a[m] * Shifted(b, m, i);
  }

  lemma SnocMath(c: int, s: int, p: int, k: int, x: int, t: int)
    ensures (c + x * s) + p * (k + x * t) == (c + p * k) + x * (s + p * t)
  {
    MulSwap(p, x, t);
  }

  lemma ProductMath(va: int, vb: int, p: int, d: int)
    ensures va * vb + d * (p * vb) == (va + p * d) * vb
  {
    MulAssoc(d, p, vb);
  }

  lemma MulSwap(p: int, x: int, t: int)
    ensures p * (x * t) == x * (p * t)
  {
  }

  /** Enough columns make the product. */
  lemma {:induction false} ColumnsProduct(a: seq<int>, b: seq<int>, n: nat)
    requires n >= |a| + |b|
    ensures Columns(a, b, n) == Val(a) * Val(b)
    decreases |a|
  {
    if a == [] {
      NoColumns(b, n);
    } else {
      var m := |a| - 1;
      ColumnsSnoc(a, b, n);
      ColumnsProduct(a[..m], b, n);
      ShiftedSumVal(b, m, n);
      PrefixSnoc(a, m);
      assert a[..m + 1] == a;
      ProductMath(Val(a[..m]), Val(b), Pow(m), a[m]);
    }
  }

  lemma {:induction false} NoColumns(b: seq<int>, n: nat)
    ensures Columns([], b, n) == 0
  {
    if n > 0 {
      NoColumns(b, n - 1);
    }
  }

  /** Only the digits from lo to hi of a matter in column i. */
  lemma {:induction false} ColumnBelow(a: seq<int>, b: seq<int>, i: int, j: nat)
    requires j <= |a| && j <= i - |b| + 1
    ensures Column(a, b, i, j) == 0
  {
    if j > 0 {
      ColumnBelow(a, b, i, j - 1);
    }
  }

  lemma {:induction false} ColumnAbove(a: seq<int>, b: seq<int>, i: int, j: nat, k: nat)
    requires i + 1 <= j <= k <= |a|
    ensures Column(a, b, i, k) == Column(a, b, i, j)
    decreases k
  {
    if j < k {
      ColumnAbove(a, b, i, j, k - 1);
    }
  }

  lemma {:induction false} ColumnBound(a: seq<int>, b: seq<int>, i: int, lo: nat, hi: nat)
    requires Digits(a) && Digits(b) && lo <= hi <= |a|
    ensures 0 <= Column(a, b, i, hi) - Column(a, b, i, lo) <= (hi - lo) * 1073676289
    decreases hi
  {
    if lo < hi {
      ColumnBound(a, b, i, lo, hi - 1);
      if 0 <= i - (hi - 1) < |b| {
        DigitProduct(a[hi - 1], b[i - (hi - 1)]);
      }
    }
  }

  lemma DigitProduct(x: int, y: int)
    requires 0 <= x < 32768 && 0 <= y < 32768
    ensures 0 <= x * y <= 1073676289
  {
    MulMono(x, 32767, y);
    MulMono(y, 32767, 32767);
  }

  // ----- the program

  /** tradd: add x to the long sum; a bit carried into its sign is moved to carry. */
  function Tradd(carry: int, sum: int, x: int): (r: (int, int))
    requires 0 <= sum < 0x8000_0000 && 0 <= x < 0x4000_0000 && 0 <= carry < 32767
    ensures 0 <= r.1 < 0x8000_0000 && carry <= r.0 <= carry + 1
    ensures r.1 + 0x8000_0000 * r.0 == sum + x + 0x8000_0000 * carry
  {
    var u := (sum + x) % 0x1_0000_0000;
    var high, low := u / 0x1_0000, u % 0x1_0000;
    if high >= 0x8000 then (Int16(carry + 1), (high - 0x8000) * 0x1_0000 + low) else (carry, u)
  }

  /** One column of m_mult: macros S2 to S7. */
  method SumColumn(a: seq<int>, b: seq<int>, i: int, lo: int, hi: int, sum0: int) returns (digit: int, sum: int)
    requires Digits(a) && Digits(b) && 0 <= lo <= hi <= |a| && hi - lo <= 32767
    requires lo < hi ==> i - |b| < lo && hi <= i + 1
    requires 0 <= sum0 < 0x8000_0000
    ensures 0 <= digit < 32768 && 0 <= sum
    ensures digit + 32768 * sum == sum0 + Column(a, b, i, hi) - Column(a, b, i, lo)
  {
    hide Column, Tradd;
    sum := sum0;
    var carry := 0;
    for j := lo to hi
      invariant 0 <= sum < 0x8000_0000 && 0 <= carry <= j - lo
      invariant sum + 0x8000_0000 * carry == sum0 + Column(a, b, i, j) - Column(a, b, i, lo)
    {
      ColumnNext(a, b, i, j);
      DigitProduct(a[j], b[i - j]);
      var x := Int32(a[j] * b[i - j]);
      var t := Tradd(carry, sum, x);
      carry, sum := t.0, t.1;
    }
    digit, sum := PutDigit(carry, sum);
  }

  lemma ColumnNext(a: seq<int>, b: seq<int>, i: int, j: nat)
    requires j < |a| && 0 <= i - j < |b|
    ensures Column(a, b, i, j + 1) == Column(a, b, i, j) + a[j] * b[i - j]
  {
  }

  /** Macros S5 to S7: take the low digit, shift, and put the carry in the high half. */
  method PutDigit(carry: int, sum: int) returns (digit: int, sum': int)
    requires 0 <= sum < 0x8000_0000 && 0 <= carry <= 32767
    ensures 0 <= digit < 32768 && 0 <= sum' && digit + 32768 * sum' == sum + 0x8000_0000 * carry
  {
    digit := Low15(sum % 0x1_0000);
    sum' := Shift15(sum);
    sum' := carry * 0x1_0000 + sum' % 0x1_0000;
  }

  /** The first i digits of c and what is still to be carried make up the first i columns. */
  ghost predicate ProdTo(a: seq<int>, b: seq<int>, c: seq<int>, i: nat, sum: int) {
    && i <= |c| && Digits(c[..i]) && 0 <= sum <= |b| * 32768
    && Val(c[..i]) + sum * Pow(i) == Columns(a, b, i)
  }

  lemma ProdStep(a: seq<int>, b: seq<int>, c: seq<int>, i: nat, sum: int, lo: nat, hi: nat, d: int, sum': int)
    requires Digits(a) && Digits(b) && ProdTo(a, b, c, i, sum) && i < |c|
    requires lo <= hi <= |a| && hi - lo <= |b|
    requires lo == 0 || lo <= i - |b| + 1
    requires hi == |a| || hi == i + 1
    requires 0 <= d < 32768 && d + 32768 * sum' == sum + Column(a, b, i, hi) - Column(a, b, i, lo)
    ensures ProdTo(a, b, c[i := d], i + 1, sum')
  {
    hide Val, Columns, Column, Pow;
    WholeColumn(a, b, i, lo, hi);
    var c', p, x := c[i := d], Pow(i), Column(a, b, i, |a|);
    NextColumn(a, b, i);
    assert c'[..i] == c[..i];
    PrefixSnoc(c', i);
    CarryMath(Val(c[..i]), Columns(a, b, i), p, x, d, sum, sum');
  }

  lemma NextColumn(a: seq<int>, b: seq<int>, i: nat)
    ensures Columns(a, b, i + 1) == Columns(a, b, i) + Pow(i) * Column(a, b, i, |a|) && Pow(i + 1) == 32768 * Pow(i)
  {
    hide Column;
  }

  /** The part of a column that a loop adds up is all of it. */
  lemma WholeColumn(a: seq<int>, b: seq<int>, i: nat, lo: nat, hi: nat)
    requires Digits(a) && Digits(b) && lo <= hi <= |a| && hi - lo <= |b|
    requires (lo == 0 || lo <= i - |b| + 1) && (hi == |a| || hi == i + 1)
    ensures Column(a, b, i, hi) - Column(a, b, i, lo) == Column(a, b, i, |a|)
    ensures 0 <= Column(a, b, i, |a|) <= |b| * 1073676289
  {
    if lo > 0 {
      ColumnBelow(a, b, i, lo);
    }
    if hi == i + 1 {
      ColumnAbove(a, b, i, hi, |a|);
    }
    ColumnBound(a, b, i, lo, hi);
    MulMono(hi - lo, |b|, 1073676289);
  }

  lemma ProdEnd(a: seq<int>, b: seq<int>, c: seq<int>, sum: int)
    requires Digits(a) && Digits(b) && |c| == |a| + |b| && ProdTo(a, b, c, |c|, sum)
    ensures Digits(c) && Val(c) == Val(a) * Val(b)
  {
    hide Val, Pow, Columns;
    assert c[..|c|] == c;
    ColumnsProduct(a, b, |c|);
    ValBound(a);
    ValBound(b);
    ValBound(c);
    PowAdd(|a|, |b|);
    ProdEndMath(Val(c), sum, Pow(|c|), Val(a), Val(b), Pow(|a|), Pow(|b|));
  }

  lemma ProdEndMath(vc: int, sum: int, pc: int, va: int, vb: int, pa: int, pb: int)
    requires vc + sum * pc == va * vb && 0 <= vc < pc && 0 <= va < pa && 0 <= vb < pb && pc == pa * pb && sum >= 0
    ensures vc == va * vb
  {
    BelowProduct(va, vb, pa, pb);
    NothingLeft(vc, sum, pc, va * vb);
  }

  lemma NothingLeft(v: int, sum: int, p: int, prod: int)
    requires v + sum * p == prod < p && 0 <= v && 0 <= sum && 0 < p
    ensures v == prod
  {
    if sum > 0 {
      MulMono(1, sum, p);
    }
  }

  lemma BelowProduct(x: int, y: int, p: int, q: int)
    requires 0 <= x < p && 0 <= y < q
    ensures x * y < p * q
  {
    MulMono(x, p, y);
    assert p * y < p * q;
  }

  /** m_mult: the digits of the product, all |a| + |b| of them. */
  method MMult(a: seq<int>, b: seq<int>) returns (c: seq<int>)
    requires Digits(a) && Digits(b) && |b| <= |a| && |b| <= 32767
    ensures |c| == |a| + |b| && Digits(c) && Val(c) == Val(a) * Val(b)
  {
    hide Val, Pow, Columns, Column, ProdTo;
    var cval := new int[|a| + |b|];
    var sum, i := 0, 0;
    ProdStart(a, b, cval[..]);
    while i < |b|
      invariant 0 <= i <= |b| && ProdTo(a, b, cval[..], i, sum)
    {
      i, sum := OneDigit(a, b, cval, i, sum, 0, i + 1);
    }
    while i < |a|
      invariant |b| <= i <= |a| && ProdTo(a, b, cval[..], i, sum)
    {
      i, sum := OneDigit(a, b, cval, i, sum, i - |b| + 1, i + 1);
    }
    while i < |a| + |b|
      invariant |a| <= i <= |a| + |b| && ProdTo(a, b, cval[..], i, sum)
    {
      i, sum := OneDigit(a, b, cval, i, sum, i - |b| + 1, |a|);
    }
    c := cval[..];
    ProdEnd(a, b, c, sum);
  }

  /** The body of each of the three loops of m_mult. */
  method OneDigit(a: seq<int>, b: seq<int>, cval: array<int>, i: nat, sum: int, lo: nat, hi: nat)
    returns (i': nat, sum': int)
    requires Digits(a) && Digits(b) && |b| <= 32767 && i < cval.Length
    requires ProdTo(a, b, cval[..], i, sum)
    requires lo <= hi <= |a| && (lo == 0 || lo == i - |b| + 1) && (hi == |a| || hi == i + 1)
    requires hi - lo <= |b| && (lo < hi ==> i - |b| < lo && hi <= i + 1)
    modifies cval
    ensures i' == i + 1 && ProdTo(a, b, cval[..], i', sum')
  {
    hide Val, Pow, Columns, Column;
    var d;
    d, sum' := SumColumn(a, b, i, lo, hi, sum);
    ProdStep(a, b, cval[..], i, sum, lo, hi, d, sum');
    ghost var s := cval[..];
    cval[i] := d;
    assert cval[..] == s[i := d];
    i' := i + 1;
  }

  lemma ProdStart(a: seq<int>, b: seq<int>, c: seq<int>)
    ensures ProdTo(a, b, c, 0, 0)
  {
  }

  /** The magnitude that mult makes: with a zero operand it is a zero of one digit less than the
      other one has, which is canonical only if nothing is left. */
  method Mult(a: seq<int>, b: seq<int>) returns (c: seq<int>)
    requires Canonical(a) && Canonical(b) && (a != [] || b != [])
    requires |a| <= 32767 && |b| <= 32767
    ensures Digits(c) && Val(c) == Val(a) * Val(b)
    ensures Canonical(c) <==> (a != [] && b != []) || |a| + |b| == 1
  {
    hide Val, Pow;
    var z;
    if |a| < |b| {
      z := MMult(b, a);
    } else {
      z := MMult(a, b);
    }
    var n := |z| - 1;
    PrefixSnoc(z, n);
    assert z[..n + 1] == z;
    ZeroIsEmpty(a);
    ZeroIsEmpty(b);
    if a == [] || b == [] {
      NoProduct(Val(a), Val(b));
      ZeroDigits(z, n);
    }
    if z[n] != 0 {
      c := z;
    } else {
      c := z[..n];
      if a != [] && b != [] {
        ProductLength(a, b, c);
      }
    }
  }

  /** 32768 times zero is a zero of one digit. */
  method MultFails() returns (c: seq<int>)
    ensures Val(c) == 0 && !Canonical(c)
  {
    NoProduct(Val([0, 1]), 0);
    ZeroIsEmpty([]);
    c := Mult([0, 1], []);
  }

  lemma NoProduct(x: int, y: int)
    requires x == 0 || y == 0
    ensures x * y == 0
  {
  }

  lemma ZeroDigits(z: seq<int>, n: nat)
    requires Digits(z) && Val(z) == 0 && |z| == n + 1
    ensures z[n] == 0 && (Canonical(z[..n]) <==> n == 0)
  {
    hide Val, Pow;
    assert z[n] == 0 by {
      if z[n] != 0 {
        ZeroIsEmpty(z);
      }
    }
    PrefixSnoc(z, n);
    assert z[..n + 1] == z;
    assert Pow(n) * 0 == 0;
    if Canonical(z[..n]) {
      ZeroIsEmpty(z[..n]);
    }
  }

  /** The product of numbers of i and j digits has at least i + j - 1 digits. */
  lemma ProductLength(a: seq<int>, b: seq<int>, c: seq<int>)
    requires Canonical(a) && Canonical(b) && a != [] && b != []
    requires Digits(c) && |c| == |a| + |b| - 1 && Val(c) == Val(a) * Val(b)
    ensures Canonical(c)
  {
    hide Val, Pow;
    ValLower(a);
    ValLower(b);
    var m := |c| - 1;
    PowAdd(|a| - 1, |b| - 1);
    MulMono(Pow(|a| - 1), Val(a), Pow(|b| - 1));
    MulMono(Pow(|b| - 1), Val(b), Val(a));
    PrefixSnoc(c, m);
    assert c[..m + 1] == c;
    ValBound(c[..m]);
  }

  /** mult, for operands of either sign. With two zeros it looks at the word below the product,
      and what it makes is not told (ok is false). */
  method MultSigned(a: Signed, b: Signed) returns (ok: bool, c: Signed)
    requires IsSigned(a) && IsSigned(b) && |a.mag| <= 32767 && |b.mag| <= 32767
    ensures ok <==> a.mag != [] || b.mag != []
    ensures ok ==> Digits(c.mag) && SignedVal(c) == SignedVal(a) * SignedVal(b)
    ensures ok ==> (IsSigned(c) <==> (a.mag != [] && b.mag != []) || |a.mag| + |b.mag| == 1)
  {
    hide Val;
    var sign := 1;
    if a.neg {
      sign := -sign;
    }
    if b.neg {
      sign := -sign;
    }
    ok := a.mag != [] || b.mag != [];
    if !ok {
      return ok, a;
    }
    var z := Mult(a.mag, b.mag);
    c := Signed(sign < 0 && z != [], z);
    SignMath(Val(a.mag), Val(b.mag));
    ZeroVal(Signed(false, z));
  }

  lemma SignMath(x: int, y: int)
    ensures (-x) * y == -(x * y) && x * (-y) == -(x * y) && (-x) * (-y) == x * y
  {
  }
}
