/** Short division, s_div of mout.c, and the trial digit, m_trq of mdiv.c. */
module MpDivide {
  import opened MpNumber
  import opened MpAdd
  import opened MpMult

  // ----- division by one digit

  /** The digits of q from i up, and the running remainder x, account for those of a. */
  ghost predicate QuotFrom(a: seq<int>, n: int, q: seq<int>, i: nat, x: int) {
    && |q| == |a| && i <= |a| && Digits(q[i..]) && 0 <= x < n
    && Val(a[i..]) == n * Val(q[i..]) + x
  }

  lemma QuotStep(a: seq<int>, n: int, q: seq<int>, i: nat, x: int)
    requires Digits(a) && 0 < n < 32768 && QuotFrom(a, n, q, i + 1, x)
    ensures var y := x * 32768 + a[i];
            0 <= y < 0x4000_0000 && QuotFrom(a, n, q[i := y / n], i, y % n)
  {
    var y := x * 32768 + a[i];
    var d, q' := y / n, q[i := y / n];
    QuotDigit(x, a[i], n);
    assert a[i..] == [a[i]] + a[i + 1..] && q'[i..] == [d] + q[i + 1..];
    assert a[i..][1..] == a[i + 1..] && q'[i..][1..] == q[i + 1..];
    assert Val(a[i..]) == a[i] + 32768 * Val(a[i + 1..]);
    assert Val(q'[i..]) == d + 32768 * Val(q[i + 1..]);
    hide Val;
    QuotMath(n, d, y % n, a[i], Val(a[i + 1..]), Val(q[i + 1..]), x);
  }

  lemma QuotDigit(x: int, d: int, n: int)
    requires 0 <= x < n < 32768 && 0 <= d < 32768
    ensures var y := x * 32768 + d; 0 <= y < 0x4000_0000 && 0 <= y / n < 32768 && y == n * (y / n) + y % n
  {
    var y := x * 32768 + d;
    var q := y / n;
    DivFacts(y, n);
    if q >= 32768 {
      MulMono(32768, q, n);
    }
    if q < 0 {
      MulMono(q, -1, n);
    }
  }

  lemma QuotMath(n: int, d: int, rem: int, ai: int, va: int, vq: int, x: int)
    requires va == n * vq + x && x * 32768 + ai == n * d + rem
    ensures ai + 32768 * va == n * (d + 32768 * vq) + rem
  {
    MulSwap(32768, n, vq);
    assert n * (d + 32768 * vq) == n * d + n * (32768 * vq);
  }

  lemma DivFacts(y: int, n: int)
    requires n > 0
    ensures y == n * (y / n) + y % n && 0 <= y % n < n
  {
  }

  /** s_div: quotient and remainder by a number n of one digit. Of a number without digits the
      code looks at the storage word below the quotient, which is the allocator's and not
      zero; the model leaves the length at zero. */
  method SDiv(a: seq<int>, n: int) returns (q: seq<int>, r: int)
    requires Canonical(a) && 0 < n < 32768
    ensures Canonical(q) && 0 <= r < n && Val(a) == n * Val(q) + r
  {
    hide Val, QuotFrom;
    var qval := new int[|a|];
    var x, i := 0, |a|;
    QuotStart(a, n, qval[..]);
    while i > 0
      invariant 0 <= i <= |a| && QuotFrom(a, n, qval[..], i, x)
    {
      i := i - 1;
      QuotStep(a, n, qval[..], i, x);
      ghost var s := qval[..];
      x := Int32(x * 32768 + a[i]);
      qval[i] := x / n;
      assert qval[..] == s[i := x / n];
      x := x % n;
    }
    r := x;
    q := qval[..];
    QuotEnd(a, n, q, x);
    if |q| > 0 && q[|q| - 1] == 0 {
      q := q[..|q| - 1];
    }
  }

  lemma QuotStart(a: seq<int>, n: int, q: seq<int>)
    requires |q| == |a| && 0 < n
    ensures QuotFrom(a, n, q, |a|, 0)
  {
  }

  /** Only one leading digit of the quotient can be zero. */
  lemma QuotEnd(a: seq<int>, n: int, q: seq<int>, r: int)
    requires Canonical(a) && 0 < n < 32768 && QuotFrom(a, n, q, 0, r)
    ensures 0 <= r < n && Digits(q) && Val(a) == n * Val(q) + r
    ensures |q| > 0 && q[|q| - 1] == 0 ==> Canonical(q[..|q| - 1]) && Val(q[..|q| - 1]) == Val(q)
  {
    assert a[0..] == a && q[0..] == q;
    var m := |q| - 1;
    if |q| > 0 && q[m] == 0 {
      PrefixSnoc(q, m);
      assert q[..m + 1] == q;
      var t := q[..m];
      if t != [] && t[m - 1] == 0 {
        PrefixSnoc(t, m - 1);
        assert t[..m] == t;
        ValBound(t[..m - 1]);
        ValLower(a);
        TooSmall(n, Val(q), Pow(m - 1), r);
        assert false;
      }
    }
  }

  lemma TooSmall(n: int, v: int, p: int, r: int)
    requires 0 < n < 32768 && 0 <= v < p && 0 <= r < n
    ensures n * v + r < 32768 * p
  {
    MulMono(v, p - 1, n);
    MulMono(n, 32768, p - 1);
  }

  // ----- the trial digit

  /** m_trq: the trial digit for the leading digits u1, u2, u3 of the dividend and v1, v2 of the
      divisor. It is the quotient of the leading parts, held below the base. */
  method Trq(v1: int, v2: int, u1: int, u2: int, u3: int) returns (d: int)
    requires 16384 <= v1 < 32768 && 0 <= v2 < 32768
    requires 0 <= u1 <= v1 && 0 <= u2 < 32768 && 0 <= u3 < 32768
    ensures 0 <= d < 32768
    ensures d * (v1 * 32768 + v2) <= (u1 * 32768 + u2) * 32768 + u3
    ensures d == 32767 || (u1 * 32768 + u2) * 32768 + u3 < (d + 1) * (v1 * 32768 + v2)
  {
    ghost var u, v := (u1 * 32768 + u2) * 32768 + u3, v1 * 32768 + v2;
    if u1 == v1 {
      d := 32767;
    } else {
      d := Int32(Int32(u1 * 32768) + u2) / v1;
      TrialDivision(v1, v2, u1 * 32768 + u2, u3, d);
    }
    while true
      invariant 0 <= d < 32768 && 0 <= u1 * 32768 + u2 - v1 * d < 65536
      invariant d == 32767 || u < (d + 1) * v
      decreases d
    {
      MulBound(v1, d);
      MulBound(v2, d);
      TrialMath(v1, v2, u1 * 32768 + u2, u3, d);
      var x1 := Int32(Int32(Int32(u1 * 32768) + u2) - Int32(v1 * d));
      x1 := Int32(Int32(Int32(x1 * 32768) + u3) - Int32(v2 * d));
      if x1 >= 0 {
        return d;
      }
      TrialDown(v1, v2, u1 * 32768 + u2, u3, d);
      d := d - 1;
    }
  }

  lemma MulBound(x: int, y: int)
    requires 0 <= x < 32768 && 0 <= y < 32768
    ensures 0 <= x * y <= 1073676289
  {
    DigitProduct(x, y);
  }

  lemma TrialMath(v1: int, v2: int, w: int, u3: int, d: int)
    ensures (w - v1 * d) * 32768 + u3 - v2 * d == w * 32768 + u3 - d * (v1 * 32768 + v2)
  {
  }

  lemma TrialDown(v1: int, v2: int, w: int, u3: int, d: int)
    requires 0 <= v1 < 32768 && 0 <= v2 < 32768 && 0 <= d < 32768 && 0 <= u3 && 0 <= w - v1 * d
    requires (w - v1 * d) * 32768 + u3 - v2 * d < 0
    ensures d > 0 && w - v1 * (d - 1) < 65536 && w - v1 * (d - 1) >= 0
    ensures w * 32768 + u3 < d * (v1 * 32768 + v2)
  {
    TrialMath(v1, v2, w, u3, d);
    MulBound(v2, d);
    assert v1 * (d - 1) == v1 * d - v1;
  }

  lemma TrialDivision(v1: int, v2: int, w: int, u3: int, d: int)
    requires 16384 <= v1 < 32768 && 0 <= v2 < 32768 && 0 <= w < v1 * 32768 && 0 <= u3 < 32768 && d == w / v1
    ensures 0 <= d < 32768 && 0 <= w - v1 * d < v1
    ensures w * 32768 + u3 < (d + 1) * (v1 * 32768 + v2)
  {
    DivFacts(w, v1);
    if d >= 32768 {
      MulMono(32768, d, v1);
    }
    if d < 0 {
      MulMono(d, -1, v1);
    }
    var e := d + 1;
    assert v1 * e == v1 * d + v1 > w;
    MulMono(w + 1, v1 * e, 32768);
    assert e * (v1 * 32768 + v2) == (v1 * e) * 32768 + e * v2;
    MulMono(0, e, v2);
  }
}
