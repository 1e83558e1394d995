/** Long division: m_dsb and m_div of mdiv.c. */
module MpLong {
  import opened MpNumber
  import opened MpAdd
  import opened MpMult
  import opened MpDivide

  // ----- the trial digit is right or one too large

  /** The leading digits of the window and the divisor, as m_trq is given them. */
  lemma Leading(s: seq<int>, k: nat)
    requires Digits(s) && k <= |s|
    ensures Val(s[k..]) * Pow(k) <= Val(s) < (Val(s[k..]) + 1) * Pow(k)
    ensures Digits(s[..k]) && Digits(s[k..])
  {
    hide Val, Pow;
    ValSplit(s, k);
    ValBound(s[..k]);
    var h, p := Val(s[k..]), Pow(k);
    assert (h + 1) * p == h * p + p && p * h == h * p;
  }

  lemma TwoDigits(s: seq<int>)
    requires |s| == 2
    ensures Val(s) == s[0] + 32768 * s[1]
  {
    assert s[1..] == [s[1]];
    assert Val([s[1]]) == s[1];
  }

  lemma ThreeDigits(s: seq<int>)
    requires |s| == 3
    ensures Val(s) == s[0] + 32768 * s[1] + 1073741824 * s[2]
  {
    assert s[1..] == [s[1], s[2]];
    TwoDigits(s[1..]);
  }

  /** If d is the quotient of the leading parts u3 / v2, held below the base, then the true
      quotient digit is d or d - 1. */
  lemma TrialGood(v: int, w: int, v2: int, u3: int, p: int, d: int)
    requires 0 < p && v2 * p <= v < (v2 + 1) * p && u3 * p <= w < (u3 + 1) * p
    requires 0 <= d < 32768 <= v2 && w < 32768 * v
    requires d * v2 <= u3 && (d == 32767 || u3 < (d + 1) * v2)
    ensures (d - 1) * v <= w < (d + 1) * v
  {
    if d < 32767 {
      MulMono(u3 + 1, (d + 1) * v2, p);
      MulAssoc(d + 1, v2, p);
      MulMono(v2 * p, v, d + 1);
    }
    if d == 0 {
      assert (d - 1) * v == -v;
      assert w >= 0 by { MulMono(0, u3, p); }
      assert v >= 0 by { MulMono(0, v2, p); }
    } else {
      MulMono(v, (v2 + 1) * p, d - 1);
      MulAssoc(d - 1, v2 + 1, p);
      assert (d - 1) * (v2 + 1) == d * v2 - v2 + d - 1;
      MulMono((d - 1) * (v2 + 1), u3, p);
    }
  }

  /** What m_div knows of the current window w and the scaled divisor v before each step. */
  ghost predicate Ready(v: seq<int>, w: seq<int>) {
    && |v| >= 2 && |w| == |v| + 1 && Digits(v) && Digits(w)
    && v[|v| - 1] >= 16384 && Val(w) < 32768 * Val(v)
  }

  lemma TopFits(v: seq<int>, w: seq<int>)
    requires Ready(v, w)
    ensures w[|v|] <= v[|v| - 1]
  {
    var n := |v|;
    Leading(w, n);
    Leading(v, n - 1);
    assert w[n..] == [w[n]] && v[n - 1..] == [v[n - 1]];
    assert Val([w[n]]) == w[n] && Val([v[n - 1]]) == v[n - 1];
    assert Pow(n) == 32768 * Pow(n - 1);
    TopMath(w[n], v[n - 1], Pow(n - 1), Val(w), Val(v));
  }

  lemma TopMath(x: int, y: int, p: int, w: int, v: int)
    requires x * (32768 * p) <= w < 32768 * v && v < (y + 1) * p && p > 0
    ensures x <= y
  {
    assert x * (32768 * p) == 32768 * (x * p);
    if x >= y + 1 {
      MulMono(y + 1, x, p);
    }
  }

  lemma TrialDigit(v: seq<int>, w: seq<int>, d: int)
    requires Ready(v, w) && 0 <= d < 32768
    requires var n := |v|;
             var v2, u3 := v[n - 1] * 32768 + v[n - 2], (w[n] * 32768 + w[n - 1]) * 32768 + w[n - 2];
             d * v2 <= u3 && (d == 32767 || u3 < (d + 1) * v2)
    ensures (d - 1) * Val(v) <= Val(w) < (d + 1) * Val(v)
  {
    hide Val, Pow;
    var n := |v|;
    Leading(v, n - 2);
    Leading(w, n - 2);
    var tv, tw := v[n - 2..], w[n - 2..];
    assert tv[0] == v[n - 2] && tv[1] == v[n - 1];
    assert tw[0] == w[n - 2] && tw[1] == w[n - 1] && tw[2] == w[n];
    TwoDigits(tv);
    ThreeDigits(tw);
    var v2, u3 := v[n - 1] * 32768 + v[n - 2], (w[n] * 32768 + w[n - 1]) * 32768 + w[n - 2];
    assert Val(tv) == v2 && Val(tw) == u3;
    TrialGood(Val(v), Val(w), v2, u3, Pow(n - 2), d);
  }

  // ----- multiply and subtract

  /** The first j digits of c, with the borrow, are those of w minus q times those of v. */
  ghost predicate SubMulTo(w: seq<int>, v: seq<int>, q: int, c: seq<int>, j: nat, borrow: int) {
    && j <= |v| && j <= |w| && |c| == |w| && Digits(c[..j]) && c[j..] == w[j..] && -32767 <= borrow <= 0
    && Val(c[..j]) + borrow * Pow(j) == Val(w[..j]) - q * Val(v[..j])
  }

  lemma SubMulStep(w: seq<int>, v: seq<int>, q: int, c: seq<int>, j: nat, borrow: int)
    requires SubMulTo(w, v, q, c, j, borrow) && j < |v| && j < |w| && Digits(v) && Digits(w) && 0 <= q < 32768
    ensures var x := borrow - v[j] * q + w[j];
            && -0x4000_0000 <= x < 32768
            && SubMulTo(w, v, q, c[j := Low15(x)], j + 1, Shift15(x))
  {
    var x := borrow - v[j] * q + w[j];
    MulBound(v[j], q);
    var c', p := c[j := Low15(x)], Pow(j);
    assert c'[..j] == c[..j] && c'[j + 1..] == c[j..][1..] == w[j..][1..] == w[j + 1..];
    PrefixSnoc(c', j);
    PrefixSnoc(w, j);
    PrefixSnoc(v, j);
    assert Pow(j + 1) == 32768 * p;
    hide Val;
    CarryMath(Val(c[..j]), Val(w[..j]) - q * Val(v[..j]), p, w[j] - v[j] * q, Low15(x), borrow, Shift15(x));
    SubMulMath(Val(w[..j]), Val(v[..j]), q, p, w[j], v[j]);
    assert Digits(c'[..j + 1]);
  }

  lemma SubMulMath(vw: int, vv: int, q: int, p: int, x: int, y: int)
    ensures (vw - q * vv) + p * (x - y * q) == (vw + p * x) - q * (vv + p * y)
  {
    assert p * (x - y * q) == p * x - p * (y * q);
    assert p * (y * q) == q * (p * y);
  }

  /** The window of k digits at place j. */
  ghost function At(s: seq<int>, j: nat, k: nat): seq<int>
    requires j + k <= |s|
  {
    s[j..j + k]
  }

  /** The first loop of m_dsb: subtract q times v from the window of u at place off. */
  method SubMul(q: int, v: seq<int>, u: array<int>, off: nat) returns (borrow: int)
    requires off + |v| < u.Length && Digits(v) && Digits(u[..]) && 0 <= q < 32768
    modifies u
    ensures Digits(u[..]) && -32767 <= borrow <= 0
    ensures forall i :: 0 <= i < u.Length && !(off <= i < off + |v|) ==> u[i] == old(u[i])
    ensures Val(At(u[..], off, |v|)) + borrow * Pow(|v|) == Val(old(At(u[..], off, |v|))) - q * Val(v)
  {
    hide Val, Pow, SubMulTo;
    var n := |v|;
    ghost var w := At(u[..], off, n);
    borrow := 0;
    var j := 0;
    SubMulStart(w, v, q);
    while j < n
      invariant 0 <= j <= n && -32767 <= borrow <= 0 && Digits(u[..])
      invariant forall i :: 0 <= i < u.Length && !(off <= i < off + j) ==> u[i] == old(u[i])
      invariant SubMulTo(w, v, q, At(u[..], off, n), j, borrow)
    {
      ghost var c := At(u[..], off, n);
      SubMulStep(w, v, q, c, j, borrow);
      assert w[j] == u[off + j];
      u[off + j], borrow := SubMulDigit(borrow, v[j], q, u[off + j]);
      assert At(u[..], off, n) == c[j := u[off + j]];
      j := j + 1;
    }
    SubMulEnd(w, v, q, At(u[..], off, n), borrow);
  }

  /** One digit of the subtraction: nothing overflows. */
  method SubMulDigit(borrow: int, vj: int, q: int, uj: int) returns (low: int, borrow': int)
    requires -32767 <= borrow <= 0 && 0 <= vj < 32768 && 0 <= q < 32768 && 0 <= uj < 32768
    ensures low == Low15(borrow - vj * q + uj) && borrow' == Shift15(borrow - vj * q + uj)
    ensures -32767 <= borrow' <= 0
  {
    MulBound(vj, q);
    var x := Int32(Int32(borrow - Int32(vj * q)) + uj);
    low := Low15(x);
    borrow' := Int16(Shift15(x));
  }

  lemma SubMulStart(w: seq<int>, v: seq<int>, q: int)
    ensures SubMulTo(w, v, q, w, 0, 0)
  {
  }

  lemma SubMulEnd(w: seq<int>, v: seq<int>, q: int, c: seq<int>, borrow: int)
    requires SubMulTo(w, v, q, c, |v|, borrow) && |w| == |v|
    ensures Val(c) + borrow * Pow(|v|) == Val(w) - q * Val(v)
  {
    assert c[..|v|] == c && w[..|v|] == w && v[..|v|] == v;
  }

  /** The second loop of m_dsb: add v back to the low digits of the window; the carry out of
      them is dropped, and the sign bit of a 16-bit int serves as the carry between digits. */
  method AddBack(v: seq<int>, u: array<int>, off: nat) returns (ghost carry: int)
    requires off + |v| < u.Length && Digits(v) && Digits(u[..])
    modifies u
    ensures Digits(u[..]) && 0 <= carry <= 1
    ensures forall i :: 0 <= i < u.Length && !(off <= i < off + |v|) ==> u[i] == old(u[i])
    ensures Val(At(u[..], off, |v|)) + carry * Pow(|v|) == Val(old(At(u[..], off, |v|))) + Val(v)
  {
    hide Val, Pow, SumTo;
    var n := |v|;
    ghost var w := At(u[..], off, n);
    var borrow, j := 0, 0;
    SumStart(v, w, w);
    while j < n
      invariant 0 <= j <= n && 0 <= borrow <= 1 && Digits(u[..])
      invariant forall i :: 0 <= i < u.Length && !(off <= i < off + j) ==> u[i] == old(u[i])
      invariant SumTo(v, w, At(u[..], off, n), j, borrow)
    {
      ghost var c, cr := At(u[..], off, n), borrow;
      assert w[j] == u[off + j];
      var x := Int16(v[j] + u[off + j] + borrow);
      borrow := if x < 0 then 1 else 0;
      u[off + j] := Low15(x);
      SumStep(v, w, c, j, cr, u[off + j], borrow);
      assert At(u[..], off, n) == c[j := u[off + j]];
      j := j + 1;
    }
    carry := borrow;
    AddBackEnd(v, w, At(u[..], off, n), carry);
  }

  lemma AddBackEnd(v: seq<int>, w: seq<int>, c: seq<int>, carry: int)
    requires SumTo(v, w, c, |v|, carry) && |w| == |v| == |c|
    ensures Val(c) + carry * Pow(|v|) == Val(w) + Val(v)
  {
    assert c[..|v|] == c && w[..|v|] == w && v[..|v|] == v;
  }

  /** m_dsb: subtract q times v from the n + 1 digits at place off; if the result is negative,
      add v back once. The top digit is left stale then, and never looked at again. */
  method Dsb(q: int, v: seq<int>, u: array<int>, off: nat) returns (over: int)
    requires off + |v| < u.Length && Digits(v) && Digits(u[..]) && 0 <= q < 32768
    requires (q - 1) * Val(v) <= Val(At(u[..], off, |v| + 1)) < (q + 1) * Val(v)
    modifies u
    ensures Digits(u[..]) && 0 <= over <= 1
    ensures forall i :: 0 <= i < u.Length && !(off <= i <= off + |v|) ==> u[i] == old(u[i])
    ensures Val(At(u[..], off, |v|)) == old(Val(At(u[..], off, |v| + 1))) - (q - over) * Val(v)
    ensures 0 <= Val(At(u[..], off, |v|)) < Val(v)
  {
    hide Val, Pow, Digits;
    var n := |v|;
    ghost var u0 := u[..];
    WindowTop(u0, off, n);
    ghost var w, vv, p := Val(At(u0, off, n + 1)), Val(v), Pow(n);
    var borrow := SubMul(q, v, u, off);
    ghost var c1 := Val(At(u[..], off, n));
    WindowBound(u[..], off, n);
    ValBound(v);
    DsbMath(w, Val(At(u0, off, n)), p, u0[off + n], c1, borrow, q, vv);
    var x := Int16(borrow + u[off + n]);
    SetTop(u, off, n, x);
    if Shift15(x) == 0 {
      return 0;
    }
    ghost var carry := AddBack(v, u, off);
    WindowBound(u[..], off, n);
    AddBackMath(w, p, c1, q, vv, Val(At(u[..], off, n)), carry);
    over := 1;
  }

  /** Store the low bits of the top digit. */
  method SetTop(u: array<int>, off: nat, n: nat, x: int)
    requires off + n < u.Length && Digits(u[..])
    modifies u
    ensures Digits(u[..]) && u[off + n] == Low15(x)
    ensures forall i :: 0 <= i < u.Length && i != off + n ==> u[i] == old(u[i])
    ensures At(u[..], off, n) == old(At(u[..], off, n))
  {
    u[off + n] := Low15(x);
  }

  lemma WindowBound(s: seq<int>, off: nat, n: nat)
    requires off + n <= |s| && Digits(s)
    ensures Digits(At(s, off, n)) && 0 <= Val(At(s, off, n)) < Pow(n)
  {
    ValBound(At(s, off, n));
  }

  /** The digit above the window goes to 0 if the trial digit was right and to -1 if it was one
      too large. */
  lemma DsbMath(w: int, w0: int, p: int, top: int, c1: int, borrow: int, q: int, v: int)
    requires w == w0 + p * top && c1 + borrow * p == w0 - q * v
    requires 0 <= c1 < p && 0 <= v < p && (q - 1) * v <= w < (q + 1) * v
    ensures var x := borrow + top;
            && -1 <= x <= 0
            && (x == 0 ==> c1 == w - q * v && 0 <= c1 < v)
            && (x == -1 ==> c1 == w - q * v + p && w < q * v)
  {
    var x := borrow + top;
    assert c1 + x * p == w - q * v by { assert x * p == borrow * p + top * p; }
    assert (q - 1) * v == q * v - v && (q + 1) * v == q * v + v;
    if x >= 1 {
      MulMono(1, x, p);
    } else if x <= -2 {
      MulMono(x, -2, p);
    }
  }

  lemma AddBackMath(w: int, p: int, c1: int, q: int, v: int, c2: int, carry: int)
    requires c1 == w - q * v + p && w < q * v && 0 <= v < p && (q - 1) * v <= w
    requires c2 + carry * p == c1 + v && 0 <= c2 < p && 0 <= carry <= 1
    ensures c2 == w - (q - 1) * v && 0 <= c2 < v
  {
    assert (q - 1) * v == q * v - v;
  }

  lemma WindowTop(s: seq<int>, off: nat, n: nat)
    requires off + n < |s|
    ensures Val(At(s, off, n + 1)) == Val(At(s, off, n)) + Pow(n) * s[off + n]
  {
    assert At(s, off, n + 1) == At(s, off, n) + [s[off + n]];
    ValSnoc(At(s, off, n), s[off + n]);
  }

  // ----- normalisation

  /** Scaling by d = base / (t + 1) makes the leading digit at least half the base. */
  lemma NormMath(t: int, d: int)
    requires 1 <= t < 32768 && d == 32768 / (t + 1)
    ensures 1 <= d <= 16384 && d * (t + 1) <= 32768 && d * t >= 16384
  {
    var e := t + 1;
    DivFacts(32768, e);
    var r := 32768 % e;
    assert d * e == e * d == 32768 - r;
    assert d * t == d * e - d;
    if e > 16384 {
      if d >= 2 {
        MulMono(2, d, e);
      }
      if d <= 0 {
        MulMono(d, 0, e);
      }
      assert d == 1;
    } else {
      if d <= 1 {
        MulMono(d, 1, e);
      }
      assert 2 <= d;
      HalfMath(d, e, r);
    }
  }

  lemma HalfMath(d: int, e: int, r: int)
    requires d >= 2 && 2 <= e && 0 <= r < e && d * e == 32768 - r
    ensures r + d <= 16384 && d <= 16384
  {
    MulMono(2, d, e - 2);
    TimesLess(d, e);
    HalfLinear(d, e, r, d * (e - 2));
  }

  lemma TimesLess(d: int, e: int)
    ensures d * (e - 2) == d * e - 2 * d
  {
  }

  lemma HalfLinear(d: int, e: int, r: int, p: int)
    requires d >= 2 && 2 <= e && 0 <= r < e && p == 32768 - r - 2 * d && 2 * (e - 2) <= p
    ensures r + d <= 16384
  {
  }

  lemma ScaledDivisor(b: seq<int>, d: int, v: seq<int>)
    requires Canonical(b) && |b| >= 1 && d == 32768 / (b[|b| - 1] + 1)
    requires Digits(v) && |v| == |b| + 1 && Val(v) == Val(b) * d
    ensures 1 <= d <= 16384
    ensures v[|b|] == 0 && v[|b| - 1] >= 16384 && Val(v[..|b|]) == Val(b) * d
  {
    hide Val, Pow;
    var n, t := |b|, b[|b| - 1];
    NormMath(t, d);
    Leading(b, n - 1);
    assert b[n - 1..] == [t] && v[n..] == [v[n]] && v[..n][n - 1..] == [v[n - 1]];
    OneDigitVal(t);
    OneDigitVal(v[n]);
    OneDigitVal(v[n - 1]);
    Leading(v, n);
    PrefixSnoc(v, n);
    assert v[..n + 1] == v;
    PowStep(n - 1);
    ScaleMath(Val(b), t, d, Pow(n - 1), v[n], Val(v));
    assert v[n] == 0;
    Leading(v[..n], n - 1);
    ScaleTop(Val(b), t, d, Pow(n - 1), v[n - 1], Val(v[..n]));
  }

  lemma PowStep(k: nat)
    ensures Pow(k + 1) == 32768 * Pow(k)
  {
  }

  lemma ScaleMath(b: int, t: int, d: int, p: int, top: int, v: int)
    requires t * p <= b < (t + 1) * p && 1 <= d && d * (t + 1) <= 32768 && 0 < p && v == b * d
    requires top * (32768 * p) <= v && 0 <= top
    ensures top == 0
  {
    assert b * d < ((t + 1) * p) * d by { MulStrict(b, (t + 1) * p, d); }
    assert ((t + 1) * p) * d == (d * (t + 1)) * p;
    MulMono(d * (t + 1), 32768, p);
    if top >= 1 {
      MulMono(1, top, 32768 * p);
    }
  }

  lemma MulStrict(x: int, y: int, z: int)
    requires x < y && 0 < z
    ensures x * z < y * z
  {
  }

  lemma ScaleTop(b: int, t: int, d: int, p: int, top: int, v: int)
    requires t * p <= b && 1 <= d && d * t >= 16384 && 0 < p && v == b * d
    requires v < (top + 1) * p
    ensures top >= 16384
  {
    MulMono(t * p, b, d);
    assert (t * p) * d == (d * t) * p;
    MulMono(16384, d * t, p);
    if top + 1 <= 16384 {
      MulMono(top + 1, 16384, p);
    }
  }

  // ----- the division loop

  /** With k quotient digits still to come: the rest of the scaled dividend and the digits
      found so far make up the whole of it (total), and what is left above place k is below v. */
  ghost predicate DivTo(total: int, v: seq<int>, u: seq<int>, q: seq<int>, k: nat) {
    && k <= |q| && |u| == |q| + |v| && Digits(u) && Digits(q[k..])
    && Val(u[..k + |v|]) + Val(v) * (Pow(k) * Val(q[k..])) == total
    && Val(At(u, k, |v|)) < Val(v)
  }

  lemma DivReady(total: int, v: seq<int>, u: seq<int>, q: seq<int>, k: nat)
    requires DivTo(total, v, u, q, k) && k > 0 && |v| >= 2 && Digits(v) && v[|v| - 1] >= 16384
    ensures k <= |q| && |u| == |q| + |v| && Digits(u)
    ensures Ready(v, At(u, k - 1, |v| + 1))
  {
    var w := At(u, k - 1, |v| + 1);
    assert w[1..] == At(u, k, |v|);
    assert Val(w) == w[0] + 32768 * Val(w[1..]);
  }

  lemma DivStep(total: int, v: seq<int>, u: seq<int>, q: seq<int>, k: nat, u': seq<int>, d: int)
    requires DivTo(total, v, u, q, k) && k > 0 && |v| >= 2
    requires |u'| == |u| && Digits(u') && 0 <= d < 32768
    requires forall i :: 0 <= i < k - 1 ==> u'[i] == u[i]
    requires Val(At(u', k - 1, |v|)) == Val(At(u, k - 1, |v| + 1)) - d * Val(v)
    requires Val(At(u', k - 1, |v|)) < Val(v)
    ensures DivTo(total, v, u', q[k - 1 := d], k - 1)
  {
    hide Val, Pow;
    var n, j, q' := |v|, k - 1, q[k - 1 := d];
    assert u'[..j] == u[..j];
    assert u[..k + n] == u[..j] + At(u, j, n + 1);
    assert u'[..j + n] == u[..j] + At(u', j, n);
    ValConcat(u[..j], At(u, j, n + 1));
    ValConcat(u[..j], At(u', j, n));
    assert q'[j..] == [d] + q[k..] && q'[j..][1..] == q[k..];
    ValTail(q'[j..]);
    PowStep(j);
    StepMath(Val(u[..j]), Pow(j), Val(At(u, j, n + 1)), Val(v), d, Val(q[k..]));
    assert Digits(q'[j..]);
  }

  lemma ValTail(s: seq<int>)
    requires |s| > 0
    ensures Val(s) == s[0] + 32768 * Val(s[1..])
  {
  }

  lemma StepMath(low: int, p: int, w: int, v: int, d: int, qs: int)
    ensures (low + p * (w - d * v)) + v * (p * (d + 32768 * qs)) == (low + p * w) + v * ((32768 * p) * qs)
  {
    assert p * (w - d * v) == p * w - p * (d * v);
    assert p * (d * v) == v * (p * d);
    assert p * (d + 32768 * qs) == p * d + (32768 * p) * qs;
    assert v * (p * d + (32768 * p) * qs) == v * (p * d) + v * ((32768 * p) * qs);
  }

  /** One turn of the loop of m_div. */
  method DivDigit(v: seq<int>, u: array<int>, k: nat, ghost total: int, ghost q: seq<int>) returns (d: int)
    requires |v| >= 2 && Digits(v) && v[|v| - 1] >= 16384
    requires k > 0 && DivTo(total, v, u[..], q, k)
    modifies u
    ensures 0 <= d < 32768 && DivTo(total, v, u[..], q[k - 1 := d], k - 1)
  {
    hide Val, Pow, DivTo;
    DivReady(total, v, u[..], q, k);
    var n, j := |v|, k - 1;
    ghost var u0 := u[..];
    ghost var w := At(u0, j, n + 1);
    assert w[n] == u[j + n] && w[n - 1] == u[j + n - 1] && w[n - 2] == u[j + n - 2];
    TopFits(v, w);
    var qq := Trq(v[n - 1], v[n - 2], u[j + n], u[j + n - 1], u[j + n - 2]);
    TrialDigit(v, w, qq);
    var over := Dsb(qq, v, u, j);
    ValBound(w);
    NotNegative(Val(w), qq, over, Val(v));
    d := qq - over;
    DivStep(total, v, u0, q, k, u[..], d);
  }

  lemma NotNegative(w: int, q: int, over: int, v: int)
    requires 0 <= w && 0 <= q && 0 <= over <= 1 && 0 <= v && w - (q - over) * v < v
    ensures q - over >= 0
  {
    if q - over <= -1 {
      MulMono(q - over, -1, v);
    }
  }

  /** Before the loop: the n digits above the first window are below the scaled divisor. */
  lemma DivStart(a: seq<int>, b: seq<int>, d: int, v: seq<int>, u: seq<int>, q: seq<int>)
    requires Canonical(a) && Canonical(b) && 2 <= |b| <= |a| && 1 <= d < 32768
    requires |v| == |b| && Val(v) == Val(b) * d
    requires |u| == |a| + 1 && Digits(u) && Val(u) == Val(a) * d && |q| == |a| - |b| + 1
    ensures DivTo(Val(a) * d, v, u, q, |q|)
  {
    hide Val, Pow, DivTo, Canonical, Digits;
    TopBelow(a, b, d, u, |q|);
    DivBegin(v, u, q);
  }

  lemma DivBegin(v: seq<int>, u: seq<int>, q: seq<int>)
    requires |u| == |q| + |v| && Digits(u) && Val(u[|q|..]) < Val(v)
    ensures DivTo(Val(u), v, u, q, |q|)
  {
    hide Val, Pow;
    var k := |q|;
    assert u[..k + |v|] == u && q[k..] == [] && At(u, k, |v|) == u[k..];
    EmptyVal();
    NothingFound(Val(v), Pow(k));
  }

  lemma NothingFound(x: int, y: int)
    ensures x * (y * 0) == 0
  {
  }

  lemma TopBelow(a: seq<int>, b: seq<int>, d: int, u: seq<int>, k: nat)
    requires Canonical(a) && Canonical(b) && 2 <= |b| <= |a| && 1 <= d && k == |a| - |b| + 1
    requires |u| == |a| + 1 && Digits(u) && Val(u) == Val(a) * d
    ensures Val(u[k..]) < Val(b) * d
  {
    hide Val, Pow;
    var n := |b|;
    ValBound(a);
    ValLower(b);
    Leading(u, k);
    PowAdd(n - 1, k);
    StartMath(Val(u[k..]), Val(u), Val(a), d, Pow(n - 1), Pow(k), Val(b));
  }

  lemma EmptyVal()
    ensures Val([]) == 0
  {
  }

  lemma StartMath(h: int, u: int, a: int, d: int, pn: int, pk: int, b: int)
    requires h * pk <= u == a * d && 0 <= a < pn * pk && pn <= b && 1 <= d && 0 < pk
    ensures h < b * d
  {
    MulStrict(a, pn * pk, d);
    MulMono(pn, b, pk * d);
    assert (pn * pk) * d == pn * (pk * d);
    assert b * (pk * d) == (b * d) * pk;
    if h >= b * d {
      MulMono(b * d, h, pk);
    }
  }

  /** After the loop: undo the scaling. */
  lemma DivEnd(a: int, b: int, d: int, q: int, x: int, w: int, rem: int)
    requires 1 <= d && x + (b * d) * q == a * d && 0 <= x < b * d
    requires x == d * w + rem && 0 <= rem < d
    ensures a == q * b + w && 0 <= w < b && rem == 0
  {
    var r := a - q * b;
    assert d * r == x by {
      assert d * r == d * a - d * (q * b);
      assert (b * d) * q == d * (q * b);
    }
    assert d * (r - w) == rem;
    if r - w >= 1 {
      MulMono(1, r - w, d);
    } else if r - w <= -1 {
      MulMono(r - w, -1, d);
    }
    assert r == w;
    if w < 0 {
      MulMono(w, -1, d);
    }
    if w >= b {
      MulMono(b, w, d);
    }
  }

  /** Only one leading digit of the quotient can be zero. */
  lemma QuotientTop(a: seq<int>, b: seq<int>, q: seq<int>, r: int)
    requires Canonical(a) && Canonical(b) && 2 <= |b| <= |a| && Digits(q) && |q| == |a| - |b| + 1
    requires Val(a) == Val(q) * Val(b) + r && 0 <= r < Val(b)
    ensures q[|q| - 1] == 0 ==> Canonical(q[..|q| - 1]) && Val(q[..|q| - 1]) == Val(q)
  {
    hide Val, Pow;
    var m := |q| - 1;
    if q[m] == 0 {
      PrefixSnoc(q, m);
      assert q[..m + 1] == q;
      NothingFound(1, Pow(m));
      var t := q[..m];
      if t != [] && t[m - 1] == 0 {
        PrefixSnoc(t, m - 1);
        assert t[..m] == t;
        NothingFound(1, Pow(m - 1));
        ValBound(t[..m - 1]);
        TwoZeros(a, b, Val(q), r, m);
        assert false;
      }
    }
  }

  lemma TwoZeros(a: seq<int>, b: seq<int>, q: int, r: int, m: nat)
    requires Canonical(a) && Canonical(b) && 2 <= |b| && m >= 1 && |a| == m + |b|
    requires 0 <= r < Val(b) && 0 <= q < Pow(m - 1)
    ensures q * Val(b) + r < Val(a)
  {
    hide Val, Pow;
    ValLower(a);
    ValBound(b);
    PowAdd(m - 1, |b|);
    QuotientMath(q, Val(b), r, Pow(m - 1), Pow(|b|));
  }

  lemma QuotientMath(q: int, b: int, r: int, p: int, s: int)
    requires 0 <= q < p && 0 <= r < b < s && 0 < p
    ensures q * b + r < p * s
  {
    MulMono(q + 1, p, b);
    MulMono(b, s, p);
  }

  /** m_div: quotient and remainder of numbers of any length. */
  method MDiv(a: seq<int>, b: seq<int>) returns (q: seq<int>, r: seq<int>)
    requires Canonical(a) && Canonical(b) && b != []
    ensures Canonical(q) && Canonical(r)
    ensures Val(a) == Val(q) * Val(b) + Val(r) && 0 <= Val(r) < Val(b)
  {
    if |b| == 1 {
      q, r := DivShort(a, b);
    } else if |a| < |b| {
      q, r := [], a;
      LongerIsLarger(a, b);
      ValBound(a);
    } else {
      q, r := DivLong(a, b);
    }
  }

  /** mdiv, for operands of either sign: quotient and remainder both get the sign of the quotient,
      so that with a negative divisor the remainder is off unless it is zero. */
  method MDivSigned(a: Signed, b: Signed) returns (q: Signed, r: Signed)
    requires IsSigned(a) && IsSigned(b) && b.mag != []
    ensures IsSigned(q) && IsSigned(r) && (a.neg == b.neg ==> !q.neg && !r.neg)
    ensures Val(a.mag) == Val(q.mag) * Val(b.mag) + Val(r.mag) && 0 <= Val(r.mag) < Val(b.mag)
    ensures SignedVal(a) == SignedVal(q) * SignedVal(b) + SignedVal(r) <==>
              SignedVal(b) > 0 || Val(a.mag) % Val(b.mag) == 0
  {
    hide Val;
    SignOf(b);
    var sign := 1;
    if a.neg {
      sign := -1;
    }
    if b.neg {
      sign := -sign;
    }
    var w, z := MDiv(a.mag, b.mag);
    q, r := Signed(sign == -1 && w != [], w), Signed(sign == -1 && z != [], z);
    MinusZero(sign == -1, w);
    MinusZero(sign == -1, z);
    DivSigns(Val(a.mag), Val(b.mag), Val(w), Val(z), a.neg, b.neg);
  }

  /** 3 by -2 gives the quotient -1 and the remainder -1. */
  method MDivFails() returns (q: Signed, r: Signed)
    ensures SignedVal(q) * -2 + SignedVal(r) != 3
  {
    OneDigitVal(3);
    OneDigitVal(2);
    q, r := MDivSigned(Signed(false, [3]), Signed(true, [2]));
  }

  ghost function Minus(neg: bool, x: int): int {
    if neg then -x else x
  }

  lemma MinusZero(neg: bool, s: seq<int>)
    ensures SignedVal(Signed(neg && s != [], s)) == Minus(neg, Val(s))
  {
  }

  lemma DivSigns(a: int, b: int, q: int, r: int, aneg: bool, bneg: bool)
    requires a == q * b + r && 0 <= r < b
    ensures var neg := aneg != bneg;
      Minus(aneg, a) == Minus(neg, q) * Minus(bneg, b) + Minus(neg, r) <==> !bneg || a % b == 0
  {
    SignMath(q, b);
    RemainderIs(a, b, q, r);
  }

  lemma RemainderIs(a: int, b: int, q: int, r: int)
    requires a == q * b + r && 0 <= r < b
    ensures a % b == r
  {
    var k := a / b;
    assert a == b * k + a % b;
    assert (q - k) * b == a % b - r;
    if q - k >= 1 {
      MulMono(1, q - k, b);
    } else if q - k <= -1 {
      MulMono(q - k, -1, b);
    }
  }

  method DivShort(a: seq<int>, b: seq<int>) returns (q: seq<int>, r: seq<int>)
    requires Canonical(a) && Canonical(b) && |b| == 1
    ensures Canonical(q) && Canonical(r)
    ensures Val(a) == Val(q) * Val(b) + Val(r) && 0 <= Val(r) < Val(b)
  {
    hide Val;
    var x;
    q, x := SDiv(a, b[0]);
    assert b == [b[0]];
    OneDigitVal(b[0]);
    OneDigitVal(x);
    EmptyVal();
    r := if x == 0 then [] else [x];
  }

  method DivLong(a: seq<int>, b: seq<int>) returns (q: seq<int>, r: seq<int>)
    requires Canonical(a) && Canonical(b) && 2 <= |b| <= |a|
    ensures Canonical(q) && Canonical(r)
    ensures Val(a) == Val(q) * Val(b) + Val(r) && 0 <= Val(r) < Val(b)
  {
    hide Val, Pow, DivTo;
    var n := |b|;
    var d := 32768 / (b[n - 1] + 1);
    NormMath(b[n - 1], d);
    OneDigitVal(d);
    var uval := MMult(a, [d]);
    var vval := MMult(b, [d]);
    ScaledDivisor(b, d, vval);
    var v := vval[..n];
    var u := new int[|a| + 1](i requires 0 <= i < |a| + 1 => uval[i]);
    assert u[..] == uval;
    var qval := new int[|a| - n + 1];
    ghost var total := Val(a) * d;
    DivStart(a, b, d, v, u[..], qval[..]);
    var k := |a| - n + 1;
    while k > 0
      invariant 0 <= k <= |a| - n + 1 && DivTo(total, v, u[..], qval[..], k)
    {
      ghost var qs := qval[..];
      var digit := DivDigit(v, u, k, total, qs);
      qval[k - 1] := digit;
      assert qval[..] == qs[k - 1 := digit];
      k := k - 1;
    }
    DivFinish(total, v, u[..], qval[..]);
    var x := Mcan(u[..n]);
    var rem;
    r, rem := SDiv(x, d);
    DivEnd(Val(a), Val(b), d, Val(qval[..]), Val(x), Val(r), rem);
    q := qval[..];
    QuotientTop(a, b, q, Val(r));
    if q[|q| - 1] == 0 {
      q := q[..|q| - 1];
    }
  }

  lemma DivFinish(total: int, v: seq<int>, u: seq<int>, q: seq<int>)
    requires DivTo(total, v, u, q, 0)
    ensures |u| == |q| + |v| && Digits(u[..|v|]) && Digits(q)
    ensures Val(u[..|v|]) + Val(v) * Val(q) == total && 0 <= Val(u[..|v|]) < Val(v)
  {
    hide Val;
    assert q[0..] == q && At(u, 0, |v|) == u[..|v|];
    assert Pow(0) * Val(q) == Val(q);
    ValBound(u[..|v|]);
  }
}
