/** Addition, subtraction and comparison: madd.c and mcmp of util.c, on magnitudes and on numbers of
    either sign. */
module MpAdd {
  import opened MpNumber

  /** Extend an array prefix by one digit. */
  lemma PrefixSnoc(s: seq<int>, i: nat)
    requires i < |s|
    ensures Val(s[..i + 1]) == Val(s[..i]) + Pow(i) * s[i]
  {
    assert s[..i + 1] == s[..i] + [s[i]];
    ValSnoc(s[..i], s[i]);
  }

  /** The first i digits of c, with the carry, are the sum of the first i digits of a and b. */
  ghost predicate SumTo(a: seq<int>, b: seq<int>, c: seq<int>, i: nat, carry: int) {
    && i <= |a| && i <= |c| && Digits(c[..i]) && 0 <= carry <= 1
    && Val(c[..i]) + carry * Pow(i) == Val(a[..i]) + Val(if i <= |b| then b[..i] else b)
  }

  function DigitAt(s: seq<int>, i: nat): int {
    if i < |s| then s[i] else 0
  }

  lemma SumStart(a: seq<int>, b: seq<int>, c: seq<int>)
    ensures SumTo(a, b, c, 0, 0)
  {
  }

  /** One digit position of an addition, carry in and carry out. */
  lemma SumStep(a: seq<int>, b: seq<int>, c: seq<int>, i: nat, carry: int, d: int, carry': int)
    requires SumTo(a, b, c, i, carry) && i < |a| && i < |c| && 0 <= d < 32768 && 0 <= carry' <= 1
    requires a[i] + DigitAt(b, i) + carry == d + 32768 * carry'
    ensures SumTo(a, b, c[i := d], i + 1, carry')
  {
    hide Val, Pow, DigitAt;
    var c', p := c[i := d], Pow(i);
    assert c'[..i] == c[..i];
    PrefixSnoc(a, i);
    PrefixSnoc(c', i);
    ShorterSnoc(b, i);
    PowUp(i);
    var vb := Val(if i <= |b| then b[..i] else b);
    CarryMath(Val(c[..i]), Val(a[..i]) + vb, p, a[i] + DigitAt(b, i), d, carry, carry');
    TwoTimes(p, a[i], DigitAt(b, i));
  }

  /** One more digit of a number that may have run out of digits. */
  lemma ShorterSnoc(b: seq<int>, i: nat)
    ensures Val(if i + 1 <= |b| then b[..i + 1] else b) == Val(if i <= |b| then b[..i] else b) + Pow(i) * DigitAt(b, i)
  {
    hide Val, Pow;
    if i < |b| {
      PrefixSnoc(b, i);
    } else {
      assert b[..|b|] == b;
    }
  }

  lemma PowUp(i: nat)
    ensures Pow(i + 1) == 32768 * Pow(i)
  {
  }

  lemma TwoTimes(p: int, x: int, y: int)
    ensures p * (x + y) == p * x + p * y
  {
  }

  /** Moving a carry or borrow k one digit up: the digit d and the new carry k' make up x + k. */
  lemma CarryMath(vc: int, v: int, p: int, x: int, d: int, k: int, k': int)
    requires vc + k * p == v && x + k == d + 32768 * k'
    ensures (vc + p * d) + k' * (32768 * p) == v + p * x
  {
    calc {
      (vc + p * d) + k' * (32768 * p);
      vc + p * (d + 32768 * k');
      vc + p * (x + k);
      (vc + k * p) + p * x;
    }
  }

  /** m_add: the digits of the longer number first. */
  method MAdd(a: seq<int>, b: seq<int>) returns (c: seq<int>)
    requires Digits(a) && Digits(b) && |a| >= |b|
    ensures Digits(c) && Val(c) == Val(a) + Val(b)
    ensures Canonical(a) && Canonical(b) ==> Canonical(c)
  {
    hide Val, Pow, SumTo;
    var cval := new int[|a| + 1];
    var carry, i := 0, 0;
    SumStart(a, b, cval[..]);
    while i < |b|
      invariant 0 <= i <= |b| && 0 <= carry <= 1 && SumTo(a, b, cval[..], i, carry)
    {
      ghost var s, cr := cval[..], carry;
      var x := Int16(carry + a[i] + b[i]);
      if x < 0 { // the sign bit is the carry
        carry := 1;
        cval[i] := Low15(x);
      } else {
        carry := 0;
        cval[i] := x;
      }
      SumStep(a, b, s, i, cr, cval[i], carry);
      assert cval[..] == s[i := cval[i]];
      i := i + 1;
    }
    while i < |a|
      invariant |b| <= i <= |a| && 0 <= carry <= 1 && SumTo(a, b, cval[..], i, carry)
    {
      ghost var s, cr := cval[..], carry;
      var x := Int16(carry + a[i]);
      if x < 0 {
        cval[i] := Low15(x);
      } else {
        carry := 0;
        cval[i] := x;
      }
      SumStep(a, b, s, i, cr, cval[i], carry);
      assert cval[..] == s[i := cval[i]];
      i := i + 1;
    }
    SumEnd(a, b, cval[..], carry);
    if carry == 1 {
      cval[i] := 1;
      c := cval[..];
      assert c == cval[..i] + [1];
    } else {
      c := cval[..|a|];
    }
  }

  lemma SumEnd(a: seq<int>, b: seq<int>, c: seq<int>, carry: int)
    requires SumTo(a, b, c, |a|, carry) && |a| >= |b| && Digits(b) && |c| == |a| + 1
    ensures carry == 1 ==> var r := c[..|a|] + [1]; Digits(r) && Val(r) == Val(a) + Val(b)
    ensures carry == 0 ==>
              var r := c[..|a|];
              && Digits(r) && Val(r) == Val(a) + Val(b)
              && (Canonical(a) && Canonical(b) ==> Canonical(r))
  {
    hide Val, Pow, SumTo, Canonical;
    SumWhole(a, b, c, carry);
    if carry == 1 {
      ValSnoc(c[..|a|], 1);
    } else {
      ValBound(b);
      if Canonical(a) && Canonical(b) {
        SumCanonical(a, b, c[..|a|]);
      }
    }
  }

  lemma SumWhole(a: seq<int>, b: seq<int>, c: seq<int>, carry: int)
    requires SumTo(a, b, c, |a|, carry) && |a| >= |b| && |c| == |a| + 1
    ensures Digits(c[..|a|]) && 0 <= carry <= 1 && Val(c[..|a|]) + carry * Pow(|a|) == Val(a) + Val(b)
  {
    hide Val, Pow;
    assert a[..|a|] == a && b[..|b|] == b;
  }

  lemma SumCanonical(a: seq<int>, b: seq<int>, r: seq<int>)
    requires Canonical(a) && Canonical(b) && |a| >= |b| && Val(b) >= 0
    requires Digits(r) && |r| == |a| && Val(r) == Val(a) + Val(b)
    ensures Canonical(r)
  {
    hide Val, Pow;
    if a != [] {
      TopNonzero(r, a, Val(b));
    }
  }

  /** A number not below a canonical one of the same length is canonical. */
  lemma TopNonzero(c: seq<int>, a: seq<int>, more: int)
    requires Digits(c) && Canonical(a) && a != [] && |c| == |a| && Val(c) == Val(a) + more
    requires more >= 0
    ensures Canonical(c)
  {
    var n := |a| - 1;
    ValLower(a);
    assert c == c[..n] + [c[n]];
    ValSnoc(c[..n], c[n]);
    ValBound(c[..n]);
  }

  /** madd. */
  method Madd(a: seq<int>, b: seq<int>) returns (c: seq<int>)
    requires Canonical(a) && Canonical(b)
    ensures Canonical(c) && Val(c) == Val(a) + Val(b)
  {
    if |a| >= |b| {
      c := MAdd(a, b);
    } else {
      c := MAdd(b, a);
    }
  }

  /** A difference: sign and magnitude, as the sign of len encodes them. */
  datatype Signed = Signed(neg: bool, mag: seq<int>)

  ghost function SignedVal(x: Signed): int {
    if x.neg then -Val(x.mag) else Val(x.mag)
  }

  /** The first i digits of c, with the borrow, are the difference of those of a and b. */
  ghost predicate DiffTo(a: seq<int>, b: seq<int>, c: seq<int>, i: nat, borrow: int) {
    && i <= |a| && i <= |c| && Digits(c[..i]) && -1 <= borrow <= 0
    && Val(c[..i]) + borrow * Pow(i) == Val(a[..i]) - Val(if i <= |b| then b[..i] else b)
  }

  lemma DiffStart(a: seq<int>, b: seq<int>, c: seq<int>)
    ensures DiffTo(a, b, c, 0, 0)
  {
  }

  /** One digit position of a subtraction, borrow in and borrow out. */
  lemma DiffStep(a: seq<int>, b: seq<int>, c: seq<int>, i: nat, borrow: int, d: int, borrow': int)
    requires DiffTo(a, b, c, i, borrow) && i < |a| && i < |c| && 0 <= d < 32768 && -1 <= borrow' <= 0
    requires a[i] - DigitAt(b, i) + borrow == d + 32768 * borrow'
    ensures DiffTo(a, b, c[i := d], i + 1, borrow')
  {
    hide Val;
    var c', p := c[i := d], Pow(i);
    assert c'[..i] == c[..i];
    PrefixSnoc(a, i);
    PrefixSnoc(c', i);
    if i < |b| {
      PrefixSnoc(b, i);
    }
    assert b[..|b|] == b;
    var vb := Val(if i <= |b| then b[..i] else b);
    assert Val(if i + 1 <= |b| then b[..i + 1] else b) == vb + p * DigitAt(b, i);
    assert Pow(i + 1) == 32768 * p;
    CarryMath(Val(c[..i]), Val(a[..i]) - vb, p, a[i] - DigitAt(b, i), d, borrow, borrow');
    assert p * (a[i] - DigitAt(b, i)) == p * a[i] - p * DigitAt(b, i);
  }

  /** The subtraction loops of m_sub: the digits of a - b, modulo a power of the base. */
  method SubDigits(a: seq<int>, b: seq<int>) returns (c: seq<int>, borrow: int)
    requires Digits(a) && Digits(b) && |a| >= |b|
    ensures Digits(c) && |c| == |a| && -1 <= borrow <= 0
    ensures Val(c) + borrow * Pow(|a|) == Val(a) - Val(b)
  {
    hide Val, Pow, DiffTo;
    var cval := new int[|a|];
    borrow := 0;
    var i := 0;
    DiffStart(a, b, cval[..]);
    while i < |b|
      invariant 0 <= i <= |b| && -1 <= borrow <= 0 && DiffTo(a, b, cval[..], i, borrow)
    {
      ghost var s, br := cval[..], borrow;
      var x := Int16(borrow + a[i] - b[i]);
      if x < 0 {
        borrow := -1;
        cval[i] := Low15(x);
      } else {
        borrow := 0;
        cval[i] := x;
      }
      DiffStep(a, b, s, i, br, cval[i], borrow);
      assert cval[..] == s[i := cval[i]];
      i := i + 1;
    }
    while i < |a|
      invariant |b| <= i <= |a| && -1 <= borrow <= 0 && DiffTo(a, b, cval[..], i, borrow)
    {
      ghost var s, br := cval[..], borrow;
      var x := Int16(borrow + a[i]);
      if x < 0 {
        cval[i] := Low15(x);
      } else {
        borrow := 0;
        cval[i] := x;
      }
      DiffStep(a, b, s, i, br, cval[i], borrow);
      assert cval[..] == s[i := cval[i]];
      i := i + 1;
    }
    c := cval[..];
    DiffEnd(a, b, c, borrow);
  }

  lemma DiffEnd(a: seq<int>, b: seq<int>, c: seq<int>, borrow: int)
    requires DiffTo(a, b, c, |a|, borrow) && |a| >= |b| && |c| == |a|
    ensures Digits(c) && Val(c) + borrow * Pow(|a|) == Val(a) - Val(b)
  {
    assert a[..|a|] == a && b[..|b|] == b && c[..|c|] == c;
  }

  /** The digits of c complemented bit by bit. */
  function Complement(c: seq<int>): (r: seq<int>)
    ensures |r| == |c| && forall i :: 0 <= i < |c| ==> r[i] == 32767 - c[i]
  {
    seq(|c|, i requires 0 <= i < |c| => 32767 - c[i])
  }

  lemma {:induction false} ComplementVal(c: seq<int>)
    ensures Val(Complement(c)) == Pow(|c|) - 1 - Val(c)
  {
    if c != [] {
      assert Complement(c)[1..] == Complement(c[1..]);
      ComplementVal(c[1..]);
    }
  }

  /** m_sub: a negative result is recovered by complementing and adding one. */
  method MSub(a: seq<int>, b: seq<int>) returns (r: Signed)
    requires Digits(a) && Digits(b) && |a| >= |b|
    ensures Canonical(r.mag) && SignedVal(r) == Val(a) - Val(b)
    ensures r.neg <==> Val(a) < Val(b)
  {
    var c, borrow := SubDigits(a, b);
    ValBound(c);
    ValBound(a);
    ValBound(b);
    if borrow < 0 {
      ComplementVal(c);
      assert |a| > 0 || b == [];
      c := MAdd(Complement(c), [1]);
      assert Val([1]) == 1;
      var mag := Mcan(c);
      r := Signed(true, mag);
    } else {
      var mag := Mcan(c);
      r := Signed(false, mag);
    }
  }

  /** msub. */
  method Msub(a: seq<int>, b: seq<int>) returns (r: Signed)
    requires Canonical(a) && Canonical(b)
    ensures Canonical(r.mag) && SignedVal(r) == Val(a) - Val(b)
    ensures r.neg <==> Val(a) < Val(b)
  {
    if |a| >= |b| {
      r := MSub(a, b);
    } else {
      LongerIsLarger(a, b);
      var z := MSub(b, a);
      r := Signed(true, z.mag);
    }
  }

  /** mcmp: positive, zero or negative as a is above, equal to or below b. */
  method Mcmp(a: seq<int>, b: seq<int>) returns (res: int)
    requires Canonical(a) && Canonical(b)
    ensures res > 0 <==> Val(a) > Val(b)
    ensures res < 0 <==> Val(a) < Val(b)
  {
    if |a| != |b| {
      if |a| < |b| {
        LongerIsLarger(a, b);
      } else {
        LongerIsLarger(b, a);
      }
      return |a| - |b|;
    }
    var c := Msub(a, b);
    ZeroIsEmpty(c.mag);
    ValBound(c.mag);
    res := if c.neg then -|c.mag| else |c.mag|;
  }

  // ----- signed numbers

  /** A number with a sign; zero has none. */
  ghost predicate IsSigned(x: Signed) {
    Canonical(x.mag) && (x.neg ==> x.mag != [])
  }

  /** madd, for operands of either sign. */
  method MaddSigned(a: Signed, b: Signed) returns (c: Signed)
    requires IsSigned(a) && IsSigned(b)
    ensures IsSigned(c) && SignedVal(c) == SignedVal(a) + SignedVal(b)
  {
    if !a.neg {
      if !b.neg {
        var z := Madd(a.mag, b.mag);
        c := Signed(false, z);
      } else {
        c := Msub(a.mag, b.mag);
        NoZeroSign(c);
      }
    } else if b.neg || b.mag == [] {
      var z := Madd(a.mag, b.mag);
      NonzeroVal(a.mag);
      ValNonnegative(b.mag);
      c := Signed(true, z);
      NonzeroSum(z);
    } else {
      c := Msub(b.mag, a.mag);
      NoZeroSign(c);
    }
  }

  /** msub, for operands of either sign: of a negative number and one that is not positive it
      gives the difference with the wrong sign. */
  method MsubSigned(a: Signed, b: Signed) returns (c: Signed)
    requires IsSigned(a) && IsSigned(b)
    ensures IsSigned(c)
    ensures SignedVal(c) ==
            if SignedVal(a) < 0 && SignedVal(b) <= 0 then SignedVal(b) - SignedVal(a) else SignedVal(a) - SignedVal(b)
    ensures SignedVal(c) == SignedVal(a) - SignedVal(b) <==>
              !(SignedVal(a) < 0 && SignedVal(b) <= 0) || SignedVal(a) == SignedVal(b)
  {
    SignOf(a);
    SignOf(b);
    if !a.neg {
      if !b.neg {
        c := Msub(a.mag, b.mag);
        NoZeroSign(c);
      } else {
        var z := Madd(a.mag, b.mag);
        c := Signed(false, z);
      }
    } else if b.neg || b.mag == [] {
      var z := Msub(b.mag, a.mag);
      NoZeroSign(z);
      c := Signed(!z.neg && z.mag != [], z.mag);
      ZeroVal(z);
    } else {
      var z := Madd(a.mag, b.mag);
      c := Signed(true, z);
      NonzeroSum(z);
    }
  }

  /** mcmp, for operands of either sign: it takes two different negative numbers of one length the
      wrong way round. */
  method McmpSigned(a: Signed, b: Signed) returns (res: int)
    requires IsSigned(a) && IsSigned(b)
    ensures var x, y, swapped := SignedVal(a), SignedVal(b), a.neg && b.neg && |a.mag| == |b.mag|;
      && (res > 0 <==> if swapped then x < y else x > y)
      && (res < 0 <==> if swapped then x > y else x < y)
  {
    hide Val;
    SignOf(a);
    SignOf(b);
    if SignedLen(a) != SignedLen(b) {
      LengthsOrder(a, b);
      return SignedLen(a) - SignedLen(b);
    }
    var c := MsubSigned(a, b);
    SignOf(c);
    res := SignedLen(c);
  }

  /** -1 minus -2 comes out as -1. */
  method MsubFails() returns (c: Signed)
    ensures SignedVal(Signed(true, [1])) == -1 && SignedVal(Signed(true, [2])) == -2 && SignedVal(c) == -1
  {
    OneDigitVal(1);
    OneDigitVal(2);
    c := MsubSigned(Signed(true, [1]), Signed(true, [2]));
  }

  /** -1 is found to be below -2. */
  method McmpFails() returns (res: int)
    ensures SignedVal(Signed(true, [1])) == -1 && SignedVal(Signed(true, [2])) == -2 && res < 0
  {
    OneDigitVal(1);
    OneDigitVal(2);
    res := McmpSigned(Signed(true, [1]), Signed(true, [2]));
  }

  /** The len field of a number. */
  function SignedLen(x: Signed): int {
    if x.neg then -|x.mag| else |x.mag|
  }

  lemma LengthsOrder(a: Signed, b: Signed)
    requires IsSigned(a) && IsSigned(b)
    ensures SignedLen(a) < SignedLen(b) ==> SignedVal(a) < SignedVal(b)
    ensures SignedLen(a) > SignedLen(b) ==> SignedVal(a) > SignedVal(b)
  {
    hide Val, Canonical;
    SignOf(a);
    SignOf(b);
    if |a.mag| < |b.mag| {
      LongerIsLarger(a.mag, b.mag);
    } else if |a.mag| > |b.mag| {
      LongerIsLarger(b.mag, a.mag);
    }
  }

  lemma SignOf(x: Signed)
    requires IsSigned(x)
    ensures x.neg <==> SignedVal(x) < 0
    ensures x.mag == [] <==> SignedVal(x) == 0
  {
    ValNonnegative(x.mag);
    if x.mag != [] {
      NonzeroVal(x.mag);
    } else {
      ZeroVal(x);
    }
  }

  lemma NonzeroVal(s: seq<int>)
    requires Canonical(s) && s != []
    ensures Val(s) > 0
  {
    ValLower(s);
  }

  lemma NonzeroSum(s: seq<int>)
    requires Val(s) > 0
    ensures s != []
  {
  }

  lemma ValNonnegative(s: seq<int>)
    requires Canonical(s)
    ensures Val(s) >= 0
  {
    ValBound(s);
  }

  lemma ZeroVal(x: Signed)
    ensures x.mag == [] ==> SignedVal(x) == 0
  {
  }

  /** The sign of a difference is that of its value. */
  lemma NoZeroSign(c: Signed)
    requires Canonical(c.mag) && (c.neg ==> SignedVal(c) < 0)
    ensures IsSigned(c)
  {
  }
}
