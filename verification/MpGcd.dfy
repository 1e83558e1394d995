/** Greatest common divisor and modular inverse: gcd.c. */
module MpGcd {
  import opened MpNumber
  import opened MpAdd
  import opened MpMult
  import opened MpLong

  ghost function Times(k: int, d: int): int {
    k * d
  }

  ghost predicate Divides(d: int, x: int) {
    exists k :: Times(k, d) == x
  }

  ghost predicate Common(d: int, x: int, y: int) {
    Divides(d, x) && Divides(d, y)
  }

  lemma DividesCombination(d: int, x: int, y: int, m: int)
    requires Divides(d, x) && Divides(d, y)
    ensures Divides(d, x + m * y)
  {
    var i :| Times(i, d) == x;
    var j :| Times(j, d) == y;
    assert Times(i + m * j, d) == x + m * y by {
      assert (i + m * j) * d == i * d + m * (j * d);
    }
  }

  /** A division step keeps the common divisors. */
  lemma StepKeepsCommon(x: int, y: int, w: int, z: int, d: int)
    requires x == w * y + z
    ensures Common(d, x, y) <==> Common(d, y, z)
  {
    if Common(d, x, y) {
      DividesCombination(d, x, y, -w);
      assert x + (-w) * y == z;
    }
    if Common(d, y, z) {
      DividesCombination(d, z, y, w);
      assert z + w * y == x;
    }
  }

  lemma DividesSelfAndZero(d: int)
    ensures Divides(d, d) && Divides(d, 0)
  {
    assert Times(1, d) == d && Times(0, d) == 0;
  }

  lemma DividesMinus(d: int, x: int)
    ensures Divides(d, -x) <==> Divides(d, x)
    ensures Divides(-d, x) <==> Divides(d, x)
  {
    forall k
      ensures Times(-k, d) == -Times(k, d) && Times(k, -d) == -Times(k, d)
    {
    }
    if Divides(d, -x) {
      var k :| Times(k, d) == -x;
      assert Times(-k, d) == x;
    }
    if Divides(d, x) {
      var k :| Times(k, d) == x;
      assert Times(-k, d) == -x && Times(-k, -d) == x;
    }
    if Divides(-d, x) {
      var k :| Times(k, -d) == x;
      assert Times(-k, d) == x;
    }
  }

  /** The divisors of a number are those of its digits. */
  lemma DividesSigned(d: int, x: Signed)
    ensures Divides(d, SignedVal(x)) <==> Divides(d, Val(x.mag))
    ensures forall y :: Divides(SignedVal(x), y) <==> Divides(Val(x.mag), y)
  {
    hide Val;
    DividesMinus(d, Val(x.mag));
    forall y
      ensures Divides(SignedVal(x), y) <==> Divides(Val(x.mag), y)
    {
      DividesMinus(Val(x.mag), y);
    }
  }

  /** gcd: a common divisor that every common divisor divides, for operands of either sign. The
      remainders of mdiv may have the wrong sign, but not the wrong size. */
  method Gcd(a: Signed, b: Signed) returns (g: Signed)
    requires IsSigned(a) && IsSigned(b)
    ensures IsSigned(g) && (!a.neg && !b.neg ==> !g.neg)
    ensures Common(SignedVal(g), SignedVal(a), SignedVal(b))
    ensures forall d :: Common(d, SignedVal(a), SignedVal(b)) ==> Divides(d, SignedVal(g))
  {
    hide Val, Divides;
    var x, y := a, b;
    ValBound(y.mag);
    while y.mag != []
      invariant IsSigned(x) && IsSigned(y) && 0 <= Val(y.mag) && (!a.neg && !b.neg ==> !x.neg && !y.neg)
      invariant forall d :: Common(d, Val(a.mag), Val(b.mag)) <==> Common(d, Val(x.mag), Val(y.mag))
      decreases Val(y.mag)
    {
      var w, z := MDivSigned(x, y);
      forall d
        ensures Common(d, Val(a.mag), Val(b.mag)) <==> Common(d, Val(y.mag), Val(z.mag))
      {
        StepKeepsCommon(Val(x.mag), Val(y.mag), Val(w.mag), Val(z.mag), d);
      }
      x, y := y, z;
    }
    g := x;
    ZeroIsEmpty(y.mag);
    DividesSelfAndZero(Val(g.mag));
    assert Common(Val(g.mag), Val(x.mag), Val(y.mag));
    CommonSigned(a, b, g);
  }

  lemma CommonSigned(a: Signed, b: Signed, g: Signed)
    requires Common(Val(g.mag), Val(a.mag), Val(b.mag))
    requires forall d :: Common(d, Val(a.mag), Val(b.mag)) ==> Divides(d, Val(g.mag))
    ensures Common(SignedVal(g), SignedVal(a), SignedVal(b))
    ensures forall d :: Common(d, SignedVal(a), SignedVal(b)) ==> Divides(d, SignedVal(g))
  {
    hide Val, Divides;
    forall d
      ensures Common(d, SignedVal(a), SignedVal(b)) <==> Common(d, Val(a.mag), Val(b.mag))
      ensures Divides(d, SignedVal(g)) <==> Divides(d, Val(g.mag))
    {
      DividesSigned(d, a);
      DividesSigned(d, b);
      DividesSigned(d, g);
    }
    DividesSigned(0, g);
  }

  ghost predicate Coprime(x: int, y: int) {
    forall d :: d > 0 && Common(d, x, y) ==> d == 1
  }

  /** The loop state of invert after i steps: x and y are consecutive remainders of b and a, and
      the unsigned coefficients satisfy, with the sign s = (-1)^i,
        y = s * anew * a   and   x = -s * aold * a   modulo b,
        b = anew * x + aold * y. */
  ghost predicate Steps(a: int, b: int, x: int, y: int, anew: int, aold: int, s: int, kx: int, ky: int) {
    && 0 <= y < x && 1 <= anew && 0 <= aold && (s == 1 || s == -1)
    && y == s * (anew * a) + ky * b
    && x == -s * (aold * a) + kx * b
    && anew * x + aold * y == b
  }

  lemma StepsNext(a: int, b: int, x: int, y: int, anew: int, aold: int, s: int, kx: int, ky: int, w: int, z: int)
    requires Steps(a, b, x, y, anew, aold, s, kx, ky) && y > 0
    requires x == w * y + z && 0 <= z < y
    ensures w >= 1
    ensures Steps(a, b, y, z, w * anew + aold, anew, -s, ky, kx - w * ky)
    ensures z == 0 ==> anew < w * anew + aold
  {
    WBounds(x, y, w, z);
    var an := w * anew + aold;
    MulMono(1, w, anew);
    if z == 0 {
      MulMono(2, w, anew);
    }
    NextRemainder(a, b, x, y, anew, aold, s, kx, ky, w, z);
    Conserved(x, y, anew, aold, w, z);
  }

  /** The law that bounds the coefficients: each step keeps anew * x + aold * y. */
  lemma Conserved(x: int, y: int, anew: int, aold: int, w: int, z: int)
    requires x == w * y + z
    ensures (w * anew + aold) * y + anew * z == anew * x + aold * y
  {
    assert (w * anew + aold) * y == anew * (w * y) + aold * y;
    assert anew * x == anew * (w * y) + anew * z;
  }

  lemma WBounds(x: int, y: int, w: int, z: int)
    requires 0 < y < x && x == w * y + z && 0 <= z < y
    ensures w >= 1 && (z == 0 ==> w >= 2)
  {
    if w <= 0 {
      MulMono(w, 0, y);
    }
    if w == 1 {
      assert w * y == y;
    }
  }

  lemma NextRemainder(a: int, b: int, x: int, y: int, anew: int, aold: int, s: int, kx: int, ky: int, w: int, z: int)
    requires y == s * (anew * a) + ky * b && x == -s * (aold * a) + kx * b && x == w * y + z
    requires s == 1 || s == -1
    ensures z == -s * ((w * anew + aold) * a) + (kx - w * ky) * b
  {
    assert w * y == w * (s * (anew * a)) + w * (ky * b);
    assert (w * anew + aold) * a == w * (anew * a) + aold * a;
    assert (kx - w * ky) * b == kx * b - w * (ky * b);
  }

  /** invert: the inverse of a modulo b. */
  method Invert(a: seq<int>, b: seq<int>) returns (c: seq<int>, ghost m: int)
    requires Canonical(a) && Canonical(b) && 0 < Val(a) < Val(b) && |b| <= 32767
    requires Coprime(Val(a), Val(b))
    ensures Canonical(c) && 0 < Val(c) < Val(b)
    ensures Val(a) * Val(c) == 1 + m * Val(b)
  {
    hide Val, Common, Coprime, Steps;
    var i := 0;
    var anew, aold := [1], [];
    var x, y := b, a;
    ghost var va, vb := Val(a), Val(b);
    ghost var s, kx, ky := 1, 1, 0;
    OneDigitVal(1);
    EmptyVal();
    StepsStart(va, vb);
    ZeroIsEmpty(a);
    while y != []
      invariant Canonical(x) && Canonical(y) && Canonical(anew) && Canonical(aold) && anew != []
      invariant Steps(va, vb, Val(x), Val(y), Val(anew), Val(aold), s, kx, ky)
      invariant forall d :: Common(d, va, vb) <==> Common(d, Val(y), Val(x))
      invariant s == if i % 2 == 0 then 1 else -1
      invariant y == [] ==> Val(aold) < Val(anew) && 1 <= Val(aold)
      decreases Val(y)
    {
      ghost var vx, vy, vn, vo := Val(x), Val(y), Val(anew), Val(aold);
      ZeroIsEmpty(y);
      StepsBounds(va, vb, vx, vy, vn, vo, s, kx, ky);
      var w, z := MDiv(x, y);
      StepsNext(va, vb, vx, vy, vn, vo, s, kx, ky, Val(w), Val(z));
      QuotientBelow(vx, vy, Val(w), Val(z));
      NotLonger(anew, b);
      NotLonger(w, b);
      ZeroIsEmpty(w);
      forall d
        ensures Common(d, va, vb) <==> Common(d, Val(z), vy)
      {
        StepKeepsCommon(vx, vy, Val(w), Val(z), d);
        CommonSwap(d, vx, vy);
        CommonSwap(d, vy, Val(z));
      }
      var t := anew;
      anew := Mult(w, anew);
      anew := Madd(anew, aold);
      aold := t;
      x, y := y, z;
      s, kx, ky := -s, ky, kx - Val(w) * ky;
      i := i + 1;
      ZeroIsEmpty(y);
      ZeroIsEmpty(anew);
    }
    ZeroIsEmpty(y);
    StepsBounds(va, vb, Val(x), Val(y), Val(anew), Val(aold), s, kx, ky);
    GcdIsOne(va, vb, Val(x));
    InverseMath(va, vb, Val(x), Val(anew), Val(aold), s, kx, ky);
    c := aold;
    if i % 2 == 0 {
      var r := Msub(b, c);
      c := r.mag;
      m := va - kx;
    } else {
      m := -kx;
    }
  }

  lemma CommonSwap(d: int, x: int, y: int)
    ensures Common(d, x, y) <==> Common(d, y, x)
  {
  }

  lemma StepsBounds(a: int, b: int, x: int, y: int, anew: int, aold: int, s: int, kx: int, ky: int)
    requires Steps(a, b, x, y, anew, aold, s, kx, ky)
    ensures anew <= b && x <= b && 1 <= anew && 0 <= y < x
  {
    MulMono(1, anew, x);
    MulMono(1, x, anew);
    MulMono(0, y, aold);
  }

  lemma QuotientBelow(x: int, y: int, w: int, z: int)
    requires x == w * y + z && 0 <= z && 0 < y && 1 <= w
    ensures w <= x
  {
    MulMono(1, y, w);
  }

  lemma NotLonger(s: seq<int>, t: seq<int>)
    requires Canonical(s) && Canonical(t) && Val(s) <= Val(t)
    ensures |s| <= |t|
  {
    if |s| > |t| {
      LongerIsLarger(t, s);
    }
  }

  lemma GcdIsOne(a: int, b: int, x: int)
    requires Coprime(a, b) && x > 0 && forall d :: Common(d, a, b) <==> Common(d, 0, x)
    ensures x == 1
  {
    DividesSelfAndZero(x);
    assert Common(x, 0, x);
  }

  /** With remainder 0 reached and x = 1, the parity of the step count tells the sign. */
  lemma InverseMath(a: int, b: int, x: int, anew: int, aold: int, s: int, kx: int, ky: int)
    requires Steps(a, b, x, 0, anew, aold, s, kx, ky) && x == 1 && 1 <= aold < anew
    ensures aold < b
    ensures s == -1 ==> a * aold == 1 + (-kx) * b
    ensures s == 1 ==> a * (b - aold) == 1 + (a - kx) * b
  {
    assert anew * x == anew;
    assert aold * 0 == 0;
    assert a * (b - aold) == a * b - a * aold;
    assert (a - kx) * b == a * b - kx * b;
    assert a * aold == aold * a;
    assert (-kx) * b == -(kx * b);
  }

  lemma StepsStart(a: int, b: int)
    requires 0 < a < b
    ensures Steps(a, b, b, a, 1, 0, 1, 1, 0)
  {
  }
}
