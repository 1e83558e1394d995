/** Multiple-precision numbers of libmp: little-endian digits in base 2^15, and the PDP-11
    integer widths (16-bit int and short, 32-bit long) they are computed with. */
module MpNumber {

  /** The value a 16-bit int holds after an arithmetic result x. */
  function Int16(x: int): (r: int)
    ensures -32768 <= r < 32768
    ensures -32768 <= x < 32768 ==> r == x
  {
    (x + 32768) % 65536 - 32768
  }

  /** The value a 32-bit long holds after an arithmetic result x. */
  function Int32(x: int): (r: int)
    ensures -0x8000_0000 <= r < 0x8000_0000
    ensures -0x8000_0000 <= x < 0x8000_0000 ==> r == x
  {
    (x + 0x8000_0000) % 0x1_0000_0000 - 0x8000_0000
  }

  /** x & 077777 in two's complement. */
  function Low15(x: int): (r: int)
    ensures 0 <= r < 32768 && x == 32768 * Shift15(x) + r
  {
    x % 32768
  }

  /** x >> 15, an arithmetic shift. */
  function Shift15(x: int): int {
    x / 32768
  }

  ghost function Pow(k: nat): (p: nat)
    ensures p > 0
  {
    if k == 0 then 1 else 32768 * Pow(k - 1)
  }

  ghost function Val(s: seq<int>): int {
    if s == [] then 0 else s[0] + 32768 * Val(s[1..])
  }

  ghost predicate Digits(s: seq<int>) {
    forall i :: 0 <= i < |s| ==> 0 <= s[i] < 32768
  }

  /** Digits without a leading zero: the form every libmp number is kept in. */
  ghost predicate Canonical(s: seq<int>) {
    Digits(s) && (s == [] || s[|s| - 1] != 0)
  }

  lemma {:induction false} PowAdd(i: nat, j: nat)
    ensures Pow(i + j) == Pow(i) * Pow(j)
  {
    if i > 0 {
      PowAdd(i - 1, j);
      calc {
        Pow(i + j);
        32768 * Pow(i - 1 + j);
        32768 * (Pow(i - 1) * Pow(j));
        (32768 * Pow(i - 1)) * Pow(j);
      }
    }
  }

  lemma {:induction false} ValConcat(s: seq<int>, t: seq<int>)
    ensures Val(s + t) == Val(s) + Pow(|s|) * Val(t)
  {
    if s == [] {
      assert s + t == t;
    } else {
      ValConcat(s[1..], t);
      assert (s + t)[1..] == s[1..] + t;
      calc {
        Val(s + t);
        s[0] + 32768 * Val(s[1..] + t);
        s[0] + 32768 * (Val(s[1..]) + Pow(|s| - 1) * Val(t));
        s[0] + 32768 * Val(s[1..]) + 32768 * (Pow(|s| - 1) * Val(t));
        { MulAssoc(32768, Pow(|s| - 1), Val(t)); }
        Val(s) + Pow(|s|) * Val(t);
      }
    }
  }

  lemma MulAssoc(x: int, y: int, z: int)
    ensures x * (y * z) == (x * y) * z
  {
  }

  lemma ValSplit(s: seq<int>, k: nat)
    requires k <= |s|
    ensures Val(s) == Val(s[..k]) + Pow(k) * Val(s[k..])
  {
    assert s == s[..k] + s[k..];
    ValConcat(s[..k], s[k..]);
  }

  lemma ValSnoc(s: seq<int>, d: int)
    ensures Val(s + [d]) == Val(s) + Pow(|s|) * d
  {
    ValConcat(s, [d]);
    assert Val([d]) == d;
  }

  lemma {:induction false} ValBound(s: seq<int>)
    requires Digits(s)
    ensures 0 <= Val(s) < Pow(|s|)
  {
    if s != [] {
      ValBound(s[1..]);
    }
  }

  lemma ValLower(s: seq<int>)
    requires Canonical(s) && s != []
    ensures Val(s) >= Pow(|s| - 1) * s[|s| - 1] >= Pow(|s| - 1)
  {
    var n := |s| - 1;
    assert s == s[..n] + [s[n]];
    ValSnoc(s[..n], s[n]);
    ValBound(s[..n]);
    MulMono(1, s[n], Pow(n));
  }

  lemma OneDigitVal(x: int)
    ensures Val([x]) == x
  {
  }

  lemma MulMono(x: int, y: int, z: int)
    requires x <= y && 0 <= z
    ensures x * z <= y * z && z * x <= z * y
  {
  }

  /** Canonical numbers of different lengths compare by length. */
  lemma LongerIsLarger(s: seq<int>, t: seq<int>)
    requires Canonical(s) && Canonical(t) && |s| < |t|
    ensures Val(s) < Val(t)
  {
    ValBound(s);
    ValLower(t);
    PowMono(|s|, |t| - 1);
  }

  lemma {:induction false} PowMono(i: nat, j: nat)
    requires i <= j
    ensures Pow(i) <= Pow(j)
    decreases j
  {
    if i < j {
      PowMono(i, j - 1);
    }
  }

  /** A canonical number is zero only if it has no digits. */
  lemma ZeroIsEmpty(s: seq<int>)
    requires Canonical(s)
    ensures Val(s) == 0 <==> s == []
  {
    if s != [] {
      ValLower(s);
    }
  }

  lemma {:induction false} ValZeros(s: seq<int>)
    requires forall i :: 0 <= i < |s| ==> s[i] == 0
    ensures Val(s) == 0
  {
    if s != [] {
      ValZeros(s[1..]);
    }
  }

  /** mcan: drop leading zeros. */
  method Mcan(s: seq<int>) returns (r: seq<int>)
    requires Digits(s)
    ensures Canonical(r) && Val(r) == Val(s) && r <= s
  {
    var j := |s|;
    assert s[..j] == s;
    while j > 0 && s[j - 1] == 0
      invariant 0 <= j <= |s| && Val(s[..j]) == Val(s)
    {
      ValSnoc(s[..j - 1], s[j - 1]);
      assert s[..j] == s[..j - 1] + [s[j - 1]];
      j := j - 1;
    }
    r := s[..j];
  }
}
