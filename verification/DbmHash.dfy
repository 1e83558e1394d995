/** calchash of dbm.c. */
module DbmHash {
  import opened Arith
  import opened DbmPage

  /** The table hitab. */
  function Hitab(i: int): int {
    match i
    case 0 => 61 case 1 => 57 case 2 => 53 case 3 => 49 case 4 => 45 case 5 => 41 case 6 => 37 case 7 => 33
    case 8 => 29 case 9 => 25 case 10 => 21 case 11 => 17 case 12 => 13 case 13 => 9 case 14 => 5 case 15 => 1
    case _ => 0
  }

  /** The table hltab. */
  function Hltab(i: int): int {
    match i
    case 0 => 822137535 case 1 => 823714782 case 2 => 883626866 case 3 => 671590471
    case 4 => 372503910 case 5 => 558084953 case 6 => 651519112 case 7 => 1000238937
    case 8 => 930436694 case 9 => 814336635 case 10 => 417934725 case 11 => 215017944
    case 12 => 446577492 case 13 => 1051365423 case 14 => 228326062 case 15 => 791852123
    case 16 => 837640450 case 17 => 1027376024 case 18 => 342253795 case 19 => 260918134
    case 20 => 46627423 case 21 => 342656921 case 22 => 474477855 case 23 => 614436662
    case 24 => 611786819 case 25 => 532422221 case 26 => 512144378 case 27 => 937375398
    case 28 => 384643300 case 29 => 46339214 case 30 => 560879913 case 31 => 104248142
    case 32 => 830447446 case 33 => 368090480 case 34 => 319825659 case 35 => 952599729
    case 36 => 699151109 case 37 => 726162885 case 38 => 1006935516 case 39 => 900332493
    case 40 => 836056891 case 41 => 723806105 case 42 => 170468307 case 43 => 145321629
    case 44 => 805509791 case 45 => 150283701 case 46 => 862002182 case 47 => 604625816
    case 48 => 212139698 case 49 => 268482334 case 50 => 810970674 case 51 => 960789809
    case 52 => 424556370 case 53 => 136526485 case 54 => 255393334 case 55 => 700960087
    case 56 => 259734073 case 57 => 848202262 case 58 => 511513480 case 59 => 263878901
    case 60 => 659324540 case 61 => 512484956 case 62 => 799060155 case 63 => 515294065
    case _ => 0
  }

  function Hi(f: int): int {
    Hitab(f % 16)
  }

  function Hl(hashi: int): int {
    Hltab(hashi % 64)
  }

  /** The 16-bit int and the 32-bit long that calchash carries from one half byte to the next. */
  datatype Sums = Sums(hashi: int, hashl: int)

  function Nibble(s: Sums, f: int): Sums {
    var hashi := (s.hashi + Hi(f)) % 0x1_0000;
    Sums(hashi, (s.hashl + Hl(hashi)) % 0x1_0000_0000)
  }

  function HashPrefix(x: Item, n: nat): Sums
    requires n <= |x|
  {
    if n == 0 then Sums(0, 0) else Nibble(Nibble(HashPrefix(x, n - 1), x[n - 1]), x[n - 1] / 16)
  }

  /** The hash of a key. */
  function Hash(x: Item): int {
    HashPrefix(x, |x|).hashl
  }

  /** The half bytes of a key, low half first. */
  ghost predicate Halves(x: Item, n: seq<int>) {
    && |n| == 2 * |x| && (forall k :: 0 <= k < |n| ==> 0 <= n[k] < 16)
    && (forall i :: 0 <= i < |x| ==> x[i] == n[2 * i] + 16 * n[2 * i + 1])
  }

  /** The sum of the entries of Hitab for the first k half bytes. */
  function HiSum(n: seq<int>, k: nat): int
    requires k <= |n|
  {
    if k == 0 then 0 else HiSum(n, k - 1) + Hi(n[k - 1])
  }

  /** The sum of the entries of Hltab that these sums, one after the other, lead to. */
  function HlSum(n: seq<int>, k: nat): int
    requires k <= |n|
  {
    if k == 0 then 0 else HlSum(n, k - 1) + Hl(HiSum(n, k))
  }

  /** One half byte. The sums of calchash are those without bounds, cut to the width of an int and a
      long. */
  lemma OneHalf(s: Sums, n: seq<int>, k: nat, f: int)
    requires k < |n| && f % 16 == n[k]
    requires s == Sums(HiSum(n, k) % 0x1_0000, HlSum(n, k) % 0x1_0000_0000)
    ensures Nibble(s, f) == Sums(HiSum(n, k + 1) % 0x1_0000, HlSum(n, k + 1) % 0x1_0000_0000)
  {
    hide Hi, Hl;
    LowBits(f, HiSum(n, k + 1));
    assert (s.hashi + Hi(f)) % 0x1_0000 == HiSum(n, k + 1) % 0x1_0000;
  }

  lemma LowBits(f: int, h: int)
    ensures Hi(f) == Hi(f % 16) && Hl(h % 0x1_0000) == Hl(h)
  {
    hide Hitab, Hltab;
    LowSix(h);
    ModIs(f % 16, 16, 0, f % 16);
  }

  lemma LowSix(h: int)
    ensures h % 0x1_0000 % 64 == h % 64
  {
    var q, r := h / 0x1_0000, h % 0x1_0000;
    ModIs(h, 64, 1024 * q + r / 64, r % 64);
  }

  lemma {:induction false} PrefixIsSum(x: Item, n: seq<int>, i: nat)
    requires Halves(x, n) && i <= |x|
    ensures HashPrefix(x, i) == Sums(HiSum(n, 2 * i) % 0x1_0000, HlSum(n, 2 * i) % 0x1_0000_0000)
    decreases i
  {
    hide Nibble, HiSum, HlSum;
    if i == 0 {
      NoSums(n);
    } else {
      PrefixIsSum(x, n, i - 1);
      var f, k := x[i - 1], 2 * (i - 1);
      BothHalves(x, n, i - 1);
      OneHalf(HashPrefix(x, i - 1), n, k, f);
      OneHalf(Nibble(HashPrefix(x, i - 1), f), n, k + 1, f / 16);
    }
  }

  lemma BothHalves(x: Item, n: seq<int>, i: nat)
    requires Halves(x, n) && i < |x|
    ensures x[i] % 16 == n[2 * i] && x[i] / 16 % 16 == n[2 * i + 1]
  {
  }

  lemma NoSums(n: seq<int>)
    ensures HiSum(n, 0) == 0 && HlSum(n, 0) == 0
  {
  }

  /** The hash is the sum, over the half bytes of the key, of the entries of Hltab that the sums of
      the entries of Hitab lead to. */
  lemma HashIsSum(x: Item, n: seq<int>)
    requires Halves(x, n)
    ensures Hash(x) == HlSum(n, |n|) % 0x1_0000_0000
  {
    PrefixIsSum(x, n, |x|);
  }

  method Calchash(x: Item) returns (h: int)
    ensures h == Hash(x)
  {
    hide Hi, Hl;
    var hashl, hashi := 0, 0;
    var i := 0;
    while i < |x|
      invariant 0 <= i <= |x| && HashPrefix(x, i) == Sums(hashi, hashl)
    {
      var f, j := x[i], 0;
      ghost var s := Sums(hashi, hashl);
      while j < 8
        invariant j == 0 || j == 4 || j == 8
        invariant j == 0 ==> Sums(hashi, hashl) == s && f == x[i]
        invariant j == 4 ==> Sums(hashi, hashl) == Nibble(s, x[i]) && f == x[i] / 16
        invariant j == 8 ==> Sums(hashi, hashl) == Nibble(Nibble(s, x[i]), x[i] / 16)
      {
        hashi := (hashi + Hi(f)) % 0x1_0000;
        hashl := (hashl + Hl(hashi)) % 0x1_0000_0000;
        f := f / 16;
        j := j + 4;
      }
      i := i + 1;
    }
    h := hashl;
  }
}
