/** The rotor machine of crypt.c and ed.c: its tables, made from any stream of random numbers, and
    the enciphering of a stream of bytes and of a block at an offset. */
module Rotor {
  import opened Arith

  ghost predicate Bytes(s: seq<int>) {
    |s| == 256 && forall i :: 0 <= i < 256 ==> 0 <= s[i] < 256
  }

  ghost predicate Inverse(t1: seq<int>, t2: seq<int>) {
    && Bytes(t1) && Bytes(t2)
    && (forall i :: 0 <= i < 256 ==> t2[t1[i]] == i)
    && (forall x :: 0 <= x < 256 ==> t1[t2[x]] == x)
  }

  /** t3 exchanges the bytes in pairs. */
  ghost predicate Reflector(t3: seq<int>) {
    && Bytes(t3)
    && forall x :: 0 <= x < 256 ==> t3[x] != x && t3[t3[x]] == x
  }

  ghost predicate Machine(t1: seq<int>, t2: seq<int>, t3: seq<int>) {
    Inverse(t1, t2) && Reflector(t3)
  }

  // ----- setup: the permutation

  ghost function Swapped(s: seq<int>, p: int, q: int): seq<int>
    requires 0 <= p < |s| && 0 <= q < |s|
  {
    s[p := s[q]][q := s[p]]
  }

  lemma SwapInverse(t: seq<int>, inv: seq<int>, p: int, q: int)
    requires Inverse(t, inv) && 0 <= p < 256 && 0 <= q < 256
    ensures |inv| == 256 && 0 <= t[p] < 256 && 0 <= t[q] < 256
    ensures Inverse(Swapped(t, p, q), Swapped(inv, t[p], t[q]))
  {
    var t', inv' := Swapped(t, p, q), Swapped(inv, t[p], t[q]);
    forall i | 0 <= i < 256
      ensures inv'[t'[i]] == i
    {
      assert inv[t[i]] == i;
    }
    forall x | 0 <= x < 256
      ensures t'[inv'[x]] == x
    {
      assert t[inv[x]] == x;
    }
  }

  /** The permutation that the first i random numbers name: for each of them, from byte 255 down,
      the byte and the one that the number picks among those not above it change places. */
  ghost function Shuffled(random: seq<int>, i: nat): (t: seq<int>)
    requires i <= |random| && i <= 256 && forall j :: 0 <= j < |random| ==> 0 <= random[j]
    ensures |t| == 256
  {
    if i == 0 then seq(256, x => x)
    else Swapped(Shuffled(random, i - 1), 256 - i, random[i - 1] % 256 % (257 - i))
  }

  // ----- setup: the reflector

  /** The first byte without a partner among n of those below k, from ic on and around. */
  ghost function NextSingle(t3: seq<int>, k: int, ic: int, n: nat): int
    requires 0 <= ic < k <= |t3|
    decreases n
  {
    if n == 0 || t3[ic] == 0 then ic else NextSingle(t3, k, (ic + 1) % k, n - 1)
  }

  /** The pairs that the first i random numbers name: for each of them, from byte 255 down, a byte
      without a partner gets the next one without, from the place that the number picks. */
  ghost function Partners(random: seq<int>, i: nat): (t: seq<int>)
    requires i <= |random| && i <= 256 && forall j :: 0 <= j < |random| ==> 0 <= random[j]
    ensures |t| == 256
  {
    if i == 0 then seq(256, x => 0)
    else
      var t, k := Partners(random, i - 1), 256 - i;
      if t[k] != 0 || k == 0 then t
      else
        var ic := NextSingle(t, k, random[i - 1] / 256 % 256 % k, k);
        if 0 <= ic < 256 then t[k := ic][ic := k] else t
  }

  /** How many of the first n bytes have no partner yet. */
  ghost function Single(t3: seq<int>, n: nat): nat
    requires n <= |t3|
  {
    if n == 0 then 0 else Single(t3, n - 1) + (if t3[n - 1] == 0 then 1 else 0)
  }

  lemma {:induction false} SingleSet(t3: seq<int>, n: nat, i: int, v: int)
    requires n <= |t3| && 0 <= i < |t3| && t3[i] == 0 && v != 0
    ensures Single(t3[i := v], n) == Single(t3, n) - (if i < n then 1 else 0)
    decreases n
  {
    if n > 0 {
      SingleSet(t3, n - 1, i, v);
    }
  }

  lemma {:induction false} SingleSame(t3: seq<int>, t3': seq<int>, n: nat)
    requires n <= |t3| == |t3'| && forall i :: 0 <= i < n ==> t3'[i] == t3[i]
    ensures Single(t3', n) == Single(t3, n)
    decreases n
  {
    if n > 0 {
      SingleSame(t3, t3', n - 1);
    }
  }

  lemma {:induction false} SingleZero(t3: seq<int>, n: nat)
    requires n <= |t3| && forall i :: 0 <= i < |t3| ==> t3[i] == 0
    ensures Single(t3, n) == n
    decreases n
  {
    if n > 0 {
      SingleZero(t3, n - 1);
    }
  }

  lemma {:induction false} FindSingle(t3: seq<int>, n: nat) returns (j: int)
    requires n <= |t3| && Single(t3, n) > 0
    ensures 0 <= j < n && t3[j] == 0
    decreases n
  {
    if t3[n - 1] == 0 {
      j := n - 1;
    } else {
      j := FindSingle(t3, n - 1);
    }
  }

  /** The bytes from n up all have partners; a byte below n has one exactly when its entry is not
      0, and then the partner is not below n; an even number below n have none. */
  ghost predicate Pairing(t3: seq<int>, n: nat) {
    && Bytes(t3) && n <= 256
    && (forall x :: n <= x < 256 ==> t3[x] != x && t3[t3[x]] == x)
    && (forall x :: 0 <= x < n && t3[x] != 0 ==> n <= t3[x] && t3[t3[x]] == x)
    && Single(t3, n) % 2 == 0
  }

  lemma AlreadyPaired(t3: seq<int>, k: nat)
    requires Pairing(t3, k + 1) && t3[k] != 0
    ensures Pairing(t3, k)
  {
    assert t3[t3[k]] == k;
  }

  lemma NewPair(t3: seq<int>, k: nat, ic: int)
    requires Pairing(t3, k + 1) && t3[k] == 0 && 0 <= ic < k && t3[ic] == 0
    ensures Pairing(t3[k := ic][ic := k], k)
  {
    var t3' := t3[k := ic][ic := k];
    SingleSet(t3, k, ic, k);
    SingleSame(t3[ic := k], t3', k);
    forall x | k <= x < 256
      ensures t3'[x] != x && t3'[t3'[x]] == x
    {
      if x > k {
        assert t3[t3[x]] == x && t3[x] != k && t3[x] != ic;
      }
    }
    forall x | 0 <= x < k && t3'[x] != 0
      ensures k <= t3'[x] && t3'[t3'[x]] == x
    {
      if x != ic {
        assert t3[t3[x]] == x;
      }
    }
  }

  lemma Paired(t3: seq<int>)
    requires Pairing(t3, 0)
    ensures Reflector(t3)
  {
  }

  lemma Following(ic: int, k: int)
    requires 0 <= ic < k
    ensures (ic + 1) % k == if ic + 1 == k then 0 else ic + 1
  {
    if ic + 1 == k {
      ModIs(k, k, 1, 0);
    } else {
      ModIs(ic + 1, k, 0, ic + 1);
    }
  }

  /** The search for a partner of k, from ic on: another byte below k is still single. */
  method Probe(t3: array<int>, k: int, ic0: int) returns (ic: int)
    requires t3.Length == 256 && 0 < k < 256 && 0 <= ic0 < k && exists j :: 0 <= j < k && t3[j] == 0
    ensures 0 <= ic < k && t3[ic] == 0 && ic == NextSingle(t3[..], k, ic0, k)
  {
    ghost var j :| 0 <= j < k && t3[j] == 0;
    ghost var n: nat := k;
    ic := ic0;
    while t3[ic] != 0
      invariant 0 <= ic < k && NextSingle(t3[..], k, ic, n) == NextSingle(t3[..], k, ic0, k)
      invariant n >= if ic <= j then j - ic else j - ic + k
      decreases if ic <= j then j - ic else j - ic + k
    {
      Following(ic, k);
      ic := (ic + 1) % k;
      n := n - 1;
    }
  }

  /** One turn of the setup loop, for byte k. */
  method Turn(t1: array<int>, t3: array<int>, k: int, random: int, ghost inv: seq<int>) returns (ghost inv': seq<int>)
    requires t1.Length == t3.Length == 256 && t1 != t3 && 0 <= k < 256 && random >= 0
    requires Inverse(t1[..], inv) && Pairing(t3[..], k + 1)
    modifies t1, t3
    ensures Inverse(t1[..], inv') && Pairing(t3[..], k)
    ensures t1[..] == Swapped(old(t1[..]), k, random % 256 % (k + 1))
    ensures old(t3[k]) != 0 ==> t3[..] == old(t3[..])
    ensures old(t3[k]) == 0 ==>
      var ic := if k == 0 then 0 else NextSingle(old(t3[..]), k, random / 256 % 256 % k, k);
      0 <= ic < k && t3[..] == old(t3[..])[k := ic][ic := k]
  {
    hide Inverse, Pairing;
    var ic := (random % 256) % (k + 1);
    SwapInverse(t1[..], inv, k, ic);
    inv' := Swapped(inv, t1[k], t1[ic]);
    ghost var s := t1[..];
    t1[k], t1[ic] := t1[ic], t1[k];
    assert t1[..] == Swapped(s, k, ic);
    if t3[k] != 0 {
      AlreadyPaired(t3[..], k);
      return;
    }
    ghost var p := t3[..];
    var j := AnotherSingle(p, k);
    assert t3[j] == 0;
    ic := (random / 256 % 256) % k;
    ic := Probe(t3, k, ic);
    NewPair(p, k, ic);
    t3[k] := ic;
    t3[ic] := k;
    assert t3[..] == p[k := ic][ic := k];
  }

  lemma AnotherSingle(t3: seq<int>, k: nat) returns (j: int)
    requires Pairing(t3, k + 1) && t3[k] == 0
    ensures k > 0 && 0 <= j < k && t3[j] == 0
  {
    assert Single(t3, k + 1) == Single(t3, k) + 1;
    j := FindSingle(t3, k);
  }

  /** setup, from the random numbers on: tables for any stream of 256 of them. */
  method Setup(random: seq<int>) returns (t1: array<int>, t2: array<int>, t3: array<int>)
    requires |random| == 256 && forall i :: 0 <= i < 256 ==> 0 <= random[i] < 0x1_0000
    ensures t1.Length == t2.Length == t3.Length == 256 && Machine(t1[..], t2[..], t3[..])
    ensures fresh(t1) && fresh(t2) && fresh(t3)
    ensures t1[..] == Shuffled(random, 256) && t3[..] == Partners(random, 256)
  {
    hide Inverse, Pairing, Swapped;
    t1, t2, t3 := new int[256](i => i), new int[256](_ => 0), new int[256](_ => 0);
    ghost var inv := t1[..];
    StartInverse(inv);
    StartPairing(t3[..]);
    var i := 0;
    while i < 256
      invariant 0 <= i <= 256 && Inverse(t1[..], inv) && Pairing(t3[..], 256 - i)
      invariant t1[..] == Shuffled(random, i) && t3[..] == Partners(random, i)
    {
      inv := Turn(t1, t3, 255 - i, random[i], inv);
      i := i + 1;
    }
    Paired(t3[..]);
    Invert(t1, t2, inv);
  }

  lemma StartInverse(t: seq<int>)
    requires |t| == 256 && forall i :: 0 <= i < 256 ==> t[i] == i
    ensures Inverse(t, t)
  {
  }

  lemma StartPairing(t3: seq<int>)
    requires |t3| == 256 && forall i :: 0 <= i < 256 ==> t3[i] == 0
    ensures Pairing(t3, 256)
  {
    SingleZero(t3, 256);
  }

  method Invert(t1: array<int>, t2: array<int>, ghost inv: seq<int>)
    requires t1.Length == t2.Length == 256 && t1 != t2 && Inverse(t1[..], inv)
    modifies t2
    ensures Inverse(t1[..], t2[..])
  {
    var i := 0;
    while i < 256
      invariant 0 <= i <= 256
      invariant forall j :: 0 <= j < i ==> t2[t1[j]] == j
    {
      assert forall j :: 0 <= j < i ==> t1[j] != t1[i] by {
        assert forall j :: 0 <= j < 256 ==> inv[t1[..][j]] == j;
      }
      t2[t1[i]] := i;
      i := i + 1;
    }
    forall x | 0 <= x < 256
      ensures t2[x] == inv[x]
    {
      assert t1[..][inv[x]] == x;
    }
  }

  // ----- enciphering

  function Plus(x: int, n: int): (r: int)
    ensures 0 <= r < 256
  {
    (x + n) % 256
  }

  function Minus(x: int, n: int): (r: int)
    ensures 0 <= r < 256
  {
    (x - n) % 256
  }

  lemma PlusMinus(x: int, n: int)
    requires 0 <= x < 256
    ensures Minus(Plus(x, n), n) == x && Plus(Minus(x, n), n) == x
  {
    var q, p := (x + n) / 256, (x - n) / 256;
    ModIs(Plus(x, n) - n, 256, -q, x);
    ModIs(Minus(x, n) + n, 256, -p, x);
  }

  /** The machine at position (n1, n2). */
  function Encipher(t1: seq<int>, t2: seq<int>, t3: seq<int>, n1: int, n2: int, b: int): int
    requires |t1| == |t2| == |t3| == 256
  {
    Minus(t2[Minus(t3[Plus(t1[Plus(b, n1)], n2)], n2)], n1)
  }

  /** At any position the machine undoes itself, and it leaves no byte as it is. */
  lemma EncipherTwice(t1: seq<int>, t2: seq<int>, t3: seq<int>, n1: int, n2: int, b: int)
    requires Machine(t1, t2, t3) && 0 <= b < 256
    ensures Encipher(t1, t2, t3, n1, n2, Encipher(t1, t2, t3, n1, n2, b)) == b
    ensures Encipher(t1, t2, t3, n1, n2, b) != b
  {
    hide Plus, Minus;
    var x := t1[Plus(b, n1)];
    var y := t3[Plus(x, n2)];
    var z := t2[Minus(y, n2)];
    PlusMinus(b, n1);
    PlusMinus(x, n2);
    PlusMinus(y, n2);
    PlusMinus(z, n1);
    assert t2[x] == Plus(b, n1) && t3[y] == Plus(x, n2) && y != Plus(x, n2) && t1[z] == Minus(y, n2);
  }

  /** The position after n bytes. */
  function First(n: nat): int {
    n % 256
  }

  function Second(n: nat): int {
    n / 256 % 256
  }

  /** The text enciphered from position n on. */
  function Stream(t1: seq<int>, t2: seq<int>, t3: seq<int>, n: nat, text: seq<int>): (r: seq<int>)
    requires |t1| == |t2| == |t3| == 256
    ensures |r| == |text|
  {
    seq(|text|, i requires 0 <= i < |text| => Encipher(t1, t2, t3, First(n + i), Second(n + i), text[i]))
  }

  /** Running the machine twice from the same position gives the text back. */
  lemma StreamTwice(t1: seq<int>, t2: seq<int>, t3: seq<int>, n: nat, text: seq<int>)
    requires Machine(t1, t2, t3) && forall i :: 0 <= i < |text| ==> 0 <= text[i] < 256
    ensures Stream(t1, t2, t3, n, Stream(t1, t2, t3, n, text)) == text
  {
    hide Encipher, First, Second;
    forall i | 0 <= i < |text|
      ensures Stream(t1, t2, t3, n, Stream(t1, t2, t3, n, text))[i] == text[i]
    {
      EncipherTwice(t1, t2, t3, First(n + i), Second(n + i), text[i]);
    }
  }

  /** What the machine does with byte i of a text that begins at position n: as seen through t1,
      turned by the position, and t3, turned by the number of full turns of the first, the byte and
      its cipher are partners; no other byte is. */
  lemma StreamPartners(t1: seq<int>, t2: seq<int>, t3: seq<int>, n: nat, text: seq<int>, i: nat, y: int)
    requires Machine(t1, t2, t3) && i < |text| && (forall j :: 0 <= j < |text| ==> 0 <= text[j] < 256) && 0 <= y < 256
    ensures y == Stream(t1, t2, t3, n, text)[i] <==>
            t3[(t1[(text[i] + n + i) % 256] + (n + i) / 256) % 256] == (t1[(y + n + i) % 256] + (n + i) / 256) % 256
  {
    hide Encipher;
    var p, b := n + i, text[i];
    Turned(b, p);
    Turned(y, p);
    Turned(t1[Plus(b, First(p))], p / 256);
    Turned(t1[Plus(y, First(p))], p / 256);
    OnlyPartner(t1, t2, t3, First(p), Second(p), b, y);
  }

  lemma Turned(x: int, p: nat)
    requires 0 <= x < 256
    ensures (x + p) % 256 == Plus(x, p % 256)
  {
  }

  lemma OnlyPartner(t1: seq<int>, t2: seq<int>, t3: seq<int>, n1: int, n2: int, b: int, y: int)
    requires Machine(t1, t2, t3) && 0 <= b < 256 && 0 <= y < 256
    ensures y == Encipher(t1, t2, t3, n1, n2, b) <==> t3[Plus(t1[Plus(b, n1)], n2)] == Plus(t1[Plus(y, n1)], n2)
  {
    hide Plus, Minus;
    var w := t3[Plus(t1[Plus(b, n1)], n2)];
    var z := t2[Minus(w, n2)];
    PlusMinus(y, n1);
    PlusMinus(z, n1);
    PlusMinus(w, n2);
    PlusMinus(t1[Plus(y, n1)], n2);
    assert t1[z] == Minus(w, n2) && t2[t1[Plus(y, n1)]] == Plus(y, n1);
  }

  /** A text enciphered in blocks, each at its offset, is the text enciphered as one stream. */
  lemma StreamInBlocks(t1: seq<int>, t2: seq<int>, t3: seq<int>, n: nat, a: seq<int>, b: seq<int>)
    requires |t1| == |t2| == |t3| == 256
    ensures Stream(t1, t2, t3, n, a + b) == Stream(t1, t2, t3, n, a) + Stream(t1, t2, t3, n + |a|, b)
  {
    hide Encipher, First, Second;
  }

  lemma NextPosition(n: nat)
    ensures First(n + 1) == if First(n) + 1 == 256 then 0 else First(n) + 1
    ensures Second(n + 1) ==
      if First(n) + 1 == 256 then (if Second(n) + 1 == 256 then 0 else Second(n) + 1) else Second(n)
  {
  }

  /** The loop of crypt over its input. */
  method Crypt(t1: array<int>, t2: array<int>, t3: array<int>, input: seq<int>) returns (output: seq<int>)
    requires t1.Length == t2.Length == t3.Length == 256
    ensures output == Stream(t1[..], t2[..], t3[..], 0, input)
  {
    hide Encipher, First, Second;
    output := [];
    var n1, n2, p := 0, 0, 0;
    assert First(0) == 0 && Second(0) == 0 by { StartPosition(); }
    while p < |input|
      invariant 0 <= p <= |input| && n1 == First(p) && n2 == Second(p)
      invariant output == Stream(t1[..], t2[..], t3[..], 0, input[..p])
    {
      NextPosition(p);
      output := output + [Encipher(t1[..], t2[..], t3[..], n1, n2, input[p])];
      n1 := n1 + 1;
      if n1 == 256 {
        n1 := 0;
        n2 := n2 + 1;
        if n2 == 256 {
          n2 := 0;
        }
      }
      p := p + 1;
    }
    assert input[..p] == input;
  }

  lemma StartPosition()
    ensures First(0) == 0 && Second(0) == 0
  {
  }

  /** crblock of ed: a block is enciphered in place as if startn bytes had gone before. */
  method Crblock(t1: array<int>, t2: array<int>, t3: array<int>, buf: array<int>, startn: nat)
    requires t1.Length == t2.Length == t3.Length == 256 && buf != t1 && buf != t2 && buf != t3
    modifies buf
    ensures buf[..] == Stream(t1[..], t2[..], t3[..], startn, old(buf[..]))
  {
    hide Encipher;
    var n1, n2, p1 := startn % 256, startn / 256 % 256, 0;
    assert n1 == First(startn) && n2 == Second(startn);
    while p1 < buf.Length
      invariant 0 <= p1 <= buf.Length && n1 == First(startn + p1) && n2 == Second(startn + p1)
      invariant forall i :: 0 <= i < p1 ==> buf[i] == Stream(t1[..], t2[..], t3[..], startn, old(buf[..]))[i]
      invariant forall i :: p1 <= i < buf.Length ==> buf[i] == old(buf[i])
    {
      NextPosition(startn + p1);
      buf[p1] := Encipher(t1[..], t2[..], t3[..], n1, n2, buf[p1]);
      n1 := n1 + 1;
      if n1 == 256 {
        n1 := 0;
        n2 := n2 + 1;
        if n2 == 256 {
          n2 := 0;
        }
      }
      p1 := p1 + 1;
    }
  }
}
