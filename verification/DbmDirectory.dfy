/** The directory file of a dbm database: getbit and setbit of dbm.c, over one cached block. */
module DbmDirectory {

  /** The blocks of the file that were ever written; the rest read as zeros. */
  type Blocks = map<int, seq<bv8>>

  ghost predicate Well(f: Blocks) {
    forall b :: b in f ==> |f[b]| == 8192
  }

  function Block(f: Blocks, b: int): seq<bv8> {
    if b in f then f[b] else seq(8192, i => 0)
  }

  function Mask(n: nat): bv8
    requires n < 8
  {
    1 << n
  }

  predicate Has(x: bv8, n: nat)
    requires n < 8
  {
    x & Mask(n) != 0
  }

  function With(x: bv8, n: nat): bv8
    requires n < 8
  {
    x | Mask(n)
  }

  ghost predicate IsSet(f: Blocks, bit: int)
    requires Well(f) && bit >= 0
  {
    Has(Block(f, bit / 8 / 8192)[bit / 8 % 8192], bit % 8)
  }

  ghost function Bits(f: Blocks): iset<int>
    requires Well(f)
  {
    iset bit: int | bit >= 0 && IsSet(f, bit)
  }

  /** Bit k of the file is in byte k / 8, which is in block k / 65536, and has the value 2^(k % 8). */
  lemma BitLayout(f: Blocks, k: int)
    requires Well(f) && k >= 0
    ensures k / 65536 in f ==> |f[k / 65536]| == 8192
    ensures k in Bits(f) <==> k / 65536 in f && f[k / 65536][k / 8 % 8192] & [1, 2, 4, 8, 16, 32, 64, 128][k % 8] != 0
  {
    assert k / 8 / 8192 == k / 65536;
    MaskValue(k % 8);
    NoBits(k % 8);
  }

  lemma MaskValue(n: nat)
    requires n < 8
    ensures Mask(n) == [1, 2, 4, 8, 16, 32, 64, 128][n]
  {
    assert n == 0 || n == 1 || n == 2 || n == 3 || n == 4 || n == 5 || n == 6 || n == 7;
  }

  lemma NoBits(n: nat)
    requires n < 8
    ensures !Has(0, n)
  {
  }

  lemma MaskOr(x: bv8, n: nat, k: nat)
    requires n < 8 && k < 8
    ensures Has(With(x, n), k) <==> n == k || Has(x, k)
  {
    MaskBits(x, n, k);
  }

  lemma MaskBits(x: bv8, n: nat, k: nat)
    requires n < 8 && k < 8
    ensures (x | Mask(n)) & Mask(k) != 0 <==> n == k || x & Mask(k) != 0
  {
    assert k == 0 || k == 1 || k == 2 || k == 3 || k == 4 || k == 5 || k == 6 || k == 7;
    assert n == 0 || n == 1 || n == 2 || n == 3 || n == 4 || n == 5 || n == 6 || n == 7;
  }

  lemma PlaceOfBit(a: int, b: int)
    requires a >= 0 && b >= 0
    ensures a == b <==> a / 8 / 8192 == b / 8 / 8192 && a / 8 % 8192 == b / 8 % 8192 && a % 8 == b % 8
  {
  }

  /** Or-ing one mask into one byte of a block adds one bit to the set. */
  lemma SetOne(f: Blocks, bit: int, block: seq<bv8>)
    requires Well(f) && bit >= 0 && |block| == 8192
    requires var i := bit / 8 % 8192; block == Block(f, bit / 8 / 8192)[i := With(Block(f, bit / 8 / 8192)[i], bit % 8)]
    ensures var f' := f[bit / 8 / 8192 := block]; Well(f') && Bits(f') == Bits(f) + iset{bit}
  {
    hide Has, With;
    var f' := f[bit / 8 / 8192 := block];
    forall k: int | k >= 0
      ensures IsSet(f', k) <==> IsSet(f, k) || k == bit
    {
      PlaceOfBit(bit, k);
      MaskOr(Block(f, bit / 8 / 8192)[bit / 8 % 8192], bit % 8, k % 8);
    }
  }

  class Directory {
    var dirf: Blocks
    const dirbuf: array<bv8>
    var oldb: int
    var maxbno: int

    ghost predicate Valid()
      reads this, dirbuf
    {
      && dirbuf.Length == 8192 && Well(dirf)
      && (oldb == -1 || dirbuf[..] == Block(dirf, oldb))
      && (forall bit :: bit in Bits(dirf) ==> bit <= maxbno)
    }

    /** dbminit: size is the length of the directory file in bytes. */
    constructor (f: Blocks, size: nat)
      requires Well(f) && forall bit :: bit in Bits(f) ==> bit < size * 8
      ensures Valid() && fresh(dirbuf) && dirf == f
    {
      dirf, oldb, maxbno := f, -1, size * 8 - 1;
      dirbuf := new bv8[8192];
    }

    /** A directory block comes into the buffer. */
    method Load(b: int)
      requires Valid() && b >= 0
      modifies this`oldb, dirbuf
      ensures Valid() && oldb == b
    {
      if b != oldb {
        var block := Block(dirf, b);
        forall i | 0 <= i < 8192 {
          dirbuf[i] := block[i];
        }
        oldb := b;
        assert dirbuf[..] == block;
      }
    }

    method Getbit(bitno: int) returns (r: bool)
      requires Valid() && bitno >= 0
      modifies this`oldb, dirbuf
      ensures Valid()
      ensures r <==> bitno in Bits(dirf)
      ensures bitno <= maxbno ==> oldb == bitno / 8 / 8192
    {
      if bitno > maxbno {
        return false;
      }
      var n, bn := bitno % 8, bitno / 8;
      var i, b := bn % 8192, bn / 8192;
      Load(b);
      r := Has(dirbuf[i], n);
      assert dirbuf[..][i] == dirbuf[i];
    }

    /** A node that getbit has just found unsplit is marked as split, in the file too. */
    method Setbit(bitno: int)
      requires Valid() && bitno >= 0
      requires bitno <= maxbno ==> oldb == bitno / 8 / 8192
      modifies this, dirbuf
      ensures Valid()
      ensures Bits(dirf) == old(Bits(dirf)) + iset{bitno}
    {
      hide Has, With, IsSet;
      if bitno > maxbno {
        maxbno := bitno;
        var _ := Getbit(bitno);
      }
      var n, bn := bitno % 8, bitno / 8;
      var i, b := bn % 8192, bn / 8192;
      ghost var was := dirbuf[..];
      dirbuf[i] := With(dirbuf[i], n);
      assert dirbuf[..] == was[i := With(was[i], n)];
      SetOne(dirf, bitno, dirbuf[..]);
      dirf := dirf[b := dirbuf[..]];
    }
  }
}
