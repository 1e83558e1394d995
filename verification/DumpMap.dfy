/** The bit maps of inodes in dump.c: BIS, BIC and BIT. */
module DumpMap {

  /** A short of a map, as the set of its bits, 0 to 15, that are 1. */
  type Word = set<int>

  type Map = seq<Word>

  /** Whether inode i is in the map. */
  ghost predicate In(m: Map, i: int) {
    1 <= i <= 16 * |m| && (i - 1) % 16 in m[(i - 1) / 16]
  }

  lemma Place(i: int, k: int)
    requires i >= 1 && k >= 1
    ensures i == k <==> (i - 1) / 16 == (k - 1) / 16 && (i - 1) % 16 == (k - 1) % 16
  {
  }

  method Bis(m: array<Word>, i: int)
    requires 1 <= i <= 16 * m.Length
    modifies m
    ensures forall k :: In(m[..], k) <==> k == i || In(old(m[..]), k)
  {
    ghost var s := m[..];
    m[(i - 1) / 16] := m[(i - 1) / 16] + {(i - 1) % 16};
    forall k
      ensures In(m[..], k) <==> k == i || In(s, k)
    {
      if 1 <= k <= 16 * |s| {
        Place(i, k);
      }
    }
  }

  method Bic(m: array<Word>, i: int)
    requires 1 <= i <= 16 * m.Length
    modifies m
    ensures forall k :: In(m[..], k) <==> k != i && In(old(m[..]), k)
  {
    ghost var s := m[..];
    m[(i - 1) / 16] := m[(i - 1) / 16] - {(i - 1) % 16};
    forall k
      ensures In(m[..], k) <==> k != i && In(s, k)
    {
      if 1 <= k <= 16 * |s| {
        Place(i, k);
      }
    }
  }

  method Bit(m: array<Word>, i: int) returns (r: bool)
    requires 1 <= i <= 16 * m.Length
    ensures r <==> In(m[..], i)
  {
    r := (i - 1) % 16 in m[(i - 1) / 16];
  }

  /** How many of the first n inodes are in a map. */
  ghost function Count(m: Map, n: nat): nat {
    if n == 0 then 0 else Count(m, n - 1) + (if In(m, n) then 1 else 0)
  }
}
