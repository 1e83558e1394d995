/** Pruning, sorting, equivalence classes and unsorting: prune, sort, equiv and unsort of diff.c. */
module DiffClasses {
  import opened DiffStone

  datatype Line = Line(serial: int, value: int)

  // ----- prune

  /** The longest common prefix, then the longest common suffix of the rest; the lines in
      between are numbered from 1 in their serial fields. */
  method Prune(file0: array<Line>, len0: nat, file1: array<Line>, len1: nat)
    returns (pref: nat, suff: nat, slen0: nat, slen1: nat)
    requires file0 != file1 && len0 < file0.Length && len1 < file1.Length
    modifies file0, file1
    ensures slen0 == len0 - pref - suff && slen1 == len1 - pref - suff
    ensures forall i :: 0 <= i < file0.Length ==> file0[i].value == old(file0[i].value)
    ensures forall i :: 0 <= i < file1.Length ==> file1[i].value == old(file1[i].value)
    ensures forall i :: 1 <= i <= pref ==> file0[i].value == file1[i].value
    ensures forall i :: len0 - suff < i <= len0 ==> file0[i].value == file1[i + len1 - len0].value
    ensures pref == len0 || pref == len1 || file0[pref + 1].value != file1[pref + 1].value
    ensures slen0 > 0 && slen1 > 0 ==>
              && file0[pref + 1].value != file1[pref + 1].value
              && file0[len0 - suff].value != file1[len1 - suff].value
    ensures forall i :: pref <= i <= pref + slen0 ==> file0[i].serial == i - pref
    ensures forall i :: pref <= i <= pref + slen1 ==> file1[i].serial == i - pref
  {
    pref := 0;
    while pref < len0 && pref < len1 && file0[pref + 1].value == file1[pref + 1].value
      invariant pref <= len0 && pref <= len1
      invariant forall i :: 1 <= i <= pref ==> file0[i].value == file1[i].value
    {
      pref := pref + 1;
    }
    suff := 0;
    while suff < len0 - pref && suff < len1 - pref && file0[len0 - suff].value == file1[len1 - suff].value
      invariant suff <= len0 - pref && suff <= len1 - pref
      invariant forall i :: len0 - suff < i <= len0 ==> file0[i].value == file1[i + len1 - len0].value
    {
      suff := suff + 1;
    }
    slen0, slen1 := len0 - pref - suff, len1 - pref - suff;
    Number(file0, pref, slen0);
    Number(file1, pref, slen1);
  }

  /** The numbering loop of prune, for one file. */
  method Number(file: array<Line>, base: nat, n: nat)
    requires base + n < file.Length
    modifies file
    ensures forall i :: 0 <= i < file.Length ==> file[i].value == old(file[i].value)
    ensures forall i :: base <= i <= base + n ==> file[i].serial == i - base
  {
    for i := 0 to n + 1
      invariant forall q :: 0 <= q < file.Length ==> file[q].value == old(file[q].value)
      invariant forall q :: base <= q < base + i ==> file[q].serial == q - base
    {
      file[base + i] := Line(i, file[base + i].value);
    }
  }

  // ----- sort

  predicate Less(x: Line, y: Line) {
    x.value < y.value || (x.value == y.value && x.serial < y.serial)
  }

  ghost predicate Sorted(s: seq<Line>) {
    forall p, q :: 0 <= p < q < |s| ==> !Less(s[q], s[p])
  }

  /** C's division by two, which truncates towards zero. */
  function Half(m: int): int {
    if m >= 0 then m / 2 else -(-m / 2)
  }

  lemma SwapKeepsMultiset(s: seq<Line>, p: nat, q: nat)
    requires p < |s| && q < |s|
    ensures multiset(s[p := s[q]][q := s[p]]) == multiset(s)
  {
  }

  /** The n lines that follow a[base]. */
  ghost function Window(a: seq<Line>, base: nat, n: nat): seq<Line>
    requires base + n < |a|
  {
    a[base + 1..base + n + 1]
  }

  /** b is a with the n lines that follow a[base] rearranged. */
  ghost predicate Rearranged(a: seq<Line>, b: seq<Line>, base: nat, n: nat)
  {
    && |a| == |b| && base + n < |a|
    && multiset(Window(a, base, n)) == multiset(Window(b, base, n))
    && (forall i :: 0 <= i < |a| && !(base < i <= base + n) ==> a[i] == b[i])
  }

  lemma SwapRearranges(a: seq<Line>, base: nat, n: nat, p: nat, q: nat)
    requires base + n < |a| && base < p <= base + n && base < q <= base + n
    ensures Rearranged(a, a[p := a[q]][q := a[p]], base, n)
  {
    var s, b, p', q' := Window(a, base, n), a[p := a[q]][q := a[p]], p - base - 1, q - base - 1;
    SwapKeepsMultiset(s, p', q');
    assert Window(b, base, n) == s[p' := s[q']][q' := s[p']];
  }

  /** Lines base + 1 to hi are in order, except possibly line `hole`, which is only known not
      to exceed the lines after it. */
  ghost predicate InOrderBut(a: seq<Line>, base: int, hi: int, hole: int)
    requires 0 <= base && hi < |a|
  {
    forall p, q :: base < p < q <= hi && q != hole ==> !Less(a[q], a[p])
  }

  /** The innermost loop of sort: let line j + m drift down by steps of m. */
  method Sift(a: array<Line>, base: nat, n: nat, m: int, j: nat)
    requires base + n < a.Length && 1 <= j && j + m <= n && m != 0
    requires m == 1 ==> InOrderBut(a[..], base, base + j, base)
    modifies a
    ensures Rearranged(old(a[..]), a[..], base, n)
    ensures m == 1 ==> InOrderBut(a[..], base, base + j + 1, base)
  {
    hide Rearranged;
    var i: int := j;
    RearrangedTrans(a[..], a[..], a[..], base, n);
    while i > 0
      invariant i <= j
      invariant Rearranged(old(a[..]), a[..], base, n)
      invariant m == 1 ==> i >= 0 && InOrderBut(a[..], base, base + j + 1, base + i + 1)
    {
      var im := i + m;
      if im < i {
        break; // wraparound
      }
      if Less(a[base + i], a[base + im]) {
        break;
      }
      ghost var s := a[..];
      SwapRearranges(s, base, n, base + i, base + im);
      a[base + i], a[base + im] := a[base + im], a[base + i];
      assert a[..] == s[base + i := s[base + im]][base + im := s[base + i]];
      RearrangedTrans(old(a[..]), s, a[..], base, n);
      i := i - m;
    }
  }

  lemma RearrangedTrans(a: seq<Line>, b: seq<Line>, c: seq<Line>, base: nat, n: nat)
    requires a == b || Rearranged(a, b, base, n)
    requires b == c || Rearranged(b, c, base, n)
    requires base + n < |a|
    ensures Rearranged(a, c, base, n)
  {
  }

  /** One pass of sort with gap m. */
  method Pass(a: array<Line>, base: nat, n: nat, m: int)
    requires base + n < a.Length && m != 0
    modifies a
    ensures Rearranged(old(a[..]), a[..], base, n)
    ensures m == 1 ==> Sorted(Window(a[..], base, n))
  {
    hide Rearranged;
    RearrangedTrans(a[..], a[..], a[..], base, n);
    var k := n - m;
    var j := 1;
    while j <= k
      invariant j == 1 || 1 < j <= k + 1
      invariant Rearranged(old(a[..]), a[..], base, n)
      invariant m == 1 && n >= 1 ==> InOrderBut(a[..], base, base + j, base)
    {
      ghost var s := a[..];
      Sift(a, base, n, m, j);
      RearrangedTrans(old(a[..]), s, a[..], base, n);
      j := j + 1;
    }
    ghost var w := Window(a[..], base, n);
    if m == 1 {
      forall p, q | 0 <= p < q < n
        ensures !Less(w[q], w[p])
      {
        var p', q' := base + 1 + p, base + 1 + q;
        assert !Less(a[..][q'], a[..][p']);
      }
    }
  }

  /** The shellsort. The gap m is uninitialised when there is nothing to sort: m0 stands for
      whatever it then holds. */
  method Sort(a: array<Line>, base: nat, n: nat, m0: int)
    requires base + n < a.Length
    modifies a
    ensures Rearranged(old(a[..]), a[..], base, n)
    ensures Sorted(Window(a[..], base, n))
  {
    hide Rearranged;
    RearrangedTrans(a[..], a[..], a[..], base, n);
    var m, j := m0, 1;
    while j <= n
      invariant j >= 1 && (j == 1 || m == j - 1)
      decreases n - j
    {
      m := 2 * j - 1;
      j := j * 2;
    }
    m := Half(m);
    while m != 0
      invariant Rearranged(old(a[..]), a[..], base, n)
      invariant n >= 1 ==> m >= 0
      invariant m == 0 ==> n <= 1 || Sorted(Window(a[..], base, n))
      decreases if m < 0 then -m else m
    {
      ghost var s := a[..];
      Pass(a, base, n, m);
      RearrangedTrans(old(a[..]), s, a[..], base, n);
      m := Half(m);
    }
  }

  // ----- the word view of an array of lines

  /** Word w of the storage that holds a sequence of lines: class and member are overlaid on
      the two files in this way. */
  ghost function Word(s: seq<Line>, w: int): int
    requires 0 <= w / 2 < |s|
  {
    if w % 2 == 0 then s[w / 2].serial else s[w / 2].value
  }

  method SetWord(a: array<Line>, w: nat, v: int)
    requires w / 2 < a.Length
    modifies a
    ensures Word(a[..], w) == v
    ensures forall u :: 0 <= u / 2 < a.Length && u != w ==> Word(a[..], u) == old(Word(a[..], u))
    ensures forall q :: 0 <= q < a.Length && q != w / 2 ==> a[q] == old(a[q])
  {
    a[w / 2] := if w % 2 == 0 then Line(v, a[w / 2].value) else Line(a[w / 2].serial, v);
  }

  /** Compacting reallocation: keep the first n words. */
  method TakeWords(a: array<Line>, n: nat) returns (r: array<int>)
    requires n <= 2 * a.Length
    ensures fresh(r) && r.Length == n
    ensures forall w :: 0 <= w < n ==> r[w] == Word(a[..], w)
  {
    r := new int[n];
    for w := 0 to n
      invariant forall u :: 0 <= u < w ==> r[u] == Word(a[..], u)
    {
      r[w] := if w % 2 == 0 then a[w / 2].serial else a[w / 2].value;
    }
  }

  // ----- equiv

  /** The 1-based place of the first line of s with value v; 0 if there is none. */
  ghost function First(s: seq<Line>, v: int): (r: nat)
    ensures r <= |s|
    ensures r == 0 ==> forall q :: 0 <= q < |s| ==> s[q].value != v
    ensures r > 0 ==> s[r - 1].value == v && forall q :: 0 <= q < r - 1 ==> s[q].value != v
  {
    if s == [] then 0
    else if s[0].value == v then 1
    else
      var r := First(s[1..], v);
      assert forall q :: 1 <= q < |s| ==> s[q] == s[1..][q - 1];
      if r == 0 then 0 else r + 1
  }

  /** In a sorted file, v lies before place j and v is below the line there: v is absent. */
  lemma FirstAbsent(s: seq<Line>, v: int, j: int)
    requires Sorted(s) && 1 <= j <= |s| + 1
    requires forall q :: 0 <= q < j - 1 ==> s[q].value < v
    requires j <= |s| ==> v < s[j - 1].value
    ensures First(s, v) == 0
  {
    forall q | 0 <= q < |s|
      ensures s[q].value != v
    {
      if q > j - 1 {
        assert !Less(s[q], s[j - 1]);
      }
    }
  }

  lemma SortedValues(a: seq<Line>, base: nat, n: nat)
    requires base + n < |a| && Sorted(Window(a, base, n))
    ensures forall p, q :: base < p < q <= base + n ==> a[p].value <= a[q].value
  {
    forall p, q | base < p < q <= base + n
      ensures a[p].value <= a[q].value
    {
      var w, p', q' := Window(a, base, n), p - base - 1, q - base - 1;
      assert !Less(w[q'], w[p']);
    }
  }

  /** How far the first loop of equiv has come: lines before i have their places, the others
      are untouched and lie above places 1 to j - 1 of the new file. */
  ghost predicate Placed(sa: seq<Line>, a: seq<Line>, abase: nat, n: nat, i: int, sb: seq<Line>, j: int)
  {
    && 1 <= i <= n + 1 && 1 <= j <= |sb| + 1
    && |a| == |sa| && abase + n < |a|
    && (forall q :: 0 <= q < |a| ==> a[q].serial == sa[q].serial)
    && (forall q :: abase + i <= q < |a| ==> a[q] == sa[q])
    && (forall q :: abase < q < abase + i ==> a[q].value == First(sb, sa[q].value))
    && (i <= n ==> forall q :: 0 <= q < j - 1 ==> sb[q].value < sa[abase + i].value)
  }

  lemma PlaceOne(sa: seq<Line>, a: seq<Line>, abase: nat, n: nat, i: int, sb: seq<Line>, j: int)
    requires Placed(sa, a, abase, n, i, sb, j) && i <= n
    requires forall p, q :: abase < p < q <= abase + n ==> sa[p].value <= sa[q].value
    ensures Placed(sa, a[abase + i := Line(a[abase + i].serial, First(sb, a[abase + i].value))],
                   abase, n, i + 1, sb, j)
  {
  }

  lemma PlacedStart(sa: seq<Line>, abase: nat, n: nat, sb: seq<Line>)
    requires abase + n < |sa|
    ensures Placed(sa, sa, abase, n, 1, sb, 1)
  {
  }

  /** One turn of the loop: line i is below place j, equal to it, above it, or past all places. */
  lemma PlaceStep(sa: seq<Line>, a: seq<Line>, abase: nat, n: nat, i: int, sb: seq<Line>, j: int)
    requires Placed(sa, a, abase, n, i, sb, j) && 1 <= i <= n && abase + n < |a|
    requires abase + n < |sa| && Sorted(Window(sa, abase, n)) && Sorted(sb)
    ensures 1 <= j <= |sb| + 1
    ensures j > |sb| || a[abase + i].value < sb[j - 1].value ==>
              Placed(sa, a[abase + i := Line(a[abase + i].serial, 0)], abase, n, i + 1, sb, j)
    ensures j <= |sb| && a[abase + i].value == sb[j - 1].value ==>
              Placed(sa, a[abase + i := Line(a[abase + i].serial, j)], abase, n, i + 1, sb, j)
    ensures j <= |sb| && a[abase + i].value > sb[j - 1].value ==> Placed(sa, a, abase, n, i, sb, j + 1)
  {
    hide Sorted, First;
    SortedValues(sa, abase, n);
    PlaceOne(sa, a, abase, n, i, sb, j);
    FirstIs(sb, a[abase + i].value, j);
  }

  /** Where a value is, when all places before j hold smaller ones. */
  lemma FirstIs(sb: seq<Line>, v: int, j: int)
    requires Sorted(sb) && 1 <= j <= |sb| + 1 && forall q :: 0 <= q < j - 1 ==> sb[q].value < v
    ensures j > |sb| || v < sb[j - 1].value ==> First(sb, v) == 0
    ensures j <= |sb| && v == sb[j - 1].value ==> First(sb, v) == j
  {
    if j > |sb| || v < sb[j - 1].value {
      FirstAbsent(sb, v, j);
    }
  }

  lemma PlacedDone(sa: seq<Line>, a: seq<Line>, abase: nat, n: nat, i: int, sb: seq<Line>, j: int)
    requires Placed(sa, a, abase, n, i, sb, j) && i > n
    ensures Placed(sa, a, abase, n, n + 1, sb, |sb| + 1)
  {
  }

  /** The first loop of equiv: replace every value of a by the place of its class in b. */
  method Place(a: array<Line>, abase: nat, n: nat, b: array<Line>, bbase: nat, m: nat)
    requires a != b && abase + n < a.Length && bbase + m < b.Length
    requires Sorted(Window(a[..], abase, n)) && Sorted(Window(b[..], bbase, m))
    modifies a
    ensures Placed(old(a[..]), a[..], abase, n, n + 1, Window(b[..], bbase, m), m + 1)
  {
    hide Sorted, First, Placed;
    ghost var sb, sa := Window(b[..], bbase, m), a[..];
    PlacedStart(sa, abase, n, sb);
    assert forall q :: 0 <= q < m ==> sb[q] == b[bbase + 1 + q];
    var i, j := 1, 1;
    while i <= n && j <= m
      invariant 1 <= i <= n + 1 && 1 <= j <= m + 1 && Placed(sa, a[..], abase, n, i, sb, j)
      decreases n - i + m - j
    {
      ghost var s := a[..];
      PlaceStep(sa, s, abase, n, i, sb, j);
      if a[abase + i].value < b[bbase + j].value {
        a[abase + i] := Line(a[abase + i].serial, 0);
        i := i + 1;
      } else if a[abase + i].value == b[bbase + j].value {
        a[abase + i] := Line(a[abase + i].serial, j);
        i := i + 1;
      } else {
        j := j + 1;
      }
    }
    while i <= n
      invariant 1 <= i <= n + 1 && 1 <= j <= m + 1 && (i <= n ==> j == m + 1)
      invariant Placed(sa, a[..], abase, n, i, sb, j)
    {
      PlaceStep(sa, a[..], abase, n, i, sb, j);
      a[abase + i] := Line(a[abase + i].serial, 0);
      i := i + 1;
    }
    PlacedDone(sa, a[..], abase, n, i, sb, j);
  }

  /** The member word of place j of the sorted new file: its serial, negated where a new
      equivalence class begins. */
  ghost function MemberWord(s: seq<Line>, j: int): int
    requires 1 <= j <= |s|
  {
    if j > 1 && s[j - 2].value == s[j - 1].value then s[j - 1].serial else -s[j - 1].serial
  }

  lemma MemberIs(b: seq<Line>, base: nat, m: nat, j: int)
    requires base + m < |b| && 1 <= j <= m
    ensures MemberWord(Window(b, base, m), j) ==
            if j > 1 && b[base + j - 1].value == b[base + j].value then b[base + j].serial else -b[base + j].serial
  {
    var w := Window(b, base, m);
    assert w[j - 1] == b[base + j];
    assert j > 1 ==> w[j - 2] == b[base + j - 1];
  }

  /** The second loop of equiv: squeeze the sorted new file into the member words, in place.
      Word j is written only after every line it overlays has been read. */
  method Squeeze(b: array<Line>, bbase: nat, m: nat)
    requires bbase + m + 1 < b.Length
    requires forall q :: bbase < q <= bbase + m ==> b[q].value != 0
    modifies b
    ensures forall j :: 1 <= j <= m ==> Word(b[..], j) == MemberWord(old(Window(b[..], bbase, m)), j)
    ensures Word(b[..], m + 1) == -1
  {
    ghost var sb := Window(b[..], bbase, m);
    b[bbase + m + 1] := Line(b[bbase + m + 1].serial, 0);
    ghost var b0 := b[..];
    assert sb == Window(b0, bbase, m);
    hide Window, MemberWord, Word;
    var j := 1;
    while j <= m
      invariant 1 <= j <= m + 1
      invariant j > 1 ==> b0[bbase + j].value != b0[bbase + j - 1].value
      invariant forall q :: bbase + j <= q < b.Length ==> b[q] == b0[q]
      invariant forall w :: 1 <= w < j ==> Word(b[..], w) == MemberWord(sb, w)
    {
      MemberIs(b0, bbase, m, j);
      SetWord(b, j, -b[bbase + j].serial);
      while b[bbase + j + 1].value == b[bbase + j].value
        invariant 1 <= j <= m
        invariant forall q :: bbase + j <= q < b.Length ==> b[q] == b0[q]
        invariant forall w :: 1 <= w <= j ==> Word(b[..], w) == MemberWord(sb, w)
        decreases m - j
      {
        j := j + 1;
        MemberIs(b0, bbase, m, j);
        SetWord(b, j, b[bbase + j].serial);
      }
      j := j + 1;
    }
    SetWord(b, j, -1);
  }

  /** equiv: both loops. The new file is destroyed and its storage holds the member words. */
  method Equiv(a: array<Line>, abase: nat, n: nat, b: array<Line>, bbase: nat, m: nat)
    requires a != b && abase + n < a.Length && bbase + m + 1 < b.Length
    requires Sorted(Window(a[..], abase, n)) && Sorted(Window(b[..], bbase, m))
    requires forall q :: bbase < q <= bbase + m ==> b[q].value != 0
    modifies a, b
    ensures Placed(old(a[..]), a[..], abase, n, n + 1, old(Window(b[..], bbase, m)), m + 1)
    ensures forall j :: 1 <= j <= m ==> Word(b[..], j) == MemberWord(old(Window(b[..], bbase, m)), j)
    ensures Word(b[..], m + 1) == -1
  {
    Place(a, abase, n, b, bbase, m);
    Squeeze(b, bbase, m);
  }

  // ----- unsort

  ghost predicate HasSerial(f: seq<Line>, base: nat, l: nat, k: int)
    requires base + l < |f|
  {
    exists q :: base < q <= base + l && f[q].serial == k
  }

  /** Put the values back into the order of the serials, as words overlaid on the file. */
  method Unsort(f: array<Line>, base: nat, l: nat, ghost v: seq<int>)
    requires base + l < f.Length && |v| == l
    requires forall q :: base < q <= base + l ==> 1 <= f[q].serial <= l && f[q].value == v[f[q].serial - 1]
    requires forall k :: 1 <= k <= l ==> HasSerial(f[..], base, l, k)
    modifies f
    ensures forall i :: 1 <= i <= l ==> Word(f[..], i) == v[i - 1]
  {
    var a := new int[l + 1];
    ghost var f0 := f[..];
    for i := 1 to l + 1
      invariant f[..] == f0
      invariant forall q :: base < q < base + i ==> a[f0[q].serial] == f0[q].value
    {
      a[f[base + i].serial] := f[base + i].value;
    }
    assert forall k :: 1 <= k <= l ==> a[k] == v[k - 1] by {
      forall k | 1 <= k <= l
        ensures a[k] == v[k - 1]
      {
        assert HasSerial(f0, base, l, k);
        var q :| base < q <= base + l && f0[q].serial == k;
      }
    }
    for i := 1 to l + 1
      invariant forall k :: 1 <= k <= l ==> a[k] == v[k - 1]
      invariant forall w :: 1 <= w < i ==> Word(f[..], w) == v[w - 1]
    {
      SetWord(f, i, a[i]);
    }
  }

  // ----- what the class and member words mean

  /** The lines of a file of values, numbered from 1. */
  ghost function Lines(v: seq<int>): (s: seq<Line>)
    ensures |s| == |v| && forall i :: 0 <= i < |v| ==> s[i] == Line(i + 1, v[i])
  {
    seq(|v|, i requires 0 <= i < |v| => Line(i + 1, v[i]))
  }

  lemma SameElements(s: seq<Line>, v: seq<int>)
    requires multiset(s) == multiset(Lines(v))
    ensures |s| == |v|
    ensures forall q :: 0 <= q < |s| ==> 1 <= s[q].serial <= |v| && s[q].value == v[s[q].serial - 1]
  {
    var t := Lines(v);
    assert |s| == |multiset(s)| == |multiset(t)| == |t|;
    forall q | 0 <= q < |s|
      ensures 1 <= s[q].serial <= |v| && s[q].value == v[s[q].serial - 1]
    {
      assert s[q] in multiset(s);
      assert s[q] in t;
    }
  }

  lemma FindLine(s: seq<Line>, v: seq<int>, k: int) returns (q: int)
    requires multiset(s) == multiset(Lines(v)) && 0 <= k < |v|
    ensures 0 <= q < |s| && s[q] == Line(k + 1, v[k])
  {
    var t := Lines(v);
    assert t[k] in multiset(t);
    assert t[k] in multiset(s);
    q :| 0 <= q < |s| && s[q] == t[k];
  }

  lemma MultisetTwice(s: seq<Line>, p: int, q: int)
    requires 0 <= p < q < |s| && s[p] == s[q]
    ensures multiset(s)[s[p]] >= 2
  {
    assert s == s[..q] + [s[q]] + s[q + 1..];
    assert s[p] in s[..q];
  }

  lemma LinesOnce(v: seq<int>, x: Line)
    ensures multiset(Lines(v))[x] <= 1
    decreases |v|
  {
    if v != [] {
      var n := |v| - 1;
      LinesOnce(v[..n], x);
      assert Lines(v) == Lines(v[..n]) + [Line(n + 1, v[n])];
      assert forall y :: y in Lines(v[..n]) ==> y.serial <= n;
    }
  }

  lemma SerialsDiffer(s: seq<Line>, v: seq<int>, p: int, q: int)
    requires multiset(s) == multiset(Lines(v)) && 0 <= p < q < |s|
    ensures s[p].serial != s[q].serial
  {
    SameElements(s, v);
    if s[p].serial == s[q].serial {
      MultisetTwice(s, p, q);
      LinesOnce(v, s[p]);
    }
  }

  /** In a sorted file the lines of value v are contiguous. */
  lemma RunOf(s: seq<Line>, v: int, r: int) returns (e: int)
    requires Sorted(s) && r == First(s, v) && r > 0
    ensures r <= e <= |s|
    ensures forall q :: r - 1 <= q < e ==> s[q].value == v
    ensures forall q :: 0 <= q < |s| && s[q].value == v ==> r - 1 <= q < e
    ensures e < |s| ==> s[e].value != v
  {
    e := r;
    while e < |s| && s[e].value == v
      invariant r <= e <= |s|
      invariant forall q :: r - 1 <= q < e ==> s[q].value == v
    {
      e := e + 1;
    }
    forall q | e <= q < |s|
      ensures s[q].value != v
    {
      assert q == e || !Less(s[q], s[e]);
      assert !Less(s[e], s[r - 1]);
    }
  }

  /** The serials of lines r to e, all of one value, strictly increase. */
  lemma RunIncreasing(s: seq<Line>, b: seq<int>, v: int, r: int, e: int, ys: seq<int>)
    requires Sorted(s) && multiset(s) == multiset(Lines(b))
    requires 1 <= r <= e <= |s| && |ys| == e - r + 1
    requires forall q :: r - 1 <= q < e ==> s[q].value == v
    requires forall t :: 0 <= t < |ys| ==> ys[t] == s[r - 1 + t].serial
    ensures Increasing(ys)
  {
    forall t, u | 0 <= t < u < |ys|
      ensures ys[t] < ys[u]
    {
      SerialsDiffer(s, b, r - 1 + t, r - 1 + u);
      assert !Less(s[r - 1 + u], s[r - 1 + t]);
    }
  }

  /** The words of lines r to e are one class, stopped by a word that is not positive. */
  lemma RunWords(s: seq<Line>, b: seq<int>, member: seq<int>, v: int, r: int, e: int, ys: seq<int>)
    requires multiset(s) == multiset(Lines(b))
    requires |member| >= |s| + 2 && member[|s| + 1] == -1
    requires forall j :: 1 <= j <= |s| ==> member[j] == MemberWord(s, j)
    requires 1 <= r <= e <= |s| && |ys| == e - r + 1
    requires forall q :: r - 1 <= q < e ==> s[q].value == v
    requires r > 1 ==> s[r - 2].value != v
    requires e < |s| ==> s[e].value != v
    requires forall t :: 0 <= t < |ys| ==> ys[t] == s[r - 1 + t].serial
    ensures member[r] == -ys[0] && member[r + |ys|] <= 0
    ensures forall t :: 0 < t < |ys| ==> member[r + t] == ys[t]
  {
    SameElements(s, b);
    assert member[r] == MemberWord(s, r);
    if e < |s| {
      assert member[e + 1] == MemberWord(s, e + 1);
    }
    forall t | 0 < t < |ys|
      ensures member[r + t] == ys[t]
    {
      assert member[r + t] == MemberWord(s, r + t);
    }
  }

  /** The equivalence class that starts at place r of the sorted new file. */
  lemma ClassFound(s: seq<Line>, b: seq<int>, member: seq<int>, v: int, r: int) returns (ys: seq<int>)
    requires Sorted(s) && multiset(s) == multiset(Lines(b))
    requires |member| >= |s| + 2 && member[|s| + 1] == -1
    requires forall j :: 1 <= j <= |s| ==> member[j] == MemberWord(s, j)
    requires r == First(s, v) && r > 0
    ensures ClassAt(member, r, ys, v, b)
  {
    var e := RunOf(s, v, r);
    ys := seq(e - r + 1, t requires 0 <= t < e - r + 1 => s[r - 1 + t].serial);
    hide First, Sorted, MemberWord, Increasing, Lines;
    RunWords(s, b, member, v, r, e, ys);
    RunIncreasing(s, b, v, r, e, ys);
    RunMembers(s, b, v, r, e, ys);
  }

  /** Lines r to e hold exactly the lines of value v. */
  lemma RunMembers(s: seq<Line>, b: seq<int>, v: int, r: int, e: int, ys: seq<int>)
    requires multiset(s) == multiset(Lines(b))
    requires 1 <= r <= e <= |s| && |ys| == e - r + 1
    requires forall q :: r - 1 <= q < e ==> s[q].value == v
    requires forall q :: 0 <= q < |s| && s[q].value == v ==> r - 1 <= q < e
    requires forall t :: 0 <= t < |ys| ==> ys[t] == s[r - 1 + t].serial
    ensures forall t :: 0 <= t < |ys| ==> 1 <= ys[t] <= |b| && b[ys[t] - 1] == v
    ensures forall y {:trigger y in ys} :: 1 <= y <= |b| && b[y - 1] == v ==> y in ys
  {
    forall t | 0 <= t < |ys|
      ensures 1 <= ys[t] <= |b| && b[ys[t] - 1] == v
    {
      SameElements(s, b);
      assert ys[t] == s[r - 1 + t].serial;
    }
    forall y | 1 <= y <= |b| && b[y - 1] == v
      ensures y in ys
    {
      var q := FindLine(s, b, y - 1);
      assert ys[q - (r - 1)] == y;
    }
  }

  /** The class and member words built by equiv and unsort satisfy what stone needs. */
  lemma ClassesClassify(s: seq<Line>, a: seq<int>, b: seq<int>, cls: seq<int>, member: seq<int>)
    requires Sorted(s) && multiset(s) == multiset(Lines(b))
    requires |member| >= |s| + 2 && member[|s| + 1] == -1
    requires forall j :: 1 <= j <= |s| ==> member[j] == MemberWord(s, j)
    requires |cls| > |a| && forall i :: 1 <= i <= |a| ==> cls[i] == First(s, a[i - 1])
    ensures Classified(cls, member, a, b)
  {
    SameElements(s, b);
    forall i | 1 <= i <= |a|
      ensures ClassifiedAt(cls[i], member, a[i - 1], b)
    {
      var v := a[i - 1];
      if cls[i] == 0 {
        forall k | 0 <= k < |b|
          ensures b[k] != v
        {
          var q := FindLine(s, b, k);
        }
      } else {
        var ys := ClassFound(s, b, member, v, cls[i]);
      }
    }
  }
}
