/** The pages of libdbm: makdatum, additem and delitem of dbm.c, on the bytes of a page. A page
    of 512 bytes holds shorts at its low end, the number of items and then the offset of each,
    and the items packed against its high end. */
module DbmPage {

  type Item = seq<int>

  /** A short of the page, low byte first. */
  function Short(m: seq<int>, i: int): int
    requires |m| == 512 && 0 <= i < 256
  {
    m[2 * i] + 256 * m[2 * i + 1]
  }

  /** Where item k - 1 starts, which is where item k ends; 512 for k = 0. */
  function Off(m: seq<int>, k: int): int
    requires |m| == 512 && 0 <= k < 256
  {
    if k == 0 then 512 else Short(m, k)
  }

  ghost predicate Bytes(m: seq<int>) {
    forall i :: 0 <= i < |m| ==> 0 <= m[i] < 256
  }

  /** Item k ends no lower than it starts. */
  ghost predicate Ends(m: seq<int>, k: int)
    requires |m| == 512 && 0 <= k < 255
  {
    Off(m, k + 1) <= Off(m, k)
  }

  /** n items are packed from the top of the page down, above the table of offsets. */
  ghost predicate PackedTo(m: seq<int>, n: nat) {
    && |m| == 512 && Bytes(m) && n < 255
    && (forall k :: 0 <= k < n ==> Ends(m, k))
    && Off(m, n) > 2 * (n + 1)
  }

  ghost predicate Packed(m: seq<int>) {
    |m| == 512 && Short(m, 0) >= 0 && PackedTo(m, Short(m, 0))
  }

  lemma {:induction false} OffMono(m: seq<int>, n: nat, j: nat, k: nat)
    requires PackedTo(m, n) && j <= k <= n
    ensures Off(m, n) <= Off(m, k) <= Off(m, j) <= 512
    decreases n - j + k
  {
    if j < k {
      OffMono(m, n, j, k - 1);
      OffDown(m, n, k);
      assert Ends(m, k - 1);
    } else {
      OffDown(m, n, k);
      OffTop(m, n, j);
    }
  }

  lemma {:induction false} OffDown(m: seq<int>, n: nat, k: nat)
    requires PackedTo(m, n) && k <= n
    ensures Off(m, n) <= Off(m, k)
    decreases n - k
  {
    if k < n {
      OffDown(m, n, k + 1);
      assert Ends(m, k);
    }
  }

  lemma {:induction false} OffTop(m: seq<int>, n: nat, j: nat)
    requires PackedTo(m, n) && j <= n
    ensures Off(m, j) <= 512
    decreases j
  {
    if j > 0 {
      OffTop(m, n, j - 1);
      assert Ends(m, j - 1);
    }
  }

  ghost function ItemAt(m: seq<int>, n: nat, k: nat): Item
    requires PackedTo(m, n) && k < n
  {
    OffMono(m, n, k, k + 1);
    m[Off(m, k + 1)..Off(m, k)]
  }

  /** The items of a page. */
  ghost function Items(m: seq<int>, n: nat): (r: seq<Item>)
    requires PackedTo(m, n)
    ensures |r| == n && forall k :: 0 <= k < n ==> r[k] == ItemAt(m, n, k)
  {
    seq(n, k requires 0 <= k < n => ItemAt(m, n, k))
  }

  ghost function Contents(m: seq<int>): seq<Item>
    requires Packed(m)
  {
    Items(m, Short(m, 0))
  }

  function Total(items: seq<Item>): nat {
    if items == [] then 0 else Total(items[..|items| - 1]) + |items[|items| - 1]|
  }

  /** What a page has room for: the items, their offsets, the count, and one spare byte. */
  predicate Fits(items: seq<Item>) {
    Total(items) + 2 * (|items| + 1) < 512
  }

  /** How a page is laid out: the number of items as a word, low byte first, then a word for each
      with the place where it begins, and the items themselves from the end of the page down. */
  lemma PageLayout(m: seq<int>, k: nat)
    requires Packed(m) && k < |Contents(m)|
    ensures |m| == 512 && m[0] + 256 * m[1] == |Contents(m)| < 255
    ensures var items := Contents(m);
      var low := 512 - Total(items[..k + 1]);
      0 <= low && m[2 * k + 2] + 256 * m[2 * k + 3] == low && low + |items[k]| <= 512
      && m[low..low + |items[k]|] == items[k]
  {
    hide Ends;
    var n := Short(m, 0);
    var items := Contents(m);
    PackedBelow(m, n, k + 1);
    OffIsTotal(m, k + 1);
    assert Items(m, k + 1) == items[..k + 1];
    OffMono(m, n, k, k + 1);
    assert items[k] == m[Off(m, k + 1)..Off(m, k)];
  }

  lemma PackedBelow(m: seq<int>, n: nat, j: nat)
    requires PackedTo(m, n) && j <= n
    ensures PackedTo(m, j)
    ensures forall k :: 0 <= k < j ==> ItemAt(m, j, k) == ItemAt(m, n, k)
  {
    OffMono(m, n, j, n);
    assert forall k :: 0 <= k < j ==> Ends(m, k);
  }

  lemma {:induction false} OffIsTotal(m: seq<int>, n: nat)
    requires PackedTo(m, n)
    ensures Off(m, n) == 512 - Total(Items(m, n))
    decreases n
  {
    if n > 0 {
      assert Ends(m, n - 1);
      assert PackedTo(m, n - 1);
      OffIsTotal(m, n - 1);
      assert Items(m, n)[..n - 1] == Items(m, n - 1);
      assert ItemAt(m, n, n - 1) == m[Off(m, n)..Off(m, n - 1)];
    }
  }

  /** A packed page holds only what fits. */
  lemma PackedFits(m: seq<int>)
    requires Packed(m)
    ensures Fits(Contents(m))
  {
    OffIsTotal(m, Short(m, 0));
  }

  // ----- writing

  method SetShort(buf: array<int>, i: int, v: int)
    requires buf.Length == 512 && 0 <= i < 256 && 0 <= v < 65536 && Bytes(buf[..])
    modifies buf
    ensures Bytes(buf[..]) && Short(buf[..], i) == v
    ensures forall j :: 0 <= j < 256 && j != i ==> Short(buf[..], j) == old(Short(buf[..], j))
    ensures forall j :: 0 <= j < 512 && j / 2 != i ==> buf[j] == old(buf[j])
  {
    buf[2 * i] := v % 256;
    buf[2 * i + 1] := v / 256;
  }

  /** Two pages that agree on the offsets 1 to n and on the data hold the same items. */
  lemma SameItems(m: seq<int>, m': seq<int>, n: nat)
    requires PackedTo(m, n) && |m'| == 512 && Bytes(m')
    requires forall i :: 2 <= i < 2 * (n + 1) ==> m'[i] == m[i]
    requires forall i :: Off(m, n) <= i < 512 ==> m'[i] == m[i]
    ensures PackedTo(m', n) && Items(m', n) == Items(m, n)
    ensures forall k :: 0 <= k <= n ==> Off(m', k) == Off(m, k)
  {
    forall k | 0 <= k <= n
      ensures Off(m', k) == Off(m, k)
    {
    }
    forall k | 0 <= k < n
      ensures Ends(m', k)
    {
      assert Ends(m, k);
    }
    assert PackedTo(m', n);
    forall k | 0 <= k < n
      ensures ItemAt(m', n, k) == ItemAt(m, n, k)
    {
      OffMono(m, n, k, k + 1);
    }
  }

  // ----- reading an item

  datatype Datum = Null | Datum(bytes: Item)

  method Makdatum(buf: array<int>, n: int) returns (r: Datum)
    requires buf.Length == 512 && Packed(buf[..])
    ensures r == if 0 <= n < |Contents(buf[..])| then Datum(Contents(buf[..])[n]) else Null
  {
    ghost var m := buf[..];
    if n < 0 || n >= Short(buf[..], 0) {
      return Null;
    }
    var t := 512;
    if n > 0 {
      t := Short(buf[..], n);
    }
    var low := Short(buf[..], n + 1);
    assert t == Off(m, n) && low == Off(m, n + 1);
    OffMono(m, Short(m, 0), n, n + 1);
    OffMono(m, Short(m, 0), n + 1, n + 1);
    assert Contents(m)[n] == ItemAt(m, Short(m, 0), n);
    r := Datum(buf[low..t]);
    assert buf[low..t] == m[low..t];
  }

  // ----- adding an item

  ghost predicate ByteItem(x: Item) {
    forall i :: 0 <= i < |x| ==> 0 <= x[i] < 256
  }

  lemma TotalSnoc(items: seq<Item>, x: Item)
    ensures Total(items + [x]) == Total(items) + |x|
  {
    assert (items + [x])[..|items|] == items;
  }

  /** Where the next item would start, and the room test of additem. */
  lemma RoomIsFits(m: seq<int>, x: Item)
    requires Packed(m)
    ensures Off(m, Short(m, 0)) - |x| > 2 * (Short(m, 0) + 2) <==> Fits(Contents(m) + [x])
  {
    OffIsTotal(m, Short(m, 0));
    TotalSnoc(Contents(m), x);
  }

  /** m' is m with x below the last of n items and its offset in the table. */
  ghost predicate Appended(m: seq<int>, m': seq<int>, n: nat, x: Item)
    requires PackedTo(m, n)
  {
    OffTop(m, n, n);
    var low := Off(m, n) - |x|;
    && |m'| == 512 && Bytes(m') && low > 2 * (n + 2)
    && Short(m', n + 1) == low
    && (forall i :: 2 <= i < 2 * (n + 1) ==> m'[i] == m[i])
    && (forall i :: Off(m, n) <= i < 512 ==> m'[i] == m[i])
    && (forall i :: low <= i < Off(m, n) ==> m'[i] == x[i - low])
  }

  lemma AppendedItems(m: seq<int>, m': seq<int>, n: nat, x: Item)
    requires PackedTo(m, n) && Appended(m, m', n, x)
    ensures PackedTo(m', n + 1) && Items(m', n + 1) == Items(m, n) + [x]
  {
    SameItems(m, m', n);
    OffTop(m, n, n);
    assert Off(m', n + 1) == Off(m, n) - |x|;
    assert Ends(m', n);
    assert PackedTo(m', n + 1);
    forall k | 0 <= k < n
      ensures ItemAt(m', n + 1, k) == ItemAt(m', n, k)
    {
    }
    assert ItemAt(m', n + 1, n) == x;
  }

  /** The copy loop of additem. */
  method CopyIn(buf: array<int>, low: int, x: Item)
    requires buf.Length == 512 && 0 <= low && low + |x| <= 512
    modifies buf
    ensures buf[..] == old(buf[..])[..low] + x + old(buf[..])[low + |x|..]
  {
    ghost var m := buf[..];
    var i := 0;
    while i < |x|
      invariant 0 <= i <= |x|
      invariant buf[..] == m[..low] + x[..i] + m[low + i..]
    {
      buf[low + i] := x[i];
      i := i + 1;
    }
    assert x[..i] == x;
  }

  /** The new offset, the copied bytes and the new count make the page with the item appended. */
  lemma AppendedBy(m: seq<int>, m1: seq<int>, m2: seq<int>, m3: seq<int>, n: nat, x: Item)
    requires PackedTo(m, n) && ByteItem(x) && |m1| == |m2| == |m3| == 512 && Bytes(m3) && n < 254
    requires var low := Off(m, n) - |x|;
      && 2 * (n + 2) < low <= Off(m, n) <= 512 && Short(m1, n + 1) == low && m2 == m1[..low] + x + m1[Off(m, n)..]
    requires forall j :: 0 <= j < 512 && j / 2 != n + 1 ==> m1[j] == m[j]
    requires forall j :: 0 <= j < 512 && j / 2 != 0 ==> m3[j] == m2[j]
    ensures Appended(m, m3, n, x)
  {
    hide Ends;
    var low := Off(m, n) - |x|;
    assert m2[2 * (n + 1)] == m1[2 * (n + 1)] && m2[2 * (n + 1) + 1] == m1[2 * (n + 1) + 1];
    assert Short(m3, n + 1) == low;
    forall i | 2 <= i < 2 * (n + 1)
      ensures m3[i] == m[i]
    {
      assert m2[i] == m1[i];
    }
    forall i | Off(m, n) <= i < 512
      ensures m3[i] == m[i]
    {
      assert m2[i] == m1[Off(m, n)..][i - Off(m, n)];
    }
    forall i | low <= i < Off(m, n)
      ensures m3[i] == x[i - low]
    {
      assert m2[i] == x[i - low];
    }
  }

  method Additem(buf: array<int>, x: Item) returns (r: int)
    requires buf.Length == 512 && Packed(buf[..]) && ByteItem(x)
    modifies buf
    ensures Packed(buf[..])
    ensures r == -1 <==> !Fits(old(Contents(buf[..])) + [x])
    ensures r == -1 ==> buf[..] == old(buf[..])
    ensures r != -1 ==> r == |old(Contents(buf[..]))| && Contents(buf[..]) == old(Contents(buf[..])) + [x]
  {
    hide Ends, ItemAt, Items, Fits, Appended, PackedTo, Bytes;
    ghost var m := buf[..];
    var n := Short(buf[..], 0);
    PackedFacts(m, n);
    OffTop(m, n, n);
    RoomIsFits(m, x);
    var low := 512;
    if n > 0 {
      low := Short(buf[..], n);
    }
    low := low - |x|;
    if low <= 2 * (n + 2) {
      return -1;
    }
    SetShort(buf, n + 1, low);
    ghost var m1 := buf[..];
    CopyIn(buf, low, x);
    ghost var m2 := buf[..];
    SpliceBytes(m1, low, x);
    SetShort(buf, 0, n + 1);
    AppendedBy(m, m1, m2, buf[..], n, x);
    AppendedItems(m, buf[..], n, x);
    r := n;
  }

  lemma PackedFacts(m: seq<int>, n: nat)
    requires PackedTo(m, n)
    ensures |m| == 512 && Bytes(m) && n < 255 && Off(m, n) > 2 * (n + 1)
  {
  }

  lemma SpliceBytes(m: seq<int>, low: int, x: Item)
    requires Bytes(m) && 0 <= low && low + |x| <= |m| && ByteItem(x)
    ensures Bytes(m[..low] + x + m[low + |x|..])
  {
  }

  // ----- deleting an item

  ghost function Without<T>(s: seq<T>, k: int): seq<T>
    requires 0 <= k < |s|
  {
    s[..k] + s[k + 1..]
  }

  /** The bytes from bottom up to top - size moved up by size, over those below top. */
  ghost predicate Moved(m: seq<int>, m': seq<int>, bottom: int, top: int, size: int)
    requires |m| == |m'| == 512 && 0 <= bottom && 0 <= size && top <= 512
  {
    && (forall i :: top <= i < 512 && 0 <= i ==> m'[i] == m[i])
    && (forall i :: bottom + size <= i < top ==> m'[i] == m[i - size])
  }

  lemma SliceMoved(m: seq<int>, m': seq<int>, bottom: int, top: int, size: int, a: int, b: int)
    requires |m| == |m'| == 512 && 0 <= bottom && 0 <= size && top <= 512
    requires Moved(m, m', bottom, top, size)
    requires bottom <= a <= b && b + size <= top
    ensures m'[a + size..b + size] == m[a..b]
  {
  }

  lemma SliceKept(m: seq<int>, m': seq<int>, bottom: int, top: int, size: int, a: int, b: int)
    requires |m| == |m'| == 512 && 0 <= bottom && 0 <= size && top <= 512
    requires Moved(m, m', bottom, top, size)
    requires 0 <= a <= b <= 512 && top <= a
    ensures m'[a..b] == m[a..b]
  {
  }

  /** Offset j once item k is squeezed out. */
  ghost predicate Closed(m: seq<int>, m': seq<int>, k: nat, j: nat)
    requires |m| == |m'| == 512 && k < 255 && j < 255
  {
    Off(m', j) == if j <= k then Off(m, j) else Off(m, j + 1) + (Off(m, k) - Off(m, k + 1))
  }

  /** m' is m with item k squeezed out: the items below it moved up by its size. */
  ghost predicate Squeezed(m: seq<int>, m': seq<int>, n: nat, k: nat)
    requires PackedTo(m, n) && k < n
  {
    OffMono(m, n, k, k + 1);
    && |m'| == 512 && Bytes(m')
    && (forall j :: 0 <= j < n ==> Closed(m, m', k, j))
    && Moved(m, m', Off(m, n), Off(m, k), Off(m, k) - Off(m, k + 1))
  }

  lemma SqueezedPacked(m: seq<int>, m': seq<int>, n: nat, k: nat)
    requires PackedTo(m, n) && k < n && Squeezed(m, m', n, k)
    ensures PackedTo(m', n - 1)
  {
    hide Short, Off, Moved, Bytes;
    OffMono(m, n, k, k + 1);
    forall j | 0 <= j < n - 1
      ensures Ends(m', j)
    {
      assert Closed(m, m', k, j) && Closed(m, m', k, j + 1);
      OffMono(m, n, j, j + 1);
      OffMono(m, n, j + 1, j + 2);
    }
    assert Closed(m, m', k, n - 1);
  }

  lemma SqueezedItem(m: seq<int>, m': seq<int>, n: nat, k: nat, j: nat)
    requires PackedTo(m, n) && k < n && Squeezed(m, m', n, k) && PackedTo(m', n - 1) && j < n - 1
    ensures ItemAt(m', n - 1, j) == if j < k then ItemAt(m, n, j) else ItemAt(m, n, j + 1)
  {
    hide Short, Off, Moved, Bytes;
    OffMono(m, n, k, k + 1);
    OffMono(m, n, j, j + 1);
    OffMono(m, n, j + 1, j + 2);
    assert Closed(m, m', k, j) && Closed(m, m', k, j + 1);
    if j < k {
      OffMono(m, n, j + 1, k);
      SliceKept(m, m', Off(m, n), Off(m, k), Off(m, k) - Off(m, k + 1), Off(m, j + 1), Off(m, j));
    } else {
      OffMono(m, n, k + 1, j + 1);
      SliceMoved(m, m', Off(m, n), Off(m, k), Off(m, k) - Off(m, k + 1), Off(m, j + 2), Off(m, j + 1));
    }
  }

  lemma SqueezedItems(m: seq<int>, m': seq<int>, n: nat, k: nat)
    requires PackedTo(m, n) && k < n && Squeezed(m, m', n, k)
    ensures PackedTo(m', n - 1) && Items(m', n - 1) == Without(Items(m, n), k)
  {
    hide Short, Off, Moved, Bytes, Squeezed, PackedTo, ItemAt;
    SqueezedPacked(m, m', n, k);
    forall j | 0 <= j < n - 1
      ensures ItemAt(m', n - 1, j) == Without(Items(m, n), k)[j]
    {
      SqueezedItem(m, m', n, k, j);
    }
  }

  /** The second half of delitem: the offsets after the k-th move down one place. */
  method CloseTable(buf: array<int>, ghost m: seq<int>, k: nat, size: nat)
    requires Packed(m) && k < Short(m, 0) && size == Off(m, k) - Off(m, k + 1)
    requires buf.Length == 512 && Bytes(buf[..])
    requires Off(m, k) <= 512 && Off(m, Short(m, 0)) <= 512
    requires forall i :: 0 <= i <= Short(m, 0) ==> Short(buf[..], i) == Short(m, i)
    requires Moved(m, buf[..], Off(m, Short(m, 0)), Off(m, k), size)
    modifies buf
    ensures Squeezed(m, buf[..], Short(m, 0), k) && Short(buf[..], 0) == Short(m, 0) - 1
  {
    hide Bytes, Short, Moved, Ends;
    ghost var n := Short(m, 0);
    OffMono(m, n, k, k + 1);
    var j := k + 1;
    while j < Short(buf[..], 0)
      invariant k + 1 <= j <= n && Bytes(buf[..]) && Short(buf[..], 0) == n
      invariant forall i :: 2 * (n + 1) <= i < 512 ==> buf[i] == old(buf[i])
      invariant forall i :: 0 < i <= k || j <= i <= n ==> Short(buf[..], i) == Short(m, i)
      invariant forall i :: k < i < j ==> Closed(m, buf[..], k, i)
    {
      OffMono(m, n, k, j + 1);
      ghost var was := buf[..];
      SetShort(buf, j, Short(buf[..], j + 1) + size);
      forall i | k < i <= j
        ensures Closed(m, buf[..], k, i)
      {
        assert i < j ==> Closed(m, was, k, i);
      }
      j := j + 1;
    }
    ghost var was := buf[..];
    SetShort(buf, 0, Short(buf[..], 0) - 1);
    SetShort(buf, Short(buf[..], 0) + 1, 0);
    forall i | 0 <= i < n
      ensures Closed(m, buf[..], k, i)
    {
      assert k < i ==> Closed(m, was, k, i);
    }
    MovedFrame(m, old(buf[..]), buf[..], Off(m, n), Off(m, k), size);
  }

  lemma MovedFrame(m: seq<int>, m1: seq<int>, m2: seq<int>, bottom: int, top: int, size: int)
    requires |m| == |m1| == |m2| == 512 && 0 <= bottom && 0 <= size && top <= 512
    requires Moved(m, m1, bottom, top, size) && bottom <= top
    requires forall i :: bottom <= i < 512 ==> m1[i] == m2[i]
    ensures Moved(m, m2, bottom, top, size)
  {
  }

  /** The first half of delitem: the bytes from i3 up to i1 move up to end at i2. */
  method MoveUp(buf: array<int>, start: int, end: int, i3: int) returns (size: int)
    requires buf.Length == 512 && Bytes(buf[..]) && 0 <= i3 <= start <= end <= 512
    modifies buf
    ensures size == end - start && Bytes(buf[..])
    ensures forall i :: 0 <= i < i3 ==> buf[i] == old(buf[i])
    ensures Moved(old(buf[..]), buf[..], i3, end, size)
  {
    var i1, i2 := start, end;
    if i2 > i1 {
      while i1 > i3
        invariant i3 <= i1 <= start && i2 == i1 + (end - start) && Bytes(buf[..])
        invariant forall j :: 0 <= j < i1 || end <= j < 512 ==> buf[j] == old(buf[j])
        invariant forall j :: i2 <= j < end ==> buf[j] == old(buf[j - (end - start)])
      {
        i1, i2 := i1 - 1, i2 - 1;
        buf[i2] := buf[i1];
        buf[i1] := 0;
      }
    }
    size := i2 - i1;
  }

  lemma ShortsKept(m: seq<int>, m': seq<int>, n: int)
    requires |m| == |m'| == 512 && 0 <= n < 256
    requires forall i :: 0 <= i < 2 * (n + 1) ==> m'[i] == m[i]
    ensures forall i :: 0 <= i <= n ==> Short(m', i) == Short(m, i)
  {
  }

  method Delitem(buf: array<int>, k: int) returns (ok: bool)
    requires buf.Length == 512 && Packed(buf[..])
    modifies buf
    ensures ok == (0 <= k < |old(Contents(buf[..]))|)
    ensures Packed(buf[..])
    ensures !ok ==> buf[..] == old(buf[..])
    ensures ok ==> Contents(buf[..]) == Without(old(Contents(buf[..])), k)
  {
    hide Short, Bytes, Moved, Squeezed, Ends, ItemAt;
    ghost var m := buf[..];
    var n := Short(buf[..], 0);
    if k < 0 || k >= n {
      return false;
    }
    OffMono(m, n, k, k + 1);
    var i1, i2, i3 := Short(buf[..], k + 1), 512, Short(buf[..], n);
    if k > 0 {
      i2 := Short(buf[..], k);
    }
    var size := MoveUp(buf, i1, i2, i3);
    ShortsKept(m, buf[..], n);
    CloseTable(buf, m, k, size);
    SqueezedItems(m, buf[..], n, k);
    ok := true;
  }

  // ----- whole pages

  function Zeros(): seq<int> {
    seq(512, i => 0)
  }

  lemma ZerosEmpty()
    ensures Packed(Zeros()) && Contents(Zeros()) == []
  {
    assert Short(Zeros(), 0) == 0;
  }

  /** The test a page is put to when it is read: false is where the source aborts. */
  method Chkblk(buf: array<int>) returns (ok: bool)
    requires buf.Length == 512 && Bytes(buf[..]) && 0 <= Short(buf[..], 0) < 255
    ensures Packed(buf[..]) ==> ok
    ensures ok && Short(buf[..], Short(buf[..], 0)) > 2 * (Short(buf[..], 0) + 1) && Short(buf[..], 0) > 0 ==>
              Packed(buf[..])
  {
    ghost var m := buf[..];
    var t, i := 512, 0;
    while i < Short(buf[..], 0)
      invariant 0 <= i <= Short(m, 0) && t == Off(m, i)
      invariant forall k :: 0 <= k < i ==> Ends(m, k)
    {
      assert !Ends(m, i) ==> !Packed(m);
      if Short(buf[..], i + 1) > t {
        return false;
      }
      t := Short(buf[..], i + 1);
      i := i + 1;
    }
    ok := t >= (Short(buf[..], 0) + 1) * 2;
  }
}
