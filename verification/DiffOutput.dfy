/** The difference script: output and change of diff.c, and what ed makes of one command. */
module DiffOutput {
  import opened DiffEngine

  /** Old lines a..b give way to new lines c..d; a range with b == a - 1 is empty. */
  datatype Hunk = Hunk(a: int, b: int, c: int, d: int)

  // ----- what a script in file order means

  /** The hunk's ranges lie in the files. */
  predicate InRange(h: Hunk, m: int, n: int) {
    1 <= h.a && h.a - 1 <= h.b <= m && 1 <= h.c && h.c - 1 <= h.d <= n
  }

  /** The hunks are in range, in file order, and do not overlap. */
  ghost predicate WellFormed(hs: seq<Hunk>, m: nat, n: nat)
  {
    && (forall k :: 0 <= k < |hs| ==> InRange(hs[k], m, n))
    && (forall j, k :: 0 <= j < k < |hs| ==> hs[j].b < hs[k].a)
  }

  /** The number of old lines passed by a script. */
  ghost function Passed(hs: seq<Hunk>): int {
    if hs == [] then 0 else hs[|hs| - 1].b
  }

  /** The text produced by reading a script in file order: old lines between the hunks are
      copied, old lines a..b of a hunk are replaced by new lines c..d. */
  ghost function Produced<T>(a: seq<T>, b: seq<T>, hs: seq<Hunk>): seq<T>
    requires WellFormed(hs, |a|, |b|)
  {
    if hs == [] then [] else
      var h, front := hs[|hs| - 1], hs[..|hs| - 1];
      FrontWellFormed(hs, |a|, |b|);
      Produced(a, b, front) + a[Passed(front)..h.a - 1] + b[h.c - 1..h.d]
  }

  lemma FrontWellFormed(hs: seq<Hunk>, m: nat, n: nat)
    requires WellFormed(hs, m, n) && hs != []
    ensures WellFormed(hs[..|hs| - 1], m, n)
    ensures 0 <= Passed(hs[..|hs| - 1]) <= hs[|hs| - 1].a - 1
  {
    if |hs| > 1 {
      assert hs[|hs| - 2].b < hs[|hs| - 1].a;
    }
  }

  /** The whole file that a script in file order makes out of a. */
  ghost function Patch<T>(a: seq<T>, b: seq<T>, hs: seq<Hunk>): seq<T>
    requires WellFormed(hs, |a|, |b|)
  {
    Produced(a, b, hs) + a[Passed(hs)..]
  }

  /** How many old lines a script deletes. */
  ghost function Deleted(hs: seq<Hunk>): int {
    if hs == [] then 0 else Deleted(hs[..|hs| - 1]) + hs[|hs| - 1].b - hs[|hs| - 1].a + 1
  }

  /** How many new lines a script adds. */
  ghost function Added(hs: seq<Hunk>): int {
    if hs == [] then 0 else Added(hs[..|hs| - 1]) + hs[|hs| - 1].d - hs[|hs| - 1].c + 1
  }

  /** Each hunk's new-file numbers are the places its lines take in the text produced. */
  ghost predicate Numbered<T>(a: seq<T>, b: seq<T>, hs: seq<Hunk>)
    requires WellFormed(hs, |a|, |b|)
  {
    hs == [] ||
    var h, front := hs[|hs| - 1], hs[..|hs| - 1];
    FrontWellFormed(hs, |a|, |b|);
    Numbered(a, b, front) && |Produced(a, b, hs)| == h.d
  }

  // ----- what an editing script means

  datatype Kind = Append | Delete | Replace

  /** A command as change prints it for -e: the letter, the line range, and the text. */
  datatype Command<T> = Command(kind: Kind, lo: int, hi: int, text: seq<T>)

  /** The letter and the numbers printed for a hunk: of an empty range only b is printed, and
      of a range of one line only that line. */
  function CommandOf<T>(h: Hunk, b: seq<T>): (r: Command<T>)
    requires 1 <= h.c && h.c - 1 <= h.d <= |b|
    ensures r.kind == Append ==> r.lo == r.hi == h.b
  {
    var lo := if h.a > h.b then h.b else h.a;
    Command(if h.a > h.b then Append else if h.c > h.d then Delete else Replace,
            lo, if h.a < h.b then h.b else lo, b[h.c - 1..h.d])
  }

  datatype Result<T> = Done(buf: seq<T>) | BadAddress

  /** What ed does with a command; it fails on a line that does not exist when it runs. */
  function EdStep<T>(buf: seq<T>, cmd: Command<T>): (r: Result<T>)
  {
    match cmd.kind
    case Append =>
      if 0 <= cmd.lo <= cmd.hi <= |buf| then Done(buf[..cmd.hi] + cmd.text + buf[cmd.hi..]) else BadAddress
    case Delete =>
      if 1 <= cmd.lo <= cmd.hi <= |buf| then Done(buf[..cmd.lo - 1] + buf[cmd.hi..]) else BadAddress
    case Replace =>
      if 1 <= cmd.lo <= cmd.hi <= |buf| then Done(buf[..cmd.lo - 1] + cmd.text + buf[cmd.hi..]) else BadAddress
  }

  ghost predicate TextInRange(hs: seq<Hunk>, n: nat) {
    forall k :: 0 <= k < |hs| ==> 1 <= hs[k].c && hs[k].c - 1 <= hs[k].d <= n
  }

  /** No hunk is empty on both sides. */
  ghost predicate NoneEmpty(hs: seq<Hunk>) {
    forall k :: 0 <= k < |hs| ==> hs[k].a <= hs[k].b || hs[k].c <= hs[k].d
  }

  /** At least one line is kept between hunks k and k + 1 of a script in file order. */
  ghost predicate Gap(hs: seq<Hunk>, k: int)
    requires 0 <= k < |hs| - 1
  {
    hs[k].b + 1 < hs[k + 1].a
  }

  ghost predicate Spread(hs: seq<Hunk>) {
    forall k :: 0 <= k < |hs| - 1 ==> Gap(hs, k)
  }

  lemma SpreadSnoc(hs: seq<Hunk>, h: Hunk)
    requires Spread(hs) && (hs != [] ==> hs[|hs| - 1].b + 1 < h.a)
    ensures Spread(hs + [h])
  {
    var t := hs + [h];
    forall k | 0 <= k < |t| - 1
      ensures Gap(t, k)
    {
      assert k < |hs| - 1 ==> Gap(hs, k);
    }
  }

  /** Run the commands one after the other, each on the buffer the previous one left. */
  ghost function EdRun<T>(buf: seq<T>, hs: seq<Hunk>, b: seq<T>): Result<T>
    requires TextInRange(hs, |b|)
  {
    if hs == [] then Done(buf) else
      match EdRun(buf, hs[..|hs| - 1], b)
      case BadAddress => BadAddress
      case Done(s) => EdStep(s, CommandOf(hs[|hs| - 1], b))
  }

  // ----- the program

  /** Nothing is printed for an empty change. */
  method Change(script: seq<Hunk>, a: int, b: int, c: int, d: int) returns (r: seq<Hunk>)
    ensures r == Changed(script, a, b, c, d)
  {
    if a > b && c > d {
      return script;
    }
    r := script + [Hunk(a, b, c, d)];
  }

  /** Old lines before i0 and new lines up to j are accounted for by the script. */
  ghost predicate Accounted<T>(a: seq<T>, b: seq<T>, hs: seq<Hunk>, i0: int, j: int)
  {
    && WellFormed(hs, |a|, |b|) && Numbered(a, b, hs)
    && 0 <= Passed(hs) < i0 <= |a| + 1 && 0 <= j <= |b|
    && Produced(a, b, hs) + a[Passed(hs)..i0 - 1] == b[..j]
  }

  /** J as output starts: a match vector closed by a mate of the end of file. */
  ghost predicate Closed<T>(J: seq<int>, a: seq<T>, b: seq<T>)
  {
    MatchVector(J, a, b) && |J| == |a| + 2 && J[|a| + 1] == |b| + 1
  }

  lemma NothingYet<T>(a: seq<T>, b: seq<T>)
    ensures Accounted(a, b, [], 1, 0)
  {
    assert Produced(a, b, []) == [] && a[0..0] == [] && b[..0] == [];
  }

  lemma SkipAccounts<T>(a: seq<T>, b: seq<T>, hs: seq<Hunk>, i0: int, j: int)
    requires Accounted(a, b, hs, i0, j) && i0 <= |a| && j < |b| && a[i0 - 1] == b[j]
    ensures Accounted(a, b, hs, i0 + 1, j + 1)
  {
    hide WellFormed, Numbered, Produced;
    var p, o := Passed(hs), Produced(a, b, hs);
    assert a[p..i0] == a[p..i0 - 1] + [a[i0 - 1]];
    assert b[..j + 1] == b[..j] + [b[j]];
    assert o + a[p..i0] == (o + a[p..i0 - 1]) + [a[i0 - 1]];
  }

  lemma {:induction false} MatesOfUnmated(J: seq<int>, i: nat, k: nat)
    requires i <= k < |J| && forall t :: i < t <= k ==> J[t] == 0
    ensures Mates(J, k) == Mates(J, i)
    decreases k
  {
    if i < k {
      MatesOfUnmated(J, i, k - 1);
    }
  }

  lemma SnocWellFormed(hs: seq<Hunk>, h: Hunk, m: nat, n: nat)
    requires WellFormed(hs, m, n) && InRange(h, m, n) && Passed(hs) < h.a
    ensures WellFormed(hs + [h], m, n) && 0 <= Passed(hs)
  {
    if hs != [] {
      var last := hs[|hs| - 1];
      forall j | 0 <= j < |hs|
        ensures hs[j].b < h.a
      {
        assert j == |hs| - 1 || hs[j].b < last.a;
        assert InRange(last, m, n);
      }
    }
  }

  lemma AppendHunk<T>(a: seq<T>, b: seq<T>, hs: seq<Hunk>, h: Hunk)
    requires WellFormed(hs, |a|, |b|) && InRange(h, |a|, |b|) && Passed(hs) < h.a
    ensures WellFormed(hs + [h], |a|, |b|) && Passed(hs + [h]) == h.b
    ensures 0 <= Passed(hs)
    ensures Produced(a, b, hs + [h]) == Produced(a, b, hs) + a[Passed(hs)..h.a - 1] + b[h.c - 1..h.d]
    ensures Deleted(hs + [h]) == Deleted(hs) + h.b - h.a + 1
    ensures Added(hs + [h]) == Added(hs) + h.d - h.c + 1
    ensures Numbered(a, b, hs) && |Produced(a, b, hs + [h])| == h.d ==> Numbered(a, b, hs + [h])
  {
    SnocWellFormed(hs, h, |a|, |b|);
    var t := hs + [h];
    assert t[..|t| - 1] == hs && t[|t| - 1] == h;
    hide WellFormed;
  }

  /** The script after change(i0, i1, j0, j1). */
  ghost function Changed(hs: seq<Hunk>, a: int, b: int, c: int, d: int): seq<Hunk> {
    if a > b && c > d then hs else hs + [Hunk(a, b, c, d)]
  }

  lemma ChangeAccounts<T>(a: seq<T>, b: seq<T>, hs: seq<Hunk>, i0: int, j: int, i1: int, d: int)
    requires Accounted(a, b, hs, i0, j) && i0 - 1 <= i1 <= |a| && j <= d <= |b|
    ensures Accounted(a, b, Changed(hs, i0, i1, j + 1, d), i1 + 1, d)
    ensures Deleted(Changed(hs, i0, i1, j + 1, d)) == Deleted(hs) + i1 - i0 + 1
  {
    hide WellFormed, Numbered, Produced, Deleted;
    if !(i0 > i1 && j + 1 > d) {
      var h := Hunk(i0, i1, j + 1, d);
      AppendHunk(a, b, hs, h);
      var o := Produced(a, b, hs);
      assert b[..d] == b[..j] + b[j..d];
      assert Produced(a, b, hs + [h]) == b[..d];
      assert Produced(a, b, hs + [h]) + a[i1..i1] == b[..d];
    }
  }

  // ----- the script that a match vector stands for

  /** The last old line up to i that has a mate, or 0. */
  ghost function Prev(J: seq<int>, i: nat): (p: nat)
    requires i < |J|
    ensures p <= i && (p == 0 || J[p] != 0) && forall k :: p < k <= i ==> J[k] == 0
  {
    if i == 0 || J[i] != 0 then i else Prev(J, i - 1)
  }

  /** The hunks before the last mate up to i, in file order: what is between two mates that follow
      each other is one change, and nothing if they are neighbours in both files. */
  ghost function Hunks(J: seq<int>, i: nat): seq<Hunk>
    requires i < |J|
    decreases i
  {
    if i == 0 then []
    else
      var p := Prev(J, i - 1);
      if J[i] == 0 then Hunks(J, p) else Changed(Hunks(J, p), p + 1, i - 1, J[p] + 1, J[i] - 1)
  }

  lemma {:induction false} HunksStep(J: seq<int>, p: nat, k: nat)
    requires p < k < |J| && J[k] != 0 && (p == 0 || J[p] != 0) && forall i :: p < i < k ==> J[i] == 0
    ensures Hunks(J, k) == Changed(Hunks(J, p), p + 1, k - 1, J[p] + 1, J[k] - 1)
  {
    hide Changed, Prev;
    PrevIs(J, k - 1, p);
  }

  lemma {:induction false} PrevIs(J: seq<int>, i: nat, p: nat)
    requires p <= i < |J| && (p == 0 || J[p] != 0) && forall k :: p < k <= i ==> J[k] == 0
    ensures Prev(J, i) == p
  {
    if i > p {
      PrevIs(J, i - 1, p);
    }
  }

  /** What the hunks before a mate account for: all lines before it. */
  ghost predicate HunksBefore<T>(a: seq<T>, b: seq<T>, J: seq<int>, i: nat)
    requires |J| == |a| + 2 && i <= |a| + 1
  {
    var hs := Hunks(J, i);
    && Accounted(a, b, hs, i, J[i] - 1) && Deleted(hs) + |Mates(J, i - 1)| == i - 1
    && NoneEmpty(hs) && Spread(hs)
  }

  lemma {:induction false} HunksAccount<T>(a: seq<T>, b: seq<T>, J: seq<int>, i: nat)
    requires Closed(J, a, b) && |J| == |a| + 2 && 1 <= i <= |a| + 1 && J[i] != 0
    ensures HunksBefore(a, b, J, i)
    decreases i
  {
    hide Accounted, Deleted, NoneEmpty, Spread, Changed, Mates, Closed, Hunks;
    var p := Prev(J, i - 1);
    MateBounds(a, b, J, p, i);
    HunksStep(J, p, i);
    if p == 0 {
      NoHunks(J);
      NothingYet(a, b);
    } else {
      HunksAccount(a, b, J, p);
      LastBefore(a, b, Hunks(J, p), p, J[p] - 1);
      SkipAccounts(a, b, Hunks(J, p), p, J[p] - 1);
      MatesSnoc(J, p);
    }
    MatesOfUnmated(J, p, i - 1);
    ChangeAccounts(a, b, Hunks(J, p), p + 1, J[p], i - 1, J[i] - 1);
    ChangePrints(Hunks(J, p), p + 1, i - 1, J[p] + 1, J[i] - 1);
  }

  lemma MateBounds<T>(a: seq<T>, b: seq<T>, J: seq<int>, p: nat, i: nat)
    requires Closed(J, a, b) && p < i <= |a| + 1 && J[i] != 0 && (p == 0 || J[p] != 0)
    ensures |J| == |a| + 2 && 0 <= J[p] < J[i] <= |b| + 1
    ensures p == 0 ==> J[p] == 0
    ensures p > 0 ==> J[p] > 0 && a[p - 1] == b[J[p] - 1]
  {
  }

  lemma NoHunks(J: seq<int>)
    requires |J| > 0
    ensures Hunks(J, 0) == [] && Deleted([]) == 0 && Mates(J, 0) == [] && NoneEmpty([]) && Spread([])
  {
  }

  lemma MatesSnoc(J: seq<int>, p: nat)
    requires 0 < p < |J| && J[p] != 0
    ensures |Mates(J, p)| == |Mates(J, p - 1)| + 1
  {
  }

  lemma LastBefore<T>(a: seq<T>, b: seq<T>, hs: seq<Hunk>, p: nat, j: int)
    requires Accounted(a, b, hs, p, j)
    ensures hs != [] ==> hs[|hs| - 1].b < p
  {
  }

  /** What change appends to a script in file order. */
  lemma ChangePrints(hs: seq<Hunk>, a: int, b: int, c: int, d: int)
    requires NoneEmpty(hs) && Spread(hs) && (hs != [] ==> hs[|hs| - 1].b + 1 < a)
    ensures NoneEmpty(Changed(hs, a, b, c, d)) && Spread(Changed(hs, a, b, c, d))
  {
    hide NoneEmpty, Spread;
    if !(a > b && c > d) {
      NotEmpty(hs, Hunk(a, b, c, d));
      SpreadSnoc(hs, Hunk(a, b, c, d));
    }
  }

  /** The script of a closed match vector makes the new file out of the old one, deletes exactly the
      unmated old lines, has no empty hunk, and keeps a line between any two. */
  lemma HunksLaws<T>(a: seq<T>, b: seq<T>, J: seq<int>)
    requires Closed(J, a, b)
    ensures |J| == |a| + 2
    ensures var hs := Hunks(J, |a| + 1);
      && WellFormed(hs, |a|, |b|) && Numbered(a, b, hs) && Patch(a, b, hs) == b
      && Deleted(hs) == |a| - |Mates(J, |a|)| && NoneEmpty(hs) && Spread(hs)
  {
    hide WellFormed, Numbered, Produced, Deleted, NoneEmpty, Spread, Hunks;
    HunksAccount(a, b, J, |a| + 1);
    var hs := Hunks(J, |a| + 1);
    assert a[Passed(hs)..] == a[Passed(hs)..|a|] && b[..|b|] == b;
  }

  // ----- the forward loop

  /** The loop is about to pass old line i0, and line i0 - 1 is mated, or is line 0. */
  ghost predicate AfterMate(J0: seq<int>, J: seq<int>, i0: int, hs: seq<Hunk>) {
    && 1 <= i0 <= |J0| == |J| && (i0 == 1 || J0[i0 - 1] != 0) && J[i0 - 1] == J0[i0 - 1]
    && hs == Hunks(J0, i0 - 1)
  }

  /** A change has been printed, and line i0 is mated to the new line after it. */
  ghost predicate BeforeMate(J0: seq<int>, J: seq<int>, i0: int, hs: seq<Hunk>) {
    && 1 <= i0 < |J0| == |J| && J0[i0] != 0 && J[i0] == J[i0 - 1] + 1 && hs == Hunks(J0, i0)
  }

  /** The forward loop of output. */
  method ForwardLoop<T>(J: array<int>, a: seq<T>, b: seq<T>, ghost J0: seq<int>) returns (script: seq<Hunk>)
    requires J.Length == |a| + 2 && J[..] == J0 && Closed(J0, a, b)
    modifies J
    ensures |a| > 0 ==> script == Hunks(J0, |a| + 1)
    ensures |a| == 0 ==> script == []
  {
    hide Hunks, Changed, MatchVector;
    var m := |a|;
    script := [];
    NoHunks(J0);
    NoneNegative(a, b, J0);
    var i0 := 1;
    while i0 <= m
      invariant 1 <= i0 <= m + 1 && forall k :: i0 <= k <= m + 1 ==> J[k] == J0[k]
      invariant AfterMate(J0, J[..], i0, script) || BeforeMate(J0, J[..], i0, script)
      invariant i0 == m + 1 > 1 ==> BeforeMate(J0, J[..], i0, script)
      invariant m == 0 ==> script == []
      decreases m + 1 - i0, if i0 <= m && J[i0] == J[i0 - 1] + 1 then 0 else 1
    {
      ghost var s := J[..];
      while i0 <= m && J[i0] == J[i0 - 1] + 1
        invariant 1 <= i0 <= m + 1 && J[..] == s
        invariant AfterMate(J0, s, i0, script) || (i0 <= m && BeforeMate(J0, s, i0, script))
        decreases m + 1 - i0
      {
        SkipMate(J0, s, i0, script);
        i0 := i0 + 1;
      }
      var j0 := J[i0 - 1] + 1;
      var i1 := i0 - 1;
      while i1 < m && J[i1 + 1] == 0
        invariant i0 - 1 <= i1 <= m
        invariant J[..] == s && forall k :: i0 <= k <= i1 ==> J[k] == 0
      {
        i1 := i1 + 1;
      }
      var j1 := J[i1 + 1] - 1;
      HunksStep(J0, i0 - 1, i1 + 1);
      J[i1] := j1;
      script := Change(script, i0, i1, j0, j1);
      i0 := i1 + 1;
    }
  }

  lemma NoneNegative<T>(a: seq<T>, b: seq<T>, J: seq<int>)
    requires Closed(J, a, b)
    ensures forall k :: 0 <= k < |J| ==> 0 <= J[k]
  {
  }

  /** A line mated to the next new line is passed over. */
  lemma SkipMate(J0: seq<int>, J: seq<int>, i0: int, hs: seq<Hunk>)
    requires AfterMate(J0, J, i0, hs) || BeforeMate(J0, J, i0, hs)
    requires i0 < |J| == |J0| && J[i0] == J0[i0] == J[i0 - 1] + 1 && J0[i0] != 0
    ensures AfterMate(J0, J, i0 + 1, hs)
  {
    hide Hunks;
    if AfterMate(J0, J, i0, hs) {
      HunksStep(J0, i0 - 1, i0);
    }
  }

  /** output without -e: hunks in file order. Reading them makes the new file out of the old
      one, they delete exactly the unmated old lines, none is empty, and between any two there is
      a line that is kept. */
  method OutputForward<T>(J: array<int>, a: seq<T>, b: seq<T>) returns (script: seq<Hunk>)
    requires J.Length == |a| + 2 && MatchVector(J[..], a, b)
    modifies J
    ensures WellFormed(script, |a|, |b|) && Numbered(a, b, script)
    ensures Patch(a, b, script) == b
    ensures Deleted(script) == |a| - |Mates(old(J[..]), |a|)|
    ensures NoneEmpty(script) && Spread(script) && script == ScriptOf(old(J[..]), |a|, |b|)
  {
    hide Closed, WellFormed, Numbered, MatchVector, Deleted, Mates, Patch, Changed, Hunks, NoneEmpty, Spread;
    ghost var j := J[..];
    ghost var J0 := CloseVector(J, a, b);
    HunksLaws(a, b, J0);
    script := ForwardLoop(J, a, b, J0);
    if |a| == 0 {
      EmptyOld(J0, |b|);
      script := Change(script, 1, 0, 1, |b|);
    }
  }

  /** The script that a match vector of files of m and n lines stands for, in file order. */
  ghost function ScriptOf(J: seq<int>, m: nat, n: nat): seq<Hunk>
    requires |J| == m + 2
  {
    Hunks(J[0 := 0][m + 1 := n + 1], m + 1)
  }

  /** The two sentinels that output writes into J. */
  method CloseVector<T>(J: array<int>, a: seq<T>, b: seq<T>) returns (ghost J0: seq<int>)
    requires J.Length == |a| + 2 && MatchVector(J[..], a, b)
    modifies J
    ensures J[..] == J0 && Closed(J0, a, b) && Mates(J0, |a|) == Mates(old(J[..]), |a|)
    ensures |J0| == |a| + 2 && forall i :: 0 <= i <= |a| ==> J0[i] == old(J[i])
    ensures J0 == old(J[..])[0 := 0][|a| + 1 := |b| + 1]
  {
    ghost var j := J[..];
    J[0] := 0;
    J[|a| + 1] := |b| + 1;
    J0 := J[..];
    MatesAgree(j, J0, |a|);
  }

  lemma EmptyOld(J: seq<int>, n: nat)
    requires |J| == 2 && J[0] == 0 && J[1] == n + 1
    ensures Hunks(J, 1) == Changed([], 1, 0, 1, n)
  {
    hide Changed;
    NoHunks(J);
    HunksStep(J, 0, 1);
  }

  lemma {:induction false} MatesAgree(j: seq<int>, k: seq<int>, m: nat)
    requires m < |j| && m < |k| && forall i :: 1 <= i <= m ==> j[i] == k[i]
    ensures Mates(j, m) == Mates(k, m)
  {
    if m > 0 {
      MatesAgree(j, k, m - 1);
    }
  }

  // ----- the backward loop, for -e

  /** How many old and new lines are before the first k hunks of a script in backward order. */
  ghost function OldAt(hs: seq<Hunk>, k: int, m: int): int
    requires 0 <= k <= |hs|
  {
    if k == 0 then m else hs[k - 1].a - 1
  }

  ghost function NewAt(hs: seq<Hunk>, k: int, n: int): int
    requires 0 <= k <= |hs|
  {
    if k == 0 then n else hs[k - 1].c - 1
  }

  /** Hunk k ends where the mated lines above it begin, and begins right after a mate. */
  ghost predicate Stacked(hs: seq<Hunk>, k: int, J: seq<int>, m: int, n: int)
    requires 0 <= k < |hs|
  {
    var h := hs[k];
    && 1 <= h.a <= h.b + 1 <= OldAt(hs, k, m) + 1 && 1 <= h.c <= h.d + 1 <= NewAt(hs, k, n) + 1
    && OldAt(hs, k, m) - h.b == NewAt(hs, k, n) - h.d
    && h.a - 1 < |J| && h.c - 1 == J[h.a - 1]
  }

  /** The hunks are in backward order, with nothing but mated lines between them. */
  ghost predicate Descends(hs: seq<Hunk>, J: seq<int>, m: int, n: int) {
    forall k :: 0 <= k < |hs| ==> Stacked(hs, k, J, m, n)
  }

  lemma DescendsSnoc(hs: seq<Hunk>, h: Hunk, J: seq<int>, m: int, n: int)
    requires Descends(hs, J, m, n)
    requires 1 <= h.a <= h.b + 1 <= OldAt(hs, |hs|, m) + 1 && 1 <= h.c <= h.d + 1 <= NewAt(hs, |hs|, n) + 1
    requires OldAt(hs, |hs|, m) - h.b == NewAt(hs, |hs|, n) - h.d
    requires h.a - 1 < |J| && h.c - 1 == J[h.a - 1]
    ensures Descends(hs + [h], J, m, n)
  {
    var t := hs + [h];
    forall k | 0 <= k < |t|
      ensures Stacked(t, k, J, m, n)
    {
      if k < |hs| {
        assert Stacked(hs, k, J, m, n);
      }
    }
  }

  /** The loop state of the backward loop of output: the commands so far run on the old file
      and leave its first i0 lines followed by the new file from line J[i0 + 1] on. */
  ghost predicate Backward<T>(a: seq<T>, b: seq<T>, J0: seq<int>, J: seq<int>, i0: int, hs: seq<Hunk>)
  {
    && |J| == |J0| == |a| + 2 && 0 <= i0 <= |a| && 1 <= J[i0 + 1] <= |b| + 1
    && TextInRange(hs, |b|) && NoneEmpty(hs)
    && EdRun(a, hs, b) == Done(a[..i0] + b[J[i0 + 1] - 1..])
    && (forall k :: 0 <= k <= i0 ==> J[k] == J0[k])
    && (forall k :: 0 <= k <= i0 && J[k] != 0 ==> J[k] < J[i0 + 1])
    && Placed(hs, J0, |a|, |b|, i0, J[i0 + 1] - 1)
  }

  /** The script comes down to old line i0 and new line j, which are equally far below it. */
  ghost predicate Placed(hs: seq<Hunk>, J: seq<int>, m: int, n: int, i0: int, j: int) {
    Descends(hs, J, m, n) && i0 <= OldAt(hs, |hs|, m) && OldAt(hs, |hs|, m) - i0 == NewAt(hs, |hs|, n) - j
  }

  lemma BackwardStart<T>(a: seq<T>, b: seq<T>, J: seq<int>)
    requires Closed(J, a, b)
    ensures Backward(a, b, J, J, |a|, [])
  {
    assert a[..|a|] + b[|b|..] == a;
  }

  lemma BackwardSkip<T>(a: seq<T>, b: seq<T>, J0: seq<int>, J: seq<int>, i0: int, hs: seq<Hunk>)
    requires Closed(J0, a, b) && Backward(a, b, J0, J, i0, hs)
    requires i0 >= 1 && J[i0] == J[i0 + 1] - 1 && J[i0] != 0
    ensures Backward(a, b, J0, J, i0 - 1, hs)
  {
    hide EdRun, TextInRange;
    PlacedSkip(hs, J0, |a|, |b|, i0, J[i0 + 1] - 1);
    hide Placed;
    var j := J[i0];
    assert a[i0 - 1] == b[j - 1];
    assert a[..i0] + b[j..] == a[..i0 - 1] + b[j - 1..];
    forall k | 0 <= k <= i0 - 1 && J[k] != 0
      ensures J[k] < j
    {
      assert J0[k] < J0[i0];
    }
  }

  lemma AppendCommand<T>(buf: seq<T>, hs: seq<Hunk>, b: seq<T>, h: Hunk)
    requires TextInRange(hs, |b|) && 1 <= h.c && h.c - 1 <= h.d <= |b|
    ensures TextInRange(hs + [h], |b|)
    ensures EdRun(buf, hs, b).Done? ==> EdRun(buf, hs + [h], b) == EdStep(EdRun(buf, hs, b).buf, CommandOf(h, b))
  {
    var t := hs + [h];
    assert t[..|t| - 1] == hs && t[|t| - 1] == h;
  }

  /** Running one change on what the later changes have left. */
  lemma EdChange<T>(a: seq<T>, b: seq<T>, i0: int, j0: int, i1: int, j1: int)
    requires 0 <= i0 <= |a| && 1 <= i1 <= i0 + 1 && 1 <= j1 <= j0 + 1 <= |b| + 1
    ensures EdStep(a[..i0] + b[j0..], CommandOf(Hunk(i1, i0, j1, j0), b)) == Done(a[..i1 - 1] + b[j1 - 1..])
  {
    CutBuffer(a[..i0], b[j0..], i1 - 1);
    assert a[..i0][..i1 - 1] == a[..i1 - 1];
    JoinText(a[..i1 - 1], b, j1 - 1, j0);
  }

  lemma CutBuffer<T>(x: seq<T>, y: seq<T>, i: nat)
    requires i <= |x|
    ensures (x + y)[..i] == x[..i] && (x + y)[|x|..] == y && (x + y)[..|x|] == x
  {
  }

  lemma JoinText<T>(x: seq<T>, b: seq<T>, i: nat, j: nat)
    requires i <= j <= |b|
    ensures x + b[i..j] + b[j..] == x + b[i..] && (i == j ==> x + b[j..] == x + b[i..])
  {
    assert b[i..j] + b[j..] == b[i..];
  }

  lemma BackwardHunk<T>(a: seq<T>, b: seq<T>, J0: seq<int>, J: seq<int>, i0: int, hs: seq<Hunk>, i1: int, j1: int)
    requires Closed(J0, a, b) && Backward(a, b, J0, J, i0, hs)
    requires 1 <= i1 <= i0 + 1 && forall k :: i1 <= k <= i0 ==> J[k] == 0
    requires i1 == 1 || J[i1 - 1] != 0
    requires j1 == J[i1 - 1] + 1
    ensures Backward(a, b, J0, J[i1 := j1], i1 - 1, Changed(hs, i1, i0, j1, J[i0 + 1] - 1))
  {
    hide EdRun, EdStep, TextInRange, NoneEmpty, Closed, Placed, CommandOf;
    var h := Hunk(i1, i0, j1, J[i0 + 1] - 1);
    BackwardVector(a, b, J0, J, i0, i1);
    if i1 > i0 && j1 > h.d {
      assert J[i1 := j1][i1] == J[i0 + 1];
    } else {
      EdChange(a, b, i0, h.d, i1, j1);
      AppendCommand(a, hs, b, h);
      NotEmpty(hs, h);
      PlacedHunk(hs, h, J0, |a|, |b|);
    }
  }

  lemma NotEmpty(hs: seq<Hunk>, h: Hunk)
    requires NoneEmpty(hs) && (h.a <= h.b || h.c <= h.d)
    ensures NoneEmpty(hs + [h])
  {
  }

  lemma PlacedSkip(hs: seq<Hunk>, J: seq<int>, m: int, n: int, i0: int, j: int)
    requires Placed(hs, J, m, n, i0, j)
    ensures Placed(hs, J, m, n, i0 - 1, j - 1)
  {
    hide Descends;
  }

  lemma PlacedHunk(hs: seq<Hunk>, h: Hunk, J: seq<int>, m: int, n: int)
    requires Placed(hs, J, m, n, h.b, h.d) && 1 <= h.a <= h.b + 1 && 1 <= h.c <= h.d + 1
    requires h.a - 1 < |J| && h.c - 1 == J[h.a - 1]
    ensures Placed(hs + [h], J, m, n, h.a - 1, h.c - 1)
  {
    hide Descends;
    DescendsSnoc(hs, h, J, m, n);
  }

  lemma BackwardVector<T>(a: seq<T>, b: seq<T>, J0: seq<int>, J: seq<int>, i0: int, i1: int)
    requires Closed(J0, a, b) && |J| == |a| + 2 && 1 <= i1 <= i0 + 1 <= |a| + 1
    requires forall k :: 0 <= k <= i0 ==> J[k] == J0[k]
    requires forall k :: 0 <= k <= i0 && J[k] != 0 ==> J[k] < J[i0 + 1]
    requires 1 <= J[i0 + 1] <= |b| + 1
    requires i1 == 1 || J[i1 - 1] != 0
    ensures 0 <= J[i1 - 1] < J[i0 + 1]
    ensures forall k :: 0 <= k < i1 && J[k] != 0 ==> J[k] < J[i1 - 1] + 1
  {
    forall k | 0 <= k < i1 && J[k] != 0
      ensures J[k] < J[i1 - 1] + 1
    {
      if k < i1 - 1 && k > 0 {
        assert J0[k] < J0[i1 - 1];
      }
    }
  }

  lemma BackwardFinish<T>(a: seq<T>, b: seq<T>, J0: seq<int>, J: seq<int>, hs: seq<Hunk>)
    requires Backward(a, b, J0, J, 0, hs) && J[1] == 1
    ensures TextInRange(hs, |b|) && NoneEmpty(hs) && EdRun(a, hs, b) == Done(b)
    ensures Descends(hs, J0, |a|, |b|)
  {
    assert a[..0] + b[0..] == b;
  }

  function Reversed<T>(s: seq<T>): (r: seq<T>)
    ensures |r| == |s| && forall i :: 0 <= i < |s| ==> r[i] == s[|s| - 1 - i]
  {
    if s == [] then [] else [s[|s| - 1]] + Reversed(s[..|s| - 1])
  }

  lemma ReversedSnoc<T>(s: seq<T>, x: T)
    ensures Reversed(s + [x]) == [x] + Reversed(s)
  {
    assert (s + [x])[..|s|] == s;
  }

  /** The hunks up to old line i and those printed, which come after them, are all there are. */
  ghost predicate Remain(J: seq<int>, i: int, hs: seq<Hunk>) {
    0 <= i < |J| && (i == 0 || J[i] != 0) && Hunks(J, i) + Reversed(hs) == Hunks(J, |J| - 1)
  }

  lemma RemainAll(J: seq<int>)
    requires |J| > 0 && J[|J| - 1] != 0
    ensures Remain(J, |J| - 1, [])
  {
    assert Hunks(J, |J| - 1) + [] == Hunks(J, |J| - 1);
  }

  /** One change printed, or none if the mates are neighbours. */
  lemma RemainStep(J: seq<int>, p: nat, k: nat, hs: seq<Hunk>)
    requires Remain(J, k, hs) && p < k && J[k] != 0 && (p == 0 || J[p] != 0) && forall i :: p < i < k ==> J[i] == 0
    ensures Remain(J, p, Changed(hs, p + 1, k - 1, J[p] + 1, J[k] - 1))
  {
    hide Hunks;
    HunksStep(J, p, k);
    var h := Hunk(p + 1, k - 1, J[p] + 1, J[k] - 1);
    ReversedSnoc(hs, h);
    assert Hunks(J, p) + ([h] + Reversed(hs)) == Hunks(J, p) + [h] + Reversed(hs);
  }

  lemma RemainNone(J: seq<int>, hs: seq<Hunk>)
    requires Remain(J, 0, hs)
    ensures Reversed(hs) == Hunks(J, |J| - 1)
  {
    assert Hunks(J, 0) == [] && [] + Reversed(hs) == Reversed(hs);
  }

  /** The backward loop of output. */
  method BackwardLoop<T>(J: array<int>, a: seq<T>, b: seq<T>, ghost J0: seq<int>) returns (script: seq<Hunk>)
    requires J.Length == |a| + 2 && J[..] == J0 && Closed(J0, a, b)
    modifies J
    ensures |a| > 0 ==> Backward(a, b, J0, J[..], 0, script) && J[1] == 1 && Remain(J0, 0, script)
    ensures |a| == 0 ==> script == [] && J[..] == J0
  {
    hide Backward, Closed, Changed, MatchVector, Remain;
    LastMate(a, b, J0);
    RemainAll(J0);
    ghost var first := true;
    var m := |a|;
    script := [];
    BackwardStart(a, b, J0);
    var i0 := m;
    while i0 >= 1
      invariant 0 <= i0 <= m
      invariant Backward(a, b, J0, J[..], i0, script)
      invariant i0 == 0 < m ==> J[1] == 1
      invariant forall k :: 0 <= k <= i0 ==> J[k] == J0[k]
      invariant first ==> i0 == m && J[..] == J0 && Remain(J0, i0 + 1, script)
      invariant !first ==> Remain(J0, i0, script) && (i0 >= 1 ==> J[i0] == J[i0 + 1] - 1 && J[i0] != 0)
      invariant m == 0 ==> J[..] == J0 && script == []
      decreases i0, if i0 >= 1 && J[i0] == J[i0 + 1] - 1 && J[i0] != 0 then 0 else 1
    {
      ghost var start, s, after := i0, J[..], first;
      first := false;
      while i0 >= 1 && J[i0] == J[i0 + 1] - 1 && J[i0] != 0
        invariant 0 <= i0 <= start && J[..] == s
        invariant Backward(a, b, J0, J[..], i0, script)
        invariant after ==> J0[i0 + 1] != 0 && J[i0 + 1] == J0[i0 + 1] && Remain(J0, i0 + 1, script)
        invariant !after ==> i0 == start && Remain(J0, i0, script) && J[i0] == J[i0 + 1] - 1 && J[i0] != 0
        decreases i0
      {
        BackwardSkip(a, b, J0, J[..], i0, script);
        if after {
          RemainStep(J0, i0, i0 + 1, script);
          EmptyChange(script, i0 + 1, i0, J0[i0] + 1, J0[i0 + 1] - 1);
        }
        after := true;
        i0 := i0 - 1;
      }
      assert after;
      var j0 := J[i0 + 1] - 1;
      var i1 := i0 + 1;
      while i1 > 1 && J[i1 - 1] == 0
        invariant 1 <= i1 <= i0 + 1
        invariant J[..] == s && forall k :: i1 <= k <= i0 ==> J[k] == 0
      {
        i1 := i1 - 1;
      }
      BackwardZero(a, b, J0, J[..], i0, script);
      var j1 := J[i1 - 1] + 1;
      BackwardHunk(a, b, J0, J[..], i0, script, i1, j1);
      RemainStep(J0, i1 - 1, i0 + 1, script);
      J[i1] := j1;
      assert J[..] == s[i1 := j1];
      script := Change(script, i1, i0, j1, j0);
      i0 := i1 - 1;
    }
  }

  lemma LastMate<T>(a: seq<T>, b: seq<T>, J: seq<int>)
    requires Closed(J, a, b)
    ensures |J| == |a| + 2 && J[0] == 0 && J[|a| + 1] == |b| + 1
  {
  }

  lemma EmptyChange(hs: seq<Hunk>, a: int, b: int, c: int, d: int)
    requires a > b && c > d
    ensures Changed(hs, a, b, c, d) == hs
  {
  }

  lemma BackwardZero<T>(a: seq<T>, b: seq<T>, J0: seq<int>, J: seq<int>, i0: int, hs: seq<Hunk>)
    requires Closed(J0, a, b) && Backward(a, b, J0, J, i0, hs)
    ensures |J| == |a| + 2 && J[0] == 0
  {
  }

  /** output with -e: commands that ed runs one after the other on the old file. Every address
      is valid when its command runs, and the result is the new file. */
  method OutputBackward<T>(J: array<int>, a: seq<T>, b: seq<T>) returns (script: seq<Hunk>)
    requires J.Length == |a| + 2 && MatchVector(J[..], a, b)
    modifies J
    ensures TextInRange(script, |b|) && NoneEmpty(script)
    ensures EdRun(a, script, b) == Done(b)
    ensures Descends(script, old(J[..]), |a|, |b|)
    ensures Reversed(script) == ScriptOf(old(J[..]), |a|, |b|)
  {
    hide Backward, Closed, MatchVector, EdRun, TextInRange, NoneEmpty;
    hide Mates, Changed, Descends, Hunks, Remain, Reversed;
    ghost var j := J[..];
    ghost var J0 := CloseVector(J, a, b);
    LastMate(a, b, J0);
    script := BackwardLoop(J, a, b, J0);
    if |a| == 0 {
      EmptyOldEd(a, b, J0);
      EmptyOld(J0, |b|);
      ReversedOne(1, 0, 1, |b|);
      script := Change(script, 1, 0, 1, |b|);
    } else {
      RemainNone(J0, script);
      BackwardFinish(a, b, J0, J[..], script);
    }
    DescendsSame(script, J0, j, |a|, |b|);
  }

  lemma ReversedOne(a: int, b: int, c: int, d: int)
    ensures Reversed(Changed([], a, b, c, d)) == Changed([], a, b, c, d)
  {
  }

  lemma DescendsSame(hs: seq<Hunk>, J: seq<int>, J': seq<int>, m: nat, n: nat)
    requires Descends(hs, J, m, n) && |J| == |J'| == m + 2 && forall i :: 0 <= i <= m ==> J[i] == J'[i]
    ensures Descends(hs, J', m, n)
  {
    forall k | 0 <= k < |hs|
      ensures Stacked(hs, k, J', m, n)
    {
      StackedBelow(hs, J, m, n, k);
    }
  }

  lemma {:induction false} StackedBelow(hs: seq<Hunk>, J: seq<int>, m: nat, n: nat, k: nat)
    requires Descends(hs, J, m, n) && k <= |hs|
    ensures 0 <= OldAt(hs, k, m) <= m && 0 <= NewAt(hs, k, n) <= n
    ensures k < |hs| ==> Stacked(hs, k, J, m, n)
    decreases k
  {
    if k > 0 {
      StackedBelow(hs, J, m, n, k - 1);
    }
    assert k < |hs| ==> Stacked(hs, k, J, m, n);
  }

  lemma EmptyOldEd<T>(a: seq<T>, b: seq<T>, J0: seq<int>)
    requires |a| == 0 && Closed(J0, a, b)
    ensures var hs := Changed([], 1, 0, 1, |b|);
            && TextInRange(hs, |b|) && NoneEmpty(hs) && EdRun(a, hs, b) == Done(b)
            && Descends(hs, J0, |a|, |b|)
  {
    if |b| > 0 {
      var h := Hunk(1, 0, 1, |b|);
      AppendCommand(a, [], b, h);
      EdChange(a, b, 0, |b|, 1, 1);
      assert a[..0] + b[|b|..] == a;
      assert a[..0] + b[0..] == b;
      assert [] + [h] == [h];
    }
  }
}
