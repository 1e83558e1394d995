/** diff as a whole, on lines of text: hashing, check, and the script that is printed. */
module DiffProgram {
  import opened DiffMatching
  import opened DiffEngine
  import opened DiffOutput
  import opened DiffScript
  import opened DiffStream

  function Values(hash: string -> int, lines: seq<string>): (v: seq<int>)
    ensures |v| == |lines| && forall i :: 0 <= i < |lines| ==> v[i] == hash(lines[i])
  {
    seq(|lines|, i requires 0 <= i < |lines| => hash(lines[i]))
  }

  /** No old line shares its value with a different new line. */
  ghost predicate NoCollision(hash: string -> int, a: seq<string>, b: seq<string>) {
    forall i, j :: 0 <= i < |a| && 0 <= j < |b| && hash(a[i]) == hash(b[j]) ==> a[i] == b[j]
  }

  /** A match vector of the values without the mates whose lines differ. */
  ghost function Trimmed(v: seq<int>, a: seq<string>, b: seq<string>): (t: seq<int>)
    requires |v| == |a| + 2
    ensures |t| == |v|
  {
    seq(|v|, i requires 0 <= i < |v| =>
        if 1 <= i <= |a| && 1 <= v[i] <= |b| && a[i - 1] != b[v[i] - 1] then 0 else v[i])
  }

  /** check: break the mates whose lines differ although their values agree. */
  method Check(J: array<int>, a: seq<string>, b: seq<string>, ghost hash: string -> int)
    requires J.Length == |a| + 2 && MatchVector(J[..], Values(hash, a), Values(hash, b))
    modifies J
    ensures MatchVector(J[..], a, b)
    ensures J[..] == Trimmed(old(J[..]), a, b)
    ensures NoCollision(hash, a, b) ==> J[..] == old(J[..])
  {
    hide MatchVector, NoCollision, Values, Trimmed;
    ghost var j0 := J[..];
    TrimmedIs(j0, a, b, hash);
    for i := 1 to |a| + 1
      invariant forall k :: i <= k < |j0| ==> J[k] == j0[k]
      invariant forall k :: 0 <= k < i ==> J[k] == Trimmed(j0, a, b)[k]
    {
      if J[i] != 0 && a[i - 1] != b[J[i] - 1] {
        J[i] := 0;
      }
    }
    assert J[..] == Trimmed(j0, a, b);
    TrimmedMatches(j0, a, b, hash);
    if NoCollision(hash, a, b) {
      NoneBroken(j0, a, b, hash);
    }
  }

  lemma TrimmedIs(v: seq<int>, a: seq<string>, b: seq<string>, hash: string -> int)
    requires |v| == |a| + 2 && MatchVector(v, Values(hash, a), Values(hash, b))
    ensures Trimmed(v, a, b)[0] == v[0] && Trimmed(v, a, b)[|a| + 1] == v[|a| + 1]
    ensures forall i :: 1 <= i <= |a| ==>
                          && 0 <= v[i] <= |b|
                          && Trimmed(v, a, b)[i] == if v[i] != 0 && a[i - 1] != b[v[i] - 1] then 0 else v[i]
  {
  }

  lemma TrimmedMatches(v: seq<int>, a: seq<string>, b: seq<string>, hash: string -> int)
    requires |v| == |a| + 2 && MatchVector(v, Values(hash, a), Values(hash, b))
    ensures MatchVector(Trimmed(v, a, b), a, b)
  {
    hide Trimmed;
    TrimmedIs(v, a, b, hash);
  }

  lemma NoneBroken(v: seq<int>, a: seq<string>, b: seq<string>, hash: string -> int)
    requires |v| == |a| + 2 && MatchVector(v, Values(hash, a), Values(hash, b)) && NoCollision(hash, a, b)
    ensures Trimmed(v, a, b) == v
  {
    hide Trimmed;
    TrimmedIs(v, a, b, hash);
    forall i | 1 <= i <= |a|
      ensures Trimmed(v, a, b)[i] == v[i]
    {
      if v[i] != 0 {
        assert hash(a[i - 1]) == hash(b[v[i] - 1]);
      }
    }
  }

  /** A match vector of the values of two files that is as long as any. */
  ghost predicate LongestByValue(v: seq<int>, a: seq<string>, b: seq<string>, hash: string -> int) {
    var va, vb := Values(hash, a), Values(hash, b);
    |v| == |a| + 2 && MatchVector(v, va, vb) && IsLcsLength(va, vb, |Mates(v, |a|)|) && PrefixMated(v, va, vb)
  }

  /** The checked match vector of two files, ready for output: a longest one by value, v, less the
      mates whose lines differ. */
  method MatchLines(a: seq<string>, b: seq<string>, hash: string -> int, g0: int, g1: int)
    returns (J: array<int>, ghost v: seq<int>)
    requires forall s :: s in a || s in b ==> hash(s) != 0
    ensures fresh(J) && J.Length == |a| + 2 && MatchVector(J[..], a, b) && PrefixMated(J[..], a, b)
    ensures LongestByValue(v, a, b, hash) && J[..] == Trimmed(v, a, b)
    ensures NoCollision(hash, a, b) ==> J[..] == v
  {
    var va, vb := Values(hash, a), Values(hash, b);
    var w := MatchFiles(va, vb, g0, g1);
    v := w;
    J := new int[|a| + 2](i requires 0 <= i < |a| + 2 => w[i]);
    assert J[..] == v;
    hide MatchVector, Mates, IsLcsLength, PrefixMated;
    Check(J, a, b, hash);
    PrefixLines(v, J[..], a, b, hash);
  }

  /** check keeps the mates of the lines with which the files begin alike. */
  lemma PrefixLines(J: seq<int>, J': seq<int>, a: seq<string>, b: seq<string>, hash: string -> int)
    requires |J| == |J'| == |a| + 2 && MatchVector(J, Values(hash, a), Values(hash, b))
    requires PrefixMated(J, Values(hash, a), Values(hash, b))
    requires MatchVector(J', a, b)
    requires J' == Trimmed(J, a, b)
    ensures PrefixMated(J', a, b)
  {
    forall i | 0 <= i <= |a| && i <= |b| && a[..i] == b[..i]
      ensures J'[i] == i
    {
      ValuesSlice(hash, a, 0, i);
      ValuesSlice(hash, b, 0, i);
      assert Values(hash, a)[..i] == Values(hash, a)[0..i] && Values(hash, b)[..i] == Values(hash, b)[0..i];
      assert a[..i] == a[0..i] && b[..i] == b[0..i];
      assert J[i] == i;
      if i > 0 {
        assert a[i - 1] == a[..i][i - 1] == b[..i][i - 1];
      }
    }
  }

  lemma ValuesSlice(hash: string -> int, x: seq<string>, i: int, j: int)
    requires 0 <= i <= j <= |x|
    ensures Values(hash, x[i..j]) == Values(hash, x)[i..j]
  {
  }

  /** Lines that are equal have equal values. */
  lemma LinesByValue(hash: string -> int, a: seq<string>, b: seq<string>, p: seq<Mate>)
    requires CommonSubsequence(p, a, b)
    ensures CommonSubsequence(p, Values(hash, a), Values(hash, b))
  {
  }

  /** A longest match by value that mates equal lines only is a longest match of the lines. */
  lemma LongestOfLines(v: seq<int>, a: seq<string>, b: seq<string>, hash: string -> int)
    requires LongestByValue(v, a, b, hash) && MatchVector(v, a, b)
    ensures IsLcsLength(a, b, |Mates(v, |a|)|)
  {
    hide MatchVector, CommonSubsequence, PrefixMated, Values;
    var q := Mates(v, |a|);
    MatesAreCommon(v, a, b, |a|);
    WholeMatching(q, a, b);
    forall p | CommonSubsequence(p, a, b)
      ensures |p| <= |q|
    {
      LinesByValue(hash, a, b, p);
    }
  }

  lemma WholeMatching(q: seq<Mate>, a: seq<string>, b: seq<string>)
    requires Matching(q, a, b, |a|, |b|)
    ensures CommonSubsequence(q, a, b)
  {
  }

  lemma {:induction false} AllMated(J: seq<int>, m: nat)
    requires m < |J| && forall i :: 1 <= i <= m ==> J[i] != 0
    ensures |Mates(J, m)| == m
  {
    if m > 0 {
      AllMated(J, m - 1);
    }
  }

  lemma {:induction false} CountsUp(hs: seq<Hunk>, m: nat, n: nat)
    requires WellFormed(hs, m, n) && NoneEmpty(hs)
    ensures 0 <= Deleted(hs) && 0 <= Added(hs) && (hs != [] ==> 0 < Deleted(hs) + Added(hs))
    decreases |hs|
  {
    if hs != [] {
      var front := hs[..|hs| - 1];
      FrontWellFormed(hs, m, n);
      assert InRange(hs[|hs| - 1], m, n);
      CountsUp(front, m, n);
    }
  }

  /** Nothing is printed exactly for equal files. */
  lemma NothingToDo(a: seq<string>, b: seq<string>, J: seq<int>, hs: seq<Hunk>)
    requires |J| == |a| + 2 && PrefixMated(J, a, b) && WellFormed(hs, |a|, |b|) && NoneEmpty(hs)
    requires Patch(a, b, hs) == b && Deleted(hs) == |a| - |Mates(J, |a|)|
    ensures hs == [] <==> a == b
  {
    hide WellFormed, NoneEmpty, Deleted, Added, Mates, CommonSubsequence;
    if hs == [] {
      assert Produced(a, b, []) == [] && a[0..] == a;
    }
    if a == b {
      forall i | 1 <= i <= |a|
        ensures J[i] != 0
      {
        assert a[..i] == b[..i];
      }
      AllMated(J, |a|);
      CountsUp(hs, |a|, |b|);
      var q := KeptInAll(a, b, hs);
    }
  }

  /** What the script hs in file order is to files a and b: it makes b out of a, every hunk has
      something in it, and a line is kept between any two; it deletes the old lines without a mate
      in v, a longest match by value, from which the mates of different lines are taken out; no
      script is smaller if and only if those left are as many as the lines can have. */
  ghost predicate GoodScript(a: seq<string>, b: seq<string>, hash: string -> int, v: seq<int>, hs: seq<Hunk>) {
    && WellFormed(hs, |a|, |b|) && Numbered(a, b, hs) && Patch(a, b, hs) == b
    && NoneEmpty(hs) && Spread(hs) && (hs == [] <==> a == b)
    && LongestByValue(v, a, b, hash) && Deleted(hs) == |a| - |Mates(Trimmed(v, a, b), |a|)|
    && (Smallest(a, b, hs) <==> IsLcsLength(a, b, |Mates(Trimmed(v, a, b), |a|)|))
    && (Trimmed(v, a, b) == v ==> Smallest(a, b, hs))
    && (NoCollision(hash, a, b) ==> Trimmed(v, a, b) == v)
  }

  /** The script that the checked match vector stands for is a good one. */
  lemma ScriptIsGood(a: seq<string>, b: seq<string>, hash: string -> int, v: seq<int>, J: seq<int>)
    requires LongestByValue(v, a, b, hash) && J == Trimmed(v, a, b) && MatchVector(J, a, b) && PrefixMated(J, a, b)
    requires NoCollision(hash, a, b) ==> J == v
    ensures GoodScript(a, b, hash, v, ScriptOf(J, |a|, |b|))
  {
    hide MatchVector, WellFormed, Numbered, Patch, Mates, IsLcsLength, Smallest, PrefixMated;
    hide NoneEmpty, Spread, Deleted, NoCollision, Trimmed, Hunks;
    var J0, n := J[0 := 0][|a| + 1 := |b| + 1], |Mates(J, |a|)|;
    ClosedIs(J, a, b);
    HunksLaws(a, b, J0);
    var hs := ScriptOf(J, |a|, |b|);
    NothingToDo(a, b, J, hs);
    SmallestScript(a, b, hs, n);
    if J == v {
      LongestOfLines(v, a, b, hash);
    }
  }

  lemma ClosedIs(J: seq<int>, a: seq<string>, b: seq<string>)
    requires |J| == |a| + 2 && MatchVector(J, a, b)
    ensures var J0 := J[0 := 0][|a| + 1 := |b| + 1]; Closed(J0, a, b) && Mates(J0, |a|) == Mates(J, |a|)
  {
    MatesAgree(J, J[0 := 0][|a| + 1 := |b| + 1], |a|);
  }

  /** diff without options: whatever the hash does, the script is a good one. */
  method Diff(a: seq<string>, b: seq<string>, hash: string -> int, g0: int, g1: int)
    returns (script: seq<Hunk>, ghost v: seq<int>)
    requires forall s :: s in a || s in b ==> hash(s) != 0
    ensures WellFormed(script, |a|, |b|) && Patch(a, b, script) == b
    ensures NoneEmpty(script) && Spread(script) && (script == [] <==> a == b)
    ensures GoodScript(a, b, hash, v, script)
    ensures script == ScriptOf(Trimmed(v, a, b), |a|, |b|)
  {
    hide MatchVector, Mates, LongestByValue, PrefixMated, Trimmed, ScriptOf;
    hide WellFormed, Numbered, Patch, NoneEmpty, Spread, Deleted, Smallest, IsLcsLength, NoCollision;
    var J;
    J, v := MatchLines(a, b, hash, g0, g1);
    ScriptIsGood(a, b, hash, v, J[..]);
    script := OutputForward(J, a, b);
  }

  /** A collision may cost a longer script: with one value for all lines, the files xy and yx have
      no mates left, though they have a line in common. */
  method CollisionCosts(g0: int, g1: int) returns (script: seq<Hunk>)
    ensures WellFormed(script, 2, 2) && Patch(["x", "y"], ["y", "x"], script) == ["y", "x"]
    ensures !Smallest(["x", "y"], ["y", "x"], script)
  {
    hide Smallest, IsLcsLength;
    var a, b := ["x", "y"], ["y", "x"];
    var hash: string -> int := _ => 1;
    ghost var v;
    script, v := Diff(a, b, hash, g0, g1);
    AllBroken(a, b, hash, v);
    Shorter(a, b, script);
  }

  lemma AllBroken(a: seq<string>, b: seq<string>, hash: string -> int, v: seq<int>)
    requires a == ["x", "y"] && b == ["y", "x"] && hash("x") == hash("y") && LongestByValue(v, a, b, hash)
    ensures Mates(Trimmed(v, a, b), 2) == []
  {
    hide IsLcsLength;
    var va, vb, t := Values(hash, a), Values(hash, b), Trimmed(v, a, b);
    assert va[..1] == vb[..1] && va[..2] == vb[..2];
    assert v[1] == 1 && v[2] == 2;
    assert t[1] == 0 && t[2] == 0;
    assert Mates(t, 0) == [] && Mates(t, 1) == [];
  }

  /** Deleting the first line and adding it at the end is smaller than replacing both. */
  lemma Shorter(a: seq<string>, b: seq<string>, script: seq<Hunk>)
    requires a == ["x", "y"] && b == ["y", "x"] && Deleted(script) == 2
    ensures !Smallest(a, b, script)
  {
    var h1, h2 := Hunk(1, 1, 1, 0), Hunk(3, 2, 2, 2);
    var hs := [h1, h2];
    assert hs[..1] == [h1] && [h1][..0] == [];
    assert WellFormed([h1], 2, 2) && WellFormed(hs, 2, 2);
    assert Produced(a, b, [h1]) == [];
    assert Produced(a, b, hs) == ["y", "x"];
    assert Patch(a, b, hs) == b;
    assert |hs| == 2 && hs[..|hs| - 1] == [h1];
    assert Deleted([]) == 0 && Deleted([h1]) == 1 && Deleted(hs) == 1;
  }

  lemma HonestHunks(a: seq<string>, b: seq<string>, hs: seq<Hunk>, J: seq<int>)
    requires |J| > |a| && Descends(hs, J, |a|, |b|) && PrefixMated(J, a, b)
    ensures Faithful(a, b, hs)
  {
    forall k | 0 < k <= |hs|
      ensures HonestAt(a, b, hs, k)
    {
      assert Stacked(hs, k - 1, J, |a|, |b|);
    }
  }

  /** diff -e: the script is, in reverse, the good one of diff; run in the order printed, the
      commands turn the old file into the new one; and ed, reading the printed text from a file or a
      pipe, makes the new file if and only if no line to be created is a lone `.', left-over lines
      that are commands of ed apart. */
  method DiffEd(a: seq<string>, b: seq<string>, hash: string -> int, g0: int, g1: int)
    returns (script: seq<Hunk>, text: seq<ScriptLine>, ghost v: seq<int>)
    requires forall s :: s in a || s in b ==> hash(s) != 0
    ensures GoodScript(a, b, hash, v, Reversed(script))
    ensures Reversed(script) == ScriptOf(Trimmed(v, a, b), |a|, |b|)
    ensures TextInRange(script, |b|) && NoneEmpty(script) && EdRun(a, script, b) == Done(b)
    ensures text == PrintAll(Commands(script, b))
    ensures forall piped: bool :: Feed(Ed(a, |a|, piped), text) == Done(b) <==> NoDots(Commands(script, b))
  {
    hide PrefixMated, MatchVector, Mates, IsLcsLength, Descends, Faithful;
    hide EdRun, Feed, PrintAll, NoDots, NoneEmpty, TextInRange, GoodScript, Trimmed, LongestByValue, ScriptOf, Reversed;
    var J;
    J, v := MatchLines(a, b, hash, g0, g1);
    ghost var j := J[..];
    ScriptIsGood(a, b, hash, v, j);
    script := OutputBackward(J, a, b);
    text := PrintAll(Commands(script, b));
    HonestHunks(a, b, script, j);
    EdRecreates(a, b, script, j, |a|, false);
    EdRecreates(a, b, script, j, |a|, true);
  }

  /** Every line that a script leaves was there before or is in the text of a command. */
  lemma {:induction false} LinesFrom(a: seq<string>, hs: seq<Hunk>, b: seq<string>, x: string)
    requires TextInRange(hs, |b|) && EdRun(a, hs, b).Done? && x in EdRun(a, hs, b).buf
    ensures x in a || exists c :: c in Commands(hs, b) && x in c.text
    decreases |hs|
  {
    if hs != [] {
      var front := hs[..|hs| - 1];
      var cs, last := Commands(front, b), CommandOf(hs[|hs| - 1], b);
      assert Commands(hs, b) == cs + [last];
      var buf := EdRun(a, front, b).buf;
      StepLines(buf, last, x);
      if x in buf {
        LinesFrom(a, front, b, x);
      } else {
        assert last in Commands(hs, b);
      }
    }
  }

  lemma StepLines(buf: seq<string>, c: Cmd, x: string)
    requires EdStep(buf, c).Done? && x in EdStep(buf, c).buf
    ensures x in buf || x in c.text
  {
  }

  /** So a file that is to become a lone `.' out of nothing does not. */
  method LoneDotIsLost(hash: string -> int, g0: int, g1: int) returns (text: seq<ScriptLine>)
    requires hash(".") != 0
    ensures forall piped: bool :: Feed(Ed([], 0, piped), text) != Done(["."])
  {
    hide Feed, PrintAll;
    var script;
    ghost var v;
    script, text, v := DiffEd([], ["."], hash, g0, g1);
    LinesFrom([], script, ["."], ".");
  }
}
