/** Which patterns make compile of grep.c leave the pattern or a class, told from their text alone. */
module GrepErrors {
  import opened GrepMatch
  import opened GrepCompile

  // ----- classes

  /** Where the class closes: the first right bracket from i on, or the end of the pattern. */
  function Close(p: string, i: int): (j: int)
    requires 0 <= i <= |p|
    ensures i <= j <= |p| && (j < |p| ==> p[j] == ']') && forall k :: i <= k < j ==> p[k] != ']'
    decreases |p| - i
  {
    if i == |p| || p[i] == ']' then i else Close(p, i + 1)
  }

  /** How often a char is repeated at the end of the first n chars, not counting any before i. */
  function Run(p: string, c: char, i: int, n: int): nat
    requires 0 <= i && n <= |p|
    decreases if n > i then n - i else 0
  {
    if n > i && p[n - 1] == c then 1 + Run(p, c, i, n - 1) else 0
  }

  /** In a class with its first char at f and its end at stop, the char at k has eight bits and is
      a member itself or begins a range. Dashes after the first char come in pairs, the second
      being the end of a range that the first makes; so a char is the end of a range if an odd
      number of dashes comes before it, and begins one if a dash that is not the last char follows. */
  ghost predicate StrayAt(p: string, f: int, stop: int, k: int)
    requires 0 <= f && stop <= |p|
  {
    && f <= k < stop && p[k] as int >= 128
    && (Run(p, '-', f + 1, k) % 2 == 0 || (k + 1 < stop && p[k + 1] == '-' && (k + 2 < stop || stop == |p|)))
  }

  ghost predicate StrayFrom(p: string, f: int, stop: int, i: int)
    requires 0 <= f && stop <= |p|
  {
    exists k :: i <= k && StrayAt(p, f, stop, k)
  }

  /** The class is not closed and ends in a range whose end is missing. */
  ghost predicate OpenRange(p: string, f: int, stop: int)
    requires 0 <= f && stop <= |p|
  {
    stop == |p| && Run(p, '-', f + 1, |p|) % 2 == 1
  }

  /** What the scan of a class comes to agrees with its text from i on. */
  ghost predicate ScanAgrees(p: string, f: int, stop: int, i: int, r: Members)
    requires 0 <= f && stop <= |p|
  {
    && (r.Stray? <==> StrayFrom(p, f, stop, i))
    && (r.Past? <==> !StrayFrom(p, f, stop, i) && OpenRange(p, f, stop))
    && (r.Bad? <==> !StrayFrom(p, f, stop, i) && !OpenRange(p, f, stop) && stop == |p|)
    && (r.Got? ==> r.sp == stop + 1)
  }

  lemma StrayStep(p: string, f: int, stop: int, i: int)
    requires 0 <= f && stop <= |p|
    ensures StrayFrom(p, f, stop, i) <==> StrayAt(p, f, stop, i) || StrayFrom(p, f, stop, i + 1)
  {
  }

  lemma NoStray(p: string, f: int, stop: int)
    requires 0 <= f && stop <= |p|
    ensures !StrayFrom(p, f, stop, stop)
  {
  }

  lemma RunStep(p: string, c: char, i: int, n: int)
    requires 0 <= i && n < |p|
    ensures Run(p, c, i, n + 1) == if n >= i && p[n] == c then 1 + Run(p, c, i, n) else 0
  {
  }

  lemma CloseSkip(p: string, i: int)
    requires 0 <= i < |p| && p[i] != ']'
    ensures Close(p, i) == Close(p, i + 1)
  {
  }

  /** The char before i, if it has eight bits, ended a range, and an even number of dashes comes
      before i: a member is to be read at i. */
  ghost predicate Fresh(p: string, f: int, i: int) {
    && 0 <= f <= i <= |p| && Run(p, '-', f + 1, i) % 2 == 0
    && (i > f && p[i - 1] as int >= 128 ==> Run(p, '-', f + 1, i - 1) % 2 == 1)
  }

  /** The scan from a place i where a member is to be read, in a class with its first char at f.
      What is left to tell is whether the char before i begins a range. */
  lemma {:induction false} ScanFrom(p: string, f: int, i: int, s: set<int>)
    requires IsPattern(p) && 1 <= f <= i < |p| && Fresh(p, f, i) && (i > f ==> p[i] != ']')
    ensures ScanAgrees(p, f, Close(p, if i == f then i + 1 else i), if i == f then i else i - 1,
                       ClassFrom(p, i + 1, p[i], f + 1, s))
    decreases |p| - i, 0
  {
    hide Range, Run, StrayFrom, Close;
    var stop := Close(p, i + 1);
    if i > f {
      CloseSkip(p, i);
      StrayStep(p, f, stop, i - 1);
    }
    StrayStep(p, f, stop, i);
    RunStep(p, '-', f + 1, i);
    if p[i] == '-' && i > f && At(p, i + 1) != ']' {
      if i + 1 == |p| {
        NoStray(p, f, stop);
      } else {
        CloseSkip(p, i + 1);
        RunStep(p, '-', f + 1, i + 1);
        ScanNext(p, f, i + 2, s + Range(Value(p[i - 1] as int), Value(p[i + 1] as int)));
      }
    } else if p[i] == '-' && i > f {
      assert stop == i + 1;
      NoStray(p, f, stop);
    } else if Value(p[i] as int) >= 0 {
      ScanNext(p, f, i + 1, s + {Value(p[i] as int)});
    }
  }

  lemma {:induction false} ScanNext(p: string, f: int, i: int, s: set<int>)
    requires IsPattern(p) && 1 <= f < i <= |p| && Fresh(p, f, i)
    ensures ScanAgrees(p, f, Close(p, i), i - 1, ClassNext(p, i, f + 1, s))
    decreases |p| - i, 1
  {
    hide Range, Run, StrayFrom;
    var stop := Close(p, i);
    if i == |p| || p[i] == ']' {
      StrayStep(p, f, stop, i - 1);
      NoStray(p, f, stop);
    } else {
      ScanFrom(p, f, i, s);
    }
  }

  /** The scan of a class with its first char at f: it sets a bit outside the class exactly if a
      char of eight bits is a member or begins a range; otherwise it reads past the end of the
      pattern exactly if the class is not closed and ends in a range without an end, finds an error
      exactly if the class is not closed but for that, and ends at the right bracket. */
  lemma ClassScan(p: string, f: int)
    requires IsPattern(p) && 1 <= f < |p|
    ensures ScanAgrees(p, f, Close(p, f + 1), f, ClassFrom(p, f + 1, p[f], f + 1, {}))
  {
    ScanFrom(p, f, f, {});
  }

  // ----- whole patterns

  datatype Ending = Clean | Dangling | Ranging | Straying | Unclosed

  /** What is the matter with a pattern, from place i on: it ends in a backslash with nothing after
      it, or it has a class that ends in a range without an end, sets a stray bit or is not closed. */
  ghost function Ends(p: string, i: int): Ending
    requires 0 <= i
    decreases |p| - i
  {
    if i >= |p| then Clean
    else if p[i] == '\\' then
      if i + 1 == |p| then Dangling else Ends(p, i + 2)
    else if p[i] == '[' then
      var f := if i + 1 < |p| && p[i + 1] == '^' then i + 2 else i + 1;
      if f >= |p| then Unclosed
      else
        var stop := Close(p, f + 1);
        if StrayFrom(p, f, stop, f) then Straying
        else if OpenRange(p, f, stop) then Ranging
        else if stop == |p| then Unclosed
        else Ends(p, stop + 1)
    else Ends(p, i + 1)
  }

  /** What compile makes of a pattern agrees with its text, unless an error or a back-reference
      comes first. */
  ghost predicate Agree(r: Compiled, e: Ending) {
    && (r == PastEnd ==> e == Dangling || e == Ranging)
    && (r == StrayBit ==> e == Straying)
    && (r.Code? ==> e == Clean)
  }

  lemma {:induction false} CompEnds(p: string, circf: bool, s: State)
    requires IsPattern(p) && StateOk(p, s)
    ensures Agree(Comp(p, circf, s), Ends(p, s.sp))
    decreases |p| - s.sp
  {
    hide Size, ClassFrom, Negated, StrayFrom, OpenRange;
    var c := At(p, s.sp);
    if Size(s.items) >= 256 || c == '\0' {
    } else if c == '.' {
      CompEnds(p, circf, Append(s, s.sp + 1, Dot));
    } else if c == '*' {
      if PlainStar(s) {
        CompEnds(p, circf, Literal(s, s.sp + 1, c, s.last));
      } else {
        CompEnds(p, circf, s.(sp := s.sp + 1, items := s.items[s.last := s.items[s.last].(star := true)]));
      }
    } else if c == '[' {
      ClassEnds(p, circf, s);
    } else if c == '\\' {
      EscapeEnds(p, circf, s);
    } else if c == '$' && At(p, s.sp + 1) == '\0' {
      CompEnds(p, circf, Append(s, s.sp + 1, Dol));
    } else {
      CompEnds(p, circf, Literal(s, s.sp + 1, c, |s.items|));
    }
  }

  lemma {:induction false} ClassEnds(p: string, circf: bool, s: State)
    requires IsPattern(p) && StateOk(p, s) && s.sp < |p| && p[s.sp] == '[' && Size(s.items) < 256
    ensures Agree(Comp(p, circf, s), Ends(p, s.sp))
    decreases |p| - s.sp, 0
  {
    hide Size, ClassFrom, Negated, Close, StrayFrom, OpenRange;
    var neg := At(p, s.sp + 1) == '^';
    var from := if neg then s.sp + 2 else s.sp + 1;
    if from < |p| {
      ClassScan(p, from);
    } else {
      NoClass(p, from);
    }
    match ClassFrom(p, from + 1, At(p, from), from + 1, {}) {
      case Got(members, sp) =>
        CompEnds(p, circf, Append(s, sp, Class(Negated(neg, members))));
      case _ =>
    }
  }

  lemma NoClass(p: string, from: int)
    requires 1 <= from == |p|
    ensures ClassFrom(p, from + 1, At(p, from), from + 1, {}) == Bad
  {
  }

  lemma {:induction false} EscapeEnds(p: string, circf: bool, s: State)
    requires IsPattern(p) && StateOk(p, s) && s.sp < |p| && p[s.sp] == '\\' && Size(s.items) < 256
    ensures Agree(Comp(p, circf, s), Ends(p, s.sp))
    decreases |p| - s.sp, 0
  {
    hide Size, ClassFrom, Negated, StrayFrom, OpenRange;
    var d := At(p, s.sp + 1);
    if d == '\0' || '1' <= d <= '9' {
    } else if d == '(' {
      if s.numbra < 9 {
        CompEnds(p, circf, Append(s, s.sp + 2, Bra(s.numbra)).(numbra := s.numbra + 1, open := s.open + [s.numbra]));
      }
    } else if d == ')' {
      if s.open != [] {
        var t := Append(s, s.sp + 2, Ket(s.open[|s.open| - 1]));
        CompEnds(p, circf, t.(open := s.open[..|s.open| - 1], closed := s.closed + 1));
      }
    } else {
      CompEnds(p, circf, Literal(s, s.sp + 2, d, |s.items|));
    }
  }

  /** A pattern that compiles has nothing the matter with it, and one that goes wrong has just that. */
  lemma TroubleIsThere(p: string)
    requires IsPattern(p)
    ensures Agree(CompileOf(p), Ends(p, Start(p).sp))
  {
    hide Comp, Ends;
    CompEnds(p, p != "" && p[0] == '^', Start(p));
  }

  // ----- patterns that meet no other error

  function Brackets(p: string, i: int): nat
    requires 0 <= i
    decreases |p| - i
  {
    if i >= |p| then 0 else (if p[i] == '[' then 1 else 0) + Brackets(p, i + 1)
  }

  lemma {:induction false} BracketsFall(p: string, i: int, j: int)
    requires 0 <= i <= j
    ensures Brackets(p, j) <= Brackets(p, i)
    decreases j - i
  {
    if i < j {
      BracketsFall(p, i + 1, j);
    }
  }

  /** Escaped parentheses and digits aside, a pattern may have any chars; and it is short enough for
      the buffer, where a class takes 17 bytes and anything else at most two. */
  ghost predicate Modest(p: string) {
    && IsPattern(p) && 2 * |p| + 17 * Brackets(p, 0) < 256
    && forall i :: 0 <= i < |p| - 1 && p[i] == '\\' ==> !Marked(p[i + 1])
  }

  ghost predicate Fits256(p: string, s: State) {
    StateOk(p, s) && Size(s.items) + 2 * (|p| - s.sp) + 17 * Brackets(p, s.sp) < 256
  }

  lemma FitsNext(p: string, s: State, sp: int, e: Elem, last: int)
    requires Fits256(p, s) && s.sp < sp <= |p| && -1 <= last <= |s.items|
    requires SizeOf(e) <= 2 || (e.Class? && p[s.sp] == '[')
    ensures Fits256(p, s.(sp := sp, items := s.items + [Item(e, false)], last := last))
  {
    hide Size;
    SizeSnoc(s.items, Item(e, false));
    BracketsFall(p, s.sp + 1, sp);
  }

  lemma FitsStar(p: string, s: State)
    requires Fits256(p, s) && s.sp < |p| && !PlainStar(s)
    ensures Fits256(p, s.(sp := s.sp + 1, items := s.items[s.last := s.items[s.last].(star := true)]))
  {
    hide Size;
    SizeStar(s.items, s.last);
  }

  lemma {:induction false} SizeStar(items: seq<Item>, k: int)
    requires 0 <= k < |items|
    ensures Size(items[k := items[k].(star := true)]) == Size(items)
    decreases |items|
  {
    var n, t := |items| - 1, items[k := items[k].(star := true)];
    if k < n {
      SizeStar(items[..n], k);
      assert t[..n] == items[..n][k := items[k].(star := true)];
    } else {
      assert t[..n] == items[..n];
    }
  }

  /** There is no error but an unclosed class, and no back-reference. */
  ghost predicate Clear(r: Compiled, e: Ending) {
    r != Backref && (r == Error ==> e == Unclosed)
  }

  lemma {:induction false} ModestComp(p: string, circf: bool, s: State)
    requires Modest(p) && Fits256(p, s)
    ensures Clear(Comp(p, circf, s), Ends(p, s.sp))
    decreases |p| - s.sp
  {
    hide Size, ClassFrom, Negated, StrayFrom, OpenRange, Fits256, Brackets;
    FitsNow(p, s);
    var c := At(p, s.sp);
    if c == '\0' {
    } else if c == '.' {
      FitsNext(p, s, s.sp + 1, Dot, |s.items|);
      ModestComp(p, circf, Append(s, s.sp + 1, Dot));
    } else if c == '*' && !PlainStar(s) {
      FitsStar(p, s);
      ModestComp(p, circf, s.(sp := s.sp + 1, items := s.items[s.last := s.items[s.last].(star := true)]));
    } else if c == '$' && At(p, s.sp + 1) == '\0' {
      FitsNext(p, s, s.sp + 1, Dol, |s.items|);
      ModestComp(p, circf, Append(s, s.sp + 1, Dol));
    } else if c == '[' {
      ModestClass(p, circf, s);
    } else if c == '\\' {
      if s.sp + 1 < |p| {
        var d := p[s.sp + 1];
        assert !Marked(d);
        FitsNext(p, s, s.sp + 2, Chr(d as int), |s.items|);
        ModestComp(p, circf, Literal(s, s.sp + 2, d, |s.items|));
      }
    } else {
      var last := if c == '*' then s.last else |s.items|;
      FitsNext(p, s, s.sp + 1, Chr(c as int), last);
      ModestComp(p, circf, Literal(s, s.sp + 1, c, last));
    }
  }

  lemma FitsNow(p: string, s: State)
    requires Fits256(p, s)
    ensures StateOk(p, s) && Size(s.items) < 256 && (s.sp < |p| && p[s.sp] == '[' ==> Size(s.items) + 17 < 256)
  {
  }

  lemma {:induction false} ModestClass(p: string, circf: bool, s: State)
    requires Modest(p) && Fits256(p, s) && s.sp < |p| && p[s.sp] == '['
    ensures Clear(Comp(p, circf, s), Ends(p, s.sp))
    decreases |p| - s.sp, 0
  {
    hide Size, ClassFrom, Negated, Close, StrayFrom, OpenRange, Fits256, Brackets;
    FitsNow(p, s);
    var neg := At(p, s.sp + 1) == '^';
    var from := if neg then s.sp + 2 else s.sp + 1;
    if from < |p| {
      ClassScan(p, from);
    } else {
      NoClass(p, from);
    }
    match ClassFrom(p, from + 1, At(p, from), from + 1, {}) {
      case Got(members, sp) =>
        FitsNext(p, s, sp, Class(Negated(neg, members)), |s.items|);
        ModestComp(p, circf, Append(s, sp, Class(Negated(neg, members))));
      case _ =>
    }
  }

  /** The text of such a pattern tells what compile makes of it: it reads past the end exactly if
      the pattern ends in a lone backslash or in a range without an end, sets a stray bit exactly if
      some class has a char of eight bits that is a member or begins a range, finds an error exactly
      if the last class is not closed, and compiles the pattern otherwise. */
  lemma TextTells(p: string)
    requires Modest(p)
    ensures var r, e := CompileOf(p), Ends(p, Start(p).sp);
      && (r == PastEnd <==> e == Dangling || e == Ranging)
      && (r == StrayBit <==> e == Straying)
      && (r == Error <==> e == Unclosed)
      && (r.Code? <==> e == Clean)
  {
    hide Comp, Ends, Size, Brackets;
    TroubleIsThere(p);
    SizeNone();
    BracketsFall(p, 0, Start(p).sp);
    ModestComp(p, p != "" && p[0] == '^', Start(p));
  }

  lemma SizeNone()
    ensures Size([]) == 0
  {
  }

  // ----- patterns without classes

  lemma {:induction false} NoBrackets(p: string, i: int)
    requires 0 <= i && forall k :: 0 <= k < |p| ==> p[k] != '['
    ensures Brackets(p, i) == 0
    decreases |p| - i
  {
    if i < |p| {
      NoBrackets(p, i + 1);
    }
  }

  lemma {:induction false} RunShort(p: string, c: char, i: int, n: int)
    requires 0 <= i && n <= |p|
    ensures i < n && p[i] != c ==> Run(p, c, i, n) == Run(p, c, i + 1, n)
    ensures i < n && p[i] == c ==>
              Run(p, c, i, n) == Run(p, c, i + 1, n) + (if Run(p, c, i + 1, n) == n - i - 1 then 1 else 0)
    ensures Run(p, c, i, n) <= if n > i then n - i else 0
    decreases if n > i then n - i else 0
  {
    if n > i {
      RunShort(p, c, i, n - 1);
    }
  }

  /** The char and whatever follows it make no difference to whether the run is odd. */
  lemma RunPair(p: string, c: char, i: int)
    requires 0 <= i && i + 1 < |p| && p[i] == c
    ensures Run(p, c, i, |p|) % 2 == Run(p, c, i + 2, |p|) % 2
  {
    RunShort(p, c, i, |p|);
    RunShort(p, c, i + 1, |p|);
    RunShort(p, c, i + 2, |p|);
  }

  lemma RunEnd(p: string, c: char)
    ensures Run(p, c, |p|, |p|) == 0
  {
  }

  lemma {:induction false} BackslashEnds(p: string, i: int)
    requires 0 <= i <= |p| && forall k :: 0 <= k < |p| ==> p[k] != '['
    ensures Ends(p, i) == if Run(p, '\\', i, |p|) % 2 == 1 then Dangling else Clean
    decreases |p| - i
  {
    hide Run;
    RunEnd(p, '\\');
    RunShort(p, '\\', i, |p|);
    if i < |p| {
      if p[i] != '\\' {
        BackslashEnds(p, i + 1);
      } else if i + 1 < |p| {
        RunPair(p, '\\', i);
        BackslashEnds(p, i + 2);
      } else {
        assert Run(p, '\\', i + 1, |p|) == 0;
      }
    }
  }

  /** Without classes it is the number of backslashes at the end that decides. */
  lemma OddBackslashes(p: string)
    requires Modest(p) && forall k :: 0 <= k < |p| ==> p[k] != '['
    ensures CompileOf(p) == PastEnd <==> Run(p, '\\', Start(p).sp, |p|) % 2 == 1
    ensures CompileOf(p) == PastEnd || CompileOf(p).Code?
  {
    hide CompileOf, Ends, Run;
    TextTells(p);
    BackslashEnds(p, Start(p).sp);
  }

  // ----- instances

  /** A class that is not closed: the number of dashes at its end decides. */
  lemma OpenClass(p: string)
    requires IsPattern(p) && |p| >= 2 && p[0] == '[' && p[1] != '^'
    requires forall i :: 0 <= i < |p| ==> p[i] as int < 128 && (i >= 2 ==> p[i] != ']')
    ensures CompileOf(p) == if Run(p, '-', 2, |p|) % 2 == 1 then PastEnd else Error
  {
    hide ClassFrom, Run, Close, Size;
    SizeNone();
    ClassScan(p, 1);
    assert Close(p, 2) == |p| && !StrayFrom(p, 1, |p|, 1);
  }

  lemma OneBackslash()
    ensures CompileOf("\\") == PastEnd
  {
    var p := "\\";
    OddBackslashes(p);
    RunShort(p, '\\', 0, 1);
    RunEnd(p, '\\');
  }

  lemma TwoBackslashes()
    ensures CompileOf("\\\\").Code?
  {
    hide ClassFrom, Size;
    var p := "\\\\";
    var s := Start(p);
    SizeNone();
    SizeSnoc([], Item(Chr('\\' as int), false));
    assert Comp(p, false, Literal(s, 2, '\\', 0)).Code?;
    assert Comp(p, false, s) == Comp(p, false, Literal(s, 2, '\\', 0));
  }

  /** A range that ends in a char of eight bits has just its first char. */
  lemma ShortRange()
    ensures CompileOf("[a-\U{80}]") == Code(false, [Item(Class({'a' as int}), false)])
  {
    hide Size, Comp;
    var p, s := "[a-\U{80}]", {'a' as int};
    assert ClassNext(p, 4, 2, s) == Got(s, 5);
    assert s + Range('a' as int, -128) == s;
    assert ClassFrom(p, 3, '-', 2, s) == ClassNext(p, 4, 2, s);
    assert {} + {'a' as int} == s;
    assert ClassFrom(p, 2, 'a', 2, {}) == ClassNext(p, 2, 2, s) == Got(s, 5);
    ClassAlone(p, s);
  }

  lemma ClassAlone(p: string, members: set<int>)
    requires |p| > 2 && p[0] == '[' && p[1] != '^' && ClassFrom(p, 2, p[1], 2, {}) == Got(members, |p|)
    ensures CompileOf(p) == Code(false, [Item(Class(members), false)])
  {
    hide ClassFrom, Size;
    SizeNone();
    SizeSnoc([], Item(Class(members), false));
    var s := Start(p);
    assert [] + [Item(Class(members), false)] == [Item(Class(members), false)];
    assert Comp(p, false, Append(s, |p|, Class(members))) == Code(false, [Item(Class(members), false)]);
  }

  /** A class with a stray bit, at the start of the pattern. */
  lemma StrayAlone(p: string, k: int)
    requires IsPattern(p) && |p| > 2 && p[0] == '[' && p[1] != '^' && StrayAt(p, 1, Close(p, 2), k)
    ensures CompileOf(p) == StrayBit
  {
    hide ClassFrom, Run, Close, Size, StrayAt;
    SizeNone();
    ClassScan(p, 1);
    assert 1 <= k by { StrayPlace(p, k); }
    assert StrayFrom(p, 1, Close(p, 2), 1);
  }

  lemma StrayPlace(p: string, k: int)
    requires |p| > 2 && StrayAt(p, 1, Close(p, 2), k)
    ensures 1 <= k
  {
  }

  /** One backslash and two; a range without an end, and one that a dash ends; a char of eight bits
      as the end of a range, as a member, and at the start of a range. */
  lemma Instances()
    ensures CompileOf("\\") == PastEnd && CompileOf("\\\\").Code?
    ensures CompileOf("[a-") == PastEnd && CompileOf("[a--") == Error
    ensures CompileOf("[a-\U{80}]") == Code(false, [Item(Class({'a' as int}), false)])
    ensures CompileOf("[\U{80}]") == StrayBit && CompileOf("[a-\U{80}-z]") == StrayBit
  {
    hide CompileOf;
    OneBackslash();
    TwoBackslashes();
    OpenClass("[a-");
    assert Run("[a-", '-', 2, 3) == 1;
    OpenClass("[a--");
    assert Run("[a--", '-', 2, 4) == 2;
    ShortRange();
    var p, q := "[\U{80}]", "[a-\U{80}-z]";
    assert Close(p, 2) == 2 && Close(q, 2) == 6;
    StrayAlone(p, 1);
    StrayAlone(q, 3);
  }
}
