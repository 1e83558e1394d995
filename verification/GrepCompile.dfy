/** compile of grep.c: a pattern becomes a list of items. */
module GrepCompile {
  import opened GrepMatch

  /** What compile comes to. PastEnd is where it would read past the end of the pattern, StrayBit
      where it would set a bit outside a class; what the code does after that is not followed.
      Back-references are not followed further. */
  datatype Compiled = Code(circf: bool, items: seq<Item>) | Error | PastEnd | StrayBit | Backref

  /** A char of the pattern, or the 0 that ends it. */
  function At(p: string, sp: int): char
    requires 0 <= sp <= |p|
  {
    if sp < |p| then p[sp] else '\0'
  }

  ghost predicate IsPattern(p: string) {
    forall i :: 0 <= i < |p| ==> p[i] != '\0' && p[i] as int < 256
  }

  /** The bytes of the expression buffer that an item takes. */
  function Size(items: seq<Item>): nat {
    if items == [] then 0 else Size(items[..|items| - 1]) + SizeOf(items[|items| - 1].e)
  }

  function SizeOf(e: Elem): nat {
    match e
    case Dot => 1
    case Dol => 1
    case Class(_) => 17
    case _ => 2
  }

  lemma SizeSnoc(items: seq<Item>, x: Item)
    ensures Size(items + [x]) == Size(items) + SizeOf(x.e)
  {
    assert (items + [x])[..|items|] == items;
  }

  // ----- classes

  datatype Members = Got(s: set<int>, sp: int) | Bad | Past | Stray

  /** The value of a char: chars are signed. */
  function Value(c: int): int {
    if c < 128 then c else c - 256
  }

  /** The chars from lo to hi, or lo alone if hi is not above it. */
  function Range(lo: int, hi: int): set<int>
    decreases hi - lo
  {
    if lo < hi then {lo} + Range(lo + 1, hi) else {lo}
  }

  lemma {:induction false} RangeIs(lo: int, hi: int, x: int)
    ensures x in Range(lo, hi) <==> x == lo || lo <= x <= hi
    decreases hi - lo
  {
    if lo < hi {
      RangeIs(lo + 1, hi, x);
    }
  }

  /** The loop over the members of a class: c has been read, sp is after it. */
  function ClassFrom(p: string, sp: int, c: char, cstart: int, s: set<int>): (r: Members)
    requires 2 <= cstart <= sp <= |p| + 1 && (c != '\0' ==> sp <= |p|)
    ensures r.Got? ==> sp < r.sp <= |p|
    decreases |p| - sp
  {
    if c == '\0' then Bad
    else if c == '-' && sp > cstart && At(p, sp) != ']' then
      if Value(p[sp - 2] as int) < 0 then Stray
      else if sp == |p| then Past
      else ClassNext(p, sp + 1, cstart, s + Range(Value(p[sp - 2] as int), Value(p[sp] as int)))
    else if Value(c as int) < 0 then Stray
    else ClassNext(p, sp, cstart, s + {Value(c as int)})
  }

  function ClassNext(p: string, sp: int, cstart: int, s: set<int>): (r: Members)
    requires 2 <= cstart <= sp <= |p|
    ensures r.Got? ==> sp < r.sp <= |p|
    decreases |p| - sp, 1
  {
    if At(p, sp) == ']' then Got(s, sp + 1) else ClassFrom(p, sp + 1, At(p, sp), cstart, s)
  }

  /** The class bits are all turned around by a leading ^, but for that of the terminator. */
  function Negated(neg: bool, s: set<int>): set<int> {
    if neg then (set x | x in Range(1, 127) && x !in s) else s
  }

  // ----- the main loop

  /** Where the compilation is: the place in the pattern, the items so far, the item a star would
      apply to, and the brackets opened, still open and closed. */
  datatype State = State(sp: int, items: seq<Item>, last: int, numbra: int, open: seq<int>, closed: int)

  ghost predicate StateOk(p: string, s: State) {
    0 <= s.sp <= |p| && -1 <= s.last < |s.items|
  }

  function Literal(s: State, sp: int, c: char, last: int): State {
    s.(sp := sp, items := s.items + [Item(Chr(c as int), false)], last := last)
  }

  function Append(s: State, sp: int, e: Elem): State {
    s.(sp := sp, items := s.items + [Item(e, false)], last := |s.items|)
  }

  /** Whether a star stands for itself: at the start of the pattern and after brackets. */
  predicate PlainStar(s: State)
    requires -1 <= s.last < |s.items|
  {
    s.last == -1 || s.items[s.last].e.Bra? || s.items[s.last].e.Ket?
  }

  function Comp(p: string, circf: bool, s: State): Compiled
    requires StateOk(p, s)
    decreases |p| - s.sp
  {
    var c := At(p, s.sp);
    if Size(s.items) >= 256 then Error
    else if c == '\0' then Code(circf, s.items)
    else if c == '.' then Comp(p, circf, Append(s, s.sp + 1, Dot))
    else if c == '*' then
      if PlainStar(s) then Comp(p, circf, Literal(s, s.sp + 1, c, s.last))
      else Comp(p, circf, s.(sp := s.sp + 1, items := s.items[s.last := s.items[s.last].(star := true)]))
    else if c == '$' then
      if At(p, s.sp + 1) == '\0' then Comp(p, circf, Append(s, s.sp + 1, Dol))
      else Comp(p, circf, Literal(s, s.sp + 1, c, |s.items|))
    else if c == '[' then
      if Size(s.items) + 17 >= 256 then Error
      else
        var neg := At(p, s.sp + 1) == '^';
        var from := if neg then s.sp + 2 else s.sp + 1;
        match ClassFrom(p, from + 1, At(p, from), from + 1, {})
        case Got(members, sp) => Comp(p, circf, Append(s, sp, Class(Negated(neg, members))))
        case Bad => Error
        case Past => PastEnd
        case Stray => StrayBit
    else if c == '\\' then
      var d := At(p, s.sp + 1);
      if d == '\0' then PastEnd
      else if d == '(' then
        if s.numbra >= 9 then Error
        else Comp(p, circf, Append(s, s.sp + 2, Bra(s.numbra)).(numbra := s.numbra + 1, open := s.open + [s.numbra]))
      else if d == ')' then
        if s.open == [] then Error
        else Comp(p, circf, Append(s, s.sp + 2, Ket(s.open[|s.open| - 1])).(open := s.open[..|s.open| - 1],
                  closed := s.closed + 1))
      else if '1' <= d <= '9' then
        if d as int - '1' as int >= s.closed then Error else Backref
      else Comp(p, circf, Literal(s, s.sp + 2, d, |s.items|))
    else Comp(p, circf, Literal(s, s.sp + 1, c, |s.items|))
  }

  function Start(p: string): State {
    State(if p != "" && p[0] == '^' then 1 else 0, [], -1, 0, [], 0)
  }

  /** The chars that mean something after a backslash. */
  predicate Marked(c: char) {
    c == '(' || c == ')' || '1' <= c <= '9'
  }

  /** What a pattern compiles to. */
  function CompileOf(p: string): Compiled {
    Comp(p, p != "" && p[0] == '^', Start(p))
  }

  /** The class part of compile, from the char after the bracket on. */
  method CompileClass(p: string, start: int) returns (r: Members)
    requires 0 <= start < |p| && p[start] == '['
    ensures var neg := At(p, start + 1) == '^'; var from := if neg then start + 2 else start + 1;
      r == match ClassFrom(p, from + 1, At(p, from), from + 1, {})
        case Got(members, sp) => Got(Negated(neg, members), sp)
        case Bad => Bad
        case Past => Past
        case Stray => Stray
  {
    hide Range, Negated;
    var sp, neg := start + 1, false;
    var c := At(p, sp);
    sp := sp + 1;
    if c == '^' {
      neg := true;
      c := At(p, sp);
      sp := sp + 1;
    }
    var cstart, bits := sp, {};
    ghost var all := ClassFrom(p, sp, c, sp, {});
    while true
      invariant 2 <= cstart <= sp <= |p| + 1 && (c != '\0' ==> sp <= |p|)
      invariant ClassFrom(p, sp, c, cstart, bits) == all
      decreases |p| + 1 - sp
    {
      if c == '\0' {
        return Bad;
      }
      if c == '-' && sp > cstart && At(p, sp) != ']' {
        if Value(p[sp - 2] as int) < 0 {
          return Stray;
        }
        if sp == |p| {
          return Past;
        }
        bits := bits + Range(Value(p[sp - 2] as int), Value(p[sp] as int));
        sp := sp + 1;
      } else {
        if Value(c as int) < 0 {
          return Stray;
        }
        bits := bits + {Value(c as int)};
      }
      c := At(p, sp);
      sp := sp + 1;
      if c == ']' {
        break;
      }
    }
    return Got(Negated(neg, bits), sp);
  }

  method Compile(p: string) returns (r: Compiled)
    ensures r == CompileOf(p)
  {
    hide ClassFrom, Negated, Size;
    var sp, circf := 0, false;
    if At(p, sp) == '^' && |p| > 0 {
      circf := true;
      sp := sp + 1;
    }
    var items, lastep, numbra, open, closed := [], -1, 0, [], 0;
    while true
      invariant 0 <= sp <= |p| && -1 <= lastep < |items|
      invariant Comp(p, circf, State(sp, items, lastep, numbra, open, closed)) == CompileOf(p)
      decreases |p| - sp
    {
      if Size(items) >= 256 {
        return Error;
      }
      var c := At(p, sp);
      sp := sp + 1;
      if c != '*' {
        lastep := |items|;
      }
      if c == '\0' {
        return Code(circf, items);
      } else if c == '.' {
        items := items + [Item(Dot, false)];
      } else if c == '*' && !(lastep == -1 || items[lastep].e.Bra? || items[lastep].e.Ket?) {
        items := items[lastep := items[lastep].(star := true)];
      } else if c == '$' && At(p, sp) == '\0' {
        items := items + [Item(Dol, false)];
      } else if c == '[' {
        if Size(items) + 17 >= 256 {
          return Error;
        }
        var m := CompileClass(p, sp - 1);
        match m {
          case Got(bits, next) =>
            items := items + [Item(Class(bits), false)];
            sp := next;
          case Bad =>
            return Error;
          case Past =>
            return PastEnd;
          case Stray =>
            return StrayBit;
        }
      } else if c == '\\' {
        c := At(p, sp);
        if c == '\0' {
          return PastEnd;
        }
        sp := sp + 1;
        if c == '(' {
          if numbra >= 9 {
            return Error;
          }
          open := open + [numbra];
          items := items + [Item(Bra(numbra), false)];
          numbra := numbra + 1;
        } else if c == ')' {
          if open == [] {
            return Error;
          }
          items := items + [Item(Ket(open[|open| - 1]), false)];
          open := open[..|open| - 1];
          closed := closed + 1;
        } else if '1' <= c <= '9' {
          if c as int - '1' as int >= closed {
            return Error;
          }
          return Backref;
        } else {
          items := items + [Item(Chr(c as int), false)];
        }
      } else {
        items := items + [Item(Chr(c as int), false)];
      }
    }
  }

  // ----- what comes out

  lemma {:induction false} ClassWell(p: string, sp: int, c: char, cstart: int, s: set<int>)
    requires 2 <= cstart <= sp <= |p| + 1 && (c != '\0' ==> sp <= |p|) && IsPattern(p) && (c as int) < 256 && 0 !in s
    ensures var r := ClassFrom(p, sp, c, cstart, s); r.Got? ==> 0 !in r.s
    decreases |p| - sp
  {
    hide Range;
    if c == '\0' {
      return;
    }
    var s', next := s + {Value(c as int)}, sp;
    if c == '-' && sp > cstart && At(p, sp) != ']' {
      if sp == |p| || Value(p[sp - 2] as int) < 0 {
        return;
      }
      RangeIs(Value(p[sp - 2] as int), Value(p[sp] as int), 0);
      s', next := s + Range(Value(p[sp - 2] as int), Value(p[sp] as int)), sp + 1;
    } else if Value(c as int) < 0 {
      return;
    }
    if At(p, next) != ']' {
      ClassWell(p, next + 1, At(p, next), cstart, s');
    }
  }

  lemma NegatedWell(neg: bool, s: set<int>)
    requires 0 !in s
    ensures 0 !in Negated(neg, s)
  {
    RangeIs(1, 127, 0);
  }

  /** The item a star would apply to can be starred. */
  ghost predicate Starable(s: State) {
    WellFormed(s.items) && -1 <= s.last < |s.items|
    && (s.last == -1 || !s.items[s.last].e.Dol?)
  }

  /** What holds of the state on the way to a well-formed list of items. */
  ghost predicate Well(p: string, s: State) {
    StateOk(p, s) && WellFormed(s.items) && (s.sp < |p| ==> Starable(s))
  }

  lemma AppendWell(p: string, s: State, sp: int, e: Elem)
    requires Well(p, s) && sp <= |p| && s.sp < sp && ItemOk(Item(e, false)) && (e.Dol? ==> sp == |p|)
    ensures Well(p, Append(s, sp, e))
  {
  }

  lemma BracketsWell(p: string, s: State, numbra: int, open: seq<int>, closed: int)
    requires Well(p, s)
    ensures Well(p, s.(numbra := numbra, open := open, closed := closed))
  {
  }

  lemma LiteralWell(p: string, s: State, sp: int, c: char, last: int)
    requires Well(p, s) && s.sp < sp <= |p| && c != '\0' && (last == |s.items| || last == s.last)
    ensures Well(p, Literal(s, sp, c, last))
  {
  }

  lemma StarWell(p: string, s: State)
    requires Well(p, s) && s.sp < |p| && !PlainStar(s)
    ensures Well(p, s.(sp := s.sp + 1, items := s.items[s.last := s.items[s.last].(star := true)]))
  {
  }

  /** Whatever is compiled never fits the end of the line, so that advance stays within it. */
  lemma {:induction false} CompWell(p: string, circf: bool, s: State)
    requires IsPattern(p) && Well(p, s)
    ensures StateOk(p, s) && var r := Comp(p, circf, s); r.Code? ==> WellFormed(r.items)
    decreases |p| - s.sp
  {
    hide Size, ClassFrom, Negated, Range, WellFormed, Starable;
    var c := At(p, s.sp);
    if Size(s.items) >= 256 || c == '\0' {
    } else if c == '.' {
      AppendWell(p, s, s.sp + 1, Dot);
      CompWell(p, circf, Append(s, s.sp + 1, Dot));
    } else if c == '*' {
      if PlainStar(s) {
        LiteralWell(p, s, s.sp + 1, c, s.last);
        CompWell(p, circf, Literal(s, s.sp + 1, c, s.last));
      } else {
        StarWell(p, s);
        CompWell(p, circf, s.(sp := s.sp + 1, items := s.items[s.last := s.items[s.last].(star := true)]));
      }
    } else if c == '[' {
      var neg := At(p, s.sp + 1) == '^';
      var from := if neg then s.sp + 2 else s.sp + 1;
      ClassWell(p, from + 1, At(p, from), from + 1, {});
      match ClassFrom(p, from + 1, At(p, from), from + 1, {}) {
        case Got(members, sp) =>
          NegatedWell(neg, members);
          AppendWell(p, s, sp, Class(Negated(neg, members)));
          CompWell(p, circf, Append(s, sp, Class(Negated(neg, members))));
        case _ =>
      }
    } else if c == '\\' {
      EscapeWell(p, circf, s);
    } else if c == '$' && At(p, s.sp + 1) == '\0' {
      AppendWell(p, s, s.sp + 1, Dol);
      CompWell(p, circf, Append(s, s.sp + 1, Dol));
    } else {
      LiteralWell(p, s, s.sp + 1, c, |s.items|);
      CompWell(p, circf, Literal(s, s.sp + 1, c, |s.items|));
    }
  }

  lemma {:induction false} EscapeWell(p: string, circf: bool, s: State)
    requires IsPattern(p) && Well(p, s) && s.sp < |p| && p[s.sp] == '\\' && Size(s.items) < 256
    ensures var r := Comp(p, circf, s); r.Code? ==> WellFormed(r.items)
    decreases |p| - s.sp, 0
  {
    hide Size, ClassFrom, Negated, Range, WellFormed, Starable;
    var d := At(p, s.sp + 1);
    if d == '\0' || '1' <= d <= '9' {
    } else if d == '(' {
      if s.numbra < 9 {
        var t := Append(s, s.sp + 2, Bra(s.numbra));
        AppendWell(p, s, s.sp + 2, Bra(s.numbra));
        BracketsWell(p, t, s.numbra + 1, s.open + [s.numbra], t.closed);
        CompWell(p, circf, t.(numbra := s.numbra + 1, open := s.open + [s.numbra]));
      }
    } else if d == ')' {
      if s.open != [] {
        var t := Append(s, s.sp + 2, Ket(s.open[|s.open| - 1]));
        AppendWell(p, s, s.sp + 2, Ket(s.open[|s.open| - 1]));
        BracketsWell(p, t, t.numbra, s.open[..|s.open| - 1], s.closed + 1);
        CompWell(p, circf, t.(open := s.open[..|s.open| - 1], closed := s.closed + 1));
      }
    } else {
      LiteralWell(p, s, s.sp + 2, d, |s.items|);
      CompWell(p, circf, Literal(s, s.sp + 2, d, |s.items|));
    }
  }

  lemma CompileWell(p: string)
    requires IsPattern(p) && CompileOf(p).Code?
    ensures WellFormed(CompileOf(p).items)
  {
    hide Comp;
    CompWell(p, p != "" && p[0] == '^', Start(p));
  }

  /** A pattern is compiled and a line is tried: found says whether the pattern selects it. */
  method Grep(p: string, t: seq<int>) returns (r: Compiled, found: bool)
    requires IsPattern(p) && IsText(t)
    ensures r == CompileOf(p)
    ensures r.Code? ==> (found <==> Selected(r.circf, r.items, t))
  {
    hide Comp, Selected;
    found := false;
    r := Compile(p);
    if r.Code? {
      CompileWell(p);
      found := Scan(r.circf, r.items, t);
    }
  }
}
