/** How grep.c's patterns are written: a pattern written out from its syntax compiles to what the
    syntax means. */
module GrepSyntax {
  import opened GrepMatch
  import opened GrepCompile

  // ----- classes

  /** A member of a bracketed class: a char, or a range from the char written before to another. */
  datatype Member = One(c: int) | To(c: int)

  function Spell(ms: seq<Member>): string
    requires forall i :: 0 <= i < |ms| ==> 0 < ms[i].c < 256
  {
    if ms == [] then ""
    else (if ms[0].One? then [ms[0].c as char] else ['-', ms[0].c as char]) + Spell(ms[1..])
  }

  /** Members after the first: a right bracket would close the class, and a dash stands for itself
      only before that. A char of eight bits can only end a range, and not begin another. */
  predicate Later(ms: seq<Member>) {
    (forall i :: 0 <= i < |ms| ==> 0 < ms[i].c < 256) && (forall i :: 0 <= i < |ms| ==> Placed(ms, i))
  }

  predicate Placed(ms: seq<Member>, i: int)
    requires 0 <= i < |ms|
  {
    && ms[i].c != ']' as int
    && (ms[i].One? && ms[i].c == '-' as int ==> i == |ms| - 1)
    && (ms[i].c >= 128 ==> ms[i].To? && (i + 1 < |ms| ==> ms[i + 1].One?))
  }

  lemma LaterRest(ms: seq<Member>)
    requires Later(ms) && ms != []
    ensures Later(ms[1..]) && Placed(ms, 0)
  {
    var rest := ms[1..];
    forall i | 0 <= i < |rest|
      ensures Placed(rest, i)
    {
      assert Placed(ms, i + 1);
    }
  }

  /** The first member is a char, any but a circumflex, which would negate the class. */
  predicate Body(neg: bool, ms: seq<Member>) {
    ms != [] && ms[0].One? && 0 < ms[0].c < 128 && (neg || ms[0].c != '^' as int) && Later(ms[1..])
  }

  /** The chars that members stand for, c being the char before them. A range that ends in a char
      of eight bits, which is below all others, has just its first char. */
  function Union(ms: seq<Member>, c: int): set<int> {
    if ms == [] then {}
    else (if ms[0].One? then {ms[0].c} else Range(c, Value(ms[0].c))) + Union(ms[1..], ms[0].c)
  }

  lemma SpellStep(p: string, sp: int, ms: seq<Member>, tail: string)
    requires 0 <= sp <= |p| && ms != [] && Later(ms) && Later(ms[1..]) && p[sp..] == Spell(ms) + tail
    ensures ms[0].One? ==> sp < |p| && p[sp] == ms[0].c as char && p[sp + 1..] == Spell(ms[1..]) + tail
    ensures ms[0].To? ==>
              sp + 1 < |p| && p[sp] == '-' && p[sp + 1] == ms[0].c as char && p[sp + 2..] == Spell(ms[1..]) + tail
  {
    var t := p[sp..];
    var here := if ms[0].One? then [ms[0].c as char] else ['-', ms[0].c as char];
    assert t == here + (Spell(ms[1..]) + tail);
    assert forall i :: 0 <= i < |here| ==> t[i] == p[sp + i] == here[i];
    assert t[|here|..] == p[sp + |here|..];
  }

  /** The members after place sp of a class are read as what they stand for. */
  lemma {:induction false} MembersRead(p: string, sp: int, cstart: int, s: set<int>, ms: seq<Member>, tail: string)
    requires 2 <= cstart <= sp <= |p| && Later(ms) && p[sp..] == Spell(ms) + "]" + tail
    requires 0 < p[sp - 1] as int < 256 && (p[sp - 1] as int >= 128 && ms != [] ==> ms[0].One?)
    ensures sp + |Spell(ms)| < |p|
    ensures ClassNext(p, sp, cstart, s) == Got(s + Union(ms, p[sp - 1] as int), sp + |Spell(ms)| + 1)
    decreases |ms|
  {
    hide Range;
    assert |p[sp..]| == |p| - sp;
    if ms == [] {
      assert p[sp..][0] == ']';
      assert s + {} == s;
    } else {
      assert Spell(ms) + "]" + tail == Spell(ms) + ("]" + tail);
      LaterRest(ms);
      SpellStep(p, sp, ms, "]" + tail);
      var rest := ms[1..];
      assert Spell(rest) + ("]" + tail) == Spell(rest) + "]" + tail;
      if ms[0].One? {
        if ms[0].c == '-' as int {
          assert rest == [];
          assert p[sp + 1..][0] == ']';
        }
        MembersRead(p, sp + 1, cstart, s + {ms[0].c}, rest, tail);
        assert s + {ms[0].c} + Union(rest, ms[0].c) == s + Union(ms, p[sp - 1] as int);
      } else {
        var range := Range(p[sp - 1] as int, Value(ms[0].c));
        MembersRead(p, sp + 2, cstart, s + range, rest, tail);
        assert s + range + Union(rest, ms[0].c) == s + Union(ms, p[sp - 1] as int);
      }
    }
  }

  /** The chars of a class. */
  function Chars(ms: seq<Member>): set<int> {
    Union(ms, 0)
  }

  function ShowClass(neg: bool, ms: seq<Member>): string
    requires Body(neg, ms)
  {
    "[" + (if neg then "^" else "") + [ms[0].c as char] + Spell(ms[1..]) + "]"
  }

  /** A class is read as its members, or with a circumflex as all the other chars. */
  lemma ClassRead(p: string, circf: bool, s: State, neg: bool, ms: seq<Member>, tail: string)
    requires StateOk(p, s) && Size(s.items) + 17 < 256 && Body(neg, ms) && Reads(p, s.sp, ShowClass(neg, ms), tail)
    ensures s.sp + |ShowClass(neg, ms)| <= |p|
    ensures Comp(p, circf, s) == Comp(p, circf, Append(s, s.sp + |ShowClass(neg, ms)|, Class(Negated(neg, Chars(ms)))))
  {
    hide Size, Negated, Range;
    var caret := if neg then "^" else "";
    var from := s.sp + 1 + |caret|;
    var first, rest := ms[0].c as char, Spell(ms[1..]);
    var lead := "[" + caret + [first];
    assert ShowClass(neg, ms) == lead + (rest + "]");
    ReadsOn(p, s.sp, lead, rest + "]", tail);
    assert lead[0] == '[' && lead[|lead| - 1] == first && (neg ==> lead[1] == '^');
    assert p[s.sp] == '[' && p[from] == first && (neg ==> p[s.sp + 1] == '^');
    assert p[from + 1..] == rest + "]" + tail;
    MembersRead(p, from + 1, from + 1, {ms[0].c}, ms[1..], tail);
    assert {} + {ms[0].c} == {ms[0].c};
    assert Chars(ms) == {ms[0].c} + Union(ms[1..], ms[0].c);
    assert ClassFrom(p, from + 1, first, from + 1, {}) == ClassNext(p, from + 1, from + 1, {ms[0].c});
    ClassComp(p, circf, s, neg, from, Chars(ms), s.sp + |ShowClass(neg, ms)|);
  }

  lemma ClassComp(p: string, circf: bool, s: State, neg: bool, from: int, members: set<int>, sp: int)
    requires StateOk(p, s) && Size(s.items) + 17 < 256 && s.sp + 1 < |p|
    requires p[s.sp] == '[' && neg == (p[s.sp + 1] == '^')
    requires from == (if neg then s.sp + 2 else s.sp + 1) && from < |p| && sp <= |p|
    requires ClassFrom(p, from + 1, p[from], from + 1, {}) == Got(members, sp)
    ensures Comp(p, circf, s) == Comp(p, circf, Append(s, sp, Class(Negated(neg, members))))
  {
    hide Size, ClassFrom, Negated;
  }

  // ----- the other elements

  /** How an element is written; a char as itself. */
  function ShowElem(e: Elem): string
    requires e.Chr? ==> 0 < e.c < 256
  {
    match e
    case Chr(c) => [c as char]
    case Dot => "."
    case Dol => "$"
    case Bra(_) => "\\("
    case Ket(_) => "\\)"
    case Class(_) => ""
  }

  /** A piece of a pattern: an element, a char after a backslash, or a class with its spelling; each
      may be starred. */
  datatype Node = Plain(item: Item) | Escaped(c: int, star: bool) | Bracket(neg: bool, ms: seq<Member>, star: bool)

  function ItemOf(x: Node): Item {
    match x
    case Plain(item) => item
    case Escaped(c, star) => Item(Chr(c), star)
    case Bracket(neg, ms, star) => Item(Class(Negated(neg, Chars(ms))), star)
  }

  function Items(nodes: seq<Node>): (r: seq<Item>)
    ensures |r| == |nodes|
  {
    if nodes == [] then [] else [ItemOf(nodes[0])] + Items(nodes[1..])
  }

  /** The node is the char c, written as itself. */
  predicate Bare(x: Node, c: char) {
    x.Plain? && x.item.e == Chr(c as int)
  }

  /** A dot, a left bracket and a backslash never stand for themselves, and a star that does cannot be
      starred. After a backslash parentheses and digits have meanings of their own. */
  predicate NodeOk(x: Node) {
    match x
    case Plain(item) =>
      && ItemOk(item) && !item.e.Class?
      && (item.e.Chr? ==> 0 < item.e.c < 256 && !Bare(x, '.') && !Bare(x, '[') && !Bare(x, '\\'))
      && (Bare(x, '*') ==> !item.star)
    case Escaped(c, star) => 0 < c < 256 && !Marked(c as char)
    case Bracket(neg, ms, star) => Body(neg, ms)
  }

  /** Whether a star after the node would stand for itself, when one before it did or did not. */
  predicate LitAfter(x: Node, lit: bool) {
    x.Plain? && (x.item.e.Bra? || x.item.e.Ket? || (lit && Bare(x, '*')))
  }

  /** What a pattern can be: the end of the line is asked for only at the end, and brackets are
      numbered as they open. A star stands for itself where there is nothing it could repeat (lit),
      and a dollar if it is not the last char. */
  ghost predicate Writable(nodes: seq<Node>, numbra: int, open: seq<int>, lit: bool)
    decreases |nodes|
  {
    nodes == [] ||
    var x, rest := nodes[0], nodes[1..];
    && NodeOk(x) && (Bare(x, '*') ==> lit) && (Bare(x, '$') ==> rest != [] || x.item.star)
    && if x.Plain? && x.item.e.Dol? then rest == []
       else if x.Plain? && x.item.e.Bra? then
         x.item.e.n == numbra < 9 && Writable(rest, numbra + 1, open + [numbra], true)
       else if x.Plain? && x.item.e.Ket? then
         open != [] && x.item.e.n == open[|open| - 1] && Writable(rest, numbra, open[..|open| - 1], true)
       else Writable(rest, numbra, open, LitAfter(x, lit))
  }

  /** A node without its star. */
  function ShowBare(x: Node): string
    requires NodeOk(x)
  {
    match x
    case Plain(item) => ShowElem(item.e)
    case Escaped(c, _) => ['\\', c as char]
    case Bracket(neg, ms, _) => ShowClass(neg, ms)
  }

  function Starred(x: Node): bool {
    ItemOf(x).star
  }

  function ShowNode(x: Node): string
    requires NodeOk(x)
  {
    ShowBare(x) + (if Starred(x) then "*" else "")
  }

  ghost function Show(nodes: seq<Node>, numbra: int, open: seq<int>, lit: bool): string
    requires Writable(nodes, numbra, open, lit)
    decreases |nodes|, 1
  {
    if nodes == [] then "" else ShowNode(nodes[0]) + TailOf(nodes, numbra, open, lit)
  }

  /** What is written after the first node. */
  ghost function TailOf(nodes: seq<Node>, numbra: int, open: seq<int>, lit: bool): string
    requires nodes != [] && Writable(nodes, numbra, open, lit)
    decreases |nodes|, 0
  {
    var x, rest := nodes[0], nodes[1..];
    if x.Plain? && x.item.e.Dol? then ""
    else if x.Plain? && x.item.e.Bra? then Show(rest, numbra + 1, open + [numbra], true)
    else if x.Plain? && x.item.e.Ket? then Show(rest, numbra, open[..|open| - 1], true)
    else Show(rest, numbra, open, LitAfter(x, lit))
  }

  lemma {:induction false} SizeGrows(a: seq<Item>, b: seq<Item>)
    ensures Size(a) <= Size(a + b)
    decreases |b|
  {
    if b != [] {
      var init := b[..|b| - 1];
      SizeGrows(a, init);
      assert (a + b)[..|a + b| - 1] == a + init;
    } else {
      assert a + b == a;
    }
  }

  /** The pattern has text at sp, and tail is what comes after it. */
  ghost predicate Reads(p: string, sp: int, text: string, tail: string) {
    0 <= sp && sp + |text| <= |p| && p[sp..] == text + tail
  }

  lemma ReadsOn(p: string, sp: int, a: string, b: string, tail: string)
    requires Reads(p, sp, a + b, tail)
    ensures Reads(p, sp + |a|, b, tail) && Reads(p, sp, a, b + tail)
    ensures forall i :: 0 <= i < |a| ==> p[sp + i] == a[i]
  {
    assert a + b + tail == a + (b + tail);
    assert p[sp..][|a|..] == p[sp + |a|..];
    forall i | 0 <= i < |a|
      ensures p[sp + i] == a[i]
    {
      assert p[sp..][i] == (a + (b + tail))[i];
    }
  }

  lemma ReadsChars(p: string, sp: int, a: string, tail: string)
    requires Reads(p, sp, a, tail)
    ensures Reads(p, sp + |a|, "", tail) && |p| == sp + |a| + |tail|
    ensures forall i :: 0 <= i < |a| ==> p[sp + i] == a[i]
  {
    assert a + "" == a;
    ReadsOn(p, sp, a, "", tail);
    assert |p[sp..]| == |p| - sp;
  }

  /** A star after an item that fits one char. */
  lemma StarRead(p: string, circf: bool, s: State)
    requires StateOk(p, s) && s.sp < |p| && p[s.sp] == '*' && Size(s.items) < 256
    requires s.last == |s.items| - 1 >= 0 && !s.items[s.last].e.Bra? && !s.items[s.last].e.Ket?
    ensures Comp(p, circf, s) ==
            Comp(p, circf, s.(sp := s.sp + 1, items := s.items[s.last := s.items[s.last].(star := true)]))
  {
    hide Size, ClassFrom, Negated;
  }

  lemma SignRead(p: string, circf: bool, s: State, e: Elem)
    requires StateOk(p, s) && Size(s.items) < 256 && (e.Dot? || e.Dol?) && s.sp < |p|
    requires p[s.sp] == (if e.Dot? then '.' else '$') && (e.Dol? ==> s.sp + 1 == |p|)
    ensures Comp(p, circf, s) == Comp(p, circf, Append(s, s.sp + 1, e))
  {
    hide Size, ClassFrom, Negated;
  }

  lemma BracketRead(p: string, circf: bool, s: State, e: Elem)
    requires StateOk(p, s) && Size(s.items) < 256 && (e.Bra? || e.Ket?) && s.sp + 1 < |p|
    requires p[s.sp] == '\\' && p[s.sp + 1] == if e.Bra? then '(' else ')'
    requires (e.Bra? ==> e.n == s.numbra < 9) && (e.Ket? ==> s.open != [] && e.n == s.open[|s.open| - 1])
    ensures var t := Append(s, s.sp + 2, e);
      Comp(p, circf, s) == Comp(p, circf,
        if e.Bra? then t.(numbra := s.numbra + 1, open := s.open + [e.n])
        else t.(open := s.open[..|s.open| - 1], closed := s.closed + 1))
  {
    hide Size, ClassFrom, Negated;
  }

  /** A char that stands for itself. */
  lemma BareRead(p: string, circf: bool, s: State, c: char)
    requires StateOk(p, s) && Size(s.items) < 256 && s.sp < |p| && p[s.sp] == c && c != '\0'
    requires c != '.' && c != '[' && c != '\\' && (c == '*' ==> PlainStar(s)) && (c == '$' ==> At(p, s.sp + 1) != '\0')
    ensures Comp(p, circf, s) == Comp(p, circf, Literal(s, s.sp + 1, c, if c == '*' then s.last else |s.items|))
  {
    hide Size, ClassFrom, Negated;
  }

  /** A char after a backslash. */
  lemma EscapeRead(p: string, circf: bool, s: State, c: char)
    requires StateOk(p, s) && Size(s.items) < 256 && s.sp + 1 < |p| && p[s.sp] == '\\' && p[s.sp + 1] == c
    requires c != '\0' && !Marked(c)
    ensures Comp(p, circf, s) == Comp(p, circf, Literal(s, s.sp + 2, c, |s.items|))
  {
    hide Size, ClassFrom, Negated;
  }

  /** The state after a node without its star has been read. */
  ghost function After(s: State, x: Node): State
    requires NodeOk(x) && (x.Plain? && x.item.e.Ket? ==> s.open != [])
  {
    var t := Append(s, s.sp + |ShowBare(x)|, ItemOf(x).e);
    if x.Plain? && x.item.e.Bra? then t.(numbra := s.numbra + 1, open := s.open + [s.numbra])
    else if x.Plain? && x.item.e.Ket? then t.(open := s.open[..|s.open| - 1], closed := s.closed + 1)
    else if Bare(x, '*') then t.(last := s.last)
    else t
  }

  lemma NodeRead(p: string, circf: bool, s: State, x: Node, tail: string)
    requires StateOk(p, s) && NodeOk(x) && Size(s.items) < 256 && (x.Bracket? ==> Size(s.items) + 17 < 256)
    requires Reads(p, s.sp, ShowBare(x), tail) && (forall i :: 0 <= i < |p| ==> p[i] != '\0')
    requires x.Plain? && x.item.e.Dol? ==> tail == ""
    requires (Bare(x, '*') ==> PlainStar(s)) && (Bare(x, '$') ==> tail != "")
    requires x.Plain? && x.item.e.Bra? ==> x.item.e.n == s.numbra < 9
    requires x.Plain? && x.item.e.Ket? ==> s.open != [] && x.item.e.n == s.open[|s.open| - 1]
    ensures StateOk(p, After(s, x)) && Comp(p, circf, s) == Comp(p, circf, After(s, x))
  {
    hide Size, Comp, ShowClass, Negated, Chars, Body, ItemOk;
    ReadsChars(p, s.sp, ShowBare(x), tail);
    match x {
      case Plain(item) =>
        if item.e.Chr? {
          BareRead(p, circf, s, item.e.c as char);
        } else if item.e.Bra? || item.e.Ket? {
          BracketRead(p, circf, s, item.e);
        } else {
          SignRead(p, circf, s, item.e);
        }
      case Escaped(c, _) =>
        EscapeRead(p, circf, s, c as char);
      case Bracket(neg, ms, _) =>
        ClassRead(p, circf, s, neg, ms, tail);
    }
  }

  /** What is written out from its syntax compiles to what the syntax means, unless it is too long
      for the buffer. */
  lemma {:induction false} RoundTrip(p: string, circf: bool, s: State, nodes: seq<Node>, lit: bool)
    requires StateOk(p, s) && Writable(nodes, s.numbra, s.open, lit) && (lit ==> PlainStar(s))
    requires p[s.sp..] == Show(nodes, s.numbra, s.open, lit) && forall i :: 0 <= i < |p| ==> p[i] != '\0'
    ensures Comp(p, circf, s) ==
            if Size(s.items + Items(nodes)) < 256 then Code(circf, s.items + Items(nodes)) else Error
    decreases |nodes|
  {
    hide Comp, Size, ShowBare, NodeOk, ItemOf;
    SizeGrows(s.items, Items(nodes));
    if Size(s.items) >= 256 {
      FullBuffer(p, circf, s);
    } else if nodes == [] {
      EndRead(p, circf, s);
      assert s.items + Items(nodes) == s.items;
    } else {
      var x, rest := nodes[0], nodes[1..];
      var item := ItemOf(x);
      assert s.items + Items(nodes) == (s.items + [item]) + Items(rest);
      SizeGrows(s.items + [item], Items(rest));
      var more := TailOf(nodes, s.numbra, s.open, lit);
      NodeFacts(x);
      ReadsNode(p, s.sp, x, more);
      SizeSnoc(s.items, item);
      var star := if Starred(x) then "*" else "";
      DollarTail(nodes, s.numbra, s.open, lit);
      if x.Bracket? && Size(s.items) + 17 >= 256 {
        ClassFull(p, circf, s, x, star + more);
      } else {
        NodeRead(p, circf, s, x, star + more);
        var t := After(s, x);
        ReadsStar(p, t, x, more);
        SizeSnoc(s.items, Item(item.e, false));
        if Starred(x) {
          StarStep(p, circf, s, t, item);
          t := t.(sp := t.sp + 1, items := t.items[t.last := t.items[t.last].(star := true)]);
        }
        assert t.items == s.items + [item];
        if x.Plain? && x.item.e.Dol? {
          assert Items(rest) == [] && (s.items + [item]) + [] == s.items + [item];
          LastRead(p, circf, t);
        } else {
          RoundTrip(p, circf, t, rest, LitAfter(x, lit));
        }
      }
    }
  }

  lemma FullBuffer(p: string, circf: bool, s: State)
    requires StateOk(p, s) && Size(s.items) >= 256
    ensures Comp(p, circf, s) == Error
  {
  }

  /** A star is read, or the buffer is already full. */
  lemma StarStep(p: string, circf: bool, s: State, t: State, item: Item)
    requires StateOk(p, t) && t.items == s.items + [Item(item.e, false)] && t.last == |s.items| && item.star
    requires t.sp < |p| && p[t.sp] == '*' && !item.e.Bra? && !item.e.Ket?
    ensures var t' := t.(sp := t.sp + 1, items := t.items[t.last := t.items[t.last].(star := true)]);
      t'.items == s.items + [item] && StateOk(p, t') && Comp(p, circf, t) == Comp(p, circf, t')
  {
    hide Comp, Size;
    var t' := t.(sp := t.sp + 1, items := t.items[t.last := t.items[t.last].(star := true)]);
    assert t'.items == s.items + [item];
    SizeSnoc(s.items, item);
    SizeSnoc(s.items, Item(item.e, false));
    if Size(t.items) >= 256 {
      FullBuffer(p, circf, t);
      FullBuffer(p, circf, t');
    } else {
      StarRead(p, circf, t);
    }
  }

  /** A class that the buffer has no room for. */
  lemma ClassFull(p: string, circf: bool, s: State, x: Node, tail: string)
    requires StateOk(p, s) && Size(s.items) < 256 && NodeOk(x) && x.Bracket? && Size(s.items) + 17 >= 256
    requires Reads(p, s.sp, ShowBare(x), tail)
    ensures Comp(p, circf, s) == Error && Size(s.items + [ItemOf(x)]) >= 256
  {
    hide Size, ClassFrom, Negated, Chars;
    ReadsChars(p, s.sp, ShowBare(x), tail);
    assert ShowBare(x)[0] == '[';
    SizeSnoc(s.items, ItemOf(x));
  }

  /** A dollar that stands for itself is followed by something. */
  lemma DollarTail(nodes: seq<Node>, numbra: int, open: seq<int>, lit: bool)
    requires nodes != [] && Writable(nodes, numbra, open, lit)
    ensures var x := nodes[0];
      Bare(x, '$') ==> (if Starred(x) then "*" else "") + TailOf(nodes, numbra, open, lit) != ""
    ensures nodes[0].Plain? && nodes[0].item.e.Dol? ==> TailOf(nodes, numbra, open, lit) == ""
  {
    var x := nodes[0];
    if Bare(x, '$') && !Starred(x) {
      ShowSome(nodes[1..], numbra, open, LitAfter(x, lit));
    }
  }

  lemma ShowSome(nodes: seq<Node>, numbra: int, open: seq<int>, lit: bool)
    requires nodes != [] && Writable(nodes, numbra, open, lit)
    ensures Show(nodes, numbra, open, lit) != ""
  {
    assert |ShowBare(nodes[0])| > 0;
  }

  lemma NodeFacts(x: Node)
    requires NodeOk(x)
    ensures ItemOf(x).star == Starred(x)
    ensures Starred(x) ==> !ItemOf(x).e.Bra? && !ItemOf(x).e.Ket? && !ItemOf(x).e.Dol? && !Bare(x, '*')
    ensures x.Plain? ==> ItemOf(x) == x.item
    ensures x.Bracket? ==> ItemOf(x).e.Class?
  {
  }

  lemma ReadsNode(p: string, sp: int, x: Node, more: string)
    requires 0 <= sp <= |p| && NodeOk(x) && p[sp..] == ShowNode(x) + more
    ensures Reads(p, sp, ShowBare(x), (if Starred(x) then "*" else "") + more)
  {
    hide ShowBare, NodeOk;
    var star := if Starred(x) then "*" else "";
    assert ShowNode(x) + more == ShowBare(x) + (star + more);
    assert |p[sp..]| == |p| - sp;
  }

  lemma ReadsStar(p: string, t: State, x: Node, more: string)
    requires NodeOk(x) && t.sp >= |ShowBare(x)|
    requires Reads(p, t.sp - |ShowBare(x)|, ShowBare(x), (if Starred(x) then "*" else "") + more)
    ensures t.sp <= |p| && (Starred(x) ==> t.sp < |p| && p[t.sp] == '*' && p[t.sp + 1..] == more)
    ensures !Starred(x) ==> p[t.sp..] == more
  {
    hide ShowBare, NodeOk;
    var text, tail := ShowBare(x), (if Starred(x) then "*" else "") + more;
    ReadsChars(p, t.sp - |text|, text, tail);
    assert p[t.sp..] == tail;
    if Starred(x) {
      assert p[t.sp..][0] == '*';
      assert p[t.sp..][1..] == p[t.sp + 1..];
    }
  }

  lemma EndRead(p: string, circf: bool, s: State)
    requires StateOk(p, s) && p[s.sp..] == "" && Size(s.items) < 256
    ensures Comp(p, circf, s) == Code(circf, s.items)
  {
    assert |p[s.sp..]| == |p| - s.sp;
  }

  lemma LastRead(p: string, circf: bool, s: State)
    requires StateOk(p, s) && p[s.sp..] == ""
    ensures Comp(p, circf, s) == if Size(s.items) < 256 then Code(circf, s.items) else Error
  {
    assert |p[s.sp..]| == |p| - s.sp;
  }

  ghost predicate NoZero(t: string) {
    forall i :: 0 <= i < |t| ==> t[i] != '\0'
  }

  lemma NoZeroBoth(a: string, b: string)
    requires NoZero(a) && NoZero(b)
    ensures NoZero(a + b)
  {
  }

  /** No char of what is written is 0. */
  lemma {:induction false} ShowHasNoZero(nodes: seq<Node>, numbra: int, open: seq<int>, lit: bool)
    requires Writable(nodes, numbra, open, lit)
    ensures NoZero(Show(nodes, numbra, open, lit))
    decreases |nodes|
  {
    hide NodeOk, ShowNode;
    if nodes != [] {
      var x, rest := nodes[0], nodes[1..];
      NodeHasNoZero(x);
      if x.Plain? && x.item.e.Dol? {
      } else if x.Plain? && x.item.e.Bra? {
        ShowHasNoZero(rest, numbra + 1, open + [numbra], true);
      } else if x.Plain? && x.item.e.Ket? {
        ShowHasNoZero(rest, numbra, open[..|open| - 1], true);
      } else {
        ShowHasNoZero(rest, numbra, open, LitAfter(x, lit));
      }
      NoZeroBoth(ShowNode(x), TailOf(nodes, numbra, open, lit));
    }
  }

  lemma NodeHasNoZero(x: Node)
    requires NodeOk(x)
    ensures NoZero(ShowNode(x))
  {
    if x.Bracket? {
      SpellHasNoZero(x.ms[1..]);
    }
  }

  lemma {:induction false} SpellHasNoZero(ms: seq<Member>)
    requires forall i :: 0 <= i < |ms| ==> 0 < ms[i].c < 256
    ensures forall i :: 0 <= i < |Spell(ms)| ==> Spell(ms)[i] != '\0'
    decreases |ms|
  {
    if ms != [] {
      SpellHasNoZero(ms[1..]);
    }
  }

  /** Every pattern, however its chars are written, compiles to what it means, for the start of the
      line or for any place in it, unless it takes 256 bytes or more. */
  lemma WrittenCompiles(nodes: seq<Node>)
    requires Writable(nodes, 0, [], true)
    ensures var q, items := Show(nodes, 0, [], true), Items(nodes);
      && CompileOf("^" + q) == (if Size(items) < 256 then Code(true, items) else Error)
      && (q == "" || q[0] != '^' ==> CompileOf(q) == if Size(items) < 256 then Code(false, items) else Error)
  {
    hide Comp, Size, Show, NodeOk;
    var q := Show(nodes, 0, [], true);
    var p := "^" + q;
    assert p[1..] == q && q[0..] == q;
    assert [] + Items(nodes) == Items(nodes);
    ShowHasNoZero(nodes, 0, [], true);
    RoundTrip(p, true, Start(p), nodes, true);
    if q == "" || q[0] != '^' {
      RoundTrip(q, false, Start(q), nodes, true);
    }
  }

  /** What the items take of the buffer: a dot one byte, a char two. */
  lemma Sizes(n: nat)
    ensures CompileOf(Same(".", n)).Code? <==> n < 256
    ensures CompileOf(Same("a", n)).Code? <==> 2 * n < 256
  {
    hide CompileOf;
    var dot, a := Plain(Item(Dot, false)), Plain(Item(Chr('a' as int), false));
    Repeated(dot, ".", n, true);
    Repeated(a, "a", n, true);
    RepeatedSize(dot, n, 1);
    RepeatedSize(a, n, 2);
    WrittenCompiles(Times(dot, n));
    WrittenCompiles(Times(a, n));
    assert Same(".", n) == "" || Same(".", n)[0] == '.';
    assert Same("a", n) == "" || Same("a", n)[0] == 'a';
  }

  function Same(t: string, n: nat): string {
    if n == 0 then "" else t + Same(t, n - 1)
  }

  function Times(x: Node, n: nat): (r: seq<Node>)
    ensures |r| == n
  {
    if n == 0 then [] else [x] + Times(x, n - 1)
  }

  /** A node that can be written anywhere, any number of times. */
  lemma {:induction false} Repeated(x: Node, t: string, n: nat, lit: bool)
    requires x.Plain? && (x.item == Item(Dot, false) || x.item == Item(Chr('a' as int), false))
    requires ShowElem(x.item.e) == t
    ensures Writable(Times(x, n), 0, [], lit) && Show(Times(x, n), 0, [], lit) == Same(t, n)
  {
    if n > 0 {
      Repeated(x, t, n - 1, false);
      var nodes := Times(x, n);
      assert nodes[0] == x && nodes[1..] == Times(x, n - 1);
      assert ShowNode(x) == t;
      assert TailOf(nodes, 0, [], lit) == Same(t, n - 1);
    }
  }

  lemma {:induction false} RepeatedSize(x: Node, n: nat, k: nat)
    requires SizeOf(ItemOf(x).e) == k
    ensures Size(Items(Times(x, n))) == n * k
  {
    hide Size, Items;
    if n == 0 {
      NoSize(x);
    } else {
      RepeatedSize(x, n - 1, k);
      ItemsSame(x, n - 1);
      SizeSnoc(Items(Times(x, n - 1)), ItemOf(x));
    }
  }

  lemma NoSize(x: Node)
    ensures Size(Items(Times(x, 0))) == 0
  {
  }

  lemma {:induction false} ItemsSame(x: Node, n: nat)
    ensures Items(Times(x, n + 1)) == Items(Times(x, n)) + [ItemOf(x)]
  {
    assert Times(x, n + 1)[1..] == Times(x, n);
    if n > 0 {
      ItemsSame(x, n - 1);
      assert Times(x, n)[1..] == Times(x, n - 1);
    }
  }

  /** Plain chars are members that stand for just themselves. */
  lemma {:induction false} ClassOfChars(cs: seq<int>, c: int)
    requires forall i :: 0 <= i < |cs| ==> 0 < cs[i] < 128 && cs[i] != ']' as int && cs[i] != '-' as int
    ensures Later(Ones(cs)) && forall x :: x in Union(Ones(cs), c) <==> x in cs
    decreases |cs|
  {
    if cs != [] {
      assert forall i :: 0 <= i < |cs[1..]| ==> cs[1..][i] == cs[i + 1];
      ClassOfChars(cs[1..], cs[0]);
      assert cs == [cs[0]] + cs[1..];
      assert Ones(cs) == [One(cs[0])] + Ones(cs[1..]);
      assert forall i :: 0 <= i < |Ones(cs)| ==> Ones(cs)[i] == One(cs[i]);
    }
  }

  function Ones(cs: seq<int>): (r: seq<Member>)
    ensures |r| == |cs| && forall i :: 0 <= i < |cs| ==> r[i] == One(cs[i])
  {
    if cs == [] then [] else [One(cs[0])] + Ones(cs[1..])
  }
}
