/** The text of an editing script (diff -e) and how ed reads it back. */
module DiffStream {
  import opened DiffOutput

  /** A line of the script: the head of a command, or a line of text. */
  datatype ScriptLine = Head(kind: Kind, lo: int, hi: int) | Text(line: string)

  type Cmd = Command<string>

  /** A delete carries no text, an append or a replacement some. */
  predicate Proper(c: Cmd) {
    c.kind == Delete <==> c.text == []
  }

  function TextLines(text: seq<string>): (r: seq<ScriptLine>)
    ensures |r| == |text| && forall i :: 0 <= i < |text| ==> r[i] == Text(text[i])
  {
    seq(|text|, i requires 0 <= i < |text| => Text(text[i]))
  }

  /** What change prints for one command: its head, its text, and a line `.' after any text. */
  function Print(c: Cmd): seq<ScriptLine> {
    [Head(c.kind, c.lo, c.hi)] + TextLines(c.text) + if c.text == [] then [] else [Text(".")]
  }

  function PrintAll(cs: seq<Cmd>): seq<ScriptLine> {
    if cs == [] then [] else Print(cs[0]) + PrintAll(cs[1..])
  }

  /** The number of lines ed takes as text: up to a line `.'. */
  function TextLength(s: seq<ScriptLine>): (n: nat)
    ensures n <= |s|
    ensures forall i :: 0 <= i < n ==> s[i].Text? && s[i].line != "."
    ensures n < |s| ==> s[n].Head? || s[n].line == "."
  {
    if s == [] || s[0].Head? || s[0].line == "." then 0 else 1 + TextLength(s[1..])
  }

  /** The commands that ed finds in a script: after an append or replace command come text lines,
      ended by `.'. A line `.' in the place of a command only prints, and any other line of text
      there ends the reading. */
  function Read(s: seq<ScriptLine>): (cs: seq<Cmd>)
    decreases |s|
  {
    if s == [] then []
    else if s[0].Text? then if s[0].line == "." then Read(s[1..]) else []
    else if s[0].kind == Delete then [Command(Delete, s[0].lo, s[0].hi, [])] + Read(s[1..])
    else
      var n := TextLength(s[1..]);
      var text := seq(n, i requires 0 <= i < n => s[1..][i].line);
      var rest := if n < |s| - 1 then s[n + 2..] else [];
      [Command(s[0].kind, s[0].lo, s[0].hi, text)] + Read(rest)
  }

  lemma TextLengthUnique(s: seq<ScriptLine>, n: nat)
    requires n < |s| && s[n] == Text(".")
    requires forall i :: 0 <= i < n ==> s[i].Text? && s[i].line != "."
    ensures TextLength(s) == n
  {
  }

  lemma TextLengthBound(s: seq<ScriptLine>, n: nat)
    requires n < |s| && s[n] == Text(".")
    ensures TextLength(s) <= n
  {
  }

  /** Reading a printed command gives it back, and leaves the rest of the script, exactly when
      no line of its text is a lone `.'. */
  lemma ReadPrinted(c: Cmd, rest: seq<ScriptLine>)
    requires Proper(c)
    ensures "." !in c.text ==> Read(Print(c) + rest) == [c] + Read(rest)
    ensures "." in c.text ==> Read(Print(c) + rest) != [] && |Read(Print(c) + rest)[0].text| < |c.text|
  {
    var s := Print(c) + rest;
    if c.kind == Delete {
      assert s[1..] == rest;
    } else {
      var t, n := s[1..], |c.text|;
      assert t == TextLines(c.text) + [Text(".")] + rest;
      if "." in c.text {
        var k :| 0 <= k < n && c.text[k] == ".";
        TextLengthBound(t, k);
      } else {
        TextLengthUnique(t, n);
        assert s[n + 2..] == rest;
        assert seq(n, i requires 0 <= i < n => t[i].line) == c.text;
      }
    }
  }

  /** The warning in the manual's BUGS section, made exact: ed reads back the very commands
      diff printed if and only if none of the lines to be created is a lone `.'. */
  lemma {:induction false} ReadBack(cs: seq<Cmd>)
    requires forall c :: c in cs ==> Proper(c)
    ensures Read(PrintAll(cs)) == cs <==> forall c :: c in cs ==> "." !in c.text
    decreases |cs|
  {
    if cs != [] {
      var c, more := cs[0], cs[1..];
      assert cs == [c] + more;
      ReadPrinted(c, PrintAll(more));
      ReadBack(more);
      var r := Read(PrintAll(cs));
      if "." in c.text {
        assert r[0] != c;
      } else {
        assert r == [c] + Read(PrintAll(more));
        assert r[1..] == Read(PrintAll(more));
      }
    }
  }

  // ----- from hunks to the printed script

  function Commands(hs: seq<Hunk>, b: seq<string>): (cs: seq<Cmd>)
    requires TextInRange(hs, |b|)
    ensures |cs| == |hs| && forall k :: 0 <= k < |hs| ==> cs[k] == CommandOf(hs[k], b)
  {
    seq(|hs|, k requires 0 <= k < |hs| => CommandOf(hs[k], b))
  }

  /** ed executes commands one after the other. */
  ghost function Execute(buf: seq<string>, cs: seq<Cmd>): Result<string> {
    if cs == [] then Done(buf) else
      match Execute(buf, cs[..|cs| - 1])
      case BadAddress => BadAddress
      case Done(s) => EdStep(s, cs[|cs| - 1])
  }

  lemma {:induction false} ExecuteIsEdRun(a: seq<string>, hs: seq<Hunk>, b: seq<string>)
    requires TextInRange(hs, |b|)
    ensures Execute(a, Commands(hs, b)) == EdRun(a, hs, b)
    decreases |hs|
  {
    if hs != [] {
      ExecuteIsEdRun(a, hs[..|hs| - 1], b);
      assert Commands(hs, b)[..|hs| - 1] == Commands(hs[..|hs| - 1], b);
    }
  }

  // ----- ed at work on the text

  /** ed's buffer, its current line, and whether it reads from a pipe. */
  datatype Ed = Ed(buf: seq<string>, dot: int, piped: bool)

  /** The current line after a command that left buf behind. */
  function DotAfter(c: Cmd, buf: seq<string>): int {
    match c.kind
    case Append => c.hi + |c.text|
    case Replace => c.lo - 1 + |c.text|
    case Delete => if c.lo <= |buf| then c.lo else |buf|
  }

  /** What ed makes of a script. A line `.' where a command should be prints the current line, if
      there is one; any other line of text there, and `.' without a current line, is an error, at
      which ed throws the rest of the script away if it is a file, and just the line if it comes
      from a pipe. Lines of text that happen to be commands are not modelled. */
  ghost function Feed(e: Ed, s: seq<ScriptLine>): Result<string>
    decreases |s|
  {
    if s == [] then Done(e.buf)
    else if s[0].Text? then
      if e.piped || (s[0].line == "." && 1 <= e.dot <= |e.buf|) then Feed(e, s[1..]) else Done(e.buf)
    else
      var n := if s[0].kind == Delete then 0 else TextLength(s[1..]);
      var c := Command(s[0].kind, s[0].lo, s[0].hi, Taken(s[1..], n));
      var rest := if s[0].kind == Delete then s[1..] else if n < |s| - 1 then s[n + 2..] else [];
      match EdStep(e.buf, c)
      case BadAddress => BadAddress
      case Done(buf) => Feed(e.(buf := buf, dot := DotAfter(c, buf)), rest)
  }

  /** The first n lines, as text. */
  function Taken(s: seq<ScriptLine>, n: nat): seq<string>
    requires n <= |s| && forall i :: 0 <= i < n ==> s[i].Text?
  {
    seq(n, i requires 0 <= i < n => s[i].line)
  }

  /** The command as ed takes it: its text ends at the first lone `.'. */
  function Cut(c: Cmd): (r: Cmd)
    ensures |r.text| <= |c.text| && ("." in c.text ==> |r.text| < |c.text|) && ("." !in c.text ==> r == c)
  {
    c.(text := c.text[..FirstDot(c.text)])
  }

  function FirstDot(text: seq<string>): (n: nat)
    ensures n <= |text| && (n < |text| <==> "." in text) && (n < |text| ==> text[n] == ".")
    ensures forall i :: 0 <= i < n ==> text[i] != "."
  {
    if text == [] || text[0] == "." then 0 else 1 + FirstDot(text[1..])
  }

  /** What is left of a printed command in the place of the next one. */
  ghost function LeftOver(c: Cmd): seq<ScriptLine> {
    if "." in c.text then TextLines(c.text[FirstDot(c.text) + 1..]) + [Text(".")] else []
  }

  lemma FeedPrinted(e: Ed, c: Cmd, rest: seq<ScriptLine>)
    requires Proper(c)
    ensures Feed(e, Print(c) + rest) ==
            match EdStep(e.buf, Cut(c))
            case BadAddress => BadAddress
            case Done(buf) => Feed(e.(buf := buf, dot := DotAfter(Cut(c), buf)), LeftOver(c) + rest)
  {
    hide EdStep, DotAfter, TextLength, Taken, Print, LeftOver, Cut;
    if c.kind == Delete {
      PrintedDelete(c, rest);
    } else {
      PrintedText(c, rest);
    }
  }

  lemma PrintedDelete(c: Cmd, rest: seq<ScriptLine>)
    requires Proper(c) && c.kind == Delete
    ensures var s := Print(c) + rest;
      && s != [] && s[0] == Head(Delete, c.lo, c.hi) && s[1..] == LeftOver(c) + rest
      && Taken(s[1..], 0) == [] && Cut(c) == c
      && c == Command(Delete, c.lo, c.hi, [])
  {
    var s := Print(c) + rest;
    assert s == [Head(c.kind, c.lo, c.hi)] + rest;
  }

  lemma PrintedText(c: Cmd, rest: seq<ScriptLine>)
    requires Proper(c) && c.kind != Delete
    ensures var s, n := Print(c) + rest, FirstDot(c.text);
      && n + 2 <= |s| && s[0] == Head(c.kind, c.lo, c.hi) && TextLength(s[1..]) == n
      && Command(c.kind, c.lo, c.hi, Taken(s[1..], n)) == Cut(c) && s[n + 2..] == LeftOver(c) + rest
  {
    hide TextLength, FirstDot, TextLines, Cut, LeftOver;
    var s, n := Print(c) + rest, FirstDot(c.text);
    var t := TextLines(c.text) + ([Text(".")] + rest);
    assert s == [Head(c.kind, c.lo, c.hi)] + t;
    assert s[1..] == t;
    TextBefore(c.text, rest, n);
    assert s[n + 2..] == t[n + 1..];
    CutText(c, rest);
  }

  /** The text that ed takes from a printed command. */
  lemma TextBefore(text: seq<string>, rest: seq<ScriptLine>, n: nat)
    requires n == FirstDot(text)
    ensures var t := TextLines(text) + ([Text(".")] + rest); n < |t| && TextLength(t) == n && Taken(t, n) == text[..n]
  {
    hide FirstDot, TextLength;
    var t := TextLines(text) + ([Text(".")] + rest);
    assert forall i :: 0 <= i < |text| ==> t[i] == Text(text[i]);
    TextLengthUnique(t, n);
  }

  lemma CutText(c: Cmd, rest: seq<ScriptLine>)
    ensures var t, n := TextLines(c.text) + ([Text(".")] + rest), FirstDot(c.text);
      Cut(c) == c.(text := c.text[..n]) && n < |t| && t[n + 1..] == LeftOver(c) + rest
  {
    hide FirstDot;
    var t, n := TextLines(c.text) + ([Text(".")] + rest), FirstDot(c.text);
    if n < |c.text| {
      assert TextLines(c.text)[n + 1..] == TextLines(c.text[n + 1..]);
      assert t[n + 1..] == TextLines(c.text)[n + 1..] + ([Text(".")] + rest);
      assert TextLines(c.text[n + 1..]) + ([Text(".")] + rest) == TextLines(c.text[n + 1..]) + [Text(".")] + rest;
    } else {
      assert t[n + 1..] == rest && [] + rest == rest;
    }
  }

  /** Left-over text either ends the script or does nothing. */
  lemma {:induction false} FeedText(e: Ed, t: seq<ScriptLine>, rest: seq<ScriptLine>)
    requires forall i :: 0 <= i < |t| ==> t[i].Text?
    ensures Feed(e, t + rest) == Done(e.buf) || Feed(e, t + rest) == Feed(e, rest)
    decreases |t|
  {
    if t == [] {
      assert t + rest == rest;
    } else {
      assert (t + rest)[1..] == t[1..] + rest;
      FeedText(e, t[1..], rest);
    }
  }

  ghost predicate NoDots(cs: seq<Cmd>) {
    forall c :: c in cs ==> "." !in c.text
  }

  ghost predicate AllProper(cs: seq<Cmd>) {
    forall i :: 0 <= i < |cs| ==> Proper(cs[i])
  }

  /** Without lone dots ed does what the commands say. */
  lemma {:induction false} FeedAll(a: seq<string>, cs: seq<Cmd>, k: nat, e: Ed)
    requires AllProper(cs) && NoDots(cs) && k <= |cs| && Execute(a, cs[..k]) == Done(e.buf)
    requires Execute(a, cs).Done?
    ensures Feed(e, PrintAll(cs[k..])) == Execute(a, cs)
    decreases |cs| - k
  {
    hide EdStep, DotAfter, Print;
    if k == |cs| {
      assert cs[..k] == cs;
    } else {
      var c, rest := cs[k], PrintAll(cs[k + 1..]);
      assert cs[k..][0] == c && cs[k..][1..] == cs[k + 1..];
      FeedPrinted(e, c, rest);
      assert LeftOver(c) + rest == rest;
      assert cs[..k + 1][..k] == cs[..k] && cs[..k + 1][k] == c;
      ExecutePrefix(a, cs, k + 1);
      FeedAll(a, cs, k + 1, e.(buf := EdStep(e.buf, c).buf, dot := DotAfter(c, EdStep(e.buf, c).buf)));
    }
  }

  lemma {:induction false} ExecutePrefix(a: seq<string>, cs: seq<Cmd>, k: nat)
    requires k <= |cs| && Execute(a, cs).Done?
    ensures Execute(a, cs[..k]).Done?
    decreases |cs|
  {
    hide EdStep;
    if k < |cs| {
      ExecutePrefix(a, cs[..|cs| - 1], k);
      assert cs[..|cs| - 1][..k] == cs[..k];
    } else {
      assert cs[..k] == cs;
    }
  }

  // ----- what a lone dot costs

  /** A buffer with the first i old lines and too little behind them is not the new file, if where
      the files agree on i lines they do so line for line. */
  lemma Short(a: seq<string>, b: seq<string>, i: int, j: int, s: seq<string>)
    requires 0 <= i <= |a| && 0 <= j <= |b| && |s| < |b| - j
    requires i <= |b| && a[..i] == b[..i] ==> j == i
    ensures a[..i] + s != b
  {
    var r := a[..i] + s;
    assert |r| == i + |s| && r[..i] == a[..i];
  }

  /** A command that runs on the first i old lines with something behind them. */
  lemma StepOn(a: seq<string>, b: seq<string>, i: int, s: seq<string>, h: Hunk, n: nat)
    requires 0 <= i <= |a| && 1 <= h.a <= h.b + 1 <= i + 1 && 1 <= h.c <= h.d + 1 <= |b| + 1
    requires n <= h.d - h.c + 1 && (h.a <= h.b || h.c <= h.d)
    ensures EdStep(a[..i] + s, CommandOf(h, b).(text := b[h.c - 1..h.c - 1 + n])) ==
            Done(a[..h.a - 1] + (b[h.c - 1..h.c - 1 + n] + a[h.b..i] + s))
  {
    var buf, text := a[..i] + s, b[h.c - 1..h.c - 1 + n];
    assert buf[..h.a - 1] == a[..h.a - 1] && buf[h.b..] == a[h.b..i] + s;
    assert a[..h.a - 1] + text + buf[h.b..] == a[..h.a - 1] + (text + a[h.b..i] + s);
    if h.a <= h.b && h.c > h.d {
      assert text == [];
      assert a[..h.a - 1] + buf[h.b..] == a[..h.a - 1] + (text + a[h.b..i] + s);
    }
  }

  /** Where J says the hunks begin, the files agree line for line or not at all. */
  ghost predicate Faithful(a: seq<string>, b: seq<string>, hs: seq<Hunk>) {
    forall k :: 0 < k <= |hs| ==> HonestAt(a, b, hs, k)
  }

  ghost predicate HonestAt(a: seq<string>, b: seq<string>, hs: seq<Hunk>, k: int)
    requires 0 <= k <= |hs|
  {
    var i := OldAt(hs, k, |a|);
    0 <= i <= |a| && i <= |b| && a[..i] == b[..i] ==> NewAt(hs, k, |b|) == i
  }

  /** Once a lone dot is in the way, what ed ends up with is not the new file: the buffer always
      lacks lines behind the old lines that are still in place. */
  lemma {:induction false} Lacking(a: seq<string>, b: seq<string>, hs: seq<Hunk>, J: seq<int>, k: nat, e: Ed,
                                   s: seq<string>)
    requires TextInRange(hs, |b|) && NoneEmpty(hs) && Descends(hs, J, |a|, |b|) && Faithful(a, b, hs) && k <= |hs|
    requires 0 <= OldAt(hs, k, |a|) <= |a| && e.buf == a[..OldAt(hs, k, |a|)] + s && |s| <= |b| - NewAt(hs, k, |b|)
    requires (k > 0 && |s| < |b| - NewAt(hs, k, |b|)) || !NoDots(Commands(hs, b)[k..])
    ensures Feed(e, PrintAll(Commands(hs, b)[k..])) != Done(b)
    decreases |hs| - k
  {
    hide EdStep, DotAfter, Print, CommandOf, Descends, Stacked, TextInRange, NoneEmpty, Faithful, HonestAt, LeftOver;
    hide Feed, PrintAll, NoDots, OldAt, NewAt;
    var cs := Commands(hs, b);
    StackedBelow(hs, J, |a|, |b|, k);
    if k == |hs| {
      assert cs[k..] == [];
      NothingFed(e);
      assert !NoDots([]) ==> false by { NoCommands(); }
      NotThere(a, b, hs, k, s);
    } else {
      var h, c := hs[k], cs[k];
      var i, rest := OldAt(hs, k, |a|), PrintAll(cs[k + 1..]);
      PrintedOne(cs, k);
      HunkBelow(hs, k, |a|, |b|);
      StackedBelow(hs, J, |a|, |b|, k + 1);
      var n, s' := CutHunk(a, b, hs, J, k, i, s);
      FeedPrinted(e, c, rest);
      var e' := e.(buf := a[..h.a - 1] + s', dot := DotAfter(Cut(c), a[..h.a - 1] + s'));
      LeftIsText(c);
      FeedText(e', LeftOver(c), rest);
      if Feed(e', LeftOver(c) + rest) == Done(e'.buf) && "." in c.text {
        NotThere(a, b, hs, k + 1, s');
      } else {
        if "." !in c.text {
          NoLeft(c, rest);
          LaterDots(cs, k);
        }
        Lacking(a, b, hs, J, k + 1, e', s');
      }
    }
  }

  lemma NothingFed(e: Ed)
    ensures Feed(e, PrintAll([])) == Done(e.buf)
  {
  }

  lemma NoCommands()
    ensures NoDots([])
  {
  }

  lemma PrintedOne(cs: seq<Cmd>, k: nat)
    requires k < |cs|
    ensures PrintAll(cs[k..]) == Print(cs[k]) + PrintAll(cs[k + 1..])
  {
    hide Print;
    assert cs[k..][0] == cs[k] && cs[k..][1..] == cs[k + 1..];
  }

  lemma HunkBelow(hs: seq<Hunk>, k: nat, m: int, n: int)
    requires k < |hs|
    ensures OldAt(hs, k + 1, m) == hs[k].a - 1 && NewAt(hs, k + 1, n) == hs[k].c - 1
  {
  }

  lemma LeftIsText(c: Cmd)
    ensures forall i :: 0 <= i < |LeftOver(c)| ==> LeftOver(c)[i].Text?
  {
  }

  lemma NoLeft(c: Cmd, rest: seq<ScriptLine>)
    requires "." !in c.text
    ensures LeftOver(c) + rest == rest
  {
  }

  lemma LaterDots(cs: seq<Cmd>, k: nat)
    requires k < |cs| && "." !in cs[k].text
    ensures NoDots(cs[k..]) <==> NoDots(cs[k + 1..])
  {
    assert cs[k..] == [cs[k]] + cs[k + 1..];
  }

  lemma NotThere(a: seq<string>, b: seq<string>, hs: seq<Hunk>, k: nat, s: seq<string>)
    requires 0 < k <= |hs| && Faithful(a, b, hs) && 0 <= OldAt(hs, k, |a|) <= |a| && 0 <= NewAt(hs, k, |b|) <= |b|
    requires |s| < |b| - NewAt(hs, k, |b|)
    ensures a[..OldAt(hs, k, |a|)] + s != b
  {
    assert HonestAt(a, b, hs, k);
    Short(a, b, OldAt(hs, k, |a|), NewAt(hs, k, |b|), s);
  }

  /** Running command k as ed takes it. */
  lemma CutHunk(a: seq<string>, b: seq<string>, hs: seq<Hunk>, J: seq<int>, k: nat, i: int, s: seq<string>)
    returns (n: nat, s': seq<string>)
    requires TextInRange(hs, |b|) && NoneEmpty(hs) && k < |hs| && Stacked(hs, k, J, |a|, |b|)
    requires 0 <= i <= |a| && i == OldAt(hs, k, |a|) && 0 <= NewAt(hs, k, |b|) <= |b| && |s| <= |b| - NewAt(hs, k, |b|)
    ensures var h, c := hs[k], Commands(hs, b)[k];
      && 0 <= h.a - 1 <= |a| && Proper(c) && EdStep(a[..i] + s, Cut(c)) == Done(a[..h.a - 1] + s')
      && |s'| <= |b| - (h.c - 1)
      && ("." in c.text || |s| < |b| - NewAt(hs, k, |b|) ==> |s'| < |b| - (h.c - 1))
  {
    hide EdStep;
    var h, c := hs[k], Commands(hs, b)[k];
    n := FirstDot(c.text);
    s' := b[h.c - 1..h.c - 1 + n] + a[h.b..i] + s;
    StepOn(a, b, i, s, h, n);
    assert c.text == b[h.c - 1..h.d];
    assert c.text[..n] == b[h.c - 1..h.c - 1 + n];
    assert Cut(c) == CommandOf(h, b).(text := b[h.c - 1..h.c - 1 + n]);
  }

  /** The warning in the manual's BUGS section, made exact: feeding the printed script to ed makes
      the new file out of the old one if and only if no line to be created is a lone `.'. */
  lemma EdRecreates(a: seq<string>, b: seq<string>, hs: seq<Hunk>, J: seq<int>, dot: int, piped: bool)
    requires TextInRange(hs, |b|) && EdRun(a, hs, b) == Done(b) && NoneEmpty(hs)
    requires Descends(hs, J, |a|, |b|) && Faithful(a, b, hs)
    ensures Feed(Ed(a, dot, piped), PrintAll(Commands(hs, b))) == Done(b) <==> NoDots(Commands(hs, b))
  {
    hide Descends, Faithful, EdRun;
    var cs := Commands(hs, b);
    ExecuteIsEdRun(a, hs, b);
    assert cs[0..] == cs && cs[..0] == [];
    forall i | 0 <= i < |cs|
      ensures Proper(cs[i])
    {
      assert cs[i].text == b[hs[i].c - 1..hs[i].d];
    }
    if NoDots(cs) {
      FeedAll(a, cs, 0, Ed(a, dot, piped));
    } else {
      assert a[..|a|] + [] == a;
      Lacking(a, b, hs, J, 0, Ed(a, dot, piped), []);
    }
  }
}
