/** The ed script printed by `diff -e`, and an ed that runs it. */
module EdScript {
  import opened Common
  import opened Decimal
  import opened Lines
  import opened Groups

  // ---------------------------------------------------------------------
  // An ed with the commands a, c, d and s/.//

  /** The buffer, the current line (0 before the first), and whether input mode is
      on. */
  datatype Ed = Ed(buf: seq<string>, dot: nat, input: bool)

  /** A command line taken apart: its addresses, if it has any, and its letter. */
  datatype Command = Command(addresses: Option<(nat, nat)>, verb: string)

  /** An address is a number or two numbers with a comma. */
  function ParseCommand(line: string): Command {
    var k := LeadingDigits(line);
    if k == 0 then Command(None, line)
    else
      var first, rest := Value(line[..k]), line[k..];
      if rest != [] && rest[0] == ',' then
        var tail := rest[1..];
        var k' := LeadingDigits(tail);
        Command(Some((first, Value(tail[..k']))), tail[k'..])
      else
        Command(Some((first, first)), rest)
  }

  /** One line of the script.  None is ed's error. */
  function Step(ed: Ed, line: string): Option<Ed> {
    if ed.input then
      if line == "." then Some(ed.(input := false))
      else if ed.dot <= |ed.buf| then
        Some(Ed(ed.buf[..ed.dot] + [line] + ed.buf[ed.dot..], ed.dot + 1, true))
      else None
    else
      var cmd := ParseCommand(line);
      var (lo, hi) := if cmd.addresses.Some? then cmd.addresses.value else (ed.dot, ed.dot);
      if cmd.verb == "a" then
        if lo == hi <= |ed.buf| then Some(ed.(dot := lo, input := true)) else None
      else if !(1 <= lo <= hi <= |ed.buf|) then None
      else if cmd.verb == "c" then
        Some(Ed(ed.buf[..lo - 1] + ed.buf[hi..], lo - 1, true))
      else if cmd.verb == "d" then
        var buf := ed.buf[..lo - 1] + ed.buf[hi..];
        Some(Ed(buf, if lo <= |buf| then lo else |buf|, false))
      else if cmd.verb == "s/.//" then
        if ed.buf[hi - 1] != [] then Some(Ed(ed.buf[hi - 1 := ed.buf[hi - 1][1..]], hi, false)) else None
      else None
  }

  function Run(ed: Ed, script: seq<string>): Option<Ed>
    decreases |script|
  {
    if script == [] then Some(ed)
    else match Step(ed, script[0])
      case None => None
      case Some(ed') => Run(ed', script[1..])
  }

  lemma {:induction false} RunConcat(ed: Ed, p: seq<string>, q: seq<string>)
    ensures Run(ed, p + q) == (match Run(ed, p) case None => None case Some(ed') => Run(ed', q))
    decreases |p|
  {
    if p == [] {
      assert p + q == q;
    } else {
      assert (p + q)[1..] == p[1..] + q && (p + q)[0] == p[0];
      match Step(ed, p[0])
      case None =>
      case Some(ed') => RunConcat(ed', p[1..], q);
    }
  }

  // ---------------------------------------------------------------------
  // What emitEd writes, line by line

  function NormalRange(start0: nat, count: nat): string {
    if count == 1 then Numeral(start0 + 1) else Numeral(start0 + 1) + "," + Numeral(start0 + count)
  }

  /** Input text with every lone period protected. */
  function Block(lines: seq<string>): seq<string> {
    if lines == [] then ["."]
    else if lines[0] != "." then [lines[0]] + Block(lines[1..])
    else ["..", ".", "s/.//"] + if |lines| > 1 then ["a"] + Block(lines[1..]) else []
  }

  function GroupScript(b: seq<string>, g: Group): seq<string>
    requires g.a0 <= g.a1 && g.b0 <= g.b1 <= |b|
  {
    var da, db := g.a1 - g.a0, g.b1 - g.b0;
    if da > 0 && db > 0 then [NormalRange(g.a0, da) + "c"] + Block(b[g.b0..g.b1])
    else if da > 0 then [NormalRange(g.a0, da) + "d"]
    else [Numeral(g.a0) + "a"] + Block(b[g.b0..g.b1])
  }

  ghost predicate WellFormed(b: seq<string>, gs: seq<Group>) {
    forall k | 0 <= k < |gs| :: gs[k].a0 <= gs[k].a1 && gs[k].b0 <= gs[k].b1 <= |b|
  }

  /** The script for groups 0..n, last group first. */
  function Script(b: seq<string>, gs: seq<Group>, n: nat): seq<string>
    requires n <= |gs| && WellFormed(b, gs)
  {
    if n == 0 then [] else GroupScript(b, gs[n - 1]) + Script(b, gs, n - 1)
  }

  // ---------------------------------------------------------------------
  // Running it

  /** A range that normalRange printed reads back as the same lines. */
  lemma ParseRange(start0: nat, count: nat, verb: char)
    requires count > 0 && !IsDigit(verb) && verb != ','
    ensures ParseCommand(NormalRange(start0, count) + [verb]) == Command(Some((start0 + 1, start0 + count)), [verb])
  {
    hide Numeral, Value, LeadingDigits;
    var n := Numeral(start0 + 1);
    if count == 1 {
      ReadNumeral(start0 + 1, [verb]);
    } else {
      var tail := Numeral(start0 + count) + [verb];
      var line := NormalRange(start0, count) + [verb];
      assert line == n + ([','] + tail);
      ReadNumeral(start0 + 1, [','] + tail);
      assert ([','] + tail)[1..] == tail;
      ReadNumeral(start0 + count, [verb]);
    }
  }

  lemma ParseNumber(n: nat, verb: char)
    requires !IsDigit(verb) && verb != ','
    ensures ParseCommand(Numeral(n) + [verb]) == Command(Some((n, n)), [verb])
  {
    ReadNumeral(n, [verb]);
  }

  /** The detour for a lone period. */
  lemma RunPeriod(ed: Ed)
    requires ed.input && ed.dot <= |ed.buf|
    ensures Run(ed, ["..", ".", "s/.//"]) == Some(Ed(ed.buf[..ed.dot] + ["."] + ed.buf[ed.dot..], ed.dot + 1, false))
  {
    var buf := ed.buf[..ed.dot] + [".."] + ed.buf[ed.dot..];
    var e1 := Ed(buf, ed.dot + 1, true);
    var e2 := Ed(buf, ed.dot + 1, false);
    var e3 := Ed(buf[ed.dot := "."], ed.dot + 1, false);
    PeriodSteps(ed, buf);
    hide Step;
    assert buf[ed.dot := "."] == ed.buf[..ed.dot] + ["."] + ed.buf[ed.dot..];
    assert ["s/.//"] + [] == ["s/.//"] && ["."] + ["s/.//"] == [".", "s/.//"];
    assert [".."] + [".", "s/.//"] == ["..", ".", "s/.//"];
    RunCons(e2, "s/.//", []);
    RunNothing(e3);
    RunCons(e1, ".", ["s/.//"]);
    RunCons(ed, "..", [".", "s/.//"]);
  }

  lemma RunCons(ed: Ed, line: string, rest: seq<string>)
    requires Step(ed, line).Some?
    ensures Run(ed, [line] + rest) == Run(Step(ed, line).value, rest)
  {
    hide Step;
    assert ([line] + rest)[1..] == rest;
  }

  lemma RunNothing(ed: Ed)
    ensures Run(ed, []) == Some(ed)
  {
  }

  lemma PeriodSteps(ed: Ed, buf: seq<string>)
    requires ed.input && ed.dot <= |ed.buf| && buf == ed.buf[..ed.dot] + [".."] + ed.buf[ed.dot..]
    ensures Step(ed, "..") == Some(Ed(buf, ed.dot + 1, true))
    ensures Step(Ed(buf, ed.dot + 1, true), ".") == Some(Ed(buf, ed.dot + 1, false))
    ensures Step(Ed(buf, ed.dot + 1, false), "s/.//") == Some(Ed(buf[ed.dot := "."], ed.dot + 1, false))
  {
    assert LeadingDigits("s/.//") == 0;
    assert buf[ed.dot] == ".." && buf[ed.dot][1..] == ".";
  }

  /** Input mode after one more line. */
  function Typed(ed: Ed, line: string, input: bool): Ed
    requires ed.dot <= |ed.buf|
  {
    Ed(ed.buf[..ed.dot] + [line] + ed.buf[ed.dot..], ed.dot + 1, input)
  }

  /** The lines typed one after the other are typed together. */
  lemma TypedMore(buf: seq<string>, dot: nat, lines: seq<string>)
    requires dot <= |buf| && lines != []
    ensures var buf' := buf[..dot] + [lines[0]] + buf[dot..];
            buf'[..dot + 1] + lines[1..] + buf'[dot + 1..] == buf[..dot] + lines + buf[dot..]
  {
    var buf' := buf[..dot] + [lines[0]] + buf[dot..];
    assert buf'[..dot + 1] == buf[..dot] + [lines[0]];
    assert buf'[dot + 1..] == buf[dot..];
    assert lines == [lines[0]] + lines[1..];
  }

  lemma TypedStep(ed: Ed, line: string)
    requires ed.input && ed.dot <= |ed.buf|
    ensures Step(ed, line) == Some(if line == "." then ed.(input := false) else Typed(ed, line, true))
  {
    hide ParseCommand;
  }

  lemma BlockIs(lines: seq<string>)
    ensures lines == [] ==> Block(lines) == ["."] + []
    ensures lines != [] && lines[0] != "." ==> Block(lines) == [lines[0]] + Block(lines[1..])
    ensures lines != [] && lines[0] == "." ==>
              Block(lines) == ["..", ".", "s/.//"] + if |lines| > 1 then ["a"] + Block(lines[1..]) else []
  {
  }

  /** One line of a block is read. */
  lemma BlockSteps(ed: Ed, lines: seq<string>)
    requires ed.input && ed.dot <= |ed.buf|
    ensures lines == [] ==> Run(ed, Block(lines)) == Some(ed.(input := false))
    ensures lines != [] && (lines[0] != "." || |lines| > 1) ==>
              Run(ed, Block(lines)) == Run(Typed(ed, lines[0], true), Block(lines[1..]))
    ensures lines == ["."] ==> Run(ed, Block(lines)) == Some(Typed(ed, ".", false))
  {
    hide Run, Step, Block, ParseCommand;
    BlockIs(lines);
    if lines == [] {
      TypedStep(ed, ".");
      RunCons(ed, ".", []);
      RunNothing(ed.(input := false));
    } else if lines[0] != "." {
      TypedStep(ed, lines[0]);
      RunCons(ed, lines[0], Block(lines[1..]));
    } else {
      RunPeriod(ed);
      if |lines| > 1 {
        AppendOn(Typed(ed, ".", false));
        RunConcat(ed, ["..", ".", "s/.//"], ["a"] + Block(lines[1..]));
        RunCons(Typed(ed, ".", false), "a", Block(lines[1..]));
      } else {
        RunConcat(ed, ["..", ".", "s/.//"], []);
        RunNothing(Typed(ed, ".", false));
      }
    }
  }

  lemma AppendOn(ed: Ed)
    requires !ed.input && ed.dot <= |ed.buf|
    ensures Step(ed, "a") == Some(ed.(input := true))
  {
    assert LeadingDigits("a") == 0;
  }

  /** In input mode, the block leaves exactly its lines after the current one. */
  lemma {:induction false} RunBlock(ed: Ed, lines: seq<string>)
    requires ed.input && ed.dot <= |ed.buf|
    ensures Run(ed, Block(lines)) == Some(Ed(ed.buf[..ed.dot] + lines + ed.buf[ed.dot..], ed.dot + |lines|, false))
    decreases |lines|
  {
    hide Run, Block;
    BlockSteps(ed, lines);
    if lines == [] {
      assert ed.buf[..ed.dot] + lines + ed.buf[ed.dot..] == ed.buf;
    } else {
      TypedMore(ed.buf, ed.dot, lines);
      if lines[0] != "." || |lines| > 1 {
        RunBlock(Typed(ed, lines[0], true), lines[1..]);
      } else {
        assert lines == ["."];
      }
    }
  }

  /** One group replaces its old lines by its new ones. */
  lemma RunGroup(ed: Ed, b: seq<string>, g: Group)
    requires !ed.input && g.a0 <= g.a1 <= |ed.buf| && g.b0 <= g.b1 <= |b| && (g.a0 < g.a1 || g.b0 < g.b1)
    ensures Run(ed, GroupScript(b, g)).Some?
    ensures var ed' := Run(ed, GroupScript(b, g)).value;
            !ed'.input && ed'.buf == ed.buf[..g.a0] + b[g.b0..g.b1] + ed.buf[g.a1..]
  {
    hide Run, Step, ParseCommand, Numeral, NormalRange, Block, Value, LeadingDigits;
    var ed1 := GroupCommand(ed, b, g);
    if g.b0 < g.b1 {
      var rest := Block(b[g.b0..g.b1]);
      RunCons(ed, GroupScript(b, g)[0], rest);
      RunBlock(ed1, b[g.b0..g.b1]);
      GroupReplaced(ed.buf, ed1, b[g.b0..g.b1], g);
    } else {
      RunCons(ed, GroupScript(b, g)[0], []);
      RunNothing(ed1);
      assert b[g.b0..g.b1] == [] && ed.buf[..g.a0] + [] == ed.buf[..g.a0];
    }
  }

  /** The group's command deletes its old lines and leaves the insertion point there. */
  lemma GroupCommand(ed: Ed, b: seq<string>, g: Group) returns (ed1: Ed)
    requires !ed.input && g.a0 <= g.a1 <= |ed.buf| && g.b0 <= g.b1 <= |b| && (g.a0 < g.a1 || g.b0 < g.b1)
    ensures GroupScript(b, g) == [GroupScript(b, g)[0]] + (if g.b0 < g.b1 then Block(b[g.b0..g.b1]) else [])
    ensures Step(ed, GroupScript(b, g)[0]) == Some(ed1) && ed1.input == (g.b0 < g.b1)
    ensures ed1.buf == ed.buf[..g.a0] + ed.buf[g.a1..] && (ed1.input ==> ed1.dot == g.a0)
  {
    hide ParseCommand, Numeral, NormalRange, Block, Value, LeadingDigits;
    var da := g.a1 - g.a0;
    if g.b0 < g.b1 {
      ed1 := Ed(ed.buf[..g.a0] + ed.buf[g.a1..], g.a0, true);
      if da > 0 {
        ParseRange(g.a0, da, 'c');
      } else {
        ParseNumber(g.a0, 'a');
        assert ed.buf[..g.a0] + ed.buf[g.a1..] == ed.buf;
      }
    } else {
      ParseRange(g.a0, da, 'd');
      var buf := ed.buf[..g.a0] + ed.buf[g.a1..];
      ed1 := Ed(buf, if g.a0 + 1 <= |buf| then g.a0 + 1 else |buf|, false);
    }
  }

  lemma GroupReplaced(buf: seq<string>, ed1: Ed, lines: seq<string>, g: Group)
    requires g.a0 <= g.a1 <= |buf| && ed1.buf == buf[..g.a0] + buf[g.a1..] && ed1.dot == g.a0
    ensures ed1.buf[..ed1.dot] + lines + ed1.buf[ed1.dot..] == buf[..g.a0] + lines + buf[g.a1..]
  {
    assert ed1.buf[..ed1.dot] == buf[..g.a0] && ed1.buf[ed1.dot..] == buf[g.a1..];
  }

  /** The first line of a group's script: its old lines, or the line after which it inserts,
      and c, d or a; one line number if there is only one. */
  lemma CommandOf(b: seq<string>, g: Group)
    requires g.a0 <= g.a1 && g.b0 <= g.b1 <= |b| && (g.a0 < g.a1 || g.b0 < g.b1)
    ensures ParseCommand(GroupScript(b, g)[0]) ==
            if g.a0 == g.a1 then Command(Some((g.a0, g.a0)), "a")
            else Command(Some((g.a0 + 1, g.a1)), if g.b0 < g.b1 then "c" else "d")
    ensures ',' in GroupScript(b, g)[0] <==> g.a1 - g.a0 > 1
  {
    hide ParseCommand, Numeral, Block, Value, LeadingDigits;
    NoComma(g.a0);
    NoComma(g.a0 + 1);
    if g.a0 == g.a1 {
      ParseNumber(g.a0, 'a');
    } else {
      ParseRange(g.a0, g.a1 - g.a0, if g.b0 < g.b1 then 'c' else 'd');
    }
  }

  lemma NoComma(n: nat)
    ensures ',' !in Numeral(n)
  {
    assert forall c | c in Numeral(n) :: IsDigit(c);
  }

  /** After groups n.. have run, the old text is intact up to the n-th gap and the new
      text follows. */
  lemma {:induction false} RunScript(ed: Ed, a: seq<string>, b: seq<string>, gs: seq<Group>, n: nat)
    requires Aligned(a, b, gs) && WellFormed(b, gs) && n <= |gs| && !ed.input
    requires GapStart(gs, n).0 <= |a| && GapStart(gs, n).1 <= |b|
    requires ed.buf == a[..GapStart(gs, n).0] + b[GapStart(gs, n).1..]
    ensures Run(ed, Script(b, gs, n)).Some? && Run(ed, Script(b, gs, n)).value.buf == b
    ensures !Run(ed, Script(b, gs, n)).value.input
    decreases n
  {
    hide GroupScript, Step, Aligned, Run, SameLines;
    if n == 0 {
      NothingToRun(ed, b, gs);
      assert ed.buf == b;
    } else {
      var g := gs[n - 1];
      AlignedAt(a, b, gs, n - 1);
      RunGroup(ed, b, g);
      RunConcat(ed, GroupScript(b, g), Script(b, gs, n - 1));
      var ed' := Run(ed, GroupScript(b, g)).value;
      var (i, j) := GapStart(gs, n - 1);
      GroupUndone(a, b, i, j, g, ed.buf);
      RunScript(ed', a, b, gs, n - 1);
    }
  }

  lemma NothingToRun(ed: Ed, b: seq<string>, gs: seq<Group>)
    requires WellFormed(b, gs)
    ensures Run(ed, Script(b, gs, 0)) == Some(ed)
  {
  }

  /** Replacing the group's old lines by its new ones leaves the old text up to the gap
      before it and the new text after. */
  lemma GroupUndone(a: seq<string>, b: seq<string>, i: nat, j: nat, g: Group, buf: seq<string>)
    requires i <= g.a0 <= g.a1 <= |a| && j <= g.b0 <= g.b1 <= |b| && SameLines(a, b, (i, j), (g.a0, g.b0))
    requires buf == a[..g.a1] + b[g.b1..]
    ensures buf[..g.a0] + b[g.b0..g.b1] + buf[g.a1..] == a[..i] + b[j..]
  {
    assert a[i..g.a0] == b[j..g.b0];
    assert buf[..g.a0] == a[..i] + a[i..g.a0];
    assert buf[g.a1..] == b[g.b1..];
    assert b[j..] == b[j..g.b0] + b[g.b0..g.b1] + b[g.b1..];
  }

  lemma AlignedAt<T>(a: seq<T>, b: seq<T>, gs: seq<Group>, k: nat)
    requires Aligned(a, b, gs) && k < |gs|
    ensures InBounds(a, b, gs[k]) && SameLines(a, b, GapStart(gs, k), (gs[k].a0, gs[k].b0))
  {
  }

  /** Running the whole script on the old lines gives the new lines. */
  lemma ScriptGivesNew(a: seq<string>, b: seq<string>, gs: seq<Group>)
    requires Aligned(a, b, gs)
    ensures WellFormed(b, gs)
    ensures Run(Ed(a, |a|, false), Script(b, gs, |gs|)).Some?
    ensures Run(Ed(a, |a|, false), Script(b, gs, |gs|)).value.buf == b
    ensures !Run(Ed(a, |a|, false), Script(b, gs, |gs|)).value.input
  {
    hide Script, Run;
    assert WellFormed(b, gs) by {
      forall k | 0 <= k < |gs| ensures gs[k].a0 <= gs[k].a1 && gs[k].b0 <= gs[k].b1 <= |b| {
        assert InBounds(a, b, gs[k]);
      }
    }
    assert SameLines(a, b, GapStart(gs, |gs|), GapEnd(a, b, gs, |gs|));
    var (i, j) := GapStart(gs, |gs|);
    assert a[i..] == a[i..|a|] && b[j..] == b[j..|b|];
    assert a == a[..i] + b[j..];
    RunScript(Ed(a, |a|, false), a, b, gs, |gs|);
  }

  // ---------------------------------------------------------------------
  // Every line written is one line

  lemma NumeralIsOneLine(n: nat)
    ensures OneLine(Numeral(n))
  {
    assert forall c | c in Numeral(n) :: IsDigit(c);
  }

  lemma {:induction false} BlockIsOneLiners(lines: seq<string>)
    requires OneLiners(lines)
    ensures OneLiners(Block(lines))
  {
    if lines != [] {
      BlockIsOneLiners(lines[1..]);
    }
  }

  lemma {:induction false} ScriptIsOneLiners(b: seq<string>, gs: seq<Group>, n: nat)
    requires OneLiners(b) && WellFormed(b, gs) && n <= |gs|
    ensures OneLiners(Script(b, gs, n))
  {
    hide GroupScript, OneLine;
    if n > 0 {
      ScriptIsOneLiners(b, gs, n - 1);
      GroupIsOneLiners(b, gs[n - 1]);
    }
  }

  lemma GroupIsOneLiners(b: seq<string>, g: Group)
    requires OneLiners(b) && g.a0 <= g.a1 && g.b0 <= g.b1 <= |b|
    ensures OneLiners(GroupScript(b, g))
  {
    hide Block, Numeral;
    BlockIsOneLiners(b[g.b0..g.b1]);
    NumeralIsOneLine(g.a0);
    NumeralIsOneLine(g.a0 + 1);
    NumeralIsOneLine(g.a1);
  }

  // ---------------------------------------------------------------------
  // The emitter

  /** What the rest of a block still has to write, and what one line of it writes. */
  lemma BlockNext(lines: seq<string>, i: nat)
    requires i < |lines|
    ensures lines[i] != "." ==> Block(lines[i..]) == [lines[i]] + Block(lines[i + 1..])
    ensures lines[i] == "." && i + 1 < |lines| ==> Block(lines[i..]) == ["..", ".", "s/.//", "a"] + Block(lines[i + 1..])
    ensures lines[i] == "." && i + 1 == |lines| ==> Block(lines[i..]) == ["..", ".", "s/.//"]
  {
    assert lines[i..][1..] == lines[i + 1..];
  }

  method EmitEdBlock(w: Sink, lines: seq<string>)
    requires lines != []
    modifies w
    ensures w.lines == old(w.lines) + Block(lines)
  {
    hide Block;
    var inInput := true;
    ghost var target := w.lines + Block(lines);
    assert lines[0..] == lines;
    for i := 0 to |lines|
      invariant inInput || i == |lines|
      invariant target == if inInput then w.lines + Block(lines[i..]) else w.lines
    {
      var line := lines[i];
      BlockNext(lines, i);
      ghost var before, rest := w.lines, Block(lines[i + 1..]);
      if line != "." {
        w.Println(line);
        Regroup(before, [line], rest);
      } else {
        w.Println("..");
        w.Println(".");
        w.Println("s/.//");
        inInput := false;
        if i + 1 < |lines| {
          w.Println("a");
          inInput := true;
          Regroup(before, ["..", ".", "s/.//", "a"], rest);
        }
      }
    }
    if inInput {
      EmptyBlock(lines[|lines|..]);
      w.Println(".");
    }
  }

  lemma EmptyBlock(lines: seq<string>)
    requires lines == []
    ensures Block(lines) == ["."]
  {
  }

  method EmitEd(w: Sink, b: seq<string>, gs: seq<Group>)
    requires WellFormed(b, gs) && forall k | 0 <= k < |gs| :: gs[k].a0 < gs[k].a1 || gs[k].b0 < gs[k].b1
    modifies w
    ensures w.lines == old(w.lines) + Script(b, gs, |gs|)
  {
    hide Block, Numeral, NormalRange, Script;
    var n := |gs|;
    ghost var target := w.lines + Script(b, gs, n);
    while n > 0
      invariant 0 <= n <= |gs|
      invariant target == w.lines + Script(b, gs, n)
    {
      n := n - 1;
      var g := gs[n];
      var da, db := g.a1 - g.a0, g.b1 - g.b0;
      ghost var before := w.lines;
      if da > 0 && db > 0 {
        w.Println(NormalRange(g.a0, da) + "c");
        EmitEdBlock(w, b[g.b0..g.b1]);
      } else if da > 0 {
        w.Println(NormalRange(g.a0, da) + "d");
      } else {
        w.Println(Numeral(g.a0) + "a");
        EmitEdBlock(w, b[g.b0..g.b1]);
      }
      assert w.lines == before + GroupScript(b, g);
      ScriptNext(b, gs, n);
      Regroup(before, GroupScript(b, g), Script(b, gs, n));
    }
    ScriptNext(b, gs, 0);
  }

  lemma ScriptNext(b: seq<string>, gs: seq<Group>, n: nat)
    requires WellFormed(b, gs) && n <= |gs|
    ensures n < |gs| ==> Script(b, gs, n + 1) == GroupScript(b, gs[n]) + Script(b, gs, n)
    ensures Script(b, gs, 0) == []
  {
  }
}
