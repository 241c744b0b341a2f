/** Comparing two files exactly: from their bytes to the printed difference, and back
    from the old bytes and the difference to the new bytes. */
module Compare {
  import opened Common
  import opened EditGraph
  import opened Lines
  import opened Groups
  import opened Int64
  import EdScript
  import Unified
  import UnifiedContext

  /** What a comparison reports; trouble is a missing final newline that an ed script cannot
      express. */
  datatype Report = Same | BinaryFilesDiffer | Difference(text: string, trouble: bool)

  predicate IsBinary(data: string) {
    '\0' in data
  }

  /** The bytes that a list of lines stands for. */
  function TextOf(lines: seq<(string, bool)>): string {
    if lines == [] then []
    else lines[0].0 + (if lines[0].1 then "" else "\n") + TextOf(lines[1..])
  }

  lemma {:induction false} TextOfTagged(lines: seq<string>, noEOL: bool)
    ensures TextOf(Tagged(lines, noEOL)) == FileText(lines, noEOL)
  {
    if lines != [] {
      var t := Tagged(lines, noEOL);
      assert t[1..] == Tagged(lines[1..], noEOL);
      TextOfTagged(lines[1..], noEOL);
    }
  }

  lemma {:induction false} JoinHolds(lines: seq<string>, i: nat, c: char)
    requires i < |lines| && c in lines[i]
    ensures c in Join(lines)
  {
    if i > 0 {
      JoinHolds(lines[1..], i - 1, c);
    }
  }

  lemma TextHoldsLines(s: Side)
    requires '\0' !in FileText(s.lines, s.noEOL)
    ensures NulFree(s.lines)
  {
    forall i | 0 <= i < |s.lines|
      ensures '\0' !in s.lines[i]
    {
      UnlinesIsJoin(s.lines);
      if '\0' in s.lines[i] {
        JoinHolds(s.lines, i, '\0');
      }
    }
  }

  /** Groups aligned on keys are aligned on the lines themselves. */
  lemma AlignedLines(s: Side, t: Side, intern: map<string, int>, gs: seq<Group>)
    requires Interned(intern) && KeyedBy(Exactly, true, s, intern) && KeyedBy(Exactly, true, t, intern)
    requires NulFree(s.lines) && NulFree(t.lines) && Aligned(s.keys, t.keys, gs)
    ensures Aligned(Tagged(s.lines, s.noEOL), Tagged(t.lines, t.noEOL), gs)
  {
    var a, b := Tagged(s.lines, s.noEOL), Tagged(t.lines, t.noEOL);
    forall k | 0 <= k < |gs|
      ensures InBounds(a, b, gs[k])
    {
      assert InBounds(s.keys, t.keys, gs[k]);
    }
    forall k | 0 <= k <= |gs|
      ensures SameLines(a, b, GapStart(gs, k), GapEnd(a, b, gs, k))
    {
      assert SameLines(s.keys, t.keys, GapStart(gs, k), GapEnd(s.keys, t.keys, gs, k));
      SameKeysSameLines(s, t, intern, GapStart(gs, k), GapEnd(a, b, gs, k));
    }
  }

  lemma SameKeysSameLines(s: Side, t: Side, intern: map<string, int>, from: (nat, nat), to: (nat, nat))
    requires Interned(intern) && KeyedBy(Exactly, true, s, intern) && KeyedBy(Exactly, true, t, intern)
    requires NulFree(s.lines) && NulFree(t.lines) && SameLines(s.keys, t.keys, from, to)
    ensures SameLines(Tagged(s.lines, s.noEOL), Tagged(t.lines, t.noEOL), from, to)
  {
    hide Interned, KeyedBy, Tagged;
    var a, b := Tagged(s.lines, s.noEOL), Tagged(t.lines, t.noEOL);
    KeyCount(s, intern);
    KeyCount(t, intern);
    assert |s.keys[from.0..to.0]| == |t.keys[from.1..to.1]|;
    forall x | 0 <= x < to.0 - from.0
      ensures a[from.0..to.0][x] == b[from.1..to.1][x]
    {
      assert s.keys[from.0..to.0][x] == t.keys[from.1..to.1][x];
      SameKeySameLine(s, t, intern, from.0 + x, from.1 + x);
    }
  }

  /** The other way round: groups aligned on the lines are aligned on their keys. */
  lemma AlignedKeys(s: Side, t: Side, intern: map<string, int>, gs: seq<Group>)
    requires Interned(intern) && KeyedBy(Exactly, true, s, intern) && KeyedBy(Exactly, true, t, intern)
    requires NulFree(s.lines) && NulFree(t.lines)
    requires Aligned(Tagged(s.lines, s.noEOL), Tagged(t.lines, t.noEOL), gs)
    ensures Aligned(s.keys, t.keys, gs)
  {
    var a, b := Tagged(s.lines, s.noEOL), Tagged(t.lines, t.noEOL);
    KeyCount(s, intern);
    KeyCount(t, intern);
    hide Interned, KeyedBy, Tagged;
    forall k | 0 <= k < |gs|
      ensures InBounds(s.keys, t.keys, gs[k])
    {
      assert InBounds(a, b, gs[k]);
    }
    forall k | 0 <= k <= |gs|
      ensures SameLines(s.keys, t.keys, GapStart(gs, k), GapEnd(s.keys, t.keys, gs, k))
    {
      assert SameLines(a, b, GapStart(gs, k), GapEnd(a, b, gs, k));
      SameLinesSameKeys(s, t, intern, GapStart(gs, k), GapEnd(a, b, gs, k));
    }
  }

  lemma SameLinesSameKeys(s: Side, t: Side, intern: map<string, int>, from: (nat, nat), to: (nat, nat))
    requires Interned(intern) && KeyedBy(Exactly, true, s, intern) && KeyedBy(Exactly, true, t, intern)
    requires NulFree(s.lines) && NulFree(t.lines)
    requires SameLines(Tagged(s.lines, s.noEOL), Tagged(t.lines, t.noEOL), from, to)
    ensures SameLines(s.keys, t.keys, from, to)
  {
    hide Interned, KeyedBy, Tagged;
    var a, b := Tagged(s.lines, s.noEOL), Tagged(t.lines, t.noEOL);
    KeyCount(s, intern);
    KeyCount(t, intern);
    assert |a[from.0..to.0]| == |b[from.1..to.1]|;
    forall x | 0 <= x < to.0 - from.0
      ensures s.keys[from.0..to.0][x] == t.keys[from.1..to.1][x]
    {
      assert a[from.0..to.0][x] == b[from.1..to.1][x];
      SameKeySameLine(s, t, intern, from.0 + x, from.1 + x);
    }
  }

  /** No way of aligning the lines changes fewer of them. */
  ghost predicate Fewest(a: seq<(string, bool)>, b: seq<(string, bool)>, gs: seq<Group>) {
    Aligned(a, b, gs) && forall gs' | Aligned(a, b, gs') :: Size(gs) <= Size(gs')
  }

  lemma FewestLines(s: Side, t: Side, intern: map<string, int>, gs: seq<Group>)
    requires Interned(intern) && KeyedBy(Exactly, true, s, intern) && KeyedBy(Exactly, true, t, intern)
    requires NulFree(s.lines) && NulFree(t.lines)
    requires Aligned(s.keys, t.keys, gs) && Size(gs) == Distance(s.keys, t.keys)
    ensures Fewest(Tagged(s.lines, s.noEOL), Tagged(t.lines, t.noEOL), gs)
  {
    hide Aligned, Interned, KeyedBy, Tagged, Distance, Size;
    AlignedLines(s, t, intern, gs);
    forall gs' | Aligned(Tagged(s.lines, s.noEOL), Tagged(t.lines, t.noEOL), gs') ensures Size(gs) <= Size(gs') {
      AlignedKeys(s, t, intern, gs');
      SizeIsEnough(s.keys, t.keys, gs');
    }
  }

  lemma KeyCount(s: Side, intern: map<string, int>)
    requires KeyedBy(Exactly, true, s, intern)
    ensures |s.keys| == |s.lines|
  {
  }

  /** Files that differ have at least one group. */
  lemma NoGroupsSameText(s: Side, t: Side)
    requires Aligned(Tagged(s.lines, s.noEOL), Tagged(t.lines, t.noEOL), [])
    ensures FileText(s.lines, s.noEOL) == FileText(t.lines, t.noEOL)
  {
    var a, b := Tagged(s.lines, s.noEOL), Tagged(t.lines, t.noEOL);
    assert SameLines(a, b, GapStart([], 0), GapEnd(a, b, [], 0));
    assert a == a[0..|a|] && b == b[0..|b|];
    TextOfTagged(s.lines, s.noEOL);
    TextOfTagged(t.lines, t.noEOL);
  }

  /** The file is empty or its last line has its newline. */
  predicate Terminated(data: string) {
    data == [] || data[|data| - 1] == '\n'
  }

  /** The file with its last newline. */
  function Completed(data: string): string {
    if Terminated(data) then data else data + "\n"
  }

  /** The lines of any file. */
  function PlainLines(data: string): seq<string> {
    if data == [] then [] else if Terminated(data) then Split(data[..|data| - 1]) else Split(data)
  }

  lemma PlainLinesOf(lines: seq<string>, noEOL: bool)
    requires OneLiners(lines) && noEOL == !Terminated(FileText(lines, noEOL))
    ensures PlainLines(FileText(lines, noEOL)) == lines
    ensures Unlines(lines) == Completed(FileText(lines, noEOL))
  {
    if lines != [] {
      SplitJoin(lines);
      UnlinesIsJoin(lines);
      var data := FileText(lines, noEOL);
      if !noEOL {
        assert data[..|data| - 1] == Join(lines);
      }
    }
  }

  /** The side is a file's. */
  ghost predicate SideOf(s: Side, data: string) {
    FileText(s.lines, s.noEOL) == data && s.noEOL == !Terminated(data) && OneLiners(s.lines)
  }

  /** The change groups of two files under exact comparison. */
  method FileGroups(data1: string, data2: string) returns (s: Side, t: Side, gs: seq<Group>)
    requires !IsBinary(data1) && !IsBinary(data2)
    ensures SideOf(s, data1) && SideOf(t, data2)
    ensures Fewest(Tagged(s.lines, s.noEOL), Tagged(t.lines, t.noEOL), gs)
    ensures data1 != data2 ==> gs != []
  {
    hide FileText, Aligned, Tagged, Interned, Distance, Size;
    var intern: map<string, int> := map[];
    EmptyIntern();
    var intern';
    s, intern' := Prep(data1, Exactly, true, intern);
    var intern'';
    t, intern'' := Prep(data2, Exactly, true, intern');
    gs := DiffGroups(s.keys, t.keys);
    TextHoldsLines(s);
    TextHoldsLines(t);
    FewestLines(s, t, intern'', gs);
    if gs == [] { NoGroupsSameText(s, t); }
  }

  lemma EmptyIntern()
    ensures Interned(map[])
  {
  }

  lemma UntaggedGroups(a: seq<string>, na: bool, b: seq<string>, nb: bool, gs: seq<Group>)
    requires Aligned(Tagged(a, na), Tagged(b, nb), gs)
    ensures Aligned(a, b, gs)
  {
    var ta, tb := Tagged(a, na), Tagged(b, nb);
    hide Tagged;
    forall k | 0 <= k < |gs|
      ensures InBounds(a, b, gs[k])
    {
      assert InBounds(ta, tb, gs[k]);
    }
    forall k | 0 <= k <= |gs|
      ensures SameLines(a, b, GapStart(gs, k), GapEnd(a, b, gs, k))
    {
      assert SameLines(ta, tb, GapStart(gs, k), GapEnd(ta, tb, gs, k));
      UntaggedLines(a, na, b, nb, GapStart(gs, k), GapEnd(a, b, gs, k));
    }
  }

  lemma UntaggedLines(a: seq<string>, na: bool, b: seq<string>, nb: bool, from: (nat, nat), to: (nat, nat))
    requires SameLines(Tagged(a, na), Tagged(b, nb), from, to)
    ensures SameLines(a, b, from, to)
  {
    var ta, tb := Tagged(a, na), Tagged(b, nb);
    assert |ta[from.0..to.0]| == |tb[from.1..to.1]|;
    forall x | 0 <= x < to.0 - from.0
      ensures a[from.0..to.0][x] == b[from.1..to.1][x]
    {
      assert ta[from.0..to.0][x] == tb[from.1..to.1][x];
    }
  }

  /** ed, reading the old file and fed the script, is left with the lines of the new file,
      each of which it writes with a newline. */
  ghost predicate EdMakes(data1: string, script: string, data2: string) {
    var lines := PlainLines(data1);
    var end := EdScript.Run(EdScript.Ed(lines, |lines|, false), TerminatedLines(script));
    end.Some? && !end.value.input && Unlines(end.value.buf) == Completed(data2)
  }

  lemma ScriptMakesNew(s: Side, t: Side, gs: seq<Group>, data1: string, data2: string)
    requires SideOf(s, data1) && SideOf(t, data2) && Aligned(Tagged(s.lines, s.noEOL), Tagged(t.lines, t.noEOL), gs)
    ensures EdScript.WellFormed(t.lines, gs)
    ensures EdMakes(data1, Unlines(EdScript.Script(t.lines, gs, |gs|)), data2)
  {
    hide Aligned, Tagged, EdScript.Run, EdScript.Script, Split, Unlines, Completed, PlainLines, FileText, TerminatedLines;
    UntaggedGroups(s.lines, s.noEOL, t.lines, t.noEOL, gs);
    EdScript.ScriptGivesNew(s.lines, t.lines, gs);
    EdScript.ScriptIsOneLiners(t.lines, gs, |gs|);
    TerminatedLinesOf(EdScript.Script(t.lines, gs, |gs|));
    PlainLinesOf(s.lines, s.noEOL);
    PlainLinesOf(t.lines, t.noEOL);
  }

  lemma GroupsWellFormed(a: seq<(string, bool)>, b: seq<(string, bool)>, lines: seq<string>, gs: seq<Group>)
    requires Aligned(a, b, gs) && |lines| == |b|
    ensures EdScript.WellFormed(lines, gs)
    ensures forall k | 0 <= k < |gs| :: gs[k].a0 < gs[k].a1 || gs[k].b0 < gs[k].b1
  {
    forall k | 0 <= k < |gs|
      ensures gs[k].a0 <= gs[k].a1 && gs[k].b0 <= gs[k].b1 <= |lines| && (gs[k].a0 < gs[k].a1 || gs[k].b0 < gs[k].b1)
    {
      assert InBounds(a, b, gs[k]);
    }
  }

  /** The lines of any file with their missing-newline tags. */
  function LinesOf(data: string): seq<(string, bool)> {
    Tagged(PlainLines(data), !Terminated(data))
  }

  lemma SideLines(s: Side, data: string)
    requires SideOf(s, data)
    ensures LinesOf(data) == Tagged(s.lines, s.noEOL) && PlainLines(data) == s.lines
  {
    PlainLinesOf(s.lines, s.noEOL);
  }

  /** The text is the script of these groups. */
  ghost predicate IsScriptOf(text: string, lines: seq<string>, gs: seq<Group>) {
    EdScript.WellFormed(lines, gs) && text == Unlines(EdScript.Script(lines, gs, |gs|))
  }

  /** `diff -e`: a shortest script that makes the new file. */
  method CompareEd(data1: string, data2: string) returns (r: Report, ghost gs: seq<Group>)
    ensures r.Same? <==> data1 == data2
    ensures r.BinaryFilesDiffer? <==> data1 != data2 && (IsBinary(data1) || IsBinary(data2))
    ensures r.Difference? ==> EdMakes(data1, r.text, data2)
    ensures r.Difference? ==> Fewest(LinesOf(data1), LinesOf(data2), gs) && IsScriptOf(r.text, PlainLines(data2), gs)
    ensures r.Difference? ==> (r.trouble <==> !Terminated(data1) || !Terminated(data2))
  {
    hide Aligned, EdMakes, FileText, EdScript.Script, OneLiners, EdScript.WellFormed, Tagged, Terminated, PlainLines;
    gs := [];
    if data1 == data2 { return Same, []; }
    if IsBinary(data1) || IsBinary(data2) { return BinaryFilesDiffer, []; }
    var s, t, groups := FileGroups(data1, data2);
    gs := groups;
    if |groups| == 0 {
      assert false;
      return Same, [];
    }
    var w := new Sink();
    GroupsWellFormed(Tagged(s.lines, s.noEOL), Tagged(t.lines, t.noEOL), t.lines, groups);
    EdScript.EmitEd(w, t.lines, groups);
    ScriptMakesNew(s, t, groups, data1, data2);
    SideLines(s, data1);
    SideLines(t, data2);
    assert w.lines == EdScript.Script(t.lines, groups, |groups|);
    r := Difference(w.Text(), s.noEOL || t.noEOL);
  }

  // ---------------------------------------------------------------------
  // Unified output

  /** What patch makes of the old file and the hunks, unless it refuses them. */
  function Patched(data1: string, hunks: string): Option<string> {
    match Unified.Apply(LinesOf(data1), Unified.Patching(0, [], TerminatedLines(hunks)))
    case None => None
    case Some(lines') => Some(TextOf(lines'))
  }

  lemma {:induction false} LineCount(lines: seq<string>, noEOL: bool)
    ensures |lines| <= |FileText(lines, noEOL)| + 1
  {
    if lines != [] {
      UnlinesIsJoin(lines);
      JoinLength(lines);
    }
  }

  lemma {:induction false} JoinLength(lines: seq<string>)
    requires lines != []
    ensures |lines| <= |Join(lines)| + 1
  {
    if |lines| > 1 { JoinLength(lines[1..]); }
  }

  lemma NoWrapFor(a: seq<(string, bool)>, b: seq<(string, bool)>, gs: seq<Group>, ctx: nat)
    requires Aligned(a, b, gs) && |a| + ctx <= MAX_INT && 2 * ctx <= MAX_INT
    ensures Unified.NoWrap(gs, ctx)
  {
    if |gs| > 0 { assert InBounds(a, b, gs[|gs| - 1]); }
  }

  /** The lines shown, read back from the printed hunks, are those within ctx lines of a
      group. */
  ghost predicate ShowsContext(text: string, data1: string, gs: seq<Group>, ctx: nat) {
    UnifiedContext.ShowFrom(UnifiedContext.OldRanges(TerminatedLines(text)), |LinesOf(data1)|, gs, ctx, 0)
  }

  /** `diff -u`, after the two lines naming the files: patch makes the new file or refuses the
      hunks, and refuses them only when the context length wraps; the hunks change as few
      lines as possible and show the lines near the changes. */
  method CompareUnified(data1: string, data2: string, ctx: nat) returns (r: Report, ghost gs: seq<Group>)
    requires |data1| + |data2| + 2 <= MAX_INT && ctx <= MAX_INT
    ensures r.Same? <==> data1 == data2
    ensures r.BinaryFilesDiffer? <==> data1 != data2 && (IsBinary(data1) || IsBinary(data2))
    ensures r.Difference? ==> !r.trouble && Fewest(LinesOf(data1), LinesOf(data2), gs)
    ensures r.Difference? ==> Patched(data1, r.text) == if Unified.NoWrap(gs, ctx) then Some(data2) else None
    ensures r.Difference? && Unified.NoWrap(gs, ctx) ==> ShowsContext(r.text, data1, gs, ctx)
    ensures r.Difference? && |data1| + 1 + ctx <= MAX_INT && 2 * ctx <= MAX_INT ==> Unified.NoWrap(gs, ctx)
  {
    hide Aligned, Patched, FileText, Unified.Output, OneLiners, Unified.NoWrap, Tagged, Terminated, ShowsContext, LinesOf;
    gs := [];
    if data1 == data2 { return Same, []; }
    if IsBinary(data1) || IsBinary(data2) { return BinaryFilesDiffer, []; }
    var s, t, groups := FileGroups(data1, data2);
    gs := groups;
    if |groups| == 0 {
      assert false;
      return Same, [];
    }
    var a, b := Tagged(s.lines, s.noEOL), Tagged(t.lines, t.noEOL);
    var w := new Sink();
    Unified.EmitUnified(w, ctx, a, b, groups);
    assert w.lines == Unified.Output(a, b, groups, ctx, 0);
    r := Difference(w.Text(), false);
    LineCount(s.lines, s.noEOL);
    LineCount(t.lines, t.noEOL);
    SideLines(s, data1);
    SideLines(t, data2);
    HunksMakeNew(s, t, groups, ctx, data1, data2);
    if |data1| + 1 + ctx <= MAX_INT && 2 * ctx <= MAX_INT {
      NoWrapFor(a, b, groups, ctx);
    }
  }

  lemma HunksMakeNew(s: Side, t: Side, gs: seq<Group>, ctx: nat, data1: string, data2: string)
    requires SideOf(s, data1) && SideOf(t, data2) && |s.lines| + |t.lines| <= MAX_INT && ctx <= MAX_INT
    requires Aligned(Tagged(s.lines, s.noEOL), Tagged(t.lines, t.noEOL), gs)
    ensures Patched(data1, Unlines(Unified.Output(Tagged(s.lines, s.noEOL), Tagged(t.lines, t.noEOL), gs, ctx, 0)))
            == if Unified.NoWrap(gs, ctx) then Some(data2) else None
    ensures Unified.NoWrap(gs, ctx) ==>
              ShowsContext(Unlines(Unified.Output(Tagged(s.lines, s.noEOL), Tagged(t.lines, t.noEOL), gs, ctx, 0)), data1, gs, ctx)
  {
    var a, b := Tagged(s.lines, s.noEOL), Tagged(t.lines, t.noEOL);
    assert Unified.OneLineEach(a) && Unified.OneLineEach(b);
    hide Aligned, Unified.NoWrap, Unified.Apply, Unified.Output, FileText, PlainLines, TextOf, Tagged, Completed, TerminatedLines,
      UnifiedContext.ShowFrom;
    SideLines(s, data1);
    if Unified.NoWrap(gs, ctx) {
      UnifiedContext.ContextShown(a, b, gs, ctx);
    }
    Unified.OutputIsOneLiners(a, b, gs, ctx, 0);
    TerminatedLinesOf(Unified.Output(a, b, gs, ctx, 0));
    Unified.PatchGivesNewIffNoWrap(a, b, gs, ctx);
    TextOfTagged(t.lines, t.noEOL);
  }
}
