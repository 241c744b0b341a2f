/** The unified format of `diff -u`, and a patch program that applies it. */
module Unified {
  import opened Common
  import opened Decimal
  import opened Int64
  import opened Lines
  import opened Groups

  // ---------------------------------------------------------------------
  // Hunks

  /** One hunk: groups first..last, old lines [hs, he), new lines [hbs, hbe). */
  datatype Hunk = Hunk(first: nat, last: nat, hs: int, he: int, hbs: int, hbe: int)

  /** The last group of the hunk that begins with or continues at group j. */
  function MergeEnd(gs: seq<Group>, ctx: nat, j: nat): (r: nat)
    requires j < |gs|
    ensures j <= r < |gs|
    decreases |gs| - j
  {
    if j + 1 < |gs| && gs[j + 1].a0 - gs[j].a1 <= Wrap(2 * ctx) then MergeEnd(gs, ctx, j + 1) else j
  }

  function HunkAt(gs: seq<Group>, n: nat, ctx: nat, i: nat, j: nat): Hunk
    requires i <= j < |gs|
  {
    var hs := if gs[i].a0 - ctx < 0 then 0 else gs[i].a0 - ctx;
    var end := Wrap(gs[j].a1 + ctx);
    var he := if end > n then n else end;
    Hunk(i, j, hs, he, gs[i].b0 - (gs[i].a0 - hs), gs[j].b1 + (he - gs[j].a1))
  }

  function Hunks(gs: seq<Group>, n: nat, ctx: nat, i: nat): seq<Hunk>
    requires i <= |gs|
    decreases |gs| - i
  {
    if i == |gs| then []
    else
      var j := MergeEnd(gs, ctx, i);
      [HunkAt(gs, n, ctx, i, j)] + Hunks(gs, n, ctx, j + 1)
  }

  /** The hunk holds its groups and stays inside both files. */
  ghost predicate HunkInBounds(gs: seq<Group>, n: nat, m: nat, h: Hunk) {
    && h.first <= h.last < |gs|
    && 0 <= h.hs <= gs[h.first].a0 && gs[h.last].a1 <= h.he <= n
    && 0 <= h.hbs <= gs[h.first].b0 && gs[h.last].b1 <= h.hbe <= m
  }

  /** Hunks stay in bounds and no old line is in two of them. */
  ghost predicate HunksSound(gs: seq<Group>, n: nat, m: nat, hs: seq<Hunk>) {
    && (forall k | 0 <= k < |hs| :: HunkInBounds(gs, n, m, hs[k]))
    && (forall k | 0 <= k < |hs| - 1 :: Follows(hs, k))
  }

  ghost predicate Follows(hs: seq<Hunk>, k: nat)
    requires k + 1 < |hs|
  {
    hs[k].he <= hs[k + 1].hs && hs[k].hbe <= hs[k + 1].hbs
  }

  /** The additions and doublings of the context length do not wrap. */
  predicate NoWrap(gs: seq<Group>, ctx: nat) {
    |gs| > 0 ==> gs[|gs| - 1].a1 + ctx <= MAX_INT && (|gs| > 1 ==> 2 * ctx <= MAX_INT)
  }

  /** Group i starts a hunk: too many unchanged lines lie before it to be merged. */
  ghost predicate StartsHunk(gs: seq<Group>, ctx: nat, i: nat)
    requires i <= |gs|
  {
    0 < i < |gs| ==> gs[i].a0 - gs[i - 1].a1 > 2 * ctx
  }

  lemma GapFacts<T>(a: seq<T>, b: seq<T>, gs: seq<Group>, k: nat)
    requires Aligned(a, b, gs) && k <= |gs|
    ensures k < |gs| ==> InBounds(a, b, gs[k])
    ensures SameLines(a, b, GapStart(gs, k), GapEnd(a, b, gs, k))
    ensures GapEnd(a, b, gs, k).0 - GapStart(gs, k).0 == GapEnd(a, b, gs, k).1 - GapStart(gs, k).1
    ensures 0 < k < |gs| ==> gs[k - 1].a1 < gs[k].a0
  {
    assert SameLines(a, b, GapStart(gs, k), GapEnd(a, b, gs, k));
    var (i, j) := GapStart(gs, k);
    var (i', j') := GapEnd(a, b, gs, k);
    assert |a[i..i']| == |b[j..j']|;
    if 0 < k < |gs| {
      assert Separated(gs, k);
    }
  }

  /** Groups and gaps follow each other on both sides. */
  lemma {:induction false} GroupOrder<T>(a: seq<T>, b: seq<T>, gs: seq<Group>, i: nat, j: nat)
    requires Aligned(a, b, gs) && i <= j < |gs|
    ensures gs[i].a0 <= gs[j].a0 && gs[i].a1 <= gs[j].a1 && gs[i].b0 <= gs[j].b0 && gs[i].b1 <= gs[j].b1
    decreases j - i
  {
    hide Aligned;
    GapFacts(a, b, gs, i);
    if i < j {
      GapFacts(a, b, gs, i + 1);
      GroupOrder(a, b, gs, i + 1, j);
    }
  }

  lemma {:induction false} MergeStops(gs: seq<Group>, ctx: nat, j: nat)
    requires j < |gs| && (|gs| > 1 ==> 2 * ctx <= MAX_INT)
    ensures StartsHunk(gs, ctx, MergeEnd(gs, ctx, j) + 1)
    decreases |gs| - j
  {
    WrapRange(2 * ctx);
    if j + 1 < |gs| && gs[j + 1].a0 - gs[j].a1 <= Wrap(2 * ctx) {
      MergeStops(gs, ctx, j + 1);
    }
  }

  /** A hunk begins and ends inside the gaps around its groups. */
  lemma HunkFits<T>(a: seq<T>, b: seq<T>, gs: seq<Group>, ctx: nat, i: nat)
    requires Aligned(a, b, gs) && NoWrap(gs, ctx) && i < |gs| && StartsHunk(gs, ctx, i)
    ensures var j := MergeEnd(gs, ctx, i);
            var h := HunkAt(gs, |a|, ctx, i, j);
            && StartsHunk(gs, ctx, j + 1)
            && HunkInBounds(gs, |a|, |b|, h)
            && GapStart(gs, i).0 <= h.hs && h.hbs - GapStart(gs, i).1 == h.hs - GapStart(gs, i).0
            && h.he <= GapEnd(a, b, gs, j + 1).0 && h.hbe - gs[j].b1 == h.he - gs[j].a1
            && (j + 1 < |gs| ==> h.he <= gs[j + 1].a0 - ctx)
  {
    hide Aligned, Wrap, SameLines, MergeEnd;
    var j := MergeEnd(gs, ctx, i);
    MergeStops(gs, ctx, i);
    GroupOrder(a, b, gs, i, j);
    GroupOrder(a, b, gs, j, |gs| - 1);
    GapFacts(a, b, gs, i);
    GapFacts(a, b, gs, j);
    GapFacts(a, b, gs, j + 1);
    WrapRange(gs[j].a1 + ctx);
  }

  /** Without wrap-around the hunks are in bounds, in order and disjoint on both
      sides. */
  lemma {:induction false} HunksFit<T>(a: seq<T>, b: seq<T>, gs: seq<Group>, ctx: nat, i: nat)
    requires Aligned(a, b, gs) && NoWrap(gs, ctx) && i <= |gs| && StartsHunk(gs, ctx, i)
    ensures HunksSound(gs, |a|, |b|, Hunks(gs, |a|, ctx, i))
    decreases |gs| - i
  {
    hide Aligned, NoWrap, MergeEnd;
    if i < |gs| {
      var j := MergeEnd(gs, ctx, i);
      HunkFits(a, b, gs, ctx, i);
      HunksFit(a, b, gs, ctx, j + 1);
      var rest := Hunks(gs, |a|, ctx, j + 1);
      var hs := Hunks(gs, |a|, ctx, i);
      if j + 1 < |gs| {
        HunkFits(a, b, gs, ctx, j + 1);
        GapFacts(a, b, gs, j + 1);
      }
      forall k | 0 <= k < |hs| - 1
        ensures Follows(hs, k)
      {
        assert k > 0 ==> Follows(rest, k - 1);
      }
    }
  }

  /** The hunk of the last group comes last. */
  lemma NoHunks(gs: seq<Group>, n: nat, ctx: nat)
    ensures Hunks(gs, n, ctx, |gs|) == []
  {
  }

  lemma {:induction false} LastHunk(gs: seq<Group>, n: nat, ctx: nat, i: nat)
    requires i < |gs|
    ensures var hs := Hunks(gs, n, ctx, i);
            hs != [] && hs[|hs| - 1].last == |gs| - 1
            && hs[|hs| - 1].first < |gs| && hs[|hs| - 1] == HunkAt(gs, n, ctx, hs[|hs| - 1].first, |gs| - 1)
    decreases |gs| - i
  {
    HunksNext(gs, n, ctx, i);
    hide Hunks, MergeEnd, Wrap;
    var j := MergeEnd(gs, ctx, i);
    if j + 1 < |gs| {
      LastHunk(gs, n, ctx, j + 1);
    } else {
      NoHunks(gs, n, ctx);
    }
  }

  /** Exactly when the context arithmetic does not wrap are the hunks in bounds and
      disjoint. */
  lemma HunksSoundIffNoWrap<T>(a: seq<T>, b: seq<T>, gs: seq<Group>, ctx: nat)
    requires Aligned(a, b, gs) && |a| <= MAX_INT && ctx <= MAX_INT
    ensures HunksSound(gs, |a|, |b|, Hunks(gs, |a|, ctx, 0)) <==> NoWrap(gs, ctx)
  {
    hide Aligned, Hunks, HunksSound;
    if NoWrap(gs, ctx) {
      HunksFit(a, b, gs, ctx, 0);
    } else if gs[|gs| - 1].a1 + ctx > MAX_INT {
      WrappedEnd(a, b, gs, ctx);
    } else {
      WrappedMerge(a, b, gs, ctx);
    }
  }

  /** When the last group's end plus the context wraps, the last hunk ends out of bounds. */
  lemma WrappedEnd<T>(a: seq<T>, b: seq<T>, gs: seq<Group>, ctx: nat)
    requires Aligned(a, b, gs) && |a| <= MAX_INT && ctx <= MAX_INT && |gs| > 0 && gs[|gs| - 1].a1 + ctx > MAX_INT
    ensures !HunksSound(gs, |a|, |b|, Hunks(gs, |a|, ctx, 0))
  {
    hide Aligned, Wrap, Hunks;
    var hs := Hunks(gs, |a|, ctx, 0);
    LastHunk(gs, |a|, ctx, 0);
    GapFacts(a, b, gs, |gs| - 1);
    WrapRange(gs[|gs| - 1].a1 + ctx);
    assert !HunkInBounds(gs, |a|, |b|, hs[|hs| - 1]);
  }

  lemma HunksNext(gs: seq<Group>, n: nat, ctx: nat, i: nat)
    requires i < |gs|
    ensures var j := MergeEnd(gs, ctx, i);
            Hunks(gs, n, ctx, i) == [HunkAt(gs, n, ctx, i, j)] + Hunks(gs, n, ctx, j + 1)
  {
  }

  /** Two groups are not merged, and the second hunk begins before the first ends. */
  lemma Unmerged<T>(a: seq<T>, b: seq<T>, gs: seq<Group>, ctx: nat)
    requires Aligned(a, b, gs) && |a| <= MAX_INT && ctx <= MAX_INT
    requires |gs| > 1 && 2 * ctx > MAX_INT && gs[|gs| - 1].a1 + ctx <= MAX_INT
    ensures MergeEnd(gs, ctx, 0) == 0 && gs[0].a1 + ctx <= MAX_INT
    ensures HunkAt(gs, |a|, ctx, 1, MergeEnd(gs, ctx, 1)).hs < HunkAt(gs, |a|, ctx, 0, 0).he
  {
    WrapRange(2 * ctx);
    GapFacts(a, b, gs, 0);
    GapFacts(a, b, gs, 1);
    GroupOrder(a, b, gs, 0, |gs| - 1);
    WrapRange(gs[0].a1 + ctx);
    hide Aligned, Wrap, SameLines;
  }

  /** When twice the context wraps, neighbouring hunks overlap. */
  lemma WrappedMerge<T>(a: seq<T>, b: seq<T>, gs: seq<Group>, ctx: nat)
    requires Aligned(a, b, gs) && |a| <= MAX_INT && ctx <= MAX_INT && |gs| > 1 && 2 * ctx > MAX_INT
    requires gs[|gs| - 1].a1 + ctx <= MAX_INT
    ensures !HunksSound(gs, |a|, |b|, Hunks(gs, |a|, ctx, 0))
  {
    hide Aligned, Hunks, MergeEnd, HunkAt;
    var hs := Hunks(gs, |a|, ctx, 0);
    Unmerged(a, b, gs, ctx);
    HunksNext(gs, |a|, ctx, 0);
    HunksNext(gs, |a|, ctx, 1);
    assert hs[0] == HunkAt(gs, |a|, ctx, 0, 0) && hs[1] == HunkAt(gs, |a|, ctx, 1, MergeEnd(gs, ctx, 1));
    assert !Follows(hs, 0);
  }

  /** A context length of 2^62 doubles to a negative number: two groups one line apart
      become two hunks that both claim the line between them. */
  lemma WrapMakesHunksOverlap()
    ensures var gs := [Group(0, 1, 0, 1), Group(2, 3, 2, 3)];
            var hs := Hunks(gs, 3, 0x4000_0000_0000_0000, 0);
            |hs| == 2 && hs[0].he == 3 && hs[1].hs == 0
  {
    var gs := [Group(0, 1, 0, 1), Group(2, 3, 2, 3)];
    var ctx := 0x4000_0000_0000_0000;
    assert Wrap(2 * ctx) < 0;
    assert MergeEnd(gs, ctx, 0) == 0 && MergeEnd(gs, ctx, 1) == 1;
    WrapRange(1 + ctx);
    WrapRange(3 + ctx);
    HunksNext(gs, 3, ctx, 0);
    HunksNext(gs, 3, ctx, 1);
    NoHunks(gs, 3, ctx);
    hide Hunks, MergeEnd, Wrap;
  }

  // ---------------------------------------------------------------------
  // What emitUnified writes, line by line

  /** A line and whether it is an unterminated last line. */
  type Line = (string, bool)

  const NO_NEWLINE: string := "\\ No newline at end of file"

  function Show(mark: char, l: Line): seq<string> {
    [[mark] + l.0] + if l.1 then [NO_NEWLINE] else []
  }

  function ShowAll(mark: char, ls: seq<Line>): seq<string> {
    if ls == [] then [] else Show(mark, ls[0]) + ShowAll(mark, ls[1..])
  }

  function UnifiedRange(start0: int, count: int): string {
    if count == 1 then Text(Wrap(start0 + 1))
    else if count == 0 then Text(start0) + ",0"
    else Text(Wrap(start0 + 1)) + "," + Text(count)
  }

  /** The ends of the ranges are only printed as lengths, and those wrap. */
  function Header(h: Hunk): string {
    "@@ -" + UnifiedRange(h.hs, Wrap(h.he - h.hs)) + " +" + UnifiedRange(h.hbs, Wrap(h.hbe - h.hbs)) + " @@"
  }

  /** The body of a hunk from group g on, the old side standing at line ai. */
  function Body(a: seq<Line>, b: seq<Line>, gs: seq<Group>, g: nat, last: nat, ai: int, he: int): seq<string>
    requires Aligned(a, b, gs) && g <= last + 1 <= |gs|
    requires 0 <= ai <= (if g <= last then gs[g].a0 else |a|) && he <= |a|
    decreases last + 1 - g
  {
    if g == last + 1 then ShowAll(' ', a[ai..if ai < he then he else ai])
    else
      assert InBounds(a, b, gs[g]);
      assert g < last ==> Separated(gs, g + 1);
      ShowAll(' ', a[ai..gs[g].a0]) + ShowAll('-', a[gs[g].a0..gs[g].a1]) + ShowAll('+', b[gs[g].b0..gs[g].b1])
      + Body(a, b, gs, g + 1, last, gs[g].a1, he)
  }

  /** The hunks from group i on. */
  function Output(a: seq<Line>, b: seq<Line>, gs: seq<Group>, ctx: nat, i: nat): seq<string>
    requires Aligned(a, b, gs) && i <= |gs|
    decreases |gs| - i
  {
    if i == |gs| then []
    else
      var j := MergeEnd(gs, ctx, i);
      var h := HunkAt(gs, |a|, ctx, i, j);
      [Header(h)] + (Body(a, b, gs, i, j, h.hs, h.he) + Output(a, b, gs, ctx, j + 1))
  }

  // ---------------------------------------------------------------------
  // A patch program

  /** A range of a header: the line before which it begins and its length. */
  datatype Range = Range(start0: nat, count: nat)

  /** A range at the front of a text, and the text after it. */
  function ReadRange(s: string): Option<(Range, string)> {
    var k := LeadingDigits(s);
    if k == 0 then None
    else
      var v, rest := Value(s[..k]), s[k..];
      if rest != [] && rest[0] == ',' then
        var tail := rest[1..];
        var k' := LeadingDigits(tail);
        var count := Value(tail[..k']);
        if k' == 0 || (count > 0 && v == 0) then None
        else Some((Range(if count == 0 then v else v - 1, count), tail[k'..]))
      else if v == 0 then None
      else Some((Range(v - 1, 1), rest))
  }

  function ReadHeader(s: string): Option<(Range, Range)> {
    if !("@@ -" <= s) then None
    else match ReadRange(s[4..])
      case None => None
      case Some((o, rest)) =>
        if !(" +" <= rest) then None
        else match ReadRange(rest[2..])
          case None => None
          case Some((n, rest')) => if rest' == " @@" then Some((o, n)) else None
  }

  /** How far the patch has come: old lines consumed, new lines produced, patch lines
      left. */
  datatype Patching = Patching(pos: nat, out: seq<Line>, rest: seq<string>)

  predicate IsMarker(lines: seq<string>) {
    lines != [] && lines[0] != [] && lines[0][0] == '\\'
  }

  /** One line of a hunk body with the marker that may follow it. */
  function ReadEntry(lines: seq<string>): Option<(char, Line, nat)> {
    if lines == [] || lines[0] == [] then None
    else
      var flag := IsMarker(lines[1..]);
      Some((lines[0][0], (lines[0][1..], flag), if flag then 2 else 1))
  }

  /** The body of a hunk; a line that does not match the old text is an error. */
  function ApplyBody(a: seq<Line>, p: Patching, oldLeft: nat, newLeft: nat): (r: Option<Patching>)
    ensures r.Some? ==> |r.value.rest| <= |p.rest|
    decreases |p.rest|
  {
    if oldLeft == 0 && newLeft == 0 then Some(p)
    else match ReadEntry(p.rest)
      case None => None
      case Some((mark, line, k)) =>
        if mark == ' ' && oldLeft > 0 && newLeft > 0 && p.pos < |a| && a[p.pos] == line then
          ApplyBody(a, Patching(p.pos + 1, p.out + [line], p.rest[k..]), oldLeft - 1, newLeft - 1)
        else if mark == '-' && oldLeft > 0 && p.pos < |a| && a[p.pos] == line then
          ApplyBody(a, Patching(p.pos + 1, p.out, p.rest[k..]), oldLeft - 1, newLeft)
        else if mark == '+' && newLeft > 0 then
          ApplyBody(a, Patching(p.pos, p.out + [line], p.rest[k..]), oldLeft, newLeft - 1)
        else None
  }

  function Apply(a: seq<Line>, p: Patching): Option<seq<Line>>
    decreases |p.rest|
  {
    if p.pos > |a| then None
    else if p.rest == [] then Some(p.out + a[p.pos..])
    else match ReadHeader(p.rest[0])
      case None => None
      case Some((o, n)) =>
        if p.pos <= o.start0 <= |a| && n.start0 == |p.out| + o.start0 - p.pos then
          match ApplyBody(a, Patching(o.start0, p.out + a[p.pos..o.start0], p.rest[1..]), o.count, n.count)
          case None => None
          case Some(p') => Apply(a, p')
        else None
  }

  // ---------------------------------------------------------------------
  // Reading back what was printed

  /** A number, a comma and a number at the front of a text. */
  lemma ReadPair(first: nat, count: nat, rest: string)
    requires rest != [] && !IsDigit(rest[0]) && (count == 0 || first > 0)
    ensures ReadRange(Numeral(first) + ([','] + (Numeral(count) + rest)))
            == Some((Range(if count == 0 then first else first - 1, count), rest))
  {
    hide Numeral, Value, LeadingDigits;
    var tail := Numeral(count) + rest;
    ReadNumeral(first, [','] + tail);
    assert ([','] + tail)[1..] == tail;
    ReadNumeral(count, rest);
  }

  lemma ReadPrintedRange(start0: nat, count: nat, rest: string)
    requires rest != [] && !IsDigit(rest[0]) && rest[0] != ',' && (count == 0 || start0 < MAX_INT)
    ensures ReadRange(UnifiedRange(start0, count) + rest) == Some((Range(start0, count), rest))
  {
    WrapRange(start0 + 1);
    hide Numeral, Value, LeadingDigits, Wrap;
    if count == 1 {
      ReadNumeral(start0 + 1, rest);
    } else {
      ZeroNumeral();
      hide ReadRange;
      var first := if count == 0 then start0 else start0 + 1;
      assert UnifiedRange(start0, count) + rest == Numeral(first) + ([','] + (Numeral(count) + rest));
      ReadPair(first, count, rest);
    }
  }

  lemma ZeroNumeral()
    ensures Numeral(0) == "0"
  {
  }

  /** A header whose ranges make sense reads back as them. */
  lemma ReadPrintedHeader(h: Hunk)
    requires 0 <= h.hs <= h.he <= MAX_INT && 0 <= h.hbs <= h.hbe <= MAX_INT
    ensures ReadHeader(Header(h)) == Some((Range(h.hs, h.he - h.hs), Range(h.hbs, h.hbe - h.hbs)))
  {
    WrapRange(h.he - h.hs);
    WrapRange(h.hbe - h.hbs);
    hide UnifiedRange, ReadRange, Wrap;
    var o, n := UnifiedRange(h.hs, h.he - h.hs), UnifiedRange(h.hbs, h.hbe - h.hbs);
    var rest := " +" + n + " @@";
    assert Header(h) == "@@ -" + (o + rest);
    ReadPrintedRange(h.hs, h.he - h.hs, rest);
    assert Header(h)[4..] == o + rest;
    assert rest[2..] == n + " @@";
    ReadPrintedRange(h.hbs, h.hbe - h.hbs, " @@");
  }

  // ---------------------------------------------------------------------
  // Applying a hunk

  lemma ReadShown(mark: char, l: Line, tail: seq<string>)
    requires mark != '\\' && !IsMarker(tail)
    ensures ReadEntry(Show(mark, l) + tail) == Some((mark, l, |Show(mark, l)|))
    ensures (Show(mark, l) + tail)[|Show(mark, l)|..] == tail
    ensures !IsMarker(Show(mark, l) + tail)
  {
    var lines := Show(mark, l) + tail;
    assert lines[0] == [mark] + l.0 && lines[0][1..] == l.0;
    if l.1 {
      assert lines[1..][0] == NO_NEWLINE;
    } else {
      assert lines[1..] == tail;
    }
  }

  lemma {:induction false} ShownIsNoMarker(mark: char, ls: seq<Line>, tail: seq<string>)
    requires mark != '\\' && !IsMarker(tail)
    ensures !IsMarker(ShowAll(mark, ls) + tail)
  {
    if ls == [] {
      assert ShowAll(mark, ls) + tail == tail;
    }
  }

  /** Context lines are copied. */
  lemma {:induction false} ApplyContext(a: seq<Line>, pos: nat, out: seq<Line>, ls: seq<Line>, tail: seq<string>, o: nat, n: nat)
    requires pos + |ls| <= |a| && ls == a[pos..pos + |ls|] && |ls| <= o && |ls| <= n && !IsMarker(tail)
    ensures ApplyBody(a, Patching(pos, out, ShowAll(' ', ls) + tail), o, n)
            == ApplyBody(a, Patching(pos + |ls|, out + ls, tail), o - |ls|, n - |ls|)
    decreases |ls|
  {
    hide ApplyBody, Show, ReadEntry;
    if ls == [] {
      assert ShowAll(' ', ls) + tail == tail && out + ls == out;
    } else {
      var l, ls' := ls[0], ls[1..];
      assert l == a[pos] && ls' == a[pos + 1..pos + 1 + |ls'|];
      var rest := ShowAll(' ', ls') + tail;
      assert ShowAll(' ', ls) + tail == Show(' ', l) + rest;
      ShownIsNoMarker(' ', ls', tail);
      ApplyOne(a, pos, out, ' ', l, rest, o, n);
      ApplyContext(a, pos + 1, out + [l], ls', tail, o - 1, n - 1);
      assert out + [l] + ls' == out + ls;
    }
  }

  lemma ApplyOne(a: seq<Line>, pos: nat, out: seq<Line>, mark: char, l: Line, tail: seq<string>, o: nat, n: nat)
    requires !IsMarker(tail)
    ensures mark == ' ' && pos < |a| && a[pos] == l && o > 0 && n > 0 ==>
              ApplyBody(a, Patching(pos, out, Show(mark, l) + tail), o, n)
              == ApplyBody(a, Patching(pos + 1, out + [l], tail), o - 1, n - 1)
    ensures mark == '-' && pos < |a| && a[pos] == l && o > 0 ==>
              ApplyBody(a, Patching(pos, out, Show(mark, l) + tail), o, n)
              == ApplyBody(a, Patching(pos + 1, out, tail), o - 1, n)
    ensures mark == '+' && n > 0 ==>
              ApplyBody(a, Patching(pos, out, Show(mark, l) + tail), o, n)
              == ApplyBody(a, Patching(pos, out + [l], tail), o, n - 1)
  {
    hide Show, ReadEntry;
    if mark != '\\' {
      ReadShown(mark, l, tail);
    }
  }

  /** Deleted lines are skipped. */
  lemma {:induction false} ApplyDeleted(a: seq<Line>, pos: nat, out: seq<Line>, ls: seq<Line>, tail: seq<string>, o: nat, n: nat)
    requires pos + |ls| <= |a| && ls == a[pos..pos + |ls|] && |ls| <= o && !IsMarker(tail)
    ensures ApplyBody(a, Patching(pos, out, ShowAll('-', ls) + tail), o, n)
            == ApplyBody(a, Patching(pos + |ls|, out, tail), o - |ls|, n)
    decreases |ls|
  {
    hide ApplyBody, Show, ReadEntry;
    if ls == [] {
      assert ShowAll('-', ls) + tail == tail;
    } else {
      var l, ls' := ls[0], ls[1..];
      assert l == a[pos] && ls' == a[pos + 1..pos + 1 + |ls'|];
      var rest := ShowAll('-', ls') + tail;
      assert ShowAll('-', ls) + tail == Show('-', l) + rest;
      ShownIsNoMarker('-', ls', tail);
      ApplyOne(a, pos, out, '-', l, rest, o, n);
      ApplyDeleted(a, pos + 1, out, ls', tail, o - 1, n);
    }
  }

  /** Inserted lines are added. */
  lemma {:induction false} ApplyInserted(a: seq<Line>, pos: nat, out: seq<Line>, ls: seq<Line>, tail: seq<string>, o: nat, n: nat)
    requires |ls| <= n && !IsMarker(tail)
    ensures ApplyBody(a, Patching(pos, out, ShowAll('+', ls) + tail), o, n)
            == ApplyBody(a, Patching(pos, out + ls, tail), o, n - |ls|)
    decreases |ls|
  {
    hide ApplyBody, Show, ReadEntry;
    if ls == [] {
      assert ShowAll('+', ls) + tail == tail && out + ls == out;
    } else {
      var l, ls' := ls[0], ls[1..];
      var rest := ShowAll('+', ls') + tail;
      assert ShowAll('+', ls) + tail == Show('+', l) + rest;
      ShownIsNoMarker('+', ls', tail);
      ApplyOne(a, pos, out, '+', l, rest, o, n);
      ApplyInserted(a, pos, out + [l], ls', tail, o, n - 1);
      assert out + [l] + ls' == out + ls;
    }
  }

  /** Part of a stretch on which the two files agree. */
  lemma SameStretch<T>(a: seq<T>, b: seq<T>, from: (nat, nat), to: (nat, nat), i: int, i': int)
    requires SameLines(a, b, from, to) && from.0 <= i <= i' <= to.0
    ensures 0 <= i - from.0 + from.1 <= i' - from.0 + from.1 <= |b|
    ensures a[i..i'] == b[i - from.0 + from.1..i' - from.0 + from.1]
  {
    assert |a[from.0..to.0]| == |b[from.1..to.1]|;
    Slice(a, from.0, to.0, i - from.0, i' - from.0);
    Slice(b, from.1, to.1, i - from.0, i' - from.0);
  }

  lemma Append<T>(b: seq<T>, i: nat, j: nat)
    requires i <= j <= |b|
    ensures b[..i] + b[i..j] == b[..j]
  {
  }

  lemma {:induction false} BodyIsNoMarker(a: seq<Line>, b: seq<Line>, gs: seq<Group>, g: nat, last: nat, ai: int, he: int, tail: seq<string>)
    requires Aligned(a, b, gs) && g <= last + 1 <= |gs| && he <= |a| && !IsMarker(tail)
    requires 0 <= ai <= (if g <= last then gs[g].a0 else |a|)
    ensures !IsMarker(Body(a, b, gs, g, last, ai, he) + tail)
    decreases last + 1 - g
  {
    hide Aligned, ShowAll;
    if g == last + 1 {
      ShownIsNoMarker(' ', a[ai..if ai < he then he else ai], tail);
    } else {
      GapFacts(a, b, gs, g);
      if g < last { GapFacts(a, b, gs, g + 1); }
      var rest := Body(a, b, gs, g + 1, last, gs[g].a1, he);
      BodyIsNoMarker(a, b, gs, g + 1, last, gs[g].a1, he, tail);
      var ins, del, con := ShowAll('+', b[gs[g].b0..gs[g].b1]), ShowAll('-', a[gs[g].a0..gs[g].a1]), ShowAll(' ', a[ai..gs[g].a0]);
      ShownIsNoMarker('+', b[gs[g].b0..gs[g].b1], rest + tail);
      ShownIsNoMarker('-', a[gs[g].a0..gs[g].a1], ins + (rest + tail));
      ShownIsNoMarker(' ', a[ai..gs[g].a0], del + (ins + (rest + tail)));
      assert con + del + ins + rest + tail == con + (del + (ins + (rest + tail)));
    }
  }

  /** The context before a group and the group itself. */
  lemma GroupApplies(a: seq<Line>, b: seq<Line>, gr: Group, ai: nat, bi: nat, rest: seq<string>, o: nat, n: nat)
    requires ai <= gr.a0 <= gr.a1 <= |a| && bi <= gr.b0 <= gr.b1 <= |b| && a[ai..gr.a0] == b[bi..gr.b0]
    requires gr.a1 - ai <= o && gr.b1 - bi <= n && !IsMarker(rest)
    ensures ApplyBody(a, Patching(ai, b[..bi], ShowAll(' ', a[ai..gr.a0])
              + (ShowAll('-', a[gr.a0..gr.a1]) + (ShowAll('+', b[gr.b0..gr.b1]) + rest))), o, n)
            == ApplyBody(a, Patching(gr.a1, b[..gr.b1], rest), o - (gr.a1 - ai), n - (gr.b1 - bi))
  {
    hide ShowAll, ApplyBody, IsMarker;
    var con, del, ins := a[ai..gr.a0], a[gr.a0..gr.a1], b[gr.b0..gr.b1];
    ShownIsNoMarker('+', ins, rest);
    ShownIsNoMarker('-', del, ShowAll('+', ins) + rest);
    assert |con| == gr.a0 - ai == gr.b0 - bi;
    Append(b, bi, gr.b0);
    Append(b, gr.b0, gr.b1);
    ApplyContext(a, ai, b[..bi], con, ShowAll('-', del) + (ShowAll('+', ins) + rest), o, n);
    ApplyDeleted(a, gr.a0, b[..gr.b0], del, ShowAll('+', ins) + rest, o - |con|, n - |con|);
    ApplyInserted(a, gr.a1, b[..gr.b0], ins, rest, o - |con| - |del|, n - |con|);
  }

  lemma BodyNext(a: seq<Line>, b: seq<Line>, gs: seq<Group>, g: nat, last: nat, ai: int, he: int, tail: seq<string>)
    requires Aligned(a, b, gs) && g <= last < |gs| && he <= |a| && 0 <= ai <= gs[g].a0
    ensures InBounds(a, b, gs[g]) && gs[g].a1 <= (if g < last then gs[g + 1].a0 else |a|)
    ensures Body(a, b, gs, g, last, ai, he) + tail
            == ShowAll(' ', a[ai..gs[g].a0]) + (ShowAll('-', a[gs[g].a0..gs[g].a1]) + (ShowAll('+', b[gs[g].b0..gs[g].b1])
               + (Body(a, b, gs, g + 1, last, gs[g].a1, he) + tail)))
  {
    hide Aligned, ShowAll;
    GapFacts(a, b, gs, g);
    if g < last { GapFacts(a, b, gs, g + 1); }
  }

  /** The body of a hunk takes both files from its first to its last line. */
  lemma {:induction false} BodyApplies(a: seq<Line>, b: seq<Line>, gs: seq<Group>, g: nat, last: nat,
                                       ai: nat, bi: nat, he: nat, hbe: nat, tail: seq<string>)
    requires Aligned(a, b, gs) && g <= last + 1 <= |gs| && !IsMarker(tail)
    requires gs[last].a1 <= he <= GapEnd(a, b, gs, last + 1).0 && hbe - gs[last].b1 == he - gs[last].a1
    requires GapStart(gs, g).0 <= ai <= (if g <= last then gs[g].a0 else he)
    requires bi - GapStart(gs, g).1 == ai - GapStart(gs, g).0
    ensures he <= |a| && hbe <= |b| && bi <= hbe && ai <= he
    ensures ApplyBody(a, Patching(ai, b[..bi], Body(a, b, gs, g, last, ai, he) + tail), he - ai, hbe - bi)
            == Some(Patching(he, b[..hbe], tail))
    decreases last + 1 - g
  {
    hide Aligned, ShowAll, ApplyBody, Body, IsMarker, SameLines, InBounds;
    HunkEnd(a, b, gs, last, he, hbe);
    GapFacts(a, b, gs, g);
    if g == last + 1 {
      TrailingApplies(a, b, gs, last, ai, bi, he, hbe, tail);
    } else {
      var gr := gs[g];
      BodyNext(a, b, gs, g, last, ai, he, tail);
      BodyApplies(a, b, gs, g + 1, last, gr.a1, gr.b1, he, hbe, tail);
      BodyIsNoMarker(a, b, gs, g + 1, last, gr.a1, he, tail);
      SameStretch(a, b, GapStart(gs, g), GapEnd(a, b, gs, g), ai, gr.a0);
      GroupApplies(a, b, gr, ai, bi, Body(a, b, gs, g + 1, last, gr.a1, he) + tail, he - ai, hbe - bi);
    }
  }

  /** The context after the last group. */
  lemma TrailingApplies(a: seq<Line>, b: seq<Line>, gs: seq<Group>, last: nat, ai: nat, bi: nat, he: nat, hbe: nat, tail: seq<string>)
    requires Aligned(a, b, gs) && last < |gs| && !IsMarker(tail)
    requires gs[last].a1 <= ai <= he <= GapEnd(a, b, gs, last + 1).0 && he <= |a|
    requires hbe - gs[last].b1 == he - gs[last].a1 && bi - gs[last].b1 == ai - gs[last].a1
    ensures bi <= hbe <= |b|
    ensures ApplyBody(a, Patching(ai, b[..bi], Body(a, b, gs, last + 1, last, ai, he) + tail), he - ai, hbe - bi)
            == Some(Patching(he, b[..hbe], tail))
  {
    hide Aligned, ShowAll, ApplyBody, Body, IsMarker, SameLines, InBounds;
    GapFacts(a, b, gs, last + 1);
    SameStretch(a, b, GapStart(gs, last + 1), GapEnd(a, b, gs, last + 1), ai, he);
    Append(b, bi, hbe);
    BodyEnd(a, b, gs, last, ai, he);
    ApplyContext(a, ai, b[..bi], a[ai..he], tail, he - ai, hbe - bi);
    ApplyNothing(a, Patching(he, b[..hbe], tail));
  }

  lemma HunkEnd(a: seq<Line>, b: seq<Line>, gs: seq<Group>, last: nat, he: nat, hbe: nat)
    requires Aligned(a, b, gs) && last < |gs| && gs[last].a1 <= he <= GapEnd(a, b, gs, last + 1).0
    requires hbe - gs[last].b1 == he - gs[last].a1
    ensures he <= |a| && hbe <= |b|
  {
    GapFacts(a, b, gs, last + 1);
  }

  lemma BodyEnd(a: seq<Line>, b: seq<Line>, gs: seq<Group>, last: nat, ai: int, he: int)
    requires Aligned(a, b, gs) && last < |gs| && he <= |a| && 0 <= ai <= |a|
    ensures Body(a, b, gs, last + 1, last, ai, he) == ShowAll(' ', a[ai..if ai < he then he else ai])
  {
  }

  lemma ApplyNothing(a: seq<Line>, p: Patching)
    ensures ApplyBody(a, p, 0, 0) == Some(p)
  {
  }

  lemma OutputIs(a: seq<Line>, b: seq<Line>, gs: seq<Group>, ctx: nat, i: nat, j: nat, h: Hunk)
    requires Aligned(a, b, gs) && i < |gs| && j == MergeEnd(gs, ctx, i) && h == HunkAt(gs, |a|, ctx, i, j)
    ensures h.first == i && h.last == j
    ensures Output(a, b, gs, ctx, i) == [Header(h)] + (Body(a, b, gs, i, j, h.hs, h.he) + Output(a, b, gs, ctx, j + 1))
  {
    hide Aligned, Body, Wrap, MergeEnd, Header;
  }

  lemma NoMoreOutput(a: seq<Line>, b: seq<Line>, gs: seq<Group>, ctx: nat)
    requires Aligned(a, b, gs)
    ensures Output(a, b, gs, ctx, |gs|) == []
  {
  }

  lemma OutputIsNoMarker(a: seq<Line>, b: seq<Line>, gs: seq<Group>, ctx: nat, i: nat)
    requires Aligned(a, b, gs) && i <= |gs|
    ensures !IsMarker(Output(a, b, gs, ctx, i)) && (i == |gs| ==> Output(a, b, gs, ctx, i) == [])
    ensures i < |gs| ==> Output(a, b, gs, ctx, i) != [] && Output(a, b, gs, ctx, i)[0] != [] && Output(a, b, gs, ctx, i)[0][0] == '@'
  {
    hide Aligned, Body, Output, Wrap, UnifiedRange, MergeEnd, HunkAt;
    if i < |gs| {
      OutputIs(a, b, gs, ctx, i, MergeEnd(gs, ctx, i), HunkAt(gs, |a|, ctx, i, MergeEnd(gs, ctx, i)));
    } else {
      NoMoreOutput(a, b, gs, ctx);
    }
  }

  /** One hunk of the patch: copy up to it, then apply its body. */
  lemma ApplyHunk(a: seq<Line>, pos: nat, out: seq<Line>, header: string, o: Range, n: Range, body: seq<string>, p': Patching)
    requires ReadHeader(header) == Some((o, n)) && pos <= o.start0 <= |a| && n.start0 == |out| + o.start0 - pos
    requires ApplyBody(a, Patching(o.start0, out + a[pos..o.start0], body), o.count, n.count) == Some(p')
    ensures Apply(a, Patching(pos, out, [header] + body)) == Apply(a, p')
  {
    assert ([header] + body)[1..] == body;
  }

  /** Copying the old lines up to a hunk brings the new side to its first line. */
  lemma CopyUpTo(a: seq<Line>, b: seq<Line>, gs: seq<Group>, ctx: nat, i: nat, h: Hunk, pos: nat, q: nat)
    requires Aligned(a, b, gs) && NoWrap(gs, ctx) && i < |gs| && StartsHunk(gs, ctx, i)
    requires h == HunkAt(gs, |a|, ctx, i, MergeEnd(gs, ctx, i))
    requires GapStart(gs, i).0 <= pos <= h.hs && q - GapStart(gs, i).1 == pos - GapStart(gs, i).0
    ensures pos <= h.hs <= |a| && q <= h.hbs <= |b| && h.hbs == q + h.hs - pos
    ensures b[..q] + a[pos..h.hs] == b[..h.hbs]
  {
    hide Aligned, NoWrap, MergeEnd;
    HunkFits(a, b, gs, ctx, i);
    GapFacts(a, b, gs, i);
    SameStretch(a, b, GapStart(gs, i), GapEnd(a, b, gs, i), pos, h.hs);
    Append(b, q, h.hbs);
  }

  lemma HunkRuns<T>(a: seq<T>, b: seq<T>, gs: seq<Group>, h: Hunk)
    requires Aligned(a, b, gs) && HunkInBounds(gs, |a|, |b|, h)
    ensures h.hs <= h.he && h.hbs <= h.hbe
  {
    GroupOrder(a, b, gs, h.first, h.last);
    GapFacts(a, b, gs, h.last);
  }

  /** From any point of the gap before group i, the first hunk leads into the gap
      after its last group. */
  lemma HunkApplies(a: seq<Line>, b: seq<Line>, gs: seq<Group>, ctx: nat, i: nat, j: nat, h: Hunk, pos: nat, q: nat)
    requires Aligned(a, b, gs) && NoWrap(gs, ctx) && i < |gs| && StartsHunk(gs, ctx, i) && |a| <= MAX_INT && |b| <= MAX_INT
    requires j == MergeEnd(gs, ctx, i) && h == HunkAt(gs, |a|, ctx, i, j)
    requires GapStart(gs, i).0 <= pos <= h.hs && q - GapStart(gs, i).1 == pos - GapStart(gs, i).0
    ensures StartsHunk(gs, ctx, j + 1) && q <= |b| && 0 <= h.he && 0 <= h.hbe <= |b|
    ensures Apply(a, Patching(pos, b[..q], Output(a, b, gs, ctx, i)))
            == Apply(a, Patching(h.he, b[..h.hbe], Output(a, b, gs, ctx, j + 1)))
  {
    hide Aligned, NoWrap, ApplyBody, Body, MergeEnd, ReadHeader, Output, Apply, HunkAt, Header, IsMarker;
    OutputIs(a, b, gs, ctx, i, j, h);
    HunkFits(a, b, gs, ctx, i);
    HunkRuns(a, b, gs, h);
    CopyUpTo(a, b, gs, ctx, i, h, pos, q);
    var tail := Output(a, b, gs, ctx, j + 1);
    OutputIsNoMarker(a, b, gs, ctx, j + 1);
    ReadPrintedHeader(h);
    BodyApplies(a, b, gs, i, j, h.hs, h.hbs, h.he, h.hbe, tail);
    ApplyHunk(a, pos, b[..q], Header(h), Range(h.hs, h.he - h.hs), Range(h.hbs, h.hbe - h.hbs),
              Body(a, b, gs, i, j, h.hs, h.he) + tail, Patching(h.he, b[..h.hbe], tail));
  }

  /** From any point of the gap before group i, the hunks from there on turn the rest
      of the old file into the rest of the new one. */
  lemma {:induction false} OutputApplies(a: seq<Line>, b: seq<Line>, gs: seq<Group>, ctx: nat, i: nat, pos: nat, q: nat)
    requires Aligned(a, b, gs) && NoWrap(gs, ctx) && i <= |gs| && StartsHunk(gs, ctx, i) && |a| <= MAX_INT && |b| <= MAX_INT
    requires GapStart(gs, i).0 <= pos <= GapEnd(a, b, gs, i).0 && q - GapStart(gs, i).1 == pos - GapStart(gs, i).0
    requires i < |gs| ==> pos <= HunkAt(gs, |a|, ctx, i, MergeEnd(gs, ctx, i)).hs
    ensures q <= |b|
    ensures Apply(a, Patching(pos, b[..q], Output(a, b, gs, ctx, i))) == Some(b)
    decreases |gs| - i
  {
    hide Aligned, NoWrap, MergeEnd, Apply, Output;
    GapFacts(a, b, gs, i);
    if i == |gs| {
      OutputEnds(a, b, gs, ctx, pos, q);
    } else {
      var j := MergeEnd(gs, ctx, i);
      var h := HunkAt(gs, |a|, ctx, i, j);
      HunkApplies(a, b, gs, ctx, i, j, h, pos, q);
      HunkFits(a, b, gs, ctx, i);
      if j + 1 < |gs| {
        HunkFits(a, b, gs, ctx, j + 1);
      }
      OutputApplies(a, b, gs, ctx, j + 1, h.he, h.hbe);
    }
  }

  lemma ApplyEnd(a: seq<Line>, pos: nat, out: seq<Line>)
    requires pos <= |a|
    ensures Apply(a, Patching(pos, out, [])) == Some(out + a[pos..])
  {
  }

  lemma OutputEnds(a: seq<Line>, b: seq<Line>, gs: seq<Group>, ctx: nat, pos: nat, q: nat)
    requires Aligned(a, b, gs) && NoWrap(gs, ctx)
    requires GapStart(gs, |gs|).0 <= pos <= |a| && q - GapStart(gs, |gs|).1 == pos - GapStart(gs, |gs|).0
    ensures q <= |b|
    ensures Apply(a, Patching(pos, b[..q], Output(a, b, gs, ctx, |gs|))) == Some(b)
  {
    hide Aligned, Apply, Output, NoWrap, SameLines;
    GapFacts(a, b, gs, |gs|);
    SameStretch(a, b, GapStart(gs, |gs|), GapEnd(a, b, gs, |gs|), pos, |a|);
    NoMoreOutput(a, b, gs, ctx);
    ApplyEnd(a, pos, b[..q]);
    assert a[pos..] == a[pos..|a|] && b[..q] + b[q..|b|] == b;
  }

  /** Applying the unified diff to the old lines gives the new lines. */
  lemma PatchGivesNew(a: seq<Line>, b: seq<Line>, gs: seq<Group>, ctx: nat)
    requires Aligned(a, b, gs) && NoWrap(gs, ctx) && |a| <= MAX_INT && |b| <= MAX_INT
    ensures Apply(a, Patching(0, [], Output(a, b, gs, ctx, 0))) == Some(b)
  {
    hide Aligned, NoWrap, Apply, Output;
    GapFacts(a, b, gs, 0);
    if |gs| > 0 { HunkFits(a, b, gs, ctx, 0); }
    assert b[..0] == [];
    OutputApplies(a, b, gs, ctx, 0, 0, 0);
  }

  // ---------------------------------------------------------------------
  // When the context length wraps, the patch program stops

  lemma WrapOnce(x: int)
    requires 0 <= x <= 2 * MAX_INT
    ensures Wrap(x) == Wrap(x - U64) && (Wrap(x) >= 0 ==> Wrap(x) == x)
    ensures x > MAX_INT ==> Wrap(x) == x - U64
  {
  }

  /** A printed range reads back as itself or not at all. */
  lemma RangeOrNone(start0: int, count: int, rest: string)
    requires rest != [] && !IsDigit(rest[0]) && rest[0] != ',' && -MAX_INT <= start0 <= MAX_INT
    ensures var r := ReadRange(UnifiedRange(start0, count) + rest);
            r == None || (start0 >= 0 && count >= 0 && r == Some((Range(start0, count), rest)))
  {
    if start0 >= 0 && count >= 0 && (count == 0 || start0 < MAX_INT) {
      ReadPrintedRange(start0, count, rest);
    } else {
      BadRange(start0, count, rest);
    }
  }

  lemma NoRange(rest: string)
    ensures ReadRange(['-'] + rest) == None
  {
  }

  lemma NoCount(first: nat, rest: string)
    ensures ReadRange(Numeral(first) + ([','] + (['-'] + rest))) == None
  {
    hide Numeral, Value;
    var tail := ['-'] + rest;
    ReadNumeral(first, [','] + tail);
    assert ([','] + tail)[1..] == tail;
  }

  lemma NoLine(count: nat, rest: string)
    requires rest != [] && !IsDigit(rest[0]) && rest[0] != ','
    ensures ReadRange(Numeral(0) + rest) == None
    ensures count > 0 ==> ReadRange(Numeral(0) + ([','] + (Numeral(count) + rest))) == None
  {
    hide Numeral, Value, LeadingDigits;
    var tail := Numeral(count) + rest;
    ReadNumeral(0, rest);
    ReadNumeral(0, [','] + tail);
    assert ([','] + tail)[1..] == tail;
    ReadNumeral(count, rest);
  }

  lemma NegativeFirst(first: int, rest: string)
    requires first < 0
    ensures ReadRange(Text(first) + rest) == None
  {
    hide Numeral, ReadRange;
    Regroup("-", Numeral(-first), rest);
    NoRange(Numeral(-first) + rest);
  }

  lemma NegativeCount(first: nat, count: int, rest: string)
    requires count < 0
    ensures ReadRange(Text(first) + "," + Text(count) + rest) == None
  {
    hide Numeral, ReadRange;
    var n, m := Numeral(first), Numeral(-count);
    assert n + "," + ("-" + m) + rest == n + ([','] + (['-'] + (m + rest)));
    NoCount(first, m + rest);
  }

  lemma ZeroFirst(count: nat, rest: string)
    requires rest != [] && !IsDigit(rest[0]) && rest[0] != ','
    ensures ReadRange(Text(0) + rest) == None
    ensures count > 0 ==> ReadRange(Text(0) + "," + Text(count) + rest) == None
  {
    hide Numeral, ReadRange;
    NoLine(count, rest);
    assert Numeral(0) + "," + Numeral(count) + rest == Numeral(0) + ([','] + (Numeral(count) + rest));
  }

  lemma BadRange(start0: int, count: int, rest: string)
    requires rest != [] && !IsDigit(rest[0]) && rest[0] != ',' && -MAX_INT <= start0 <= MAX_INT
    requires start0 < 0 || count < 0 || (count != 0 && start0 == MAX_INT)
    ensures ReadRange(UnifiedRange(start0, count) + rest) == None
  {
    WrapRange(start0 + 1);
    hide Text, ReadRange, Wrap;
    var first := if count == 0 then start0 else Wrap(start0 + 1);
    if first < 0 && count == 1 {
      NegativeFirst(first, rest);
    } else if first < 0 {
      var more := if count == 0 then ",0" else "," + Text(count);
      NegativeFirst(first, more + rest);
      Regroup(Text(first), more, rest);
      Regroup(Text(first), ",", Text(count));
    } else if count < 0 {
      NegativeCount(first, count, rest);
    } else {
      ZeroFirst(count, rest);
    }
  }

  lemma HeaderOrNone(h: Hunk)
    requires 0 <= h.hs <= MAX_INT && -MAX_INT <= h.hbs <= MAX_INT
    ensures var r := ReadHeader(Header(h)); var o, n := Wrap(h.he - h.hs), Wrap(h.hbe - h.hbs);
            r == None || (h.hbs >= 0 && o >= 0 && n >= 0 && r == Some((Range(h.hs, o), Range(h.hbs, n))))
  {
    hide UnifiedRange, ReadRange, Wrap;
    var o, n := UnifiedRange(h.hs, Wrap(h.he - h.hs)), UnifiedRange(h.hbs, Wrap(h.hbe - h.hbs));
    var rest := " +" + n + " @@";
    assert Header(h) == "@@ -" + (o + rest);
    RangeOrNone(h.hs, Wrap(h.he - h.hs), rest);
    assert Header(h)[4..] == o + rest;
    assert rest[2..] == n + " @@";
    RangeOrNone(h.hbs, Wrap(h.hbe - h.hbs), " @@");
  }

  /** The patch program has stopped, or has come to the tail with these lines to go. */
  ghost predicate StoppedOrAt(a: seq<Line>, r: Option<Patching>, tail: seq<string>, o: int, n: int) {
    r == None || (0 <= o && 0 <= n && exists pos: nat, out: seq<Line> :: r == ApplyBody(a, Patching(pos, out, tail), o, n))
  }

  lemma {:induction false} ShownTaken(a: seq<Line>, pos: nat, out: seq<Line>, mark: char, ls: seq<Line>, tail: seq<string>, o: nat, n: nat)
    requires mark in {' ', '-', '+'} && !IsMarker(tail) && (mark != '+' ==> |ls| <= o) && (mark != '-' ==> |ls| <= n)
    ensures StoppedOrAt(a, ApplyBody(a, Patching(pos, out, ShowAll(mark, ls) + tail), o, n), tail,
                        if mark == '+' then o else o - |ls|, if mark == '-' then n else n - |ls|)
    decreases |ls|
  {
    hide Show, ReadEntry;
    if ls == [] {
      assert ShowAll(mark, ls) + tail == tail;
    } else {
      var l, ls' := ls[0], ls[1..];
      var rest := ShowAll(mark, ls') + tail;
      assert ShowAll(mark, ls) + tail == Show(mark, l) + rest;
      ShownIsNoMarker(mark, ls', tail);
      ReadShown(mark, l, rest);
      if mark == '+' {
        ShownTaken(a, pos, out + [l], mark, ls', tail, o, n - 1);
      } else {
        ShownTaken(a, pos + 1, if mark == ' ' then out + [l] else out, mark, ls', tail, o - 1, if mark == ' ' then n - 1 else n);
      }
    }
  }

  /** The body of a hunk, groups g.. of it still to come. */
  lemma {:induction false} BodyTaken(a: seq<Line>, b: seq<Line>, gs: seq<Group>, g: nat, last: nat, ai: int, bi: int, he: int, end: int,
                                     tail: seq<string>, pos: nat, out: seq<Line>, o: nat, n: nat)
    requires Aligned(a, b, gs) && g <= last + 1 <= |gs| && he <= |a| && !IsMarker(tail)
    requires if g <= last then 0 <= ai <= gs[g].a0 && bi == gs[g].b0 - (gs[g].a0 - ai) else ai == gs[last].a1 && bi == gs[last].b1
    requires end == if gs[last].a1 < he then he else gs[last].a1
    requires end - ai <= o && gs[last].b1 + (end - gs[last].a1) - bi <= n
    ensures 0 <= ai <= (if g <= last then gs[g].a0 else |a|)
    ensures StoppedOrAt(a, ApplyBody(a, Patching(pos, out, Body(a, b, gs, g, last, ai, he) + tail), o, n), tail,
                        o - (end - ai), n - (gs[last].b1 + (end - gs[last].a1) - bi))
    decreases last + 1 - g
  {
    hide Aligned, ShowAll, ApplyBody, Body, IsMarker, SameLines;
    GapFacts(a, b, gs, last);
    if g == last + 1 {
      BodyEnd(a, b, gs, last, ai, he);
      ShownTaken(a, pos, out, ' ', a[ai..if ai < he then he else ai], tail, o, n);
    } else {
      var gr := gs[g];
      GroupOrder(a, b, gs, g, last);
      GapFacts(a, b, gs, g + 1);
      BodyNext(a, b, gs, g, last, ai, he, tail);
      var rest := Body(a, b, gs, g + 1, last, gr.a1, he) + tail;
      BodyIsNoMarker(a, b, gs, g + 1, last, gr.a1, he, tail);
      var r := ApplyBody(a, Patching(pos, out, Body(a, b, gs, g, last, ai, he) + tail), o, n);
      var k := gr.a0 - ai;
      GroupTaken(a, b, gr, ai, rest, pos, out, o, n);
      if r != None {
        var pos', out' :| r == ApplyBody(a, Patching(pos', out', rest), o - k - (gr.a1 - gr.a0), n - k - (gr.b1 - gr.b0));
        BodyTaken(a, b, gs, g + 1, last, gr.a1, gr.b1, he, end, tail, pos', out',
                  o - k - (gr.a1 - gr.a0), n - k - (gr.b1 - gr.b0));
      }
    }
  }

  lemma GroupTaken(a: seq<Line>, b: seq<Line>, gr: Group, ai: int, rest: seq<string>, pos: nat, out: seq<Line>, o: nat, n: nat)
    requires 0 <= ai <= gr.a0 <= gr.a1 <= |a| && gr.b0 <= gr.b1 <= |b| && !IsMarker(rest)
    requires gr.a1 - ai <= o && gr.a0 - ai + (gr.b1 - gr.b0) <= n
    ensures StoppedOrAt(a, ApplyBody(a, Patching(pos, out, ShowAll(' ', a[ai..gr.a0])
              + (ShowAll('-', a[gr.a0..gr.a1]) + (ShowAll('+', b[gr.b0..gr.b1]) + rest))), o, n),
              rest, o - (gr.a0 - ai) - (gr.a1 - gr.a0), n - (gr.a0 - ai) - (gr.b1 - gr.b0))
  {
    hide ShowAll, ApplyBody, IsMarker;
    var con, del, ins := a[ai..gr.a0], a[gr.a0..gr.a1], b[gr.b0..gr.b1];
    var rest1 := ShowAll('+', ins) + rest;
    var rest2 := ShowAll('-', del) + rest1;
    ShownIsNoMarker('+', ins, rest);
    ShownIsNoMarker('-', del, rest1);
    var r := ApplyBody(a, Patching(pos, out, ShowAll(' ', con) + rest2), o, n);
    ShownTaken(a, pos, out, ' ', con, rest2, o, n);
    if r != None {
      var p1, o1 :| r == ApplyBody(a, Patching(p1, o1, rest2), o - |con|, n - |con|);
      ShownTaken(a, p1, o1, '-', del, rest1, o - |con|, n - |con|);
      var p2, o2 :| r == ApplyBody(a, Patching(p2, o2, rest1), o - |con| - |del|, n - |con|);
      ShownTaken(a, p2, o2, '+', ins, rest, o - |con| - |del|, n - |con|);
    }
  }

  lemma {:induction false} BodyMoves(a: seq<Line>, p: Patching, o: nat, n: nat)
    ensures var r := ApplyBody(a, p, o, n); r.Some? ==> r.value.pos == p.pos + o
    decreases |p.rest|
  {
    if o != 0 || n != 0 {
      match ReadEntry(p.rest)
      case None =>
      case Some((mark, line, k)) =>
        if mark == ' ' && o > 0 && n > 0 {
          BodyMoves(a, Patching(p.pos + 1, p.out + [line], p.rest[k..]), o - 1, n - 1);
        } else if mark == '-' && o > 0 {
          BodyMoves(a, Patching(p.pos + 1, p.out, p.rest[k..]), o - 1, n);
        } else if mark == '+' && n > 0 {
          BodyMoves(a, Patching(p.pos, p.out + [line], p.rest[k..]), o, n - 1);
        }
    }
  }

  /** The hunk that begins with group i, in whatever state the patch program is. */
  ghost predicate HunkOf(a: seq<Line>, b: seq<Line>, gs: seq<Group>, ctx: nat, i: nat, j: nat, h: Hunk) {
    && Aligned(a, b, gs) && |a| + |b| <= MAX_INT && ctx <= MAX_INT
    && i < |gs| && j == MergeEnd(gs, ctx, i) && h == HunkAt(gs, |a|, ctx, i, j)
  }

  lemma HunkStart(a: seq<Line>, b: seq<Line>, gs: seq<Group>, ctx: nat, i: nat, j: nat, h: Hunk)
    requires HunkOf(a, b, gs, ctx, i, j, h)
    ensures 0 <= h.hs <= gs[i].a0 <= gs[j].a1 <= |a| && h.hbs == gs[i].b0 - (gs[i].a0 - h.hs)
    ensures gs[i].b0 <= gs[j].b1 <= |b| && -MAX_INT <= h.hbs <= MAX_INT && h.he <= |a|
  {
    hide Aligned, Wrap, MergeEnd;
    GroupOrder(a, b, gs, i, j);
    GapFacts(a, b, gs, i);
    GapFacts(a, b, gs, j);
  }

  lemma ApplyRest(a: seq<Line>, pos: nat, out: seq<Line>, header: string, body: seq<string>, o: Range, n: Range)
    requires ReadHeader(header) == Some((o, n)) && pos <= o.start0 <= |a|
    ensures var r := Apply(a, Patching(pos, out, [header] + body));
            var b := ApplyBody(a, Patching(o.start0, out + a[pos..o.start0], body), o.count, n.count);
            r == None || (b.Some? && r == Apply(a, b.value))
  {
    assert ([header] + body)[1..] == body;
  }

  lemma ApplyStops(a: seq<Line>, pos: nat, out: seq<Line>, header: string, body: seq<string>)
    requires ReadHeader(header) == None || ReadHeader(header).value.0.start0 < pos
    ensures Apply(a, Patching(pos, out, [header] + body)) == None
  {
  }

  lemma NothingLeft(a: seq<Line>, p: Patching, left: nat)
    requires left > 0 && (p.rest != [] ==> p.rest[0] != [] && p.rest[0][0] == '@')
    ensures ApplyBody(a, p, left, left) == None
  {
  }

  /** The patch program has stopped, or goes on at old line pos with the rest of the patch. */
  ghost predicate StoppedOrOn(a: seq<Line>, r: Option<seq<Line>>, pos: int, rest: seq<string>) {
    r == None || (0 <= pos && exists out: seq<Line> {:trigger Patching(pos, out, rest)} :: r == Apply(a, Patching(pos, out, rest)))
  }

  /** The header either cannot be read, or announces `left` more lines than the body has,
      which ends at old line `end`. */
  ghost predicate Announces(gs: seq<Group>, h: Hunk, end: int, left: nat)
    requires h.first <= h.last < |gs|
  {
    var o, n := end - h.hs + left, gs[h.last].b1 + (end - gs[h.last].a1) - h.hbs + left;
    ReadHeader(Header(h)) == None ||
    (0 <= h.hs && 0 <= h.hbs && 0 <= o && 0 <= n && ReadHeader(Header(h)) == Some((Range(h.hs, o), Range(h.hbs, n))))
  }

  /** The body of a hunk whose header could be read. */
  lemma AnnouncedBody(a: seq<Line>, p: Patching, tail: seq<string>, end: int, left: nat, o: nat, n: nat)
    requires StoppedOrAt(a, ApplyBody(a, p, o, n), tail, left, left) && p.pos + o == end + left
    requires tail != [] ==> tail[0] != [] && tail[0][0] == '@'
    ensures var r := ApplyBody(a, p, o, n);
            r == None || (left == 0 && r.value.pos == end && r.value.rest == tail)
  {
    hide ApplyBody;
    BodyMoves(a, p, o, n);
    if ApplyBody(a, p, o, n) != None {
      var pos', out' :| ApplyBody(a, p, o, n) == ApplyBody(a, Patching(pos', out', tail), left, left);
      if left > 0 {
        NothingLeft(a, Patching(pos', out', tail), left);
      } else {
        ApplyNothing(a, Patching(pos', out', tail));
      }
    }
  }

  lemma HunkTaken(a: seq<Line>, b: seq<Line>, gs: seq<Group>, h: Hunk, end: int, left: nat, tail: seq<string>, pos: nat, out: seq<Line>)
    requires Aligned(a, b, gs) && h.first <= h.last < |gs| && 0 <= h.hs <= gs[h.first].a0 && h.he <= |a|
    requires h.hbs == gs[h.first].b0 - (gs[h.first].a0 - h.hs) && gs[h.first].a0 <= |a|
    requires end == (if gs[h.last].a1 < h.he then h.he else gs[h.last].a1) && Announces(gs, h, end, left)
    requires !IsMarker(tail) && (tail != [] ==> tail[0] != [] && tail[0][0] == '@')
    ensures var r := Apply(a, Patching(pos, out, [Header(h)] + (Body(a, b, gs, h.first, h.last, h.hs, h.he) + tail)));
            if left > 0 then r == None else StoppedOrOn(a, r, end, tail)
  {
    hide Aligned, Apply, ApplyBody, Body, Header, IsMarker, ReadHeader, StoppedOrAt, HunkAt, Wrap;
    var rest := Body(a, b, gs, h.first, h.last, h.hs, h.he) + tail;
    if ReadHeader(Header(h)) == None || h.hs < pos {
      ApplyStops(a, pos, out, Header(h), rest);
    } else {
      var o, n := end - h.hs + left, gs[h.last].b1 + (end - gs[h.last].a1) - h.hbs + left;
      var out' := out + a[pos..h.hs];
      BodyTaken(a, b, gs, h.first, h.last, h.hs, h.hbs, h.he, end, tail, h.hs, out', o, n);
      AnnouncedBody(a, Patching(h.hs, out', rest), tail, end, left, o, n);
      ApplyRest(a, pos, out, Header(h), rest, Range(h.hs, o), Range(h.hbs, n));
    }
  }

  /** If its end does not wrap, a hunk announces the lines it has. */
  lemma EndFits(a: seq<Line>, b: seq<Line>, gs: seq<Group>, ctx: nat, i: nat, j: nat, h: Hunk)
    requires HunkOf(a, b, gs, ctx, i, j, h) && gs[j].a1 + ctx <= MAX_INT
    ensures gs[j].a1 <= h.he && Announces(gs, h, h.he, 0)
  {
    hide Aligned, Wrap, MergeEnd, Header, ReadHeader;
    HunkStart(a, b, gs, ctx, i, j, h);
    WrapRange(gs[j].a1 + ctx);
    HeaderOrNone(h);
    WrapRange(h.he - h.hs);
    WrapOnce(h.hbe - h.hbs);
  }

  /** If it wraps, a hunk announces as many lines too many as the context is long. */
  lemma EndWraps(a: seq<Line>, b: seq<Line>, gs: seq<Group>, ctx: nat, i: nat, j: nat, h: Hunk)
    requires HunkOf(a, b, gs, ctx, i, j, h) && gs[j].a1 + ctx > MAX_INT
    ensures h.he < 0 < ctx && Announces(gs, h, gs[j].a1, ctx)
  {
    hide Aligned, Wrap, MergeEnd, Header, ReadHeader;
    HunkStart(a, b, gs, ctx, i, j, h);
    WrapOnce(gs[j].a1 + ctx);
    HeaderOrNone(h);
    WrapOnce(gs[j].a1 - h.hs + ctx);
    WrapOnce(gs[j].b1 - h.hbs + ctx);
  }

  lemma HunkPasses(a: seq<Line>, b: seq<Line>, gs: seq<Group>, ctx: nat, i: nat, j: nat, h: Hunk, pos: nat, out: seq<Line>)
    requires HunkOf(a, b, gs, ctx, i, j, h)
    ensures var r := Apply(a, Patching(pos, out, Output(a, b, gs, ctx, i)));
            if gs[j].a1 + ctx > MAX_INT then r == None else StoppedOrOn(a, r, h.he, Output(a, b, gs, ctx, j + 1))
  {
    HunkStart(a, b, gs, ctx, i, j, h);
    OutputIs(a, b, gs, ctx, i, j, h);
    OutputIsNoMarker(a, b, gs, ctx, j + 1);
    if gs[j].a1 + ctx > MAX_INT {
      EndWraps(a, b, gs, ctx, i, j, h);
    } else {
      EndFits(a, b, gs, ctx, i, j, h);
    }
    hide Aligned, Wrap, MergeEnd, Output, Body, Header, HunkAt, IsMarker, Announces, Apply, StoppedOrOn;
    var wraps := gs[j].a1 + ctx > MAX_INT;
    HunkTaken(a, b, gs, h, if wraps then gs[j].a1 else h.he, if wraps then ctx else 0,
              Output(a, b, gs, ctx, j + 1), pos, out);
  }

  lemma {:induction false} WrappedEndStops(a: seq<Line>, b: seq<Line>, gs: seq<Group>, ctx: nat, i: nat, pos: nat, out: seq<Line>)
    requires Aligned(a, b, gs) && |a| + |b| <= MAX_INT && ctx <= MAX_INT
    requires i < |gs| && gs[|gs| - 1].a1 + ctx > MAX_INT
    ensures Apply(a, Patching(pos, out, Output(a, b, gs, ctx, i))) == None
    decreases |gs| - i
  {
    hide Aligned, Apply, Output, MergeEnd, HunkAt;
    var j := MergeEnd(gs, ctx, i);
    var h := HunkAt(gs, |a|, ctx, i, j);
    var r := Apply(a, Patching(pos, out, Output(a, b, gs, ctx, i)));
    HunkPasses(a, b, gs, ctx, i, j, h, pos, out);
    if r != None {
      var out' :| r == Apply(a, Patching(h.he, out', Output(a, b, gs, ctx, j + 1)));
      WrappedEndStops(a, b, gs, ctx, j + 1, h.he, out');
    }
  }

  lemma WrappedMergeStops(a: seq<Line>, b: seq<Line>, gs: seq<Group>, ctx: nat)
    requires Aligned(a, b, gs) && |a| + |b| <= MAX_INT && ctx <= MAX_INT
    requires |gs| > 1 && 2 * ctx > MAX_INT && gs[|gs| - 1].a1 + ctx <= MAX_INT
    ensures Apply(a, Patching(0, [], Output(a, b, gs, ctx, 0))) == None
  {
    Unmerged(a, b, gs, ctx);
    hide Aligned, Apply, Output, HunkAt, MergeEnd, Body, Header, ReadHeader;
    var h0, j := HunkAt(gs, |a|, ctx, 0, 0), MergeEnd(gs, ctx, 1);
    var h := HunkAt(gs, |a|, ctx, 1, j);
    HunkPasses(a, b, gs, ctx, 0, 0, h0, 0, []);
    var r := Apply(a, Patching(0, [], Output(a, b, gs, ctx, 0)));
    if r != None {
      var out' :| r == Apply(a, Patching(h0.he, out', Output(a, b, gs, ctx, 1)));
      HunkStart(a, b, gs, ctx, 1, j, h);
      OutputIs(a, b, gs, ctx, 1, j, h);
      HeaderOrNone(h);
      ApplyStops(a, h0.he, out', Header(h), Body(a, b, gs, 1, j, h.hs, h.he) + Output(a, b, gs, ctx, j + 1));
    }
  }

  /** The printed hunks lead from the old lines to the new exactly when the context
      arithmetic does not wrap; otherwise the patch program refuses them. */
  lemma PatchGivesNewIffNoWrap(a: seq<Line>, b: seq<Line>, gs: seq<Group>, ctx: nat)
    requires Aligned(a, b, gs) && |a| + |b| <= MAX_INT && ctx <= MAX_INT
    ensures Apply(a, Patching(0, [], Output(a, b, gs, ctx, 0))) == if NoWrap(gs, ctx) then Some(b) else None
  {
    hide Aligned, Apply, Output;
    if NoWrap(gs, ctx) {
      PatchGivesNew(a, b, gs, ctx);
    } else if gs[|gs| - 1].a1 + ctx > MAX_INT {
      WrappedEndStops(a, b, gs, ctx, 0, 0, []);
    } else {
      WrappedMergeStops(a, b, gs, ctx);
    }
  }

  // ---------------------------------------------------------------------
  // Every line written is one line

  lemma TextIsOneLine(n: int)
    ensures OneLine(Text(n))
  {
    hide Numeral;
    assert n >= 0 ==> forall c | c in Numeral(n) :: IsDigit(c);
    assert n < 0 ==> forall c | c in Numeral(-n) :: IsDigit(c);
  }

  lemma HeaderIsOneLine(h: Hunk)
    ensures OneLine(Header(h))
  {
    hide Text, Wrap;
    RangeIsOneLine(h.hs, Wrap(h.he - h.hs));
    RangeIsOneLine(h.hbs, Wrap(h.hbe - h.hbs));
    hide UnifiedRange;
  }

  lemma RangeIsOneLine(start0: int, count: int)
    ensures OneLine(UnifiedRange(start0, count))
  {
    hide Text, Wrap;
    TextIsOneLine(Wrap(start0 + 1));
    TextIsOneLine(start0);
    TextIsOneLine(count);
  }

  ghost predicate OneLineEach(ls: seq<Line>) {
    forall i | 0 <= i < |ls| :: OneLine(ls[i].0)
  }

  lemma {:induction false} ShownIsOneLiners(mark: char, ls: seq<Line>)
    requires mark != '\n' && OneLineEach(ls)
    ensures OneLiners(ShowAll(mark, ls))
  {
    if ls != [] {
      ShownIsOneLiners(mark, ls[1..]);
      assert OneLine(ls[0].0);
      assert OneLine(NO_NEWLINE);
    }
  }

  lemma {:induction false} BodyIsOneLiners(a: seq<Line>, b: seq<Line>, gs: seq<Group>, g: nat, last: nat, ai: int, he: int)
    requires Aligned(a, b, gs) && g <= last + 1 <= |gs| && he <= |a| && OneLineEach(a) && OneLineEach(b)
    requires 0 <= ai <= (if g <= last then gs[g].a0 else |a|)
    ensures OneLiners(Body(a, b, gs, g, last, ai, he))
    decreases last + 1 - g
  {
    hide Aligned, ShowAll, Body, OneLine;
    if g == last + 1 {
      BodyEnd(a, b, gs, last, ai, he);
      ShownIsOneLiners(' ', a[ai..if ai < he then he else ai]);
    } else {
      BodyNext(a, b, gs, g, last, ai, he, []);
      BodyIsOneLiners(a, b, gs, g + 1, last, gs[g].a1, he);
      ShownIsOneLiners(' ', a[ai..gs[g].a0]);
      ShownIsOneLiners('-', a[gs[g].a0..gs[g].a1]);
      ShownIsOneLiners('+', b[gs[g].b0..gs[g].b1]);
      assert Body(a, b, gs, g, last, ai, he) + [] == Body(a, b, gs, g, last, ai, he);
    }
  }

  lemma {:induction false} OutputIsOneLiners(a: seq<Line>, b: seq<Line>, gs: seq<Group>, ctx: nat, i: nat)
    requires Aligned(a, b, gs) && i <= |gs| && OneLineEach(a) && OneLineEach(b)
    ensures OneLiners(Output(a, b, gs, ctx, i))
    decreases |gs| - i
  {
    hide Aligned, Body, Output, Header, MergeEnd, Wrap, OneLine;
    if i == |gs| {
      NoMoreOutput(a, b, gs, ctx);
    } else {
      var j := MergeEnd(gs, ctx, i);
      var h := HunkAt(gs, |a|, ctx, i, j);
      OutputIs(a, b, gs, ctx, i, j, h);
      HeaderIsOneLine(h);
      BodyIsOneLiners(a, b, gs, i, j, h.hs, h.he);
      OutputIsOneLiners(a, b, gs, ctx, j + 1);
    }
  }

  // ---------------------------------------------------------------------
  // The emitter

  method EmitLine(w: Sink, mark: char, l: Line)
    modifies w
    ensures w.lines == old(w.lines) + Show(mark, l)
  {
    w.Println([mark] + l.0);
    if l.1 {
      w.Println(NO_NEWLINE);
    }
  }

  /** The lines from `from` up to `to`, each with the mark. */
  method EmitLines(w: Sink, mark: char, ls: seq<Line>, from: nat, to: nat)
    requires from <= to <= |ls|
    modifies w
    ensures w.lines == old(w.lines) + ShowAll(mark, ls[from..to])
  {
    hide Show;
    var i := from;
    ghost var target := w.lines + ShowAll(mark, ls[from..to]);
    while i < to
      invariant from <= i <= to
      invariant target == w.lines + ShowAll(mark, ls[i..to])
    {
      assert ls[i..to][1..] == ls[i + 1..to];
      ghost var before := w.lines;
      EmitLine(w, mark, ls[i]);
      assert before + (Show(mark, ls[i]) + ShowAll(mark, ls[i + 1..to])) == w.lines + ShowAll(mark, ls[i + 1..to]);
      i := i + 1;
    }
    assert ls[to..to] == [];
  }

  /** The body of one hunk: context, deleted and inserted lines of each group, then the
      trailing context. */
  method EmitBody(w: Sink, a: seq<Line>, b: seq<Line>, gs: seq<Group>, h: Hunk)
    requires Aligned(a, b, gs) && h.first <= h.last < |gs| && 0 <= h.hs <= gs[h.first].a0 && h.he <= |a|
    requires h.hbs == gs[h.first].b0 - (gs[h.first].a0 - h.hs)
    modifies w
    ensures w.lines == old(w.lines) + Body(a, b, gs, h.first, h.last, h.hs, h.he)
  {
    hide Aligned, ShowAll, Body, SameLines;
    var ai, bi := h.hs, h.hbs;
    ghost var target := w.lines + Body(a, b, gs, h.first, h.last, h.hs, h.he);
    for g := h.first to h.last + 1
      invariant 0 <= ai <= (if g <= h.last then gs[g].a0 else |a|)
      invariant g <= h.last ==> bi == gs[g].b0 - (gs[g].a0 - ai)
      invariant target == w.lines + Body(a, b, gs, g, h.last, ai, h.he)
    {
      ghost var before := w.lines;
      BodyNext(a, b, gs, g, h.last, ai, h.he, []);
      EmitLines(w, ' ', a, ai, gs[g].a0);
      bi := bi + (gs[g].a0 - ai);
      EmitLines(w, '-', a, gs[g].a0, gs[g].a1);
      EmitLines(w, '+', b, bi, gs[g].b1);
      ghost var rest := Body(a, b, gs, g + 1, h.last, gs[g].a1, h.he);
      assert Body(a, b, gs, g, h.last, ai, h.he) + [] == Body(a, b, gs, g, h.last, ai, h.he);
      assert rest + [] == rest;
      EmittedGroup(before, ShowAll(' ', a[ai..gs[g].a0]), ShowAll('-', a[gs[g].a0..gs[g].a1]),
                   ShowAll('+', b[gs[g].b0..gs[g].b1]), rest);
      ai, bi := gs[g].a1, gs[g].b1;
      GapFacts(a, b, gs, g + 1);
    }
    BodyEnd(a, b, gs, h.last, ai, h.he);
    EmitLines(w, ' ', a, ai, if ai < h.he then h.he else ai);
  }

  lemma EmittedGroup(w: seq<string>, c: seq<string>, d: seq<string>, i: seq<string>, rest: seq<string>)
    ensures w + (c + (d + (i + rest))) == w + c + d + i + rest
  {
  }

  /** The hunks of all groups, each headed by its ranges, whatever the context length. */
  method EmitUnified(w: Sink, ctx: nat, a: seq<Line>, b: seq<Line>, gs: seq<Group>)
    requires Aligned(a, b, gs)
    modifies w
    ensures w.lines == old(w.lines) + Output(a, b, gs, ctx, 0)
  {
    hide Aligned, Output, Body, Wrap, Header;
    var i := 0;
    ghost var target := w.lines + Output(a, b, gs, ctx, 0);
    while i < |gs|
      invariant 0 <= i <= |gs|
      invariant target == w.lines + Output(a, b, gs, ctx, i)
    {
      var j := i;
      while j + 1 < |gs| && gs[j + 1].a0 - gs[j].a1 <= Wrap(2 * ctx)
        invariant i <= j < |gs| && MergeEnd(gs, ctx, i) == MergeEnd(gs, ctx, j)
      {
        j := j + 1;
      }
      var hs := gs[i].a0 - ctx;
      if hs < 0 {
        hs := 0;
      }
      var he := Wrap(gs[j].a1 + ctx);
      if he > |a| {
        he := |a|;
      }
      var hbs := gs[i].b0 - (gs[i].a0 - hs);
      var hbe := gs[j].b1 + (he - gs[j].a1);
      var h := Hunk(i, j, hs, he, hbs, hbe);
      OutputIs(a, b, gs, ctx, i, j, h);
      ghost var before := w.lines;
      w.Println(Header(h));
      EmitBody(w, a, b, gs, h);
      EmittedHunk(before, Header(h), Body(a, b, gs, i, j, hs, he), Output(a, b, gs, ctx, j + 1));
      i := j + 1;
    }
    NoMoreOutput(a, b, gs, ctx);
  }

  lemma EmittedHunk(w: seq<string>, header: string, body: seq<string>, rest: seq<string>)
    ensures w + ([header] + (body + rest)) == w + [header] + body + rest
  {
  }
}
