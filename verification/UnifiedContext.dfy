/** Which old lines a unified diff shows: those within the context length of a change, and
    no others, in as few hunks as that takes. */
module UnifiedContext {
  import Decimal
  import opened Int64
  import opened Groups
  import opened Unified

  /** Old line x is in group g or no more than ctx lines away from it. */
  predicate Near(g: Group, ctx: nat, x: int) {
    g.a0 - ctx <= x < g.a1 + ctx
  }

  /** Line x is near one of the groups i up to j. */
  ghost predicate NearSome(gs: seq<Group>, ctx: nat, i: nat, j: nat, x: int)
    requires j <= |gs|
  {
    exists k :: i <= k < j && Near(gs[k], ctx, x)
  }

  predicate InRange(r: Range, x: int) {
    r.start0 <= x < r.start0 + r.count
  }

  ghost predicate Shown(rs: seq<Range>, x: int) {
    exists k :: 0 <= k < |rs| && InRange(rs[k], x)
  }

  /** At least one line that is not shown lies before range k. */
  ghost predicate Apart(rs: seq<Range>, k: nat)
    requires 0 < k < |rs|
  {
    rs[k - 1].start0 + rs[k - 1].count < rs[k].start0
  }

  ghost predicate Holds(r: Range, g: Group) {
    r.start0 <= g.a0 && g.a1 <= r.start0 + r.count
  }

  ghost predicate HoldsSome(r: Range, gs: seq<Group>, i: nat) {
    exists g :: i <= g < |gs| && Holds(r, gs[g])
  }

  ghost predicate HeldBySome(rs: seq<Range>, g: Group) {
    exists k :: 0 <= k < |rs| && Holds(rs[k], g)
  }

  /** The ranges show the lines near groups i.. of n old lines; each holds a group and every
      group is in one. */
  ghost predicate ShowFrom(rs: seq<Range>, n: nat, gs: seq<Group>, ctx: nat, i: nat) {
    && i <= |gs|
    && (forall x :: Shown(rs, x) <==> 0 <= x < n && NearSome(gs, ctx, i, |gs|, x))
    && (forall k | 0 < k < |rs| :: Apart(rs, k))
    && (forall k | 0 <= k < |rs| :: HoldsSome(rs[k], gs, i))
    && (forall g | i <= g < |gs| :: HeldBySome(rs, gs[g]))
  }

  /** The old ranges of the headers in a printed diff; no other line begins with an @. */
  function OldRanges(lines: seq<string>): seq<Range> {
    if lines == [] then [] else HeaderRange(lines[0]) + OldRanges(lines[1..])
  }

  function HeaderRange(line: string): seq<Range> {
    if line == [] || line[0] != '@' then []
    else match ReadHeader(line)
      case None => []
      case Some((o, _)) => [o]
  }

  lemma {:induction false} OldRangesConcat(p: seq<string>, q: seq<string>)
    ensures OldRanges(p + q) == OldRanges(p) + OldRanges(q)
  {
    hide HeaderRange;
    if p == [] {
      assert p + q == q;
    } else {
      assert (p + q)[1..] == p[1..] + q;
      OldRangesConcat(p[1..], q);
    }
  }

  lemma {:induction false} ShownHasNoHeader(mark: char, ls: seq<Line>)
    requires mark != '@'
    ensures OldRanges(ShowAll(mark, ls)) == []
  {
    if ls != [] {
      ShownHasNoHeader(mark, ls[1..]);
      OldRangesConcat(Show(mark, ls[0]), ShowAll(mark, ls[1..]));
      EntryHasNoHeader(mark, ls[0]);
    }
  }

  lemma EntryHasNoHeader(mark: char, l: Line)
    requires mark != '@'
    ensures OldRanges(Show(mark, l)) == []
  {
    var lines := Show(mark, l);
    hide ReadHeader;
    assert HeaderRange(lines[0]) == [];
    if l.1 {
      assert lines[1..] == [NO_NEWLINE] && NO_NEWLINE[0] == '\\';
      assert HeaderRange(NO_NEWLINE) == [] && [NO_NEWLINE][1..] == [];
      assert OldRanges([NO_NEWLINE]) == [] + OldRanges([]);
    } else {
      assert lines[1..] == [];
    }
  }

  lemma {:induction false} BodyHasNoHeader(a: seq<Line>, b: seq<Line>, gs: seq<Group>, g: nat, last: nat, ai: int, he: int)
    requires Aligned(a, b, gs) && g <= last + 1 <= |gs| && he <= |a|
    requires 0 <= ai <= (if g <= last then gs[g].a0 else |a|)
    ensures OldRanges(Body(a, b, gs, g, last, ai, he)) == []
    decreases last + 1 - g
  {
    hide Aligned, ShowAll, Body, OldRanges;
    if g == last + 1 {
      BodyEnd(a, b, gs, last, ai, he);
      ShownHasNoHeader(' ', a[ai..if ai < he then he else ai]);
    } else {
      BodyNext(a, b, gs, g, last, ai, he, []);
      var con, del, ins := ShowAll(' ', a[ai..gs[g].a0]), ShowAll('-', a[gs[g].a0..gs[g].a1]), ShowAll('+', b[gs[g].b0..gs[g].b1]);
      var rest := Body(a, b, gs, g + 1, last, gs[g].a1, he);
      assert Body(a, b, gs, g, last, ai, he) + [] == Body(a, b, gs, g, last, ai, he) && rest + [] == rest;
      BodyHasNoHeader(a, b, gs, g + 1, last, gs[g].a1, he);
      ShownHasNoHeader(' ', a[ai..gs[g].a0]);
      ShownHasNoHeader('-', a[gs[g].a0..gs[g].a1]);
      ShownHasNoHeader('+', b[gs[g].b0..gs[g].b1]);
      OldRangesConcat(ins, rest);
      OldRangesConcat(del, ins + rest);
      OldRangesConcat(con, del + (ins + rest));
    }
  }

  // ---------------------------------------------------------------------
  // The hunks

  predicate Between(lo: int, x: int, hi: int) {
    lo <= x < hi
  }

  /** The lines near groups i up to j are one stretch. */
  ghost predicate OneStretch(gs: seq<Group>, ctx: nat, i: nat, j: nat) {
    i < j <= |gs| && forall x :: NearSome(gs, ctx, i, j, x) <==> Between(gs[i].a0 - ctx, x, gs[j - 1].a1 + ctx)
  }

  lemma StretchGrows<T>(a: seq<T>, b: seq<T>, gs: seq<Group>, ctx: nat, i: nat, j: nat)
    requires Aligned(a, b, gs) && OneStretch(gs, ctx, i, j) && j < |gs| && gs[j].a0 - gs[j - 1].a1 <= 2 * ctx
    ensures OneStretch(gs, ctx, i, j + 1)
  {
    hide Aligned, NearSome, SameLines;
    GroupOrder(a, b, gs, i, j - 1);
    GapFacts(a, b, gs, i);
    GapFacts(a, b, gs, j);
    var to := j + 1;
    forall x ensures NearSome(gs, ctx, i, to, x) <==> Between(gs[i].a0 - ctx, x, gs[j].a1 + ctx) {
      NearNext(gs, ctx, i, j, x);
    }
  }

  /** Merging goes on as long as the lines near the groups leave no gap. */
  lemma {:induction false} MergeCovers<T>(a: seq<T>, b: seq<T>, gs: seq<Group>, ctx: nat, i: nat, m: nat)
    requires Aligned(a, b, gs) && NoWrap(gs, ctx) && i <= m < |gs| && OneStretch(gs, ctx, i, m + 1)
    ensures OneStretch(gs, ctx, i, MergeEnd(gs, ctx, m) + 1)
    decreases |gs| - m
  {
    hide Aligned, Wrap, OneStretch;
    if m + 1 < |gs| && gs[m + 1].a0 - gs[m].a1 <= Wrap(2 * ctx) {
      WrapRange(2 * ctx);
      StretchGrows(a, b, gs, ctx, i, m + 1);
      MergeCovers(a, b, gs, ctx, i, m + 1);
    }
  }

  lemma NearNext(gs: seq<Group>, ctx: nat, i: nat, j: nat, x: int)
    requires i <= j < |gs|
    ensures NearSome(gs, ctx, i, j + 1, x) <==> NearSome(gs, ctx, i, j, x) || Near(gs[j], ctx, x)
  {
    hide Near;
  }

  lemma NearSplit(gs: seq<Group>, ctx: nat, i: nat, j: nat, x: int)
    requires i <= j <= |gs|
    ensures NearSome(gs, ctx, i, |gs|, x) <==> NearSome(gs, ctx, i, j, x) || NearSome(gs, ctx, j, |gs|, x)
  {
    hide Near;
  }

  lemma NearOne(gs: seq<Group>, ctx: nat, i: nat)
    requires i < |gs|
    ensures OneStretch(gs, ctx, i, i + 1)
  {
    forall x ensures NearSome(gs, ctx, i, i + 1, x) <==> Near(gs[i], ctx, x) {}
  }

  function HunkRange(h: Hunk): Range
    requires 0 <= h.hs <= h.he
  {
    Range(h.hs, h.he - h.hs)
  }

  /** The range shows the lines near groups i up to j and holds these. */
  ghost predicate HunkRangeShows(r: Range, n: nat, gs: seq<Group>, ctx: nat, i: nat, j: nat) {
    && i < j <= |gs| && (forall x :: InRange(r, x) <==> 0 <= x < n && NearSome(gs, ctx, i, j, x))
    && forall g | i <= g < j :: Holds(r, gs[g])
  }

  /** One hunk shows the lines near its groups. */
  lemma HunkShows<T>(a: seq<T>, b: seq<T>, gs: seq<Group>, ctx: nat, i: nat)
    requires Aligned(a, b, gs) && NoWrap(gs, ctx) && i < |gs| && StartsHunk(gs, ctx, i)
    ensures var j := MergeEnd(gs, ctx, i);
            var h := HunkAt(gs, |a|, ctx, i, j);
            && 0 <= h.hs <= h.he <= |a| && h.first == i && h.last == j
            && HunkRangeShows(HunkRange(h), |a|, gs, ctx, i, j + 1)
  {
    hide Aligned, Wrap, NearSome, SameLines, MergeEnd;
    var j := MergeEnd(gs, ctx, i);
    var h := HunkAt(gs, |a|, ctx, i, j);
    HunkFits(a, b, gs, ctx, i);
    HunkRuns(a, b, gs, h);
    NearOne(gs, ctx, i);
    MergeCovers(a, b, gs, ctx, i, i);
    GroupOrder(a, b, gs, i, j);
    GroupOrder(a, b, gs, j, |gs| - 1);
    WrapRange(gs[j].a1 + ctx);
    forall g | i <= g <= j ensures Holds(HunkRange(h), gs[g]) {
      GroupOrder(a, b, gs, i, g);
      GroupOrder(a, b, gs, g, j);
    }
  }

  lemma ShowNone(n: nat, gs: seq<Group>, ctx: nat)
    ensures ShowFrom([], n, gs, ctx, |gs|)
  {
  }

  lemma ApartMore(r: Range, rs: seq<Range>)
    requires (forall k | 0 < k < |rs| :: Apart(rs, k)) && (rs != [] ==> r.start0 + r.count < rs[0].start0)
    ensures forall k | 0 < k < |[r] + rs| :: Apart([r] + rs, k)
  {
    var all := [r] + rs;
    forall k | 0 < k < |all| ensures Apart(all, k) {
      if k > 1 {
        assert Apart(rs, k - 1);
        assert all[k] == rs[k - 1] && all[k - 1] == rs[k - 2];
      }
    }
  }

  lemma HoldsMore(r: Range, rs: seq<Range>, gs: seq<Group>, i: nat, j: nat)
    requires i < j <= |gs| && Holds(r, gs[i]) && forall k | 0 <= k < |rs| :: HoldsSome(rs[k], gs, j)
    ensures forall k | 0 <= k < |[r] + rs| :: HoldsSome(([r] + rs)[k], gs, i)
  {
    hide Holds;
    var all := [r] + rs;
    forall k | 0 <= k < |all| ensures HoldsSome(all[k], gs, i) {
      if k > 0 {
        assert all[k] == rs[k - 1] && HoldsSome(rs[k - 1], gs, j);
      }
    }
  }

  lemma HeldMore(r: Range, rs: seq<Range>, g: Group)
    requires Holds(r, g) || HeldBySome(rs, g)
    ensures HeldBySome([r] + rs, g)
  {
    hide Holds;
    var all := [r] + rs;
    if Holds(r, g) {
      assert all[0] == r;
    } else {
      var k :| 0 <= k < |rs| && Holds(rs[k], g);
      assert all[k + 1] == rs[k];
    }
  }

  /** A hunk in front of others that begin past a line not shown. */
  lemma ShowMore(r: Range, rs: seq<Range>, n: nat, gs: seq<Group>, ctx: nat, i: nat, j: nat)
    requires ShowFrom(rs, n, gs, ctx, j) && i < j <= |gs|
    requires HunkRangeShows(r, n, gs, ctx, i, j)
    requires rs != [] ==> r.start0 + r.count < rs[0].start0
    ensures ShowFrom([r] + rs, n, gs, ctx, i)
  {
    hide NearSome, InRange, Holds, Shown, Apart, HoldsSome, HeldBySome;
    var all := [r] + rs;
    forall x ensures Shown(all, x) <==> 0 <= x < n && NearSome(gs, ctx, i, |gs|, x) {
      NearSplit(gs, ctx, i, j, x);
      ShownCons(r, rs, x);
    }
    ApartMore(r, rs);
    HoldsMore(r, rs, gs, i, j);
    forall g | i <= g < |gs| ensures HeldBySome(all, gs[g]) {
      HeldMore(r, rs, gs[g]);
    }
  }

  lemma ShownCons(r: Range, rs: seq<Range>, x: int)
    ensures Shown([r] + rs, x) <==> InRange(r, x) || Shown(rs, x)
  {
    hide InRange;
    var all := [r] + rs;
    if k :| 0 <= k < |rs| && InRange(rs[k], x) {
      assert all[k + 1] == rs[k];
    }
    if InRange(r, x) {
      assert all[0] == r;
    }
  }

  lemma HeaderIsRead(h: Hunk)
    requires 0 <= h.hs <= h.he <= MAX_INT && 0 <= h.hbs <= h.hbe <= MAX_INT
    ensures HeaderRange(Header(h)) == [HunkRange(h)]
  {
    HeaderBegins(h);
    hide ReadHeader, Header;
    ReadPrintedHeader(h);
  }

  lemma HeaderBegins(h: Hunk)
    ensures Header(h) != [] && Header(h)[0] == '@'
  {
    hide UnifiedRange, Wrap;
  }

  lemma OldRangesCons(line: string, rest: seq<string>)
    ensures OldRanges([line] + rest) == HeaderRange(line) + OldRanges(rest)
  {
    assert ([line] + rest)[1..] == rest;
  }

  /** What can be read from the first hunk and the others. */
  lemma RangesNext(a: seq<Line>, b: seq<Line>, gs: seq<Group>, ctx: nat, i: nat, j: nat, h: Hunk)
    requires Aligned(a, b, gs) && i < |gs| && j == MergeEnd(gs, ctx, i) && h == HunkAt(gs, |a|, ctx, i, j)
    requires HunkInBounds(gs, |a|, |b|, h) && |a| <= MAX_INT && |b| <= MAX_INT
    ensures 0 <= h.hs <= h.he
    ensures OldRanges(Output(a, b, gs, ctx, i)) == [HunkRange(h)] + OldRanges(Output(a, b, gs, ctx, j + 1))
  {
    hide Aligned, MergeEnd, Output, Body, Header, OldRanges, HeaderRange;
    HunkRuns(a, b, gs, h);
    OutputIs(a, b, gs, ctx, i, j, h);
    hide HunkAt;
    var body, rest := Body(a, b, gs, i, j, h.hs, h.he), Output(a, b, gs, ctx, j + 1);
    HeaderIsRead(h);
    OldRangesCons(Header(h), body + rest);
    OldRangesConcat(body, rest);
    BodyHasNoHeader(a, b, gs, i, j, h.hs, h.he);
    assert [] + OldRanges(rest) == OldRanges(rest);
  }

  /** The hunks printed from group i on. */
  lemma {:induction false} OutputShows(a: seq<Line>, b: seq<Line>, gs: seq<Group>, ctx: nat, i: nat)
    requires Aligned(a, b, gs) && NoWrap(gs, ctx) && i <= |gs| && StartsHunk(gs, ctx, i) && |a| <= MAX_INT && |b| <= MAX_INT
    ensures ShowFrom(OldRanges(Output(a, b, gs, ctx, i)), |a|, gs, ctx, i)
    ensures i == |gs| ==> OldRanges(Output(a, b, gs, ctx, i)) == []
    ensures i < |gs| ==>
              var rs := OldRanges(Output(a, b, gs, ctx, i));
              rs != [] && rs[0].start0 == HunkAt(gs, |a|, ctx, i, MergeEnd(gs, ctx, i)).hs
    decreases |gs| - i
  {
    hide *;
    if i == |gs| {
      NoMoreOutput(a, b, gs, ctx);
      NothingRead();
      ShowNone(|a|, gs, ctx);
    } else {
      var j := MergeEnd(gs, ctx, i);
      var h := HunkAt(gs, |a|, ctx, i, j);
      HunkFits(a, b, gs, ctx, i);
      HunkShows(a, b, gs, ctx, i);
      RangesNext(a, b, gs, ctx, i, j, h);
      HunkRangeIs(h);
      OutputShows(a, b, gs, ctx, j + 1);
      if j + 1 < |gs| {
        HunkBefore(a, b, gs, ctx, i);
      }
      ShowMore(HunkRange(h), OldRanges(Output(a, b, gs, ctx, j + 1)), |a|, gs, ctx, i, j + 1);
    }
  }

  lemma HunkRangeIs(h: Hunk)
    requires 0 <= h.hs <= h.he
    ensures HunkRange(h).start0 == h.hs && HunkRange(h).start0 + HunkRange(h).count == h.he
  {
  }

  lemma NothingRead()
    ensures OldRanges([]) == []
  {
  }

  /** A hunk ends before the line at which the next begins. */
  lemma HunkBefore<T>(a: seq<T>, b: seq<T>, gs: seq<Group>, ctx: nat, i: nat)
    requires Aligned(a, b, gs) && NoWrap(gs, ctx) && i < |gs| && StartsHunk(gs, ctx, i) && MergeEnd(gs, ctx, i) + 1 < |gs|
    ensures var j := MergeEnd(gs, ctx, i);
            HunkAt(gs, |a|, ctx, i, j).he < HunkAt(gs, |a|, ctx, j + 1, MergeEnd(gs, ctx, j + 1)).hs
  {
    hide Aligned, Wrap, MergeEnd, SameLines;
    var j := MergeEnd(gs, ctx, i);
    HunkFits(a, b, gs, ctx, i);
    GroupOrder(a, b, gs, j, |gs| - 1);
    WrapRange(gs[j].a1 + ctx);
  }

  /** Read back from the print, the hunks show exactly the lines near a group, and between
      any two of them lies a line that is not shown. */
  lemma ContextShown(a: seq<Line>, b: seq<Line>, gs: seq<Group>, ctx: nat)
    requires Aligned(a, b, gs) && NoWrap(gs, ctx) && |a| <= MAX_INT && |b| <= MAX_INT
    ensures ShowFrom(OldRanges(Output(a, b, gs, ctx, 0)), |a|, gs, ctx, 0)
  {
    hide Aligned, NoWrap, Output, ShowFrom, OldRanges;
    OutputShows(a, b, gs, ctx, 0);
  }

  /** The count of a range is printed exactly when it is not one. */
  lemma CountPrintedIff(start0: int, count: int)
    ensures ',' in UnifiedRange(start0, count) <==> count != 1
  {
    hide Wrap;
    NoComma(Wrap(start0 + 1));
    NoComma(start0);
  }

  lemma NoComma(n: int)
    ensures ',' !in Decimal.Text(n)
  {
    assert n >= 0 ==> forall c | c in Decimal.Numeral(n) :: Decimal.IsDigit(c);
    assert n < 0 ==> forall c | c in Decimal.Numeral(-n) :: Decimal.IsDigit(c);
  }
}
