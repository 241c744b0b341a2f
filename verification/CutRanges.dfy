/** Sorting, merging and complementing the ranges of a cut LIST. */
module CutRanges {
  import opened Int64
  import opened CutList

  ghost predicate AllProper(rs: seq<Range>) {
    forall i | 0 <= i < |rs| :: Proper(rs[i])
  }

  // ---------------------------------------------------------------------
  // Sorting

  predicate Before(p: Range, q: Range) {
    p.lo < q.lo || (p.lo == q.lo && p.hi <= q.hi)
  }

  ghost predicate Sorted(rs: seq<Range>) {
    forall i, j | 0 <= i < j < |rs| :: Before(rs[i], rs[j])
  }

  function Insert(r: Range, rs: seq<Range>): seq<Range> {
    if rs == [] || Before(r, rs[0]) then [r] + rs else [rs[0]] + Insert(r, rs[1..])
  }

  function Sort(rs: seq<Range>): seq<Range> {
    if rs == [] then [] else Insert(rs[0], Sort(rs[1..]))
  }

  lemma {:induction false} InsertMembers(r: Range, rs: seq<Range>)
    ensures multiset(Insert(r, rs)) == multiset(rs) + multiset{r}
  {
    if rs != [] && !Before(r, rs[0]) {
      InsertMembers(r, rs[1..]);
      assert rs == [rs[0]] + rs[1..];
    }
  }

  lemma {:induction false} InsertSorts(r: Range, rs: seq<Range>)
    requires Sorted(rs)
    ensures Sorted(Insert(r, rs))
  {
    if rs != [] && !Before(r, rs[0]) {
      InsertSorts(r, rs[1..]);
      InsertMembers(r, rs[1..]);
      var t := Insert(r, rs[1..]);
      forall i | 0 <= i < |t| ensures Before(rs[0], t[i]) {
        assert t[i] in multiset(t);
        assert t[i] == r || t[i] in rs[1..];
      }
    } else if rs != [] {
      forall i | 0 <= i < |rs| ensures Before(r, rs[i]) {
        assert i > 0 ==> Before(rs[0], rs[i]);
      }
    }
  }

  lemma {:induction false} SortSorts(rs: seq<Range>)
    ensures Sorted(Sort(rs)) && multiset(Sort(rs)) == multiset(rs)
  {
    if rs != [] {
      SortSorts(rs[1..]);
      InsertSorts(rs[0], Sort(rs[1..]));
      InsertMembers(rs[0], Sort(rs[1..]));
      assert rs == [rs[0]] + rs[1..];
    }
  }

  // ---------------------------------------------------------------------
  // Merging

  /** The next range joins the current one; the sum is Go's, and wraps. */
  predicate Joins(cur: Range, next: Range) {
    next.lo <= Wrap(cur.hi + 1)
  }

  function Join(cur: Range, next: Range): Range {
    if next.hi > cur.hi then Range(cur.lo, next.hi) else cur
  }

  function MergeFrom(cur: Range, rest: seq<Range>): seq<Range>
    decreases |rest|
  {
    if rest == [] then [cur]
    else if Joins(cur, rest[0]) then MergeFrom(Join(cur, rest[0]), rest[1..])
    else [cur] + MergeFrom(rest[0], rest[1..])
  }

  /** After an open range nothing joins; before, the sum is exact. */
  lemma JoinsIff(cur: Range, next: Range)
    requires Proper(cur) && Proper(next)
    ensures Joins(cur, next) <==> cur.hi < MAX_INT && next.lo <= cur.hi + 1
  {
    WrapRange(cur.hi + 1);
  }

  ghost predicate Ready(cur: Range, rest: seq<Range>) {
    Proper(cur) && AllProper(rest) && Sorted(rest) && forall i | 0 <= i < |rest| :: cur.lo <= rest[i].lo
  }

  lemma ReadyNext(cur: Range, rest: seq<Range>)
    requires Ready(cur, rest) && rest != []
    ensures Ready(Join(cur, rest[0]), rest[1..]) && Ready(rest[0], rest[1..])
  {
    assert forall i | 0 < i < |rest| :: Before(rest[0], rest[i]);
  }

  predicate In(r: Range, x: int) {
    r.lo <= x <= r.hi
  }

  lemma CoversCons(r: Range, rs: seq<Range>, x: int)
    ensures Covers([r] + rs, x) <==> In(r, x) || Covers(rs, x)
  {
    var all := [r] + rs;
    if i :| 0 <= i < |rs| && rs[i].lo <= x <= rs[i].hi {
      assert all[i + 1] == rs[i];
    }
    if In(r, x) {
      assert all[0] == r;
    }
  }

  /** Merging selects what the ranges select, for every list. */
  lemma {:induction false} MergeCovers(cur: Range, rest: seq<Range>, x: int)
    requires Ready(cur, rest)
    ensures Covers(MergeFrom(cur, rest), x) <==> In(cur, x) || Covers(rest, x)
    decreases |rest|
  {
    hide Covers, Ready, Proper, Wrap;
    if rest == [] {
      CoversCons(cur, [], x);
      assert [cur] + [] == [cur];
    } else {
      var next := rest[0];
      assert rest == [next] + rest[1..];
      CoversCons(next, rest[1..], x);
      ReadyNext(cur, rest);
      if Joins(cur, next) {
        JoinIs(cur, rest, x);
        MergeCovers(Join(cur, next), rest[1..], x);
      } else {
        MergeCovers(next, rest[1..], x);
        CoversCons(cur, MergeFrom(next, rest[1..]), x);
      }
    }
  }

  lemma JoinIs(cur: Range, rest: seq<Range>, x: int)
    requires Ready(cur, rest) && rest != [] && Joins(cur, rest[0])
    ensures In(Join(cur, rest[0]), x) <==> In(cur, x) || In(rest[0], x)
  {
    JoinsIff(cur, rest[0]);
  }

  predicate Apart(p: Range, q: Range) {
    p.lo <= q.lo && (p.hi == MAX_INT || p.hi + 1 < q.lo)
  }

  /** In order of their lower ends, and each apart from the next unless it is open. */
  predicate Shaped(rs: seq<Range>) {
    rs == [] || (Proper(rs[0]) && (|rs| > 1 ==> Apart(rs[0], rs[1])) && Shaped(rs[1..]))
  }

  /** What byte mode relies on: no two ranges meet or touch. */
  predicate Separated(rs: seq<Range>) {
    |rs| <= 1 || (rs[0].hi + 1 < rs[1].lo && Separated(rs[1..]))
  }

  lemma {:induction false} MergeShaped(cur: Range, rest: seq<Range>)
    requires Ready(cur, rest)
    ensures var m := MergeFrom(cur, rest); m != [] && m[0].lo == cur.lo && Shaped(m)
    decreases |rest|
  {
    hide Ready, Wrap;
    if rest == [] {
      ReadyProper(cur, rest);
    } else {
      ReadyProper(cur, rest);
      ReadyNext(cur, rest);
      JoinsIff(cur, rest[0]);
      if Joins(cur, rest[0]) {
        MergeShaped(Join(cur, rest[0]), rest[1..]);
      } else {
        MergeShaped(rest[0], rest[1..]);
        assert MergeFrom(cur, rest)[1..] == MergeFrom(rest[0], rest[1..]);
      }
    }
  }

  lemma ReadyProper(cur: Range, rest: seq<Range>)
    requires Ready(cur, rest)
    ensures Proper(cur) && (rest != [] ==> Proper(rest[0]) && cur.lo <= rest[0].lo)
  {
  }

  /** All ranges but the last in order are closed. */
  predicate ClosedButLast(rs: seq<Range>) {
    |rs| <= 1 || (rs[0].hi < MAX_INT && ClosedButLast(rs[1..]))
  }

  /** The merged ranges are separated exactly when, in order, only the last is open. */
  lemma {:induction false} MergeSeparatedIff(cur: Range, rest: seq<Range>)
    requires Ready(cur, rest)
    ensures Separated(MergeFrom(cur, rest)) <==> ClosedButLast([cur] + rest)
    decreases |rest|
  {
    hide Ready, Wrap, Shaped;
    assert ([cur] + rest)[1..] == rest;
    if rest != [] {
      var next := rest[0];
      ReadyProper(cur, rest);
      ReadyNext(cur, rest);
      JoinsIff(cur, next);
      assert rest == [next] + rest[1..];
      if Joins(cur, next) {
        var cur' := Join(cur, next);
        MergeSeparatedIff(cur', rest[1..]);
        assert ([cur'] + rest[1..])[1..] == rest[1..];
      } else {
        MergeShaped(next, rest[1..]);
        MergeSeparatedIff(next, rest[1..]);
        assert MergeFrom(cur, rest)[1..] == MergeFrom(next, rest[1..]);
      }
    }
  }

  /** The same, on the list as it was given: an open range appears once, and no other range
      is open or begins after it. */
  ghost predicate Tame(rs: multiset<Range>) {
    forall r | r in rs && r.hi == MAX_INT :: rs[r] == 1 && forall q | q in rs && q != r :: q.hi < MAX_INT && q.lo <= r.lo
  }

  lemma {:induction false} ClosedButLastIs(rs: seq<Range>)
    ensures ClosedButLast(rs) <==> forall i | 0 <= i < |rs| - 1 :: rs[i].hi < MAX_INT
  {
    if |rs| > 1 {
      ClosedButLastIs(rs[1..]);
      if ClosedButLast(rs) {
        forall i | 0 <= i < |rs| - 1 ensures rs[i].hi < MAX_INT {
          assert i > 0 ==> rs[i] == rs[1..][i - 1];
        }
      }
    }
  }

  lemma ClosedIsTame(rs: seq<Range>)
    requires Sorted(rs) && rs != [] && forall i | 0 <= i < |rs| - 1 :: rs[i].hi < MAX_INT
    ensures Tame(multiset(rs))
  {
    var n := |rs| - 1;
    var front, last := rs[..n], rs[n];
    assert rs == front + [last];
    forall r | r in multiset(rs) && r.hi == MAX_INT
      ensures multiset(rs)[r] == 1 && forall q | q in multiset(rs) && q != r :: q.hi < MAX_INT && q.lo <= r.lo
    {
      assert r !in front && r == last;
      forall q | q in multiset(rs) && q != r ensures q.hi < MAX_INT && q.lo <= r.lo {
        assert q in front;
        var k :| 0 <= k < n && rs[k] == q;
        assert Before(rs[k], last);
      }
    }
  }

  lemma TameIsClosed(rs: seq<Range>, k: nat)
    requires Sorted(rs) && AllProper(rs) && Tame(multiset(rs)) && k < |rs| - 1
    ensures rs[k].hi < MAX_INT
  {
    var n := |rs| - 1;
    assert rs == rs[..n] + [rs[n]];
    assert rs[k] in rs[..n] && rs[k] in multiset(rs) && rs[n] in multiset(rs);
    assert Before(rs[k], rs[n]);
  }

  lemma TameIff(rs: seq<Range>)
    requires Sorted(rs) && AllProper(rs) && rs != []
    ensures Tame(multiset(rs)) <==> ClosedButLast(rs)
  {
    hide ClosedButLast, Tame, Sorted, AllProper;
    ClosedButLastIs(rs);
    if ClosedButLast(rs) {
      ClosedIsTame(rs);
    }
    if Tame(multiset(rs)) {
      forall k | 0 <= k < |rs| - 1 ensures rs[k].hi < MAX_INT {
        TameIsClosed(rs, k);
      }
    }
  }

  // ---------------------------------------------------------------------
  // The two operations

  lemma SameMembers(rs: seq<Range>, ss: seq<Range>)
    requires multiset(rs) == multiset(ss)
    ensures forall r :: r in rs <==> r in ss
  {
    forall r ensures r in rs <==> r in ss {
      assert r in multiset(rs) <==> r in multiset(ss);
    }
  }

  lemma SortKeeps(rs: seq<Range>)
    requires rs != [] && AllProper(rs)
    ensures var s := Sort(rs); s != [] && AllProper(s) && Ready(s[0], s[1..]) && forall x :: Covers(s, x) <==> Covers(rs, x)
  {
    hide Sort;
    SortSorts(rs);
    var s := Sort(rs);
    SameMembers(s, rs);
    assert |s| == |multiset(s)| == |multiset(rs)| == |rs|;
    forall i | 0 <= i < |s| ensures Proper(s[i]) { assert s[i] in rs; }
    forall i | 0 < i < |s| ensures s[0].lo <= s[i].lo { assert Before(s[0], s[i]); }
    forall x ensures Covers(s, x) <==> Covers(rs, x) {
      CoversByMember(s, x);
      CoversByMember(rs, x);
    }
  }

  lemma CoversByMember(rs: seq<Range>, x: int)
    ensures Covers(rs, x) <==> exists r :: r in rs && In(r, x)
  {
    if Covers(rs, x) {
      var i :| 0 <= i < |rs| && rs[i].lo <= x <= rs[i].hi;
      assert rs[i] in rs && In(rs[i], x);
    }
    if r :| r in rs && In(r, x) {
      var i :| 0 <= i < |rs| && rs[i] == r;
    }
  }

  /** For every list: the selection is kept and the result is in shape; it is separated
      exactly when the list is tame. */
  method MergeRanges(rs: seq<Range>) returns (merged: seq<Range>)
    requires AllProper(rs)
    ensures rs == [] <==> merged == []
    ensures forall x :: Covers(merged, x) <==> Covers(rs, x)
    ensures Shaped(merged)
    ensures Separated(merged) <==> Tame(multiset(rs))
  {
    if |rs| == 0 {
      return [];
    }
    var s := Sort(rs);
    hide Sort, Shaped, Separated, Covers, Wrap, Tame, Ready;
    merged := [];
    var current := s[0];
    ghost var all := MergeFrom(s[0], s[1..]);
    assert [] + all == all;
    for i := 1 to |s|
      invariant merged + MergeFrom(current, s[i..]) == all
    {
      var next := s[i];
      assert s[i..][1..] == s[i + 1..];
      if next.lo <= Wrap(current.hi + 1) {
        if next.hi > current.hi {
          current := Range(current.lo, next.hi);
        }
      } else {
        merged := merged + [current];
        current := next;
      }
    }
    merged := merged + [current];
    MergedIs(rs);
  }

  lemma MergedIs(rs: seq<Range>)
    requires rs != [] && AllProper(rs) && Sort(rs) != []
    ensures var s := Sort(rs); var m := MergeFrom(s[0], s[1..]);
            && m != [] && Shaped(m) && (forall x :: Covers(m, x) <==> Covers(rs, x))
            && (Separated(m) <==> Tame(multiset(rs)))
  {
    hide Sort, Shaped, Separated, Covers, Wrap, Tame, Ready, MergeFrom, ClosedButLast;
    SortKeeps(rs);
    SortSorts(rs);
    var s := Sort(rs);
    assert s == [s[0]] + s[1..];
    MergeShaped(s[0], s[1..]);
    MergeSeparatedIff(s[0], s[1..]);
    TameIff(s);
    forall x ensures Covers(MergeFrom(s[0], s[1..]), x) <==> Covers(rs, x) {
      MergeCovers(s[0], s[1..], x);
      CoversCons(s[0], s[1..], x);
    }
  }

  /** cut -b 2-,4: the open range hides the other from the merge, and both are kept. */
  lemma OpenRangeOverlaps()
    ensures MergeFrom(Range(2, MAX_INT), [Range(4, 4)]) == [Range(2, MAX_INT), Range(4, 4)]
    ensures !Separated([Range(2, MAX_INT), Range(4, 4)])
  {
    JoinsIff(Range(2, MAX_INT), Range(4, 4));
  }

  // ---------------------------------------------------------------------
  // Complementing

  /** The gaps above last, up to the end of the integers. */
  function Gaps(rs: seq<Range>, last: int): seq<Range>
    decreases |rs|
  {
    if last == MAX_INT then []
    else if rs == [] then [Range(last + 1, MAX_INT)]
    else (if rs[0].lo > last + 1 then [Range(last + 1, rs[0].lo - 1)] else []) + Gaps(rs[1..], rs[0].hi)
  }

  lemma {:induction false} GapsCover(rs: seq<Range>, last: int, x: int)
    requires 0 <= last <= MAX_INT && Shaped(rs) && (last < MAX_INT && rs != [] ==> rs[0].lo > last)
    requires last < x <= MAX_INT
    ensures Covers(Gaps(rs, last), x) <==> !Covers(rs, x)
    decreases |rs|
  {
    hide Covers;
    if rs == [] {
      CoversCons(Range(last + 1, MAX_INT), [], x);
      assert [Range(last + 1, MAX_INT)] + [] == [Range(last + 1, MAX_INT)];
      NothingCovers(x);
    } else {
      var p := rs[0];
      assert rs == [p] + rs[1..];
      CoversCons(p, rs[1..], x);
      CoversCons(Range(last + 1, p.lo - 1), Gaps(rs[1..], p.hi), x);
      assert [] + Gaps(rs[1..], p.hi) == Gaps(rs[1..], p.hi);
      if x > p.hi {
        GapsCover(rs[1..], p.hi, x);
      } else {
        GapsAbove(rs[1..], p.hi, x);
        if x < p.lo {
          CoversAbove(rs[1..], p.lo, x);
        }
      }
    }
  }

  lemma NothingCovers(x: int)
    ensures !Covers([], x)
  {
  }

  /** Ranges in shape cover nothing below the first. */
  lemma {:induction false} CoversAbove(rs: seq<Range>, lo: int, x: int)
    requires Shaped(rs) && (rs != [] ==> lo <= rs[0].lo) && x < lo
    ensures !Covers(rs, x)
    decreases |rs|
  {
    hide Covers;
    if rs == [] {
      NothingCovers(x);
    } else {
      CoversAbove(rs[1..], rs[0].lo, x);
      CoversCons(rs[0], rs[1..], x);
      assert rs == [rs[0]] + rs[1..];
    }
  }

  /** The gaps are separated, proper, and all above last. */
  lemma {:induction false} GapsShaped(rs: seq<Range>, last: int)
    requires 0 <= last <= MAX_INT && Shaped(rs) && (last < MAX_INT && rs != [] ==> rs[0].lo > last)
    ensures Shaped(Gaps(rs, last)) && Separated(Gaps(rs, last))
    ensures Gaps(rs, last) != [] ==> Gaps(rs, last)[0].lo > last
    decreases |rs|
  {
    if rs != [] && last < MAX_INT {
      var p := rs[0];
      var more := Gaps(rs[1..], p.hi);
      GapsShaped(rs[1..], p.hi);
      if p.lo > last + 1 {
        assert Gaps(rs, last)[1..] == more;
      } else {
        assert Gaps(rs, last) == more;
      }
    }
  }

  lemma GapsAbove(rs: seq<Range>, last: int, x: int)
    requires 0 <= last <= MAX_INT && Shaped(rs) && (last < MAX_INT && rs != [] ==> rs[0].lo > last)
    requires x <= last
    ensures !Covers(Gaps(rs, last), x)
  {
    GapsShaped(rs, last);
    CoversAbove(Gaps(rs, last), last + 1, x);
  }

  /** --complement selects exactly the positions that were not selected, in separated
      ranges, whatever was left of the merge. */
  method ComplementRanges(rs: seq<Range>) returns (comp: seq<Range>)
    requires Shaped(rs)
    ensures Shaped(comp) && Separated(comp)
    ensures forall x | 1 <= x <= MAX_INT :: Covers(comp, x) <==> !Covers(rs, x)
  {
    hide Shaped, Separated, Covers, Gaps;
    ShapedProper(rs);
    comp := [];
    var lastHi := 0;
    var i := 0;
    assert rs[0..] == rs && [] + Gaps(rs, 0) == Gaps(rs, 0);
    while i < |rs|
      invariant 0 <= i <= |rs| && comp + Gaps(rs[i..], lastHi) == Gaps(rs, 0)
      invariant 0 <= lastHi < MAX_INT
    {
      var p := rs[i];
      GapsStep(rs, i, lastHi, comp);
      if p.lo > lastHi + 1 {
        comp := comp + [Range(lastHi + 1, p.lo - 1)];
      }
      lastHi := p.hi;
      i := i + 1;
      if lastHi == MAX_INT {
        break;
      }
    }
    GapsEnd(rs[i..], lastHi, comp);
    if lastHi < MAX_INT {
      comp := comp + [Range(lastHi + 1, MAX_INT)];
    }
    assert comp == Gaps(rs, 0);
    GapsAre(rs);
  }

  lemma GapsAre(rs: seq<Range>)
    requires Shaped(rs)
    ensures Shaped(Gaps(rs, 0)) && Separated(Gaps(rs, 0))
    ensures forall x | 1 <= x <= MAX_INT :: Covers(Gaps(rs, 0), x) <==> !Covers(rs, x)
  {
    ShapedProper(rs);
    hide Shaped, Separated, Covers, Gaps;
    GapsShaped(rs, 0);
    forall x | 1 <= x <= MAX_INT ensures Covers(Gaps(rs, 0), x) <==> !Covers(rs, x) {
      GapsCover(rs, 0, x);
    }
  }

  lemma {:induction false} ShapedProper(rs: seq<Range>)
    requires Shaped(rs)
    ensures AllProper(rs)
  {
    if rs != [] {
      ShapedProper(rs[1..]);
    }
  }

  lemma GapsStep(rs: seq<Range>, i: nat, last: int, comp: seq<Range>)
    requires i < |rs| && last < MAX_INT
    ensures var p := rs[i];
            comp + Gaps(rs[i..], last) ==
            (if p.lo > last + 1 then comp + [Range(last + 1, p.lo - 1)] else comp) + Gaps(rs[i + 1..], p.hi)
  {
    hide *;
    assert rs[i..][0] == rs[i] && rs[i..][1..] == rs[i + 1..];
    GapsCons(rs[i..], last);
    var p, more := rs[i], Gaps(rs[i + 1..], rs[i].hi);
    assert comp + ([Range(last + 1, p.lo - 1)] + more) == comp + [Range(last + 1, p.lo - 1)] + more;
    assert [] + more == more;
  }

  lemma GapsCons(t: seq<Range>, last: int)
    requires t != [] && last < MAX_INT
    ensures Gaps(t, last) == (if t[0].lo > last + 1 then [Range(last + 1, t[0].lo - 1)] else []) + Gaps(t[1..], t[0].hi)
  {
  }

  lemma GapsEnd(rs: seq<Range>, last: int, comp: seq<Range>)
    requires rs == [] || last == MAX_INT
    ensures comp + Gaps(rs, last) == if last == MAX_INT then comp else comp + [Range(last + 1, MAX_INT)]
  {
  }
}
