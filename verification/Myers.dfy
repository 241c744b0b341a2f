/** The linear-space Myers search: `bisect` grows one frontier from each corner of
    the edit graph until they overlap, and `myersRec` splits there and recurses. */
module Myers {
  import opened EditGraph

  // ---------------------------------------------------------------------
  // What a frontier knows

  /** Fewest edits to (x, y) when both frontiers may run past the right and bottom
      edges, where every step is an edit. */
  ghost function Reach(a: seq<int>, b: seq<int>, x: nat, y: nat): nat {
    if x <= |a| && y <= |b| then Head(a, b, x, y)
    else if x <= |a| then Head(a, b, x, |b|) + (y - |b|)
    else if y <= |b| then Head(a, b, |a|, y) + (x - |a|)
    else Head(a, b, |a|, |b|) + (x - |a|) + (y - |b|)
  }

  /** Diagonal k can be followed as far as column x with at most d edits. */
  ghost predicate Sound(a: seq<int>, b: seq<int>, k: int, x: int, d: int) {
    0 <= x && k <= x && Reach(a, b, x, x - k) <= d
  }

  ghost predicate SameParity(d: int, k: int) {
    (d - k) % 2 == 0
  }

  /** The state of one frontier before round d, with `lost` and `gone` diagonals
      pruned from its low and high end.  The array keeps rows d-1 and d-2, on
      alternating diagonals. */
  ghost predicate Frontier(a: seq<int>, b: seq<int>, v: seq<int>, off: nat, d: int, lost: int, gone: int)
  {
    && |v| == 2 * off + 4
    && 0 <= d && 0 <= lost && 0 <= gone && SameParity(lost, 0) && SameParity(gone, 0)
    && (d <= 1 ==> lost == 0 && gone == 0)
    && (d == 0 ==> v[off + 1] == 0)
    && PrunedOnly(a, b, d - 1, lost, gone)
    && Unset(v, off, d)
    && SoundRow(a, b, v, off, d - 1) && SoundRow(a, b, v, off, d - 2)
    && ScannedRow(v, off, d - 1, lost, gone)
    && CompleteRow(a, b, v, off, d - 1)
  }

  /** Pruning never removes a diagonal that a cheapest walk still needs. */
  ghost predicate PrunedOnly(a: seq<int>, b: seq<int>, d: int, lost: int, gone: int) {
    var delta := |a| - |b|;
    && (gone > 0 ==> Distance(a, b) + delta <= 2 * d - gone)
    && (lost > 0 ==> Distance(a, b) - delta <= 2 * d - lost)
  }

  /** Diagonals further out than the rounds so far are untouched, but for the one
      that seeds round 0. */
  ghost predicate Unset(v: seq<int>, off: nat, d: int)
  {
    forall i | 0 <= i < |v| && Abs(i - off) >= d && !(d <= 1 && i == off + 1) :: v[i] == -1
  }

  ghost predicate SoundRow(a: seq<int>, b: seq<int>, v: seq<int>, off: nat, d: int)
  {
    forall i | 0 <= i < |v| && Abs(i - off) <= d && SameParity(d, i - off) && v[i] != -1 ::
      Sound(a, b, i - off, v[i], d)
  }

  ghost predicate ScannedRow(v: seq<int>, off: nat, d: int, lost: int, gone: int)
  {
    forall i | 0 <= i < |v| && -d + lost <= i - off <= d - gone && SameParity(d, i - off) :: v[i] != -1
  }

  /** Row d has come as far as every cheapest walk gets with d edits. */
  ghost predicate CompleteRow(a: seq<int>, b: seq<int>, v: seq<int>, off: nat, d: int)
  {
    forall x: nat, y: nat | OnOptimal(a, b, x, y) && Head(a, b, x, y) == d ::
      0 <= off + x - y < |v| && x <= v[off + x - y]
  }

  /** The point half way along a cheapest walk. */
  ghost predicate Middle(a: seq<int>, b: seq<int>, x: int, y: int) {
    && OnOptimal(a, b, x, y)
    && Head(a, b, x, y) == (Distance(a, b) + 1) / 2
    && Tail(a, b, x, y) == Distance(a, b) / 2
  }

  // ---------------------------------------------------------------------
  // One step of a frontier

  lemma StepDown(a: seq<int>, b: seq<int>, k: int, x: int, d: int)
    requires Sound(a, b, k + 1, x, d)
    ensures Sound(a, b, k, x, d + 1)
  {
    var y := x - k - 1;
    if x <= |a| && y <= |b| {
      HeadStep(a, b, x, y);
    } else if y <= |b| {
      HeadStep(a, b, |a|, y);
    }
  }

  lemma StepRight(a: seq<int>, b: seq<int>, k: int, x: int, d: int)
    requires Sound(a, b, k - 1, x, d)
    ensures Sound(a, b, k, x + 1, d + 1)
  {
    var y := x - (k - 1);
    if x <= |a| && y <= |b| {
      HeadStep(a, b, x, y);
    } else if x <= |a| {
      HeadStep(a, b, x, |b|);
    }
  }

  lemma StepKept(a: seq<int>, b: seq<int>, k: int, x: int, d: int)
    requires Sound(a, b, k, x, d) && x < |a| && x - k < |b| && a[x] == b[x - k]
    ensures Sound(a, b, k, x + 1, d)
  {
    HeadStep(a, b, x, x - k);
  }

  /** A frontier that left the grid on the right has already met every cheapest
      walk on the diagonals above. */
  lemma PastRight(a: seq<int>, b: seq<int>, k: int, x: int, d: int)
    requires Sound(a, b, k, x, d) && x > |a|
    ensures Distance(a, b) <= d + k - (|a| - |b|) - 2
  {
    hide Head, Tail;
    Corners(a, b);
    CornerIsOptimal(a, b, 0, 0);
    var y := x - k;
    if y <= |b| {
      ThroughPoint(a, b, |a|, y);
      TailBound(a, b, |a|, y);
    }
  }

  lemma PastBottom(a: seq<int>, b: seq<int>, k: int, x: int, d: int)
    requires Sound(a, b, k, x, d) && x - k > |b|
    ensures Distance(a, b) <= d + (|a| - |b|) - k - 2
  {
    hide Head, Tail;
    Corners(a, b);
    CornerIsOptimal(a, b, 0, 0);
    if x <= |a| {
      ThroughPoint(a, b, x, |b|);
      TailBound(a, b, x, |b|);
    }
  }

  /** The diagonals on which a cheapest walk can be after d edits. */
  lemma OptimalDiagonal(a: seq<int>, b: seq<int>, x: nat, y: nat)
    requires OnOptimal(a, b, x, y)
    ensures Abs(x - y) <= Head(a, b, x, y)
    ensures Abs((|a| - |b|) - (x - y)) <= Tail(a, b, x, y)
    ensures SameParity(Head(a, b, x, y), x - y)
  {
    hide Head, Tail;
    HeadBound(a, b, x, y);
    TailBound(a, b, x, y);
    var kept := HeadKeeps(a, b, x, y);
    assert Head(a, b, x, y) - (x - y) == 2 * (y - kept);
  }

  // ---------------------------------------------------------------------
  // Pruning and overlap

  /** Every diagonal a cheapest walk is on after d edits is still being scanned. */
  lemma NotPruned(a: seq<int>, b: seq<int>, x: nat, y: nat, d: int, lost: int, gone: int)
    requires OnOptimal(a, b, x, y) && Head(a, b, x, y) == d && PrunedOnly(a, b, d, lost, gone)
    requires 0 <= lost && 0 <= gone
    ensures -d + lost <= x - y <= d - gone
  {
    hide Head, Tail;
    OptimalDiagonal(a, b, x, y);
  }

  /** The scanned range is never empty while the search goes on. */
  lemma RangeNonempty(a: seq<int>, b: seq<int>, d: int, lost: int, gone: int)
    requires PrunedOnly(a, b, d, lost, gone) && 0 <= d <= Distance(a, b)
    requires 0 <= lost && 0 <= gone
    ensures -d + lost <= d - gone
  {
    hide Head, Tail;
    TailBound(a, b, 0, 0);
  }

  /** Overlapping frontiers meet on a cheapest walk, inside the grid: the forward
      point splits it into the edits spent by the two searches. */
  lemma OverlapSplits(a: seq<int>, b: seq<int>, k1: int, x1: int, d1: int, k2: int, x2: int, d2: int)
    requires Sound(a, b, k1, x1, d1) && Sound(Reverse(a), Reverse(b), k2, x2, d2)
    requires k1 + k2 == |a| - |b| && Abs(k1) <= d1 && Abs(k2) <= d2
    requires d1 + d2 <= Distance(a, b) && x1 + x2 >= |a|
    ensures OnOptimal(a, b, x1, x1 - k1)
    ensures Head(a, b, x1, x1 - k1) == d1 && Tail(a, b, x1, x1 - k1) == d2
  {
    hide Head, Tail;
    var ra, rb := Reverse(a), Reverse(b);
    ReversedGraph(a, b, 0, 0);
    if x1 > |a| { PastRight(a, b, k1, x1, d1); }
    if x1 - k1 > |b| { PastBottom(a, b, k1, x1, d1); }
    if x2 > |a| { PastRight(ra, rb, k2, x2, d2); }
    if x2 - k2 > |b| { PastBottom(ra, rb, k2, x2, d2); }
    var x, y := |a| - x2, |b| - (x2 - k2);
    ReversedGraph(a, b, x, y);
    TailFallsAlongDiagonal(a, b, x, y, x1 - x);
    ThroughPoint(a, b, x1, x1 - k1);
  }

  lemma {:induction false} TailFallsAlongDiagonal(a: seq<int>, b: seq<int>, x: nat, y: nat, run: nat)
    requires x + run <= |a| && y + run <= |b|
    ensures Tail(a, b, x + run, y + run) <= Tail(a, b, x, y)
    decreases run
  {
    hide Head, Tail;
    if run > 0 {
      TailLipschitz(a, b, x, y);
      TailFallsAlongDiagonal(a, b, x + 1, y + 1, run - 1);
    }
  }

  /** Where a cheapest walk is half way, both frontiers are inside the grid and
      overlap. */
  lemma HalfWayOverlaps(a: seq<int>, b: seq<int>, x: nat, y: nat, x1: int)
    requires OnOptimal(a, b, x, y) && Sound(a, b, x - y, x1, Head(a, b, x, y))
    ensures x1 <= |a| && x1 - (x - y) <= |b|
  {
    hide Head, Tail;
    OptimalDiagonal(a, b, x, y);
    var d := Head(a, b, x, y);
    if x1 > |a| { PastRight(a, b, x - y, x1, d); }
    if x1 - (x - y) > |b| { PastBottom(a, b, x - y, x1, d); }
  }

  /** The distance has the parity of the difference of the lengths. */
  lemma DistanceParity(a: seq<int>, b: seq<int>)
    ensures SameParity(Distance(a, b), |a| - |b|)
    ensures Abs(|a| - |b|) <= Distance(a, b) <= |a| + |b|
  {
    hide Head, Tail;
    Corners(a, b);
    CornerIsOptimal(a, b, 0, 0);
    TailBound(a, b, 0, 0);
    var kept := HeadKeeps(a, b, |a|, |b|);
    assert Distance(a, b) - (|a| - |b|) == 2 * (|b| - kept);
  }

  // ---------------------------------------------------------------------
  // Snakes

  /** The frontier stands still: there is no kept line to follow. */
  ghost predicate Stopped(a: seq<int>, b: seq<int>, x: int, y: int) {
    !(0 <= x < |a| && 0 <= y < |b| && a[x] == b[y])
  }

  method ForwardSnake(a: seq<int>, b: seq<int>, x0: int, y0: int, ghost d: int) returns (x: int, y: int)
    requires Sound(a, b, x0 - y0, x0, d)
    ensures x0 <= x && x - y == x0 - y0 && Sound(a, b, x - y, x, d) && Stopped(a, b, x, y)
  {
    x, y := x0, y0;
    while x < |a| && y < |b| && a[x] == b[y]
      invariant x0 <= x && x - y == x0 - y0 && Sound(a, b, x - y, x, d)
    {
      StepKept(a, b, x - y, x, d);
      x, y := x + 1, y + 1;
    }
  }

  method ReverseSnake(a: seq<int>, b: seq<int>, x0: int, y0: int, ghost d: int) returns (x: int, y: int)
    requires Sound(Reverse(a), Reverse(b), x0 - y0, x0, d)
    ensures x0 <= x && x - y == x0 - y0
    ensures Sound(Reverse(a), Reverse(b), x - y, x, d) && Stopped(Reverse(a), Reverse(b), x, y)
  {
    x, y := x0, y0;
    while x < |a| && y < |b| && a[|a| - x - 1] == b[|b| - y - 1]
      invariant x0 <= x && x - y == x0 - y0 && Sound(Reverse(a), Reverse(b), x - y, x, d)
    {
      StepKept(Reverse(a), Reverse(b), x - y, x, d);
      x, y := x + 1, y + 1;
    }
  }

  /** The new value of a diagonal reaches every optimal point on it. */
  lemma SnakeReaches(a: seq<int>, b: seq<int>, k: int, x0: int, x: int, px: nat, py: nat, run: nat)
    requires px - py == k && KeptRun(a, b, px, py, run) && px - run <= x0 <= x
    requires 0 <= x && 0 <= x - k && Stopped(a, b, x, x - k)
    ensures px <= x
  {
    assert forall i | px - run <= i < px :: a[i] == a[px - run..px][i - (px - run)];
    assert forall i | py - run <= i < py :: b[i] == b[py - run..py][i - (py - run)];
  }

  // ---------------------------------------------------------------------
  // Rounds

  /** Every optimal point on diagonal k with d edits can be reached from column x
      by kept lines alone. */
  ghost predicate StartsBefore(a: seq<int>, b: seq<int>, k: int, x: int, d: int) {
    forall px: nat, py: nat | OnOptimal(a, b, px, py) && Head(a, b, px, py) == d && px - py == k ::
      exists run: nat :: KeptRun(a, b, px, py, run) && px - run <= x
  }

  /** Taking the better neighbour leaves no optimal point behind. */
  lemma StartReaches(a: seq<int>, b: seq<int>, v: seq<int>, off: nat, d: int, k: int, x: int)
    requires |v| == 2 * off + 4 && 0 <= d <= off && -d <= k <= d
    requires d == 0 ==> 0 <= x
    requires k > -d ==> v[off + k - 1] + 1 <= x
    requires k < d ==> v[off + k + 1] <= x
    requires CompleteRow(a, b, v, off, d - 1)
    ensures StartsBefore(a, b, k, x, d)
  {
    hide Head, Tail;
    forall px: nat, py: nat | OnOptimal(a, b, px, py) && Head(a, b, px, py) == d && px - py == k
      ensures exists run: nat :: KeptRun(a, b, px, py, run) && px - run <= x
    {
      if d == 0 {
        NoEditsNoLoss(a, b, px, py);
      } else {
        var run, right := LastEdit(a, b, px, py);
        OptimalDiagonal(a, b, px, py);
        if right {
          OptimalDiagonal(a, b, px - run - 1, py - run);
        } else {
          OptimalDiagonal(a, b, px - run, py - run - 1);
        }
        assert KeptRun(a, b, px, py, run) && px - run <= x;
      }
    }
  }

  lemma OriginIsSound(a: seq<int>, b: seq<int>)
    ensures Sound(a, b, 0, 0, 0)
  {
    Corners(a, b);
  }

  /** Row d - 1 is there to start diagonal k of row d from. */
  ghost predicate ColumnReady(a: seq<int>, b: seq<int>, v: seq<int>, off: nat, d: int, k: int, lost: int, gone: int) {
    && |v| == 2 * off + 4 && 0 <= d <= off && d <= Distance(a, b) + 1
    && 0 <= lost && 0 <= gone && SameParity(lost, 0) && SameParity(gone, 0)
    && -d + lost <= k <= d - gone && SameParity(d, k)
    && (d == 0 ==> v[off + 1] == 0)
    && PrunedOnly(a, b, d - 1, lost, gone) && SoundRow(a, b, v, off, d - 1)
    && ScannedRow(v, off, d - 1, lost, gone) && CompleteRow(a, b, v, off, d - 1)
  }

  /** The better of the two neighbours' steps onto diagonal k. */
  method StartColumn(ghost a: seq<int>, ghost b: seq<int>, v: array<int>, off: nat, d: int, k: int,
                     ghost lost: int, ghost gone: int) returns (x: int)
    requires ColumnReady(a, b, v[..], off, d, k, lost, gone)
    ensures Sound(a, b, k, x, d) && StartsBefore(a, b, k, x, d)
  {
    hide Head, Tail, Reach, OnOptimal, CompleteRow, KeptRun, StartsBefore, PrunedOnly;
    var ko := off + k;
    if d > 0 { RangeNonempty(a, b, d - 1, lost, gone); }
    if k == -d || (k != d && v[ko - 1] < v[ko + 1]) {
      x := v[ko + 1];
      if d > 0 { StepDown(a, b, k, x, d - 1); } else { OriginIsSound(a, b); }
    } else {
      x := v[ko - 1] + 1;
      StepRight(a, b, k, x - 1, d - 1);
    }
    StartReaches(a, b, v[..], off, d, k, x);
  }

  /** Row d while it is being scanned: the diagonals lo..hi are new, everything
      else is as it was. */
  ghost predicate PartRow(a: seq<int>, b: seq<int>, v: seq<int>, was: seq<int>, off: nat, d: int, lo: int, hi: int) {
    && |v| == |was| == 2 * off + 4
    && (forall i | 0 <= i < |v| :: WrittenOrOld(a, b, v[i], was[i], i - off, d, lo, hi))
    && PartComplete(a, b, v, off, d, lo, hi)
  }

  ghost predicate WrittenOrOld(a: seq<int>, b: seq<int>, x: int, was: int, k: int, d: int, lo: int, hi: int) {
    if lo <= k <= hi && SameParity(d, k) then x != -1 && Sound(a, b, k, x, d) else x == was
  }

  ghost predicate PartComplete(a: seq<int>, b: seq<int>, v: seq<int>, off: nat, d: int, lo: int, hi: int) {
    forall x: nat, y: nat | OnOptimal(a, b, x, y) && Head(a, b, x, y) == d && lo <= x - y <= hi ::
      0 <= off + x - y < |v| && x <= v[off + x - y]
  }

  /** Writing the next diagonal at either end of the scanned part. */
  lemma ExtendRow(a: seq<int>, b: seq<int>, v: seq<int>, was: seq<int>, off: nat, d: int,
                  lo: int, hi: int, lo': int, hi': int, k: int, x0: int, x: int)
    requires PartRow(a, b, v, was, off, d, lo, hi) && 0 <= d <= off && -d <= k <= d && SameParity(d, k)
    requires Sound(a, b, k, x, d) && StartsBefore(a, b, k, x0, d) && x0 <= x && Stopped(a, b, x, x - k)
    requires SameParity(d, lo) && SameParity(d, hi) && lo <= hi + 2
    requires (lo' == k == lo - 2 && hi' == hi) || (lo' == lo && hi' == k == hi + 2)
    ensures PartRow(a, b, v[off + k := x], was, off, d, lo', hi')
  {
    hide Head, Tail, Reach, PartComplete, OnOptimal;
    var v' := v[off + k := x];
    forall i | 0 <= i < |v'|
      ensures WrittenOrOld(a, b, v'[i], was[i], i - off, d, lo', hi')
    {
      assert WrittenOrOld(a, b, v[i], was[i], i - off, d, lo, hi);
      if SameParity(d, i - off) {
        OnlyNext(d, lo, hi, lo', hi', k, i - off);
      }
    }
    ExtendComplete(a, b, v, off, d, lo, hi, lo', hi', k, x0, x);
  }

  lemma ExtendComplete(a: seq<int>, b: seq<int>, v: seq<int>, off: nat, d: int,
                       lo: int, hi: int, lo': int, hi': int, k: int, x0: int, x: int)
    requires PartComplete(a, b, v, off, d, lo, hi) && 0 <= off + k < |v| && SameParity(d, k)
    requires 0 <= x && k <= x && StartsBefore(a, b, k, x0, d) && x0 <= x && Stopped(a, b, x, x - k)
    requires SameParity(d, lo) && SameParity(d, hi) && lo <= hi + 2
    requires (lo' == k == lo - 2 && hi' == hi) || (lo' == lo && hi' == k == hi + 2)
    ensures PartComplete(a, b, v[off + k := x], off, d, lo', hi')
  {
    hide Head, Tail;
    var v' := v[off + k := x];
    forall px: nat, py: nat | OnOptimal(a, b, px, py) && Head(a, b, px, py) == d && lo' <= px - py <= hi'
      ensures 0 <= off + px - py < |v'| && px <= v'[off + px - py]
    {
      OptimalDiagonal(a, b, px, py);
      OnlyNext(d, lo, hi, lo', hi', k, px - py);
      if px - py == k {
        var run: nat :| KeptRun(a, b, px, py, run) && px - run <= x0;
        SnakeReaches(a, b, k, x0, x, px, py, run);
      }
    }
  }

  lemma OnlyNext(d: int, lo: int, hi: int, lo': int, hi': int, k: int, j: int)
    requires SameParity(d, lo) && SameParity(d, hi) && SameParity(d, k) && SameParity(d, j)
    requires (lo' == k == lo - 2 && hi' == hi) || (lo' == lo && hi' == k == hi + 2)
    requires lo <= hi + 2
    ensures lo' <= j <= hi' <==> lo <= j <= hi || j == k
  {
  }

  /** A scanned row is the next frontier. */
  lemma RowDone(a: seq<int>, b: seq<int>, v: seq<int>, was: seq<int>, off: nat, d: int,
                lost: int, gone: int, lost': int, gone': int, lo: int, hi: int)
    requires Frontier(a, b, was, off, d, lost, gone) && PartRow(a, b, v, was, off, d, lo, hi)
    requires 0 <= d <= off && -d <= lo <= -d + lost' && d - gone' <= hi <= d
    requires lost <= lost' && gone <= gone' && SameParity(lost', 0) && SameParity(gone', 0)
    requires PrunedOnly(a, b, d, lost', gone')
    requires d == 0 ==> lost' == 0 && gone' == 0
    requires d <= 1 ==> lo <= hi == d
    ensures Frontier(a, b, v, off, d + 1, lost', gone')
  {
    hide Head, Tail, Reach, OnOptimal;
    RowDoneUnset(a, b, v, was, off, d, lo, hi);
    RowDoneSound(a, b, v, was, off, d, lo, hi);
    RowDoneScanned(a, b, v, was, off, d, lost', gone', lo, hi);
    RowDoneComplete(a, b, v, off, d, lost', gone', lo, hi);
  }

  lemma RowDoneUnset(a: seq<int>, b: seq<int>, v: seq<int>, was: seq<int>, off: nat, d: int, lo: int, hi: int)
    requires PartRow(a, b, v, was, off, d, lo, hi) && Unset(was, off, d) && 0 <= d && -d <= lo && hi <= d
    requires d <= 1 ==> lo <= hi == d
    ensures Unset(v, off, d + 1)
  {
    hide Sound, PartComplete;
    forall i | 0 <= i < |v| && Abs(i - off) >= d + 1 && !(d + 1 <= 1 && i == off + 1)
      ensures v[i] == -1
    {
      assert WrittenOrOld(a, b, v[i], was[i], i - off, d, lo, hi);
    }
  }

  lemma RowDoneSound(a: seq<int>, b: seq<int>, v: seq<int>, was: seq<int>, off: nat, d: int, lo: int, hi: int)
    requires PartRow(a, b, v, was, off, d, lo, hi) && Unset(was, off, d) && 0 <= d && -d <= lo && hi <= d
    requires SoundRow(a, b, was, off, d - 1) && SoundRow(a, b, was, off, d - 2)
    requires d <= 1 ==> lo <= hi == d
    ensures SoundRow(a, b, v, off, d) && SoundRow(a, b, v, off, d - 1)
  {
    hide Reach, PartComplete;
    forall i | 0 <= i < |v| && Abs(i - off) <= d && SameParity(d, i - off) && v[i] != -1
      ensures Sound(a, b, i - off, v[i], d)
    {
      assert WrittenOrOld(a, b, v[i], was[i], i - off, d, lo, hi);
      if !(lo <= i - off <= hi) {
        assert Abs(i - off) < d;
        assert Sound(a, b, i - off, was[i], d - 2);
      }
    }
    forall i | 0 <= i < |v| && Abs(i - off) <= d - 1 && SameParity(d - 1, i - off) && v[i] != -1
      ensures Sound(a, b, i - off, v[i], d - 1)
    {
      assert WrittenOrOld(a, b, v[i], was[i], i - off, d, lo, hi);
    }
  }

  lemma RowDoneScanned(a: seq<int>, b: seq<int>, v: seq<int>, was: seq<int>, off: nat, d: int,
                       lost: int, gone: int, lo: int, hi: int)
    requires PartRow(a, b, v, was, off, d, lo, hi) && lo <= -d + lost && d - gone <= hi
    ensures ScannedRow(v, off, d, lost, gone)
  {
    hide Sound, PartComplete;
    forall i | 0 <= i < |v| && -d + lost <= i - off <= d - gone && SameParity(d, i - off)
      ensures v[i] != -1
    {
      assert WrittenOrOld(a, b, v[i], was[i], i - off, d, lo, hi);
    }
  }

  lemma RowDoneComplete(a: seq<int>, b: seq<int>, v: seq<int>, off: nat, d: int, lost: int, gone: int, lo: int, hi: int)
    requires PartComplete(a, b, v, off, d, lo, hi) && PrunedOnly(a, b, d, lost, gone) && 0 <= lost && 0 <= gone
    requires lo <= -d + lost && d - gone <= hi
    ensures CompleteRow(a, b, v, off, d)
  {
    hide Head, Tail, PrunedOnly;
    forall x: nat, y: nat | OnOptimal(a, b, x, y) && Head(a, b, x, y) == d
      ensures lo <= x - y <= hi
    {
      NotPruned(a, b, x, y, d, lost, gone);
    }
  }

  lemma EmptyRow(a: seq<int>, b: seq<int>, v: seq<int>, off: nat, d: int, lo: int, hi: int)
    requires |v| == 2 * off + 4 && hi < lo
    ensures PartRow(a, b, v, v, off, d, lo, hi)
  {
  }

  /** Scanning row d leaves row d-1 in place. */
  lemma PreviousRow(a: seq<int>, b: seq<int>, v: seq<int>, was: seq<int>, off: nat, d: int,
                    lost: int, gone: int, lo: int, hi: int)
    requires Frontier(a, b, was, off, d, lost, gone) && PartRow(a, b, v, was, off, d, lo, hi)
    requires d == 0 ==> hi < lo
    ensures d == 0 ==> v[off + 1] == 0
    ensures SoundRow(a, b, v, off, d - 1) && ScannedRow(v, off, d - 1, lost, gone) && CompleteRow(a, b, v, off, d - 1)
  {
    hide Head, Tail, Reach;
    forall i | 0 <= i < |v| && SameParity(d - 1, i - off)
      ensures v[i] == was[i]
    {
      assert WrittenOrOld(a, b, v[i], was[i], i - off, d, lo, hi);
    }
    forall x: nat, y: nat | OnOptimal(a, b, x, y) && Head(a, b, x, y) == d - 1
      ensures SameParity(d - 1, x - y)
    {
      OptimalDiagonal(a, b, x, y);
    }
  }

  lemma Parities(d: int, k: int, lost: int, gone: int)
    requires SameParity(d, k) && SameParity(lost, 0) && SameParity(gone, 0)
    ensures SameParity(d, k + 2) && SameParity(d, k - 2) && SameParity(d, -d + lost) && SameParity(d, d - gone)
  {
  }

  lemma RowReady(a: seq<int>, b: seq<int>, v: seq<int>, was: seq<int>, off: nat, d: int, k: int,
                 lost: int, gone: int, lo: int, hi: int)
    requires Frontier(a, b, was, off, d, lost, gone) && PartRow(a, b, v, was, off, d, lo, hi)
    requires d <= off && d <= Distance(a, b) + 1 && SameParity(d, k) && -d + lost <= k <= d - gone
    requires (lo == k + 2 && hi == d - gone) || (lo == -d + lost && hi == k - 2)
    ensures ColumnReady(a, b, v, off, d, k, lost, gone) && 0 <= off + k < |v|
  {
    hide Distance, SameParity, PrunedOnly, SoundRow, ScannedRow, CompleteRow, PartComplete, WrittenOrOld, Unset;
    PreviousRow(a, b, v, was, off, d, lost, gone, lo, hi);
  }

  /** The diagonal below the scanned part is written. */
  lemma ForwardWritten(a: seq<int>, b: seq<int>, v: seq<int>, was: seq<int>, off: nat, d: int, k: int,
                       lost: int, gone: int, x0: int, x: int)
    requires Frontier(a, b, was, off, d, lost, gone) && PartRow(a, b, v, was, off, d, k + 2, d - gone)
    requires d <= off && SameParity(d, k) && -d + lost <= k <= d - gone && 0 <= off + k < |v|
    requires Sound(a, b, k, x, d) && StartsBefore(a, b, k, x0, d) && x0 <= x && Stopped(a, b, x, x - k)
    ensures PartRow(a, b, v[off + k := x], was, off, d, k, d - gone)
  {
    hide PrunedOnly, SoundRow, ScannedRow, CompleteRow, PartRow, Unset, Sound, StartsBefore, Stopped;
    Parities(d, k, lost, gone);
    ExtendRow(a, b, v, was, off, d, k + 2, d - gone, k, d - gone, k, x0, x);
  }

  /** The diagonal above the scanned part is written. */
  lemma ReverseWritten(a: seq<int>, b: seq<int>, v: seq<int>, was: seq<int>, off: nat, d: int, k: int,
                       lost: int, gone: int, x0: int, x: int)
    requires Frontier(a, b, was, off, d, lost, gone) && PartRow(a, b, v, was, off, d, -d + lost, k - 2)
    requires d <= off && SameParity(d, k) && -d + lost <= k <= d - gone && 0 <= off + k < |v|
    requires Sound(a, b, k, x, d) && StartsBefore(a, b, k, x0, d) && x0 <= x && Stopped(a, b, x, x - k)
    ensures PartRow(a, b, v[off + k := x], was, off, d, -d + lost, k)
  {
    hide PrunedOnly, SoundRow, ScannedRow, CompleteRow, PartRow, Unset, Sound, StartsBefore, Stopped;
    Parities(d, k, lost, gone);
    ExtendRow(a, b, v, was, off, d, -d + lost, k - 2, -d + lost, k, k, x0, x);
  }

  method Store(v: array<int>, i: nat, x: int)
    requires i < v.Length
    modifies v
    ensures v[..] == old(v[..])[i := x] && v[i] == x
  {
    v[i] := x;
  }

  /** One diagonal of a forward round. */
  method ForwardDiagonal(a: seq<int>, b: seq<int>, v1: array<int>, off: nat, d: int, k1: int,
                         ghost was: seq<int>, ghost start: int, ghost end: int) returns (x: int, y: int)
    requires Frontier(a, b, was, off, d, start, end) && d <= off && d <= Distance(a, b) + 1
    requires SameParity(d, k1) && -d + start <= k1 <= d - end
    requires PartRow(a, b, v1[..], was, off, d, k1 + 2, d - end)
    modifies v1
    ensures PartRow(a, b, v1[..], was, off, d, k1, d - end)
    ensures v1[off + k1] == x && y == x - k1 && Sound(a, b, k1, x, d)
  {
    hide *;
    ghost var v := v1[..];
    RowReady(a, b, v, was, off, d, k1, start, end, k1 + 2, d - end);
    x := StartColumn(a, b, v1, off, d, k1, start, end);
    ghost var x0 := x;
    x, y := ForwardSnake(a, b, x, x - k1, d);
    ForwardWritten(a, b, v, was, off, d, k1, start, end, x0, x);
    Store(v1, off + k1, x);
  }

  /** One diagonal of a reverse round, in coordinates measured from the far corner. */
  method ReverseDiagonal(a: seq<int>, b: seq<int>, v2: array<int>, off: nat, d: int, k2: int,
                         ghost was: seq<int>, ghost start: int, ghost end: int) returns (x: int, y: int)
    requires Frontier(Reverse(a), Reverse(b), was, off, d, start, end) && d <= off
    requires d <= Distance(Reverse(a), Reverse(b)) + 1
    requires SameParity(d, k2) && -d + start <= k2 <= d - end
    requires PartRow(Reverse(a), Reverse(b), v2[..], was, off, d, -d + start, k2 - 2)
    modifies v2
    ensures PartRow(Reverse(a), Reverse(b), v2[..], was, off, d, -d + start, k2)
    ensures v2[off + k2] == x && y == x - k2 && Sound(Reverse(a), Reverse(b), k2, x, d)
  {
    hide *;
    ghost var ra, rb, v := Reverse(a), Reverse(b), v2[..];
    RowReady(ra, rb, v, was, off, d, k2, start, end, -d + start, k2 - 2);
    x := StartColumn(ra, rb, v2, off, d, k2, start, end);
    ghost var x0 := x;
    x, y := ReverseSnake(a, b, x, x - k2, d);
    ReverseWritten(ra, rb, v, was, off, d, k2, start, end, x0, x);
    Store(v2, off + k2, x);
  }

  /** No walk is shorter than this. */
  ghost predicate NoShorter(a: seq<int>, b: seq<int>, edits: int) {
    edits <= Distance(a, b)
  }

  /** Every cheapest walk is, after d edits, on one of the diagonals lo..hi. */
  ghost predicate HalfWayWithin(a: seq<int>, b: seq<int>, d: int, lo: int, hi: int) {
    forall x: nat, y: nat | OnOptimal(a, b, x, y) && Head(a, b, x, y) == d :: lo <= x - y <= hi
  }

  lemma HalfWayUnpruned(a: seq<int>, b: seq<int>, d: int, lost: int, gone: int)
    requires PrunedOnly(a, b, d, lost, gone) && 0 <= lost && 0 <= gone
    ensures HalfWayWithin(a, b, d, -d + lost, d - gone)
  {
    hide Head, Tail, PrunedOnly;
    forall x: nat, y: nat | OnOptimal(a, b, x, y) && Head(a, b, x, y) == d
      ensures -d + lost <= x - y <= d - gone
    {
      NotPruned(a, b, x, y, d, lost, gone);
    }
  }

  /** A cheapest walk is somewhere after d edits, so the range it is in is not empty. */
  lemma HalfWaySomewhere(a: seq<int>, b: seq<int>, d: int, lo: int, hi: int)
    requires HalfWayWithin(a, b, d, lo, hi) && 0 <= d <= Distance(a, b)
    ensures lo <= hi
  {
    hide Head, Tail, OnOptimal;
    Corners(a, b);
    var x, y := OptimalPointAt(a, b, d, 0, 0);
  }

  /** The overlap test of the forward pass, on one diagonal: it succeeds only at the
      middle of a cheapest walk, and always succeeds there. */
  lemma ForwardTest(a: seq<int>, b: seq<int>, v2: seq<int>, off: nat, d: int, lost: int, gone: int,
                    k1: int, x: int)
    requires Frontier(Reverse(a), Reverse(b), v2, off, d, lost, gone) && 0 <= d <= off
    requires (|a| - |b|) % 2 != 0 && NoShorter(a, b, 2 * d - 1)
    requires -d <= k1 <= d && SameParity(d, k1) && Sound(a, b, k1, x, d)
    requires x <= |a| && x - k1 <= |b|
    ensures var ko2 := off + (|a| - |b|) - k1;
            0 <= ko2 < |v2| && v2[ko2] != -1 && x >= |a| - v2[ko2] ==> Middle(a, b, x, x - k1)
  {
    hide Head, Tail, Reach;
    var k2 := |a| - |b| - k1;
    var ko2 := off + k2;
    if 0 <= ko2 < |v2| && v2[ko2] != -1 && x >= |a| - v2[ko2] {
      if d == 0 {
      } else {
        assert SameParity(d - 1, k2);
        OverlapSplits(a, b, k1, x, d, k2, v2[ko2], d - 1);
      }
    }
  }

  /** On the diagonal where a cheapest walk of 2d - 1 edits is half way, the forward
      test succeeds. */
  lemma ForwardTestComplete(a: seq<int>, b: seq<int>, v2: seq<int>, off: nat, d: int, lost: int, gone: int,
                            x: int, px: nat, py: nat)
    requires Frontier(Reverse(a), Reverse(b), v2, off, d, lost, gone) && 0 <= d <= off
    requires OnOptimal(a, b, px, py) && Head(a, b, px, py) == d && Distance(a, b) == 2 * d - 1
    requires Sound(a, b, px - py, x, d) && px <= x
    ensures x <= |a| && x - (px - py) <= |b|
    ensures var ko2 := off + (|a| - |b|) - (px - py);
            0 <= ko2 < |v2| && v2[ko2] != -1 && x >= |a| - v2[ko2]
  {
    hide Head, Tail, Reach;
    HalfWayOverlaps(a, b, px, py, x);
    ReversedGraph(a, b, px, py);
    assert OnOptimal(Reverse(a), Reverse(b), |a| - px, |b| - py);
  }

  /** The pruning counters while row d is scanned. */
  ghost predicate ScanState(a: seq<int>, b: seq<int>, d: int, lost: int, gone: int, lost0: int, gone0: int) {
    && 0 <= lost0 <= lost && 0 <= gone0 <= gone && SameParity(lost, 0) && SameParity(gone, 0)
    && PrunedOnly(a, b, d, lost, gone) && (d == 0 ==> lost == 0 && gone == 0) && (d <= 1 ==> lost0 == 0 && gone0 == 0)
  }

  lemma RoundBegins(a: seq<int>, b: seq<int>, v: seq<int>, off: nat, d: int, lost: int, gone: int)
    requires Frontier(a, b, v, off, d, lost, gone) && d <= Distance(a, b)
    ensures |v| == 2 * off + 4
    ensures ScanState(a, b, d, lost, gone, lost, gone)
    ensures SameParity(d, d - gone) && SameParity(d, -d + lost) && -d + lost <= d - gone
    ensures PartRow(a, b, v, v, off, d, d - gone + 2, d - gone)
    ensures PartRow(a, b, v, v, off, d, -d + lost, -d + lost - 2)
    ensures HalfWayWithin(a, b, d, -d + lost, d - gone)
  {
    hide Head, Tail, Reach;
    RangeNonempty(a, b, d, lost, gone);
    EmptyRow(a, b, v, off, d, d - gone + 2, d - gone);
    EmptyRow(a, b, v, off, d, -d + lost, -d + lost - 2);
    HalfWayUnpruned(a, b, d, lost, gone);
  }

  lemma PruneHigh(a: seq<int>, b: seq<int>, d: int, k: int, x: int, lost: int, gone: int, lost0: int, gone0: int)
    requires ScanState(a, b, d, lost, gone, lost0, gone0) && k <= d - gone && Sound(a, b, k, x, d) && x > |a|
    requires d == 0 ==> k == 0
    ensures ScanState(a, b, d, lost, gone + 2, lost0, gone0)
    ensures k + d >= 2
  {
    hide Head, Tail, Reach;
    PastRight(a, b, k, x, d);
    DistanceParity(a, b);
  }

  lemma PruneLow(a: seq<int>, b: seq<int>, d: int, k: int, x: int, lost: int, gone: int, lost0: int, gone0: int)
    requires ScanState(a, b, d, lost, gone, lost0, gone0) && -d + lost <= k && Sound(a, b, k, x, d) && x - k > |b|
    requires d == 0 ==> k == 0
    ensures ScanState(a, b, d, lost + 2, gone, lost0, gone0)
  {
    hide Head, Tail, Reach;
    PastBottom(a, b, k, x, d);
    DistanceParity(a, b);
  }

  lemma RoundParity(a: seq<int>, b: seq<int>, d: int)
    ensures if (|a| - |b|) % 2 != 0 then SameParity(2 * d - 1, |a| - |b|) else SameParity(2 * d, |a| - |b|)
  {
  }

  lemma ParityStep(d: int, k: int)
    requires SameParity(d, k)
    ensures SameParity(d, k - 2) && SameParity(d, k + 2)
  {
  }

  lemma ScanEnds(d: int, k: int, lost: int)
    requires SameParity(d, k) && SameParity(lost, 0)
    ensures k < -d + lost ==> k + 2 <= -d + lost
    ensures k > d - lost ==> k - 2 >= d - lost
    ensures k > d ==> k - 2 >= d
  {
  }

  /** A failed forward test leaves no cheapest walk of 2d - 1 edits on its diagonal. */
  lemma ForwardTestFailed(a: seq<int>, b: seq<int>, v2: seq<int>, off: nat, d: int, lost: int, gone: int,
                          v1: seq<int>, was: seq<int>, lo: int, hi: int, k1: int, x: int)
    requires Frontier(Reverse(a), Reverse(b), v2, off, d, lost, gone) && 0 <= d <= off
    requires PartRow(a, b, v1, was, off, d, k1, hi) && k1 <= hi && 0 <= off + k1 < |v1| && v1[off + k1] == x
    requires Sound(a, b, k1, x, d) && SameParity(d, k1) && Distance(a, b) == 2 * d - 1
    requires var ko2 := off + (|a| - |b|) - k1;
             !(x <= |a| && x - k1 <= |b| && 0 <= ko2 < |v2| && v2[ko2] != -1 && x >= |a| - v2[ko2])
    requires HalfWayWithin(a, b, d, lo, k1)
    ensures HalfWayWithin(a, b, d, lo, k1 - 2)
  {
    hide Head, Tail, Reach, Frontier;
    forall px: nat, py: nat | OnOptimal(a, b, px, py) && Head(a, b, px, py) == d
      ensures px - py <= k1 - 2
    {
      OptimalDiagonal(a, b, px, py);
      if px - py == k1 {
        ForwardTestComplete(a, b, v2, off, d, lost, gone, x, px, py);
      }
    }
  }

  /** A round that finds no overlap rules out one more distance. */
  lemma RoundWithoutOverlap(a: seq<int>, b: seq<int>, d: int, edits: int, lost: int, gone: int, lo: int, hi: int)
    requires NoShorter(a, b, edits) && SameParity(edits, |a| - |b|) && 0 <= d <= Distance(a, b)
    requires PrunedOnly(a, b, d, lost, gone) && 0 <= lost && 0 <= gone
    requires Distance(a, b) == edits ==> HalfWayWithin(a, b, d, lo, hi)
    requires hi < -d + lost || d - gone < lo
    ensures NoShorter(a, b, edits + 2)
  {
    hide Head, Tail, OnOptimal, PrunedOnly;
    DistanceParity(a, b);
    if Distance(a, b) == edits {
      HalfWayUnpruned(a, b, d, lost, gone);
      HalfWaySomewhere(a, b, d, if lo > -d + lost then lo else -d + lost, if hi < d - gone then hi else d - gone);
    }
  }

  /** One forward round: diagonals d - k1end down to -d + k1start, testing for
      overlap with the reverse frontier when the distance is odd. */
  method ForwardRound(a: seq<int>, b: seq<int>, v1: array<int>, v2: array<int>, off: nat, front: bool,
                      d: int, start: int, end: int, ghost lost2: int, ghost gone2: int)
      returns (k1start: int, k1end: int, found: bool, fx: int, fy: int)
    requires v1 != v2 && 0 <= d <= off && front == ((|a| - |b|) % 2 != 0)
    requires Frontier(a, b, v1[..], off, d, start, end)
    requires Frontier(Reverse(a), Reverse(b), v2[..], off, d, lost2, gone2)
    requires NoShorter(a, b, if front then 2 * d - 1 else 2 * d)
    modifies v1
    ensures found ==> Middle(a, b, fx, fy)
    ensures !found ==> Frontier(a, b, v1[..], off, d + 1, k1start, k1end)
    ensures !found ==> NoShorter(a, b, if front then 2 * d + 1 else 2 * d)
  {
    hide Head, Tail, Reach, OnOptimal, Frontier, PartRow, Middle, SameParity, PrunedOnly, HalfWayWithin;
    var n, m := |a|, |b|;
    var delta := n - m;
    k1start, k1end, found, fx, fy := start, end, false, 0, 0;
    ghost var was := v1[..];
    RoundBegins(a, b, was, off, d, start, end);
    var k1 := d - k1end;
    while k1 >= -d + k1start
      invariant ScanState(a, b, d, k1start, k1end, start, end)
      invariant SameParity(d, k1) && -d + start - 2 <= k1 <= d - k1end
      invariant PartRow(a, b, v1[..], was, off, d, k1 + 2, d - end)
      invariant k1 + 2 <= d - end || (k1 == d - end && k1start == start)
      invariant front && Distance(a, b) == 2 * d - 1 ==> HalfWayWithin(a, b, d, -d + start, k1)
    {
      var x, y := ForwardDiagonal(a, b, v1, off, d, k1, was, start, end);
      if x > n {
        PruneHigh(a, b, d, k1, x, k1start, k1end, start, end);
        k1end := k1end + 2;
      } else if y > m {
        PruneLow(a, b, d, k1, x, k1start, k1end, start, end);
        k1start := k1start + 2;
      } else if front {
        var ko2 := off + delta - k1;
        ForwardTest(a, b, v2[..], off, d, lost2, gone2, k1, x);
        if ko2 >= 0 && ko2 < v2.Length && v2[ko2] != -1 {
          if x >= n - v2[ko2] {
            found, fx, fy := true, x, y;
            return;
          }
        }
      }
      if front && Distance(a, b) == 2 * d - 1 {
        ForwardTestFailed(a, b, v2[..], off, d, lost2, gone2, v1[..], was, -d + start, d - end, k1, x);
      }
      ParityStep(d, k1);
      k1 := k1 - 2;
    }
    ScanEnds(d, k1, k1start);
    RowDone(a, b, v1[..], was, off, d, start, end, k1start, k1end, k1 + 2, d - end);
    if front {
      RoundParity(a, b, d);
      RoundWithoutOverlap(a, b, d, 2 * d - 1, k1start, k1end, -d + start, k1);
    }
  }

  /** The overlap test of the reverse pass.  It reads the forward frontier without
      asking whether that value is inside the grid, and need not: an overlap with a
      value outside would have been found in an earlier round. */
  lemma ReverseTest(a: seq<int>, b: seq<int>, v1: seq<int>, off: nat, d: int, lost: int, gone: int,
                    k2: int, x: int)
    requires Frontier(a, b, v1, off, d + 1, lost, gone) && 0 <= d <= off
    requires (|a| - |b|) % 2 == 0 && NoShorter(a, b, 2 * d)
    requires -d <= k2 <= d && SameParity(d, k2) && Sound(Reverse(a), Reverse(b), k2, x, d)
    ensures var k1 := |a| - |b| - k2;
            0 <= off + k1 < |v1| && v1[off + k1] != -1 && v1[off + k1] >= |a| - x
            ==> Middle(a, b, v1[off + k1], v1[off + k1] - k1)
  {
    hide Head, Tail, Reach;
    var k1 := |a| - |b| - k2;
    if 0 <= off + k1 < |v1| && v1[off + k1] != -1 && v1[off + k1] >= |a| - x {
      assert SameParity(d, k1);
      assert Abs(k1) <= d;
      OverlapSplits(a, b, k1, v1[off + k1], d, k2, x, d);
    }
  }

  lemma ReverseTestComplete(a: seq<int>, b: seq<int>, v1: seq<int>, off: nat, d: int, lost: int, gone: int,
                            x: int, rx: nat, ry: nat)
    requires Frontier(a, b, v1, off, d + 1, lost, gone) && 0 <= d <= off
    requires OnOptimal(Reverse(a), Reverse(b), rx, ry) && Head(Reverse(a), Reverse(b), rx, ry) == d
    requires Distance(a, b) == 2 * d && Sound(Reverse(a), Reverse(b), rx - ry, x, d) && rx <= x
    ensures x <= |a| && x - (rx - ry) <= |b|
    ensures var ko1 := off + (|a| - |b|) - (rx - ry);
            0 <= ko1 < |v1| && v1[ko1] != -1 && v1[ko1] >= |a| - x
  {
    hide Head, Tail, Reach;
    HalfWayOverlaps(Reverse(a), Reverse(b), rx, ry, x);
    ReversedGraph(a, b, |a| - rx, |b| - ry);
    assert OnOptimal(a, b, |a| - rx, |b| - ry);
  }

  lemma ReverseTestFailed(a: seq<int>, b: seq<int>, v1: seq<int>, off: nat, d: int, lost: int, gone: int,
                          v2: seq<int>, was: seq<int>, lo: int, hi: int, k2: int, x: int)
    requires Frontier(a, b, v1, off, d + 1, lost, gone) && 0 <= d <= off
    requires PartRow(Reverse(a), Reverse(b), v2, was, off, d, lo, k2) && lo <= k2
    requires 0 <= off + k2 < |v2| && v2[off + k2] == x
    requires Sound(Reverse(a), Reverse(b), k2, x, d) && SameParity(d, k2) && Distance(a, b) == 2 * d
    requires var ko1 := off + (|a| - |b|) - k2;
             !(x <= |a| && x - k2 <= |b| && 0 <= ko1 < |v1| && v1[ko1] != -1 && v1[ko1] >= |a| - x)
    requires HalfWayWithin(Reverse(a), Reverse(b), d, k2, hi)
    ensures HalfWayWithin(Reverse(a), Reverse(b), d, k2 + 2, hi)
  {
    hide Head, Tail, Reach, Frontier;
    forall rx: nat, ry: nat | OnOptimal(Reverse(a), Reverse(b), rx, ry) && Head(Reverse(a), Reverse(b), rx, ry) == d
      ensures k2 + 2 <= rx - ry
    {
      OptimalDiagonal(Reverse(a), Reverse(b), rx, ry);
      if rx - ry == k2 {
        ReverseTestComplete(a, b, v1, off, d, lost, gone, x, rx, ry);
      }
    }
  }

  /** One reverse round: diagonals -d + k2start up to d - k2end, testing for overlap
      with the forward frontier when the distance is even. */
  method ReverseRound(a: seq<int>, b: seq<int>, v1: array<int>, v2: array<int>, off: nat, front: bool,
                      d: int, start: int, end: int, ghost lost1: int, ghost gone1: int)
      returns (k2start: int, k2end: int, found: bool, fx: int, fy: int)
    requires v1 != v2 && 0 <= d <= off && front == ((|a| - |b|) % 2 != 0)
    requires Frontier(a, b, v1[..], off, d + 1, lost1, gone1)
    requires Frontier(Reverse(a), Reverse(b), v2[..], off, d, start, end)
    requires NoShorter(a, b, if front then 2 * d + 1 else 2 * d)
    modifies v2
    ensures found ==> Middle(a, b, fx, fy)
    ensures !found ==> Frontier(Reverse(a), Reverse(b), v2[..], off, d + 1, k2start, k2end)
    ensures !found ==> NoShorter(a, b, if front then 2 * d + 1 else 2 * d + 2)
  {
    hide Head, Tail, Reach, OnOptimal, Frontier, PartRow, Middle, SameParity, PrunedOnly, HalfWayWithin;
    var n, m := |a|, |b|;
    var delta := n - m;
    ghost var ra, rb := Reverse(a), Reverse(b);
    k2start, k2end, found, fx, fy := start, end, false, 0, 0;
    ghost var was := v2[..];
    ReversedGraph(a, b, 0, 0);
    RoundBegins(ra, rb, was, off, d, start, end);
    var k2 := -d + k2start;
    while k2 <= d - k2end
      invariant ScanState(ra, rb, d, k2start, k2end, start, end)
      invariant SameParity(d, k2) && -d + k2start <= k2 <= d - end + 2
      invariant PartRow(ra, rb, v2[..], was, off, d, -d + start, k2 - 2)
      invariant -d + start <= k2 - 2 || (k2 == -d + start && k2end == end)
      invariant d <= 1 && k2 <= d ==> k2end == 0
      invariant !front && Distance(a, b) == 2 * d ==> HalfWayWithin(ra, rb, d, k2, d - end)
    {
      var x, y := ReverseDiagonal(a, b, v2, off, d, k2, was, start, end);
      if x > n {
        PruneHigh(ra, rb, d, k2, x, k2start, k2end, start, end);
        k2end := k2end + 2;
      } else if y > m {
        PruneLow(ra, rb, d, k2, x, k2start, k2end, start, end);
        k2start := k2start + 2;
      } else if !front {
        var ko1 := off + delta - k2;
        ReverseTest(a, b, v1[..], off, d, lost1, gone1, k2, x);
        if ko1 >= 0 && ko1 < v1.Length && v1[ko1] != -1 {
          var x1 := v1[ko1];
          var y1 := x1 - (delta - k2);
          if x1 >= n - x {
            found, fx, fy := true, x1, y1;
            return;
          }
        }
      }
      if !front && Distance(a, b) == 2 * d {
        ReverseTestFailed(a, b, v1[..], off, d, lost1, gone1, v2[..], was, -d + start, d - end, k2, x);
      }
      ParityStep(d, k2);
      k2 := k2 + 2;
    }
    ScanEnds(d, k2, k2end);
    RowDone(ra, rb, v2[..], was, off, d, start, end, k2start, k2end, -d + start, k2 - 2);
    if !front {
      RoundParity(a, b, d);
      RoundWithoutOverlap(ra, rb, d, 2 * d, k2start, k2end, k2, d - end);
    }
  }

  /** The middle of a cheapest walk, found in time linear in the lengths times the
      distance.  Every array access is in range and the search never fails. */
  method Bisect(a: seq<int>, b: seq<int>) returns (x: int, y: int, ok: bool)
    ensures ok && Middle(a, b, x, y)
  {
    hide Head, Tail, Reach, OnOptimal, Frontier, Middle;
    var n, m := |a|, |b|;
    var maxD := (n + m + 1) / 2;
    var vOff := maxD;
    var vLen := 2 * maxD + 4;
    var v1 := new int[vLen](_ => -1);
    var v2 := new int[vLen](_ => -1);
    v1[vOff + 1] := 0;
    v2[vOff + 1] := 0;
    var delta := n - m;
    var front := delta % 2 != 0;
    var k1start, k1end := 0, 0;
    var k2start, k2end := 0, 0;
    FreshFrontier(a, b, v1[..], vOff);
    FreshFrontier(Reverse(a), Reverse(b), v2[..], vOff);
    for d := 0 to maxD + 1
      invariant Frontier(a, b, v1[..], vOff, d, k1start, k1end)
      invariant Frontier(Reverse(a), Reverse(b), v2[..], vOff, d, k2start, k2end)
      invariant NoShorter(a, b, if front then 2 * d - 1 else 2 * d)
    {
      k1start, k1end, ok, x, y := ForwardRound(a, b, v1, v2, vOff, front, d, k1start, k1end, k2start, k2end);
      if ok { return; }
      k2start, k2end, ok, x, y := ReverseRound(a, b, v1, v2, vOff, front, d, k2start, k2end, k1start, k1end);
      if ok { return; }
    }
    DistanceParity(a, b);
    assert false;
    return 0, 0, false;
  }

  lemma FreshFrontier(a: seq<int>, b: seq<int>, v: seq<int>, off: nat)
    requires |v| == 2 * off + 4 && v[off + 1] == 0
    requires forall i | 0 <= i < |v| && i != off + 1 :: v[i] == -1
    ensures Frontier(a, b, v, off, 0, 0, 0)
  {
    hide Head, Tail, Reach;
  }

  // ---------------------------------------------------------------------
  // The recursion

  /** A cheapest edit script turning a into b. */
  ghost predicate IsMinimalScript(a: seq<int>, b: seq<int>, ops: seq<Op>) {
    IsScript(a, b, ops) && Cost(ops) == Distance(a, b)
  }

  /** No script of any kind beats a minimal one. */
  lemma MinimalScriptIsCheapest(a: seq<int>, b: seq<int>, ops: seq<Op>, other: seq<Op>)
    requires IsMinimalScript(a, b, ops) && IsScript(a, b, other)
    ensures Cost(ops) <= Cost(other)
  {
    WalkCostsAtLeastTail(a, b, 0, 0, other);
  }

  function Repeat(op: Op, n: nat): (r: seq<Op>)
    ensures |r| == n && forall i | 0 <= i < n :: r[i] == op
  {
    seq(n, _ => op)
  }

  lemma {:induction false} RepeatGrows(op: Op, n: nat)
    requires n > 0
    ensures Repeat(op, n)[0] == op && Repeat(op, n)[1..] == Repeat(op, n - 1)
  {
  }

  lemma {:induction false} KeepAll(a: seq<int>)
    ensures IsMinimalScript(a, a, Repeat(Eq, |a|))
  {
    KeepRest(a, 0);
    WalkCostsAtLeastTail(a, a, 0, 0, Repeat(Eq, |a|));
  }

  lemma {:induction false} KeepRest(a: seq<int>, x: nat)
    requires x <= |a|
    ensures WalksFrom(a, a, x, x, Repeat(Eq, |a| - x)) && Cost(Repeat(Eq, |a| - x)) == 0
    decreases |a| - x
  {
    if x < |a| {
      RepeatGrows(Eq, |a| - x);
      KeepRest(a, x + 1);
    }
  }

  lemma {:induction false} DeleteRest(a: seq<int>, x: nat)
    requires x <= |a|
    ensures WalksFrom(a, [], x, 0, Repeat(Del, |a| - x)) && Cost(Repeat(Del, |a| - x)) == |a| - x
    decreases |a| - x
  {
    if x < |a| {
      RepeatGrows(Del, |a| - x);
      DeleteRest(a, x + 1);
    }
  }

  lemma {:induction false} InsertRest(b: seq<int>, y: nat)
    requires y <= |b|
    ensures WalksFrom([], b, 0, y, Repeat(Ins, |b| - y)) && Cost(Repeat(Ins, |b| - y)) == |b| - y
    decreases |b| - y
  {
    if y < |b| {
      RepeatGrows(Ins, |b| - y);
      InsertRest(b, y + 1);
    }
  }

  /** With one side empty the other is deleted or inserted whole. */
  lemma OneSideEmpty(a: seq<int>, b: seq<int>)
    ensures a == [] ==> IsMinimalScript(a, b, Repeat(Ins, |b|))
    ensures b == [] ==> IsMinimalScript(a, b, Repeat(Del, |a|))
  {
    if a == [] { InsertRest(b, 0); }
    if b == [] { DeleteRest(a, 0); }
  }

  /** The shared slice that the recursion appends to. */
  class Output {
    var ops: seq<Op>

    constructor ()
      ensures ops == []
    {
      ops := [];
    }

    method Append(op: Op, count: nat)
      modifies this
      ensures ops == old(ops) + Repeat(op, count)
    {
      for i := 0 to count
        invariant ops == old(ops) + Repeat(op, i)
      {
        ops := ops + [op];
        assert Repeat(op, i + 1) == Repeat(op, i) + [op];
      }
    }
  }

  /** Solutions of the stripped prefix, the middle and the stripped suffix make one of
      the whole. */
  lemma StripJoins(a: seq<int>, b: seq<int>, p: nat, s: nat, ops: seq<Op>)
    requires p + s <= |a| && p + s <= |b| && a[..p] == b[..p] && a[|a| - s..] == b[|b| - s..]
    requires IsMinimalScript(a[p..|a| - s], b[p..|b| - s], ops)
    ensures IsMinimalScript(a, b, Repeat(Eq, p) + ops + Repeat(Eq, s))
  {
    hide Head, Tail, WalksFrom, Cost;
    var ma, mb := a[p..|a| - s], b[p..|b| - s];
    KeepAll(a[..p]);
    KeepAll(a[|a| - s..]);
    ScriptsJoin(a[..p], b[..p], ma, mb, Repeat(Eq, p), ops);
    ScriptsJoin(a[..p] + ma, b[..p] + mb, a[|a| - s..], b[|b| - s..], Repeat(Eq, p) + ops, Repeat(Eq, s));
    assert a == a[..p] + ma + a[|a| - s..];
    assert b == b[..p] + mb + b[|b| - s..];
    KeepCostsNothing(a, p);
    KeepCostsNothing(a, s);
    StripPrefixDistance(a, b, p);
    StripSuffixDistance(a[p..], b[p..], s);
    assert a[p..][..|a| - p - s] == ma && b[p..][..|b| - p - s] == mb;
  }

  lemma KeepCostsNothing(a: seq<int>, n: nat)
    requires n <= |a|
    ensures Cost(Repeat(Eq, n)) == 0
  {
    KeepRest(a[..n], 0);
  }

  lemma {:induction false} StripPrefixDistance(a: seq<int>, b: seq<int>, p: nat)
    requires p <= |a| && p <= |b| && a[..p] == b[..p]
    ensures Distance(a, b) == Distance(a[p..], b[p..])
    decreases p
  {
    hide Head, Tail;
    if p == 0 {
      assert a[p..] == a && b[p..] == b;
    } else {
      assert a[..p][0] == b[..p][0];
      CommonFirst(a, b);
      assert a[1..][..p - 1] == a[..p][1..] && b[1..][..p - 1] == b[..p][1..];
      StripPrefixDistance(a[1..], b[1..], p - 1);
      assert a[1..][p - 1..] == a[p..] && b[1..][p - 1..] == b[p..];
    }
  }

  lemma {:induction false} StripSuffixDistance(a: seq<int>, b: seq<int>, s: nat)
    requires s <= |a| && s <= |b| && a[|a| - s..] == b[|b| - s..]
    ensures Distance(a, b) == Distance(a[..|a| - s], b[..|b| - s])
    decreases s
  {
    hide Head, Tail;
    if s == 0 {
      assert a[..|a| - s] == a && b[..|b| - s] == b;
    } else {
      var a', b' := a[..|a| - 1], b[..|b| - 1];
      assert a[|a| - s..][s - 1] == b[|b| - s..][s - 1];
      CommonLast(a, b);
      assert a'[|a'| - (s - 1)..] == a[|a| - s..][..s - 1] && b'[|b'| - (s - 1)..] == b[|b| - s..][..s - 1];
      StripSuffixDistance(a', b', s - 1);
      assert a'[..|a'| - (s - 1)] == a[..|a| - s] && b'[..|b'| - (s - 1)] == b[..|b| - s];
    }
  }

  /** Minimal scripts of the two halves at the middle make a minimal script. */
  lemma HalvesJoin(a: seq<int>, b: seq<int>, x: nat, y: nat, p: seq<Op>, q: seq<Op>)
    requires Middle(a, b, x, y)
    requires IsMinimalScript(a[..x], b[..y], p) && IsMinimalScript(a[x..], b[y..], q)
    ensures IsMinimalScript(a, b, p + q)
  {
    hide Head, Tail, WalksFrom, Cost;
    Halves(a, b, x, y);
    ScriptsJoin(a[..x], b[..y], a[x..], b[y..], p, q);
    assert a == a[..x] + a[x..] && b == b[..y] + b[y..];
  }

  /** The middle of two stripped texts is neither corner, so the recursion makes
      progress on both sides. */
  lemma MiddleIsInside(a: seq<int>, b: seq<int>, x: int, y: int)
    requires a != [] && b != [] && a[0] != b[0] && a[|a| - 1] != b[|b| - 1] && Middle(a, b, x, y)
    ensures 0 <= x <= |a| && 0 <= y <= |b| && 0 < x + y < |a| + |b|
  {
    hide Head, Tail;
    StrippedDistance(a, b);
    Corners(a, b);
  }

  method CommonPrefix(a: seq<int>, b: seq<int>) returns (p: nat)
    ensures p <= |a| && p <= |b| && a[..p] == b[..p]
    ensures p < |a| && p < |b| ==> a[p] != b[p]
  {
    p := 0;
    while p < |a| && p < |b| && a[p] == b[p]
      invariant 0 <= p <= |a| && p <= |b| && a[..p] == b[..p]
    {
      p := p + 1;
    }
  }

  /** The lines equal at both ends, short of the first p. */
  method CommonSuffix(a: seq<int>, b: seq<int>, p: nat) returns (s: nat)
    requires p <= |a| && p <= |b|
    ensures s <= |a| - p && s <= |b| - p && a[|a| - s..] == b[|b| - s..]
    ensures s < |a| - p && s < |b| - p ==> a[|a| - 1 - s] != b[|b| - 1 - s]
  {
    s := 0;
    while s < |a| - p && s < |b| - p && a[|a| - 1 - s] == b[|b| - 1 - s]
      invariant 0 <= s <= |a| - p && s <= |b| - p && a[|a| - s..] == b[|b| - s..]
    {
      assert a[|a| - (s + 1)..] == [a[|a| - 1 - s]] + a[|a| - s..];
      assert b[|b| - (s + 1)..] == [b[|b| - 1 - s]] + b[|b| - s..];
      s := s + 1;
    }
  }

  method MyersRec(a: seq<int>, b: seq<int>, out: Output)
    modifies out
    ensures old(out.ops) <= out.ops
    ensures IsMinimalScript(a, b, out.ops[|old(out.ops)|..])
    decreases |a| + |b|
  {
    hide Head, Tail, IsMinimalScript, Middle;
    ghost var before := out.ops;
    var p := CommonPrefix(a, b);
    var s := CommonSuffix(a, b, p);
    out.Append(Eq, p);
    var ma, mb := a[p..|a| - s], b[p..|b| - s];
    ghost var mid: seq<Op>;
    if |ma| == 0 {
      out.Append(Ins, |mb|);
      mid := Repeat(Ins, |mb|);
      OneSideEmpty(ma, mb);
    } else if |mb| == 0 {
      out.Append(Del, |ma|);
      mid := Repeat(Del, |ma|);
      OneSideEmpty(ma, mb);
    } else {
      var x, y, ok := Bisect(ma, mb);
      MiddleIsInside(ma, mb, x, y);
      if !ok || (x == 0 && y == 0) || (x == |ma| && y == |mb|) {
        // The full-replacement fallback cannot be reached.
        assert false;
      } else {
        ghost var before1 := out.ops;
        MyersRec(ma[..x], mb[..y], out);
        ghost var before2 := out.ops;
        MyersRec(ma[x..], mb[y..], out);
        mid := before2[|before1|..] + out.ops[|before2|..];
        HalvesJoin(ma, mb, x, y, before2[|before1|..], out.ops[|before2|..]);
      }
    }
    assert out.ops == before + Repeat(Eq, p) + mid;
    out.Append(Eq, s);
    StripJoins(a, b, p, s, mid);
    assert out.ops[|before|..] == Repeat(Eq, p) + mid + Repeat(Eq, s);
  }

  /** The edit script of the whole comparison. */
  method MyersOps(a: seq<int>, b: seq<int>) returns (ops: seq<Op>)
    ensures IsScript(a, b, ops)
    ensures forall other | IsScript(a, b, other) :: Cost(ops) <= Cost(other)
    ensures Cost(ops) == Distance(a, b)
  {
    var out := new Output();
    MyersRec(a, b, out);
    ops := out.ops;
    forall other | IsScript(a, b, other)
      ensures Cost(ops) <= Cost(other)
    {
      MinimalScriptIsCheapest(a, b, ops, other);
    }
  }
}
