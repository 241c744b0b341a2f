/** The edit graph of two key sequences: the reference against which the diff
    engine is proved.

    A point (x, y) of the graph stands for the prefixes a[..x] and b[..y].  A step
    right deletes a[x], a step down inserts b[y], and a diagonal step, allowed only
    where the keys agree, keeps a line.  `Head` and `Tail` are the fewest deletions
    plus insertions on any walk from the origin to a point and from a point to the
    far corner; both are plain dynamic-programming recurrences. */
module EditGraph {

  datatype Op = Eq | Del | Ins

  function Min(x: nat, y: nat): nat {
    if x < y then x else y
  }

  function Abs(x: int): nat {
    if x < 0 then -x else x
  }

  /** Fewest edits turning a[..x] into b[..y]. */
  ghost function Head(a: seq<int>, b: seq<int>, x: nat, y: nat): nat
    requires x <= |a| && y <= |b|
    decreases x + y
  {
    if x == 0 then y
    else if y == 0 then x
    else
      var edit := 1 + Min(Head(a, b, x - 1, y), Head(a, b, x, y - 1));
      if a[x - 1] == b[y - 1] then Min(edit, Head(a, b, x - 1, y - 1)) else edit
  }

  /** Fewest edits turning a[x..] into b[y..]. */
  ghost function Tail(a: seq<int>, b: seq<int>, x: nat, y: nat): nat
    requires x <= |a| && y <= |b|
    decreases |a| - x + |b| - y
  {
    if x == |a| then |b| - y
    else if y == |b| then |a| - x
    else
      var edit := 1 + Min(Tail(a, b, x + 1, y), Tail(a, b, x, y + 1));
      if a[x] == b[y] then Min(edit, Tail(a, b, x + 1, y + 1)) else edit
  }

  /** The edit distance of a and b. */
  ghost function Distance(a: seq<int>, b: seq<int>): nat {
    Tail(a, b, 0, 0)
  }

  /** (x, y) lies on some cheapest walk from the origin to the far corner. */
  ghost predicate OnOptimal(a: seq<int>, b: seq<int>, x: int, y: int) {
    0 <= x <= |a| && 0 <= y <= |b| && Head(a, b, x, y) + Tail(a, b, x, y) == Distance(a, b)
  }

  // ---------------------------------------------------------------------
  // Edit scripts

  /** The script walks from (x, y) to the far corner, keeping only equal keys. */
  ghost predicate WalksFrom(a: seq<int>, b: seq<int>, x: nat, y: nat, ops: seq<Op>)
    requires x <= |a| && y <= |b|
    decreases |ops|
  {
    if ops == [] then x == |a| && y == |b|
    else match ops[0]
      case Eq => x < |a| && y < |b| && a[x] == b[y] && WalksFrom(a, b, x + 1, y + 1, ops[1..])
      case Del => x < |a| && WalksFrom(a, b, x + 1, y, ops[1..])
      case Ins => y < |b| && WalksFrom(a, b, x, y + 1, ops[1..])
  }

  /** The script consumes all of a and all of b, in order. */
  ghost predicate IsScript(a: seq<int>, b: seq<int>, ops: seq<Op>) {
    WalksFrom(a, b, 0, 0, ops)
  }

  function Cost(ops: seq<Op>): nat {
    if ops == [] then 0 else (if ops[0] == Eq then 0 else 1) + Cost(ops[1..])
  }

  lemma {:induction false} CostConcat(p: seq<Op>, q: seq<Op>)
    ensures Cost(p + q) == Cost(p) + Cost(q)
  {
    if p == [] {
      assert p + q == q;
    } else {
      assert (p + q)[1..] == p[1..] + q;
      CostConcat(p[1..], q);
    }
  }

  /** No script is cheaper than the recurrence says. */
  lemma {:induction false} WalkCostsAtLeastTail(a: seq<int>, b: seq<int>, x: nat, y: nat, ops: seq<Op>)
    requires x <= |a| && y <= |b| && WalksFrom(a, b, x, y, ops)
    ensures Tail(a, b, x, y) <= Cost(ops)
    decreases |ops|
  {
    if ops != [] {
      match ops[0]
      case Eq => WalkCostsAtLeastTail(a, b, x + 1, y + 1, ops[1..]);
      case Del =>
        WalkCostsAtLeastTail(a, b, x + 1, y, ops[1..]);
        TailLipschitz(a, b, x, y);
      case Ins =>
        WalkCostsAtLeastTail(a, b, x, y + 1, ops[1..]);
        TailLipschitz(a, b, x, y);
    }
  }

  // ---------------------------------------------------------------------
  // The two recurrences

  /** One step right or down changes the remaining distance by at most one, and
      dropping a line from both sides never increases it. */
  lemma {:induction false} TailLipschitz(a: seq<int>, b: seq<int>, x: nat, y: nat)
    requires x <= |a| && y <= |b|
    ensures x < |a| ==> Tail(a, b, x + 1, y) <= Tail(a, b, x, y) + 1
    ensures x < |a| ==> Tail(a, b, x, y) <= Tail(a, b, x + 1, y) + 1
    ensures y < |b| ==> Tail(a, b, x, y + 1) <= Tail(a, b, x, y) + 1
    ensures y < |b| ==> Tail(a, b, x, y) <= Tail(a, b, x, y + 1) + 1
    ensures x < |a| && y < |b| ==> Tail(a, b, x + 1, y + 1) <= Tail(a, b, x, y)
    decreases |a| - x + |b| - y
  {
    if x < |a| {
      TailLipschitz(a, b, x + 1, y);
    }
    if y < |b| {
      TailLipschitz(a, b, x, y + 1);
    }
  }

  /** The cost of a walk lies between the change of diagonal and the change of
      anti-diagonal. */
  lemma {:induction false} TailBound(a: seq<int>, b: seq<int>, x: nat, y: nat)
    requires x <= |a| && y <= |b|
    ensures Abs((|a| - x) - (|b| - y)) <= Tail(a, b, x, y) <= |a| - x + |b| - y
    decreases |a| - x + |b| - y
  {
    if x < |a| && y < |b| {
      TailBound(a, b, x + 1, y);
      TailBound(a, b, x, y + 1);
      TailBound(a, b, x + 1, y + 1);
    }
  }

  lemma {:induction false} HeadBound(a: seq<int>, b: seq<int>, x: nat, y: nat)
    requires x <= |a| && y <= |b|
    ensures Abs(x - y) <= Head(a, b, x, y)
    decreases x + y
  {
    if 0 < x && 0 < y {
      HeadBound(a, b, x - 1, y);
      HeadBound(a, b, x, y - 1);
      HeadBound(a, b, x - 1, y - 1);
    }
  }

  /** A cheapest walk to (x, y) keeps some number of lines and edits the rest, so
      its cost has the parity of x + y. */
  lemma {:induction false} HeadKeeps(a: seq<int>, b: seq<int>, x: nat, y: nat) returns (kept: nat)
    requires x <= |a| && y <= |b|
    ensures x + y == Head(a, b, x, y) + 2 * kept
    decreases x + y
  {
    var h := Head(a, b, x, y);
    if x == 0 || y == 0 {
      kept := 0;
    } else if h == 1 + Head(a, b, x - 1, y) {
      kept := HeadKeeps(a, b, x - 1, y);
    } else if h == 1 + Head(a, b, x, y - 1) {
      kept := HeadKeeps(a, b, x, y - 1);
    } else {
      kept := HeadKeeps(a, b, x - 1, y - 1);
      kept := kept + 1;
    }
  }

  /** Moving on from a point costs at most one edit, and nothing along equal keys. */
  lemma HeadStep(a: seq<int>, b: seq<int>, x: nat, y: nat)
    requires x <= |a| && y <= |b|
    ensures x < |a| ==> Head(a, b, x + 1, y) <= Head(a, b, x, y) + 1
    ensures y < |b| ==> Head(a, b, x, y + 1) <= Head(a, b, x, y) + 1
    ensures x < |a| && y < |b| && a[x] == b[y] ==> Head(a, b, x + 1, y + 1) <= Head(a, b, x, y)
  {
  }

  /** Every point splits the problem no better than the whole distance. */
  lemma {:induction false} ThroughPoint(a: seq<int>, b: seq<int>, x: nat, y: nat)
    requires x <= |a| && y <= |b|
    ensures Distance(a, b) <= Head(a, b, x, y) + Tail(a, b, x, y)
    decreases x + y
  {
    var h := Head(a, b, x, y);
    if x > 0 && h == 1 + Head(a, b, x - 1, y) {
      ThroughPoint(a, b, x - 1, y);
      TailLipschitz(a, b, x - 1, y);
    } else if y > 0 && h == 1 + Head(a, b, x, y - 1) {
      ThroughPoint(a, b, x, y - 1);
      TailLipschitz(a, b, x, y - 1);
    } else if x > 0 && y > 0 {
      ThroughPoint(a, b, x - 1, y - 1);
    }
  }

  // ---------------------------------------------------------------------
  // Cheapest walks

  /** A cheapest walk goes on from every optimal point but the last: by a kept line
      at no cost, or by an edit at cost one. */
  lemma NextOptimal(a: seq<int>, b: seq<int>, x: nat, y: nat) returns (nx: nat, ny: nat)
    requires OnOptimal(a, b, x, y) && (x < |a| || y < |b|)
    ensures OnOptimal(a, b, nx, ny) && x + y < nx + ny
    ensures Head(a, b, nx, ny) <= Head(a, b, x, y) + 1
  {
    HeadStep(a, b, x, y);
    if x < |a| && Tail(a, b, x, y) == 1 + Tail(a, b, x + 1, y) {
      nx, ny := x + 1, y;
    } else if y < |b| && Tail(a, b, x, y) == 1 + Tail(a, b, x, y + 1) {
      nx, ny := x, y + 1;
    } else {
      nx, ny := x + 1, y + 1;
    }
    ThroughPoint(a, b, nx, ny);
  }

  /** A cheapest walk passes, for every number of edits, through a point reached
      by exactly that many. */
  lemma {:induction false} OptimalPointAt(a: seq<int>, b: seq<int>, i: nat, x: nat, y: nat)
      returns (px: nat, py: nat)
    requires OnOptimal(a, b, x, y) && Head(a, b, x, y) <= i <= Distance(a, b)
    ensures OnOptimal(a, b, px, py) && Head(a, b, px, py) == i
    decreases |a| - x + |b| - y
  {
    px, py := x, y;
    if Head(a, b, x, y) < i {
      px, py := NextOptimal(a, b, x, y);
      px, py := OptimalPointAt(a, b, i, px, py);
    }
  }

  /** The far corner ends every cheapest walk. */
  lemma {:induction false} CornerIsOptimal(a: seq<int>, b: seq<int>, x: nat, y: nat)
    requires OnOptimal(a, b, x, y)
    ensures OnOptimal(a, b, |a|, |b|)
    decreases |a| - x + |b| - y
  {
    if x < |a| || y < |b| {
      var nx, ny := NextOptimal(a, b, x, y);
      CornerIsOptimal(a, b, nx, ny);
    }
  }

  /** Keys agree along the diagonal for `run` steps up to (x, y). */
  ghost predicate KeptRun(a: seq<int>, b: seq<int>, x: int, y: int, run: nat) {
    run <= x <= |a| && run <= y <= |b| && a[x - run..x] == b[y - run..y]
  }

  /** An optimal point not entered by an edit was entered by a kept line. */
  lemma EnteredByEdit(a: seq<int>, b: seq<int>, x: nat, y: nat) returns (edit: bool, right: bool)
    requires OnOptimal(a, b, x, y) && Head(a, b, x, y) > 0
    ensures edit && right ==> x > 0 && OnOptimal(a, b, x - 1, y)
                              && Head(a, b, x - 1, y) + 1 == Head(a, b, x, y)
    ensures edit && !right ==> y > 0 && OnOptimal(a, b, x, y - 1)
                               && Head(a, b, x, y - 1) + 1 == Head(a, b, x, y)
    ensures !edit ==> x > 0 && y > 0 && a[x - 1] == b[y - 1] && OnOptimal(a, b, x - 1, y - 1)
                      && Head(a, b, x - 1, y - 1) == Head(a, b, x, y)
  {
    hide Tail;
    if x > 0 && Head(a, b, x, y) == 1 + Head(a, b, x - 1, y) {
      edit, right := true, true;
      ThroughPoint(a, b, x - 1, y);
      TailLipschitz(a, b, x - 1, y);
    } else if y > 0 && Head(a, b, x, y) == 1 + Head(a, b, x, y - 1) {
      edit, right := true, false;
      ThroughPoint(a, b, x, y - 1);
      TailLipschitz(a, b, x, y - 1);
    } else {
      edit, right := false, false;
      ThroughPoint(a, b, x - 1, y - 1);
      TailStep(a, b, x - 1, y - 1);
    }
  }

  /** The last edit before an optimal point: walking back along kept lines from
      (x, y) reaches a point entered by an edit from another optimal point. */
  lemma {:induction false} LastEdit(a: seq<int>, b: seq<int>, x: nat, y: nat)
      returns (run: nat, right: bool)
    requires OnOptimal(a, b, x, y) && Head(a, b, x, y) > 0
    ensures KeptRun(a, b, x, y, run)
    ensures right ==> x - run > 0 && OnOptimal(a, b, x - run - 1, y - run)
                      && Head(a, b, x - run - 1, y - run) + 1 == Head(a, b, x, y)
    ensures !right ==> y - run > 0 && OnOptimal(a, b, x - run, y - run - 1)
                       && Head(a, b, x - run, y - run - 1) + 1 == Head(a, b, x, y)
    decreases x + y
  {
    hide Head, Tail;
    var edit;
    edit, right := EnteredByEdit(a, b, x, y);
    run := 0;
    if !edit {
      run, right := LastEdit(a, b, x - 1, y - 1);
      KeptOneMore(a, b, x, y, run);
      run := run + 1;
    }
  }

  lemma KeptOneMore(a: seq<int>, b: seq<int>, x: nat, y: nat, run: nat)
    requires x > 0 && y > 0 && x <= |a| && y <= |b| && a[x - 1] == b[y - 1]
    requires KeptRun(a, b, x - 1, y - 1, run)
    ensures KeptRun(a, b, x, y, run + 1)
  {
    assert a[x - 1 - run..x] == a[x - 1 - run..x - 1] + [a[x - 1]];
    assert b[y - 1 - run..y] == b[y - 1 - run..y - 1] + [b[y - 1]];
  }

  // ---------------------------------------------------------------------
  // Walking backwards

  function Reverse(s: seq<int>): (r: seq<int>)
    ensures |r| == |s| && forall i | 0 <= i < |s| :: r[i] == s[|s| - 1 - i]
  {
    seq(|s|, i requires 0 <= i < |s| => s[|s| - 1 - i])
  }

  /** Measured from the far corner, the remaining distance is a distance from the
      origin of the reversed graph. */
  lemma {:induction false} TailIsReversedHead(a: seq<int>, b: seq<int>, x: nat, y: nat)
    requires x <= |a| && y <= |b|
    ensures Head(Reverse(a), Reverse(b), |a| - x, |b| - y) == Tail(a, b, x, y)
    decreases |a| - x + |b| - y
  {
    if x < |a| && y < |b| {
      TailIsReversedHead(a, b, x + 1, y);
      TailIsReversedHead(a, b, x, y + 1);
      TailIsReversedHead(a, b, x + 1, y + 1);
    }
  }

  lemma ReverseReverse(s: seq<int>)
    ensures Reverse(Reverse(s)) == s
  {
  }

  /** Both recurrences vanish where there is nothing left to edit. */
  lemma Corners(a: seq<int>, b: seq<int>)
    ensures Head(a, b, 0, 0) == 0 && Tail(a, b, |a|, |b|) == 0
    ensures OnOptimal(a, b, 0, 0)
  {
  }

  /** The two graphs have the same distance and the same optimal points. */
  lemma ReversedGraph(a: seq<int>, b: seq<int>, x: nat, y: nat)
    requires x <= |a| && y <= |b|
    ensures Distance(Reverse(a), Reverse(b)) == Distance(a, b)
    ensures Head(Reverse(a), Reverse(b), |a| - x, |b| - y) == Tail(a, b, x, y)
    ensures Tail(Reverse(a), Reverse(b), |a| - x, |b| - y) == Head(a, b, x, y)
  {
    hide Head, Tail;
    ReverseReverse(a);
    ReverseReverse(b);
    TailIsReversedHead(a, b, x, y);
    TailIsReversedHead(Reverse(a), Reverse(b), |a| - x, |b| - y);
    TailIsReversedHead(Reverse(a), Reverse(b), 0, 0);
    Corners(a, b);
    CornerIsOptimal(a, b, 0, 0);
  }

  // ---------------------------------------------------------------------
  // Splitting the problem

  lemma TailStep(a: seq<int>, b: seq<int>, x: nat, y: nat)
    requires x <= |a| && y <= |b|
    ensures Tail(a, b, x, y) ==
            if x == |a| then |b| - y
            else if y == |b| then |a| - x
            else
              var edit := 1 + Min(Tail(a, b, x + 1, y), Tail(a, b, x, y + 1));
              if a[x] == b[y] then Min(edit, Tail(a, b, x + 1, y + 1)) else edit
  {
  }

  /** a' and b' are the ends of a and b, and (i, j) and (x, y) the same point. */
  lemma {:induction false} TailShift(a: seq<int>, b: seq<int>, a': seq<int>, b': seq<int>, i: nat, j: nat, x: nat, y: nat)
    requires i <= |a'| && j <= |b'| && x <= |a| && y <= |b|
    requires |a| - x == |a'| - i && |b| - y == |b'| - j && a[x..] == a'[i..] && b[y..] == b'[j..]
    ensures Tail(a', b', i, j) == Tail(a, b, x, y)
    decreases |a'| - i + |b'| - j
  {
    TailStep(a, b, x, y);
    TailStep(a', b', i, j);
    hide Tail, Min;
    if i < |a'| && j < |b'| {
      NextEnd(a, a', x, i);
      NextEnd(b, b', y, j);
      TailShift(a, b, a', b', i + 1, j, x + 1, y);
      TailShift(a, b, a', b', i, j + 1, x, y + 1);
      TailShift(a, b, a', b', i + 1, j + 1, x + 1, y + 1);
    }
  }

  lemma NextEnd(a: seq<int>, a': seq<int>, x: nat, i: nat)
    requires x < |a| && i < |a'| && a[x..] == a'[i..]
    ensures a[x] == a'[i] && a[x + 1..] == a'[i + 1..]
  {
    assert a[x] == a[x..][0] && a'[i] == a'[i..][0];
    assert a[x + 1..] == a[x..][1..] && a'[i + 1..] == a'[i..][1..];
  }

  /** The part of the graph beyond a point is the graph of the two remainders. */
  lemma TailOfRest(a: seq<int>, b: seq<int>, x: nat, y: nat, i: nat, j: nat)
    requires x + i <= |a| && y + j <= |b|
    ensures Tail(a[x..], b[y..], i, j) == Tail(a, b, x + i, y + j)
  {
    hide Tail;
    assert a[x..][i..] == a[x + i..] && b[y..][j..] == b[y + j..];
    TailShift(a, b, a[x..], b[y..], i, j, x + i, y + j);
  }

  lemma {:induction false} HeadOfPrefix(a: seq<int>, b: seq<int>, x: nat, y: nat, i: nat, j: nat)
    requires i <= x <= |a| && j <= y <= |b|
    ensures Head(a[..x], b[..y], i, j) == Head(a, b, i, j)
    decreases i + j
  {
    if 0 < i && 0 < j {
      HeadOfPrefix(a, b, x, y, i - 1, j);
      HeadOfPrefix(a, b, x, y, i, j - 1);
      HeadOfPrefix(a, b, x, y, i - 1, j - 1);
    }
  }

  /** The two halves at a point have the distances the recurrences give. */
  lemma Halves(a: seq<int>, b: seq<int>, x: nat, y: nat)
    requires x <= |a| && y <= |b|
    ensures Distance(a[..x], b[..y]) == Head(a, b, x, y)
    ensures Distance(a[x..], b[y..]) == Tail(a, b, x, y)
  {
    hide Head, Tail;
    TailOfRest(a, b, x, y, 0, 0);
    HeadOfPrefix(a, b, x, y, x, y);
    Corners(a[..x], b[..y]);
    CornerIsOptimal(a[..x], b[..y], 0, 0);
  }

  lemma CommonFirst(a: seq<int>, b: seq<int>)
    requires a != [] && b != [] && a[0] == b[0]
    ensures Distance(a, b) == Distance(a[1..], b[1..])
  {
    TailLipschitz(a, b, 0, 0);
    TailOfRest(a, b, 1, 1, 0, 0);
  }

  lemma CommonLast(a: seq<int>, b: seq<int>)
    requires a != [] && b != [] && a[|a| - 1] == b[|b| - 1]
    ensures Distance(a, b) == Distance(a[..|a| - 1], b[..|b| - 1])
  {
    hide Head, Tail;
    var a', b' := a[..|a| - 1], b[..|b| - 1];
    ReversedGraph(a, b, 0, 0);
    ReversedGraph(a', b', 0, 0);
    CommonFirst(Reverse(a), Reverse(b));
    assert Reverse(a)[1..] == Reverse(a') && Reverse(b)[1..] == Reverse(b');
  }

  /** A point reached without edits is joined to the origin by kept lines. */
  lemma {:induction false} NoEditsNoLoss(a: seq<int>, b: seq<int>, x: nat, y: nat)
    requires x <= |a| && y <= |b| && Head(a, b, x, y) == 0
    ensures x == y && KeptRun(a, b, x, y, x)
    decreases x
  {
    HeadBound(a, b, x, y);
    if x > 0 {
      NoEditsNoLoss(a, b, x - 1, y - 1);
      KeptOneMore(a, b, x, y, x - 1);
    }
  }

  /** Texts that differ in their first and in their last line are at least two edits
      apart. */
  lemma StrippedDistance(a: seq<int>, b: seq<int>)
    requires a != [] && b != [] && a[0] != b[0] && a[|a| - 1] != b[|b| - 1]
    ensures Distance(a, b) >= 2
  {
    var i, j := if Tail(a, b, 1, 0) < Tail(a, b, 0, 1) then 1 else 0, if Tail(a, b, 1, 0) < Tail(a, b, 0, 1) then 0 else 1;
    if Tail(a, b, i, j) == 0 {
      ReversedGraph(a, b, i, j);
      NoEditsNoLoss(Reverse(a), Reverse(b), |a| - i, |b| - j);
    }
  }

  lemma {:induction false} WalkShifts(a: seq<int>, b: seq<int>, a0: seq<int>, b0: seq<int>, x: nat, y: nat, ops: seq<Op>)
    requires x <= |a| && y <= |b| && WalksFrom(a, b, x, y, ops)
    ensures WalksFrom(a0 + a, b0 + b, |a0| + x, |b0| + y, ops)
    decreases |ops|
  {
    if ops != [] {
      match ops[0]
      case Eq => WalkShifts(a, b, a0, b0, x + 1, y + 1, ops[1..]);
      case Del => WalkShifts(a, b, a0, b0, x + 1, y, ops[1..]);
      case Ins => WalkShifts(a, b, a0, b0, x, y + 1, ops[1..]);
    }
  }

  lemma {:induction false} WalkThenScript(a0: seq<int>, b0: seq<int>, a: seq<int>, b: seq<int>, x: nat, y: nat, p: seq<Op>, q: seq<Op>)
    requires x <= |a0| && y <= |b0| && WalksFrom(a0, b0, x, y, p) && IsScript(a, b, q)
    ensures WalksFrom(a0 + a, b0 + b, x, y, p + q)
    decreases |p|
  {
    if p == [] {
      WalkShifts(a, b, a0, b0, 0, 0, q);
      assert p + q == q;
    } else {
      assert (p + q)[1..] == p[1..] + q && (p + q)[0] == p[0];
      match p[0]
      case Eq => WalkThenScript(a0, b0, a, b, x + 1, y + 1, p[1..], q);
      case Del => WalkThenScript(a0, b0, a, b, x + 1, y, p[1..], q);
      case Ins => WalkThenScript(a0, b0, a, b, x, y + 1, p[1..], q);
    }
  }

  /** Scripts of two halves make a script of the whole. */
  lemma ScriptsJoin(a0: seq<int>, b0: seq<int>, a: seq<int>, b: seq<int>, p: seq<Op>, q: seq<Op>)
    requires IsScript(a0, b0, p) && IsScript(a, b, q)
    ensures IsScript(a0 + a, b0 + b, p + q) && Cost(p + q) == Cost(p) + Cost(q)
  {
    WalkThenScript(a0, b0, a, b, 0, 0, p, q);
    CostConcat(p, q);
  }
}
