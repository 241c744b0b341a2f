/** From the edit script to change groups: marking changed lines, sliding every run of
    changed lines as low as it goes, and pairing the two sides back into groups. */
module Groups {
  import opened EditGraph
  import Myers

  /** Lines [a0, a1) of the old file replaced by lines [b0, b1) of the new one. */
  datatype Group = Group(a0: nat, a1: nat, b0: nat, b1: nat)

  // ---------------------------------------------------------------------
  // Changed maps

  /** The keys of the unchanged lines, in order. */
  function Kept(changed: seq<bool>, keys: seq<int>): seq<int>
    requires |changed| == |keys|
  {
    if keys == [] then []
    else (if changed[0] then [] else [keys[0]]) + Kept(changed[1..], keys[1..])
  }

  function CountChanged(changed: seq<bool>): nat {
    if changed == [] then 0 else (if changed[0] then 1 else 0) + CountChanged(changed[1..])
  }

  lemma {:induction false} KeptConcat(c: seq<bool>, k: seq<int>, c': seq<bool>, k': seq<int>)
    requires |c| == |k| && |c'| == |k'|
    ensures Kept(c + c', k + k') == Kept(c, k) + Kept(c', k')
    ensures CountChanged(c + c') == CountChanged(c) + CountChanged(c')
  {
    if c == [] {
      assert c + c' == c' && k + k' == k';
    } else {
      assert (c + c')[1..] == c[1..] + c' && (k + k')[1..] == k[1..] + k';
      KeptConcat(c[1..], k[1..], c', k');
    }
  }

  lemma {:induction false} KeptOfRun(c: seq<bool>, k: seq<int>)
    requires |c| == |k| && forall i | 0 <= i < |c| :: c[i]
    ensures Kept(c, k) == [] && CountChanged(c) == |c|
  {
    if c != [] {
      KeptOfRun(c[1..], k[1..]);
    }
  }

  /** Moving a run down past a line equal to its first changes no unchanged key. */
  lemma SlideOnce(c: seq<bool>, k: seq<int>, s: nat, e: nat)
    requires |c| == |k| && s < e < |c| && k[s] == k[e] && !c[e]
    requires forall i | s <= i < e :: c[i]
    ensures Kept(c[s := false][e := true], k) == Kept(c, k)
    ensures CountChanged(c[s := false][e := true]) == CountChanged(c)
  {
    var c' := c[s := false][e := true];
    var run, rest := c[s + 1..e], c[e + 1..];
    SlideParts(c, s, e);
    SlideParts(c', s, e);
    SlideParts(k, s, e);
    assert c'[..s] == c[..s] && c'[s + 1..e] == run && c'[e + 1..] == rest;
    hide Kept, CountChanged;
    KeptOfRun(run, k[s + 1..e]);
    MiddleOfSlide(run, k[s + 1..e], rest, k[e + 1..], k[s]);
    KeptConcat(c[..s], k[..s], [true] + run + [false] + rest, [k[s]] + k[s + 1..e] + [k[e]] + k[e + 1..]);
    KeptConcat(c[..s], k[..s], [false] + run + [true] + rest, [k[s]] + k[s + 1..e] + [k[e]] + k[e + 1..]);
  }

  lemma SlideParts<T>(c: seq<T>, s: nat, e: nat)
    requires s < e < |c|
    ensures c == c[..s] + ([c[s]] + c[s + 1..e] + [c[e]] + c[e + 1..])
  {
  }

  lemma MiddleOfSlide(run: seq<bool>, ks: seq<int>, rest: seq<bool>, ks': seq<int>, key: int)
    requires |run| == |ks| && |rest| == |ks'| && Kept(run, ks) == []
    ensures Kept([true] + run + [false] + rest, [key] + ks + [key] + ks') == [key] + Kept(rest, ks')
    ensures Kept([false] + run + [true] + rest, [key] + ks + [key] + ks') == [key] + Kept(rest, ks')
    ensures CountChanged([true] + run + [false] + rest) == CountChanged([false] + run + [true] + rest)
  {
    KeptSingle(key);
    hide Kept, CountChanged;
    KeptAround(run, ks, key, true);
    KeptAround(run, ks, key, false);
    KeptConcat([true] + run + [false], [key] + ks + [key], rest, ks');
    KeptConcat([false] + run + [true], [key] + ks + [key], rest, ks');
  }

  lemma KeptSingle(key: int)
    ensures Kept([true], [key]) == [] && Kept([false], [key]) == [key]
    ensures CountChanged([true]) == 1 && CountChanged([false]) == 0
  {
  }

  /** A run with nothing kept, between a changed and an unchanged line of the same key. */
  lemma KeptAround(run: seq<bool>, ks: seq<int>, key: int, first: bool)
    requires |run| == |ks| && Kept(run, ks) == []
    ensures Kept([first] + run + [!first], [key] + ks + [key]) == [key]
    ensures CountChanged([first] + run + [!first]) == 1 + CountChanged(run)
  {
    KeptSingle(key);
    hide Kept, CountChanged;
    KeptConcat([first], [key], run, ks);
    KeptConcat([first] + run, [key] + ks, [!first], [key]);
  }

  /** [s, e) is a whole run of changed lines with an unchanged line after it. */
  ghost predicate IsRun(c: seq<bool>, s: int, e: int) {
    && 0 <= s < e < |c| && !c[e] && (s == 0 || !c[s - 1])
    && forall i | s <= i < e :: c[i]
  }

  /** No run that ends by line `upto` repeats its first line just past its end, so
      none of them can move one line lower. */
  ghost predicate Settled(c: seq<bool>, keys: seq<int>, upto: int)
    requires |c| == |keys|
  {
    forall s, e | IsRun(c, s, e) && e <= upto :: keys[s] != keys[e]
  }

  lemma SlideKeepsSettled(c: seq<bool>, keys: seq<int>, s: nat, e: nat)
    requires |c| == |keys| && s < e < |c| && Settled(c, keys, s)
    requires s > 0 ==> !c[s - 1]
    ensures Settled(c[s := false][e := true], keys, s + 1)
  {
    var c' := c[s := false][e := true];
    forall s', e' | IsRun(c', s', e') && e' <= s + 1
      ensures keys[s'] != keys[e']
    {
      assert c'[e' - 1] && !c'[s] && (s > 0 ==> !c'[s - 1]);
      assert e' < s;
      assert forall i | 0 <= i < s :: c[i] == c'[i];
      assert IsRun(c, s', e');
    }
  }

  method SlideDown(changed: array<bool>, keys: seq<int>)
    requires changed.Length == |keys|
    modifies changed
    ensures Kept(changed[..], keys) == old(Kept(changed[..], keys))
    ensures CountChanged(changed[..]) == old(CountChanged(changed[..]))
    ensures Settled(changed[..], keys, |keys|)
  {
    hide Kept, CountChanged;
    var n := |keys|;
    var i := 0;
    while i < n
      invariant 0 <= i <= n
      invariant Kept(changed[..], keys) == old(Kept(changed[..], keys))
      invariant CountChanged(changed[..]) == old(CountChanged(changed[..]))
      invariant Settled(changed[..], keys, i)
      invariant 0 < i < n && changed[i - 1] ==> !changed[i]
    {
      if !changed[i] {
        i := i + 1;
        continue;
      }
      var start := i;
      while i < n && changed[i]
        invariant start <= i <= n
        invariant forall k | start <= k < i :: changed[k]
        decreases n - i
      {
        i := i + 1;
      }
      while i < n && !changed[i] && keys[start] == keys[i]
        invariant 0 <= start < i <= n
        invariant i < n ==> !changed[i]
        invariant start > 0 ==> !changed[start - 1]
        invariant forall k | start <= k < i :: changed[k]
        invariant Settled(changed[..], keys, start)
        invariant Kept(changed[..], keys) == old(Kept(changed[..], keys))
        invariant CountChanged(changed[..]) == old(CountChanged(changed[..]))
        decreases n - i
      {
        ghost var c := changed[..];
        SlideOnce(c, keys, start, i);
        SlideKeepsSettled(c, keys, start, i);
        changed[start] := false;
        changed[i] := true;
        assert changed[..] == c[start := false][i := true];
        start := start + 1;
        i := i + 1;
        while i < n && changed[i]
          invariant start < i <= n
          invariant forall k | start <= k < i :: changed[k]
          decreases n - i
        {
          i := i + 1;
        }
      }
    }
  }

  // ---------------------------------------------------------------------
  // Groups

  function GapStart(gs: seq<Group>, k: nat): (nat, nat)
    requires k <= |gs|
  {
    if k == 0 then (0, 0) else (gs[k - 1].a1, gs[k - 1].b1)
  }

  function GapEnd<T>(a: seq<T>, b: seq<T>, gs: seq<Group>, k: nat): (nat, nat)
    requires k <= |gs|
  {
    if k == |gs| then (|a|, |b|) else (gs[k].a0, gs[k].b0)
  }

  ghost predicate InBounds<T>(a: seq<T>, b: seq<T>, g: Group) {
    g.a0 <= g.a1 <= |a| && g.b0 <= g.b1 <= |b| && (g.a0 < g.a1 || g.b0 < g.b1)
  }

  /** The lines of a between two points are the lines of b between two points. */
  ghost predicate SameLines<T>(a: seq<T>, b: seq<T>, from: (nat, nat), to: (nat, nat)) {
    && from.0 <= to.0 <= |a| && from.1 <= to.1 <= |b|
    && a[from.0..to.0] == b[from.1..to.1]
  }

  ghost predicate Separated(gs: seq<Group>, k: nat)
    requires 0 < k < |gs|
  {
    gs[k - 1].a1 < gs[k].a0
  }

  /** The groups are in order, separated by at least one unchanged line, and outside
      them the two texts agree line by line. */
  ghost predicate Aligned<T>(a: seq<T>, b: seq<T>, gs: seq<Group>) {
    && (forall k | 0 <= k < |gs| :: InBounds(a, b, gs[k]))
    && (forall k | 0 <= k <= |gs| :: SameLines(a, b, GapStart(gs, k), GapEnd(a, b, gs, k)))
    && (forall k | 0 < k < |gs| :: Separated(gs, k))
  }

  /** The old text from the k-th gap on, with every group replaced by its new lines. */
  function Rewrite<T>(a: seq<T>, b: seq<T>, gs: seq<Group>, k: nat): seq<T>
    requires Aligned(a, b, gs) && k <= |gs|
    decreases |gs| - k
  {
    assert SameLines(a, b, GapStart(gs, k), GapEnd(a, b, gs, k));
    var gap := a[GapStart(gs, k).0..GapEnd(a, b, gs, k).0];
    if k == |gs| then gap
    else
      assert InBounds(a, b, gs[k]);
      gap + b[gs[k].b0..gs[k].b1] + Rewrite(a, b, gs, k + 1)
  }

  /** Replacing every group turns the old text into the new one. */
  lemma {:induction false} RewriteGivesNew<T>(a: seq<T>, b: seq<T>, gs: seq<Group>, k: nat)
    requires Aligned(a, b, gs) && k <= |gs|
    ensures 0 <= GapStart(gs, k).1 <= |b|
    ensures Rewrite(a, b, gs, k) == b[GapStart(gs, k).1..]
    decreases |gs| - k
  {
    RewriteNext(a, b, gs, k);
    hide Rewrite, Aligned;
    if k < |gs| {
      RewriteGivesNew(a, b, gs, k + 1);
      Spliced(Rewrite(a, b, gs, k + 1), b, GapStart(gs, k).1, gs[k].b0, gs[k].b1);
    }
  }

  lemma GapIs<T>(a: seq<T>, b: seq<T>, gs: seq<Group>, k: nat)
    requires Aligned(a, b, gs) && k <= |gs|
    ensures SameLines(a, b, GapStart(gs, k), GapEnd(a, b, gs, k)) && (k < |gs| ==> InBounds(a, b, gs[k]))
  {
  }

  /** The lines before the k-th group are those of the new text, then come its new lines. */
  lemma RewriteNext<T>(a: seq<T>, b: seq<T>, gs: seq<Group>, k: nat)
    requires Aligned(a, b, gs) && k <= |gs|
    ensures var j := GapStart(gs, k).1;
            if k == |gs| then j <= |b| && Rewrite(a, b, gs, k) == b[j..]
            else && j <= gs[k].b0 <= gs[k].b1 <= |b|
                 && Rewrite(a, b, gs, k) == b[j..gs[k].b0] + b[gs[k].b0..gs[k].b1] + Rewrite(a, b, gs, k + 1)
  {
    GapIs(a, b, gs, k);
    assert k == |gs| ==> b[GapStart(gs, k).1..|b|] == b[GapStart(gs, k).1..];
  }

  lemma Spliced<T>(rest: seq<T>, b: seq<T>, i: nat, j: nat, k: nat)
    requires i <= j <= k <= |b| && rest == b[k..]
    ensures b[i..j] + b[j..k] + rest == b[i..]
  {
  }

  /** How many lines the groups delete and insert. */
  function Size(gs: seq<Group>): int {
    if gs == [] then 0
    else var g := gs[|gs| - 1]; Size(gs[..|gs| - 1]) + (g.a1 - g.a0) + (g.b1 - g.b0)
  }

  lemma {:induction false} HeadOverSame(a: seq<int>, b: seq<int>, x: nat, y: nat, n: nat)
    requires x + n <= |a| && y + n <= |b| && a[x..x + n] == b[y..y + n]
    ensures Head(a, b, x + n, y + n) <= Head(a, b, x, y)
    decreases n
  {
    if n > 0 {
      hide Head;
      var m := n - 1;
      assert a[x..x + m] == a[x..x + n][..m] && b[y..y + m] == b[y..y + n][..m];
      HeadOverSame(a, b, x, y, m);
      assert a[x..x + n][m] == a[x + m] && b[y..y + n][m] == b[y + m];
      HeadStep(a, b, x + m, y + m);
    }
  }

  lemma {:induction false} HeadOverEdits(a: seq<int>, b: seq<int>, x: nat, y: nat, i: nat, j: nat)
    requires x + i <= |a| && y + j <= |b|
    ensures Head(a, b, x + i, y + j) <= Head(a, b, x, y) + i + j
    decreases i + j
  {
    hide Head;
    if i > 0 {
      HeadOverEdits(a, b, x, y, i - 1, j);
      HeadStep(a, b, x + i - 1, y + j);
    } else if j > 0 {
      HeadOverEdits(a, b, x, y, i, j - 1);
      HeadStep(a, b, x + i, y + j - 1);
    }
  }

  lemma SizeNext(gs: seq<Group>, k: nat)
    requires k < |gs|
    ensures Size(gs[..k + 1]) == Size(gs[..k]) + (gs[k].a1 - gs[k].a0) + (gs[k].b1 - gs[k].b0)
  {
    assert gs[..k + 1][..k] == gs[..k];
  }

  /** From one gap to the next. */
  lemma HeadOverGroup(a: seq<int>, b: seq<int>, x: nat, y: nat, g: Group)
    requires SameLines(a, b, (x, y), (g.a0, g.b0)) && InBounds(a, b, g)
    ensures Head(a, b, g.a1, g.b1) <= Head(a, b, x, y) + (g.a1 - g.a0) + (g.b1 - g.b0)
  {
    hide Head;
    assert |a[x..g.a0]| == |b[y..g.b0]|;
    HeadOverSame(a, b, x, y, g.a0 - x);
    HeadOverEdits(a, b, g.a0, g.b0, g.a1 - g.a0, g.b1 - g.b0);
  }

  /** Up to the k-th gap the groups change at least as many lines as any script does. */
  lemma {:induction false} HeadAtGap(a: seq<int>, b: seq<int>, gs: seq<Group>, k: nat)
    requires Aligned(a, b, gs) && k <= |gs|
    ensures GapStart(gs, k).0 <= |a| && GapStart(gs, k).1 <= |b|
    ensures Head(a, b, GapStart(gs, k).0, GapStart(gs, k).1) <= Size(gs[..k])
    decreases k
  {
    hide Head, Size, Aligned, SameLines;
    if k == 0 {
      Corners(a, b);
      NoGroups();
      assert gs[..0] == [];
    } else {
      HeadAtGap(a, b, gs, k - 1);
      GapIs(a, b, gs, k - 1);
      InsideBoth(a, b, gs[k - 1]);
      HeadOverGroup(a, b, GapStart(gs, k - 1).0, GapStart(gs, k - 1).1, gs[k - 1]);
      SizeNext(gs, k - 1);
    }
  }

  lemma InsideBoth(a: seq<int>, b: seq<int>, g: Group)
    requires InBounds(a, b, g)
    ensures g.a0 <= g.a1 <= |a| && g.b0 <= g.b1 <= |b|
  {
  }

  lemma NoGroups()
    ensures Size([]) == 0
  {
  }

  /** No group list that leaves the same lines outside has fewer changed lines than the edit
      distance. */
  lemma SizeIsEnough(a: seq<int>, b: seq<int>, gs: seq<Group>)
    requires Aligned(a, b, gs)
    ensures Distance(a, b) <= Size(gs)
  {
    hide Head, Tail, Size, Aligned;
    HeadAtGap(a, b, gs, |gs|);
    Corners(a, b);
    ThroughPoint(a, b, |a|, |b|);
    GapIs(a, b, gs, |gs|);
    var (x, y) := GapStart(gs, |gs|);
    assert |a[x..|a|]| == |b[y..|b|]|;
    HeadOverSame(a, b, x, y, |a| - x);
    assert gs[..|gs|] == gs;
  }

  // ---------------------------------------------------------------------
  // Marking

  /** The script has been followed to (ai, bi): what is marked so far agrees. */
  method MarkChanged(ka: seq<int>, kb: seq<int>, ops: seq<Op>, ca: array<bool>, cb: array<bool>)
    requires IsScript(ka, kb, ops) && ca.Length == |ka| && cb.Length == |kb| && ca != cb
    requires forall i | 0 <= i < ca.Length :: !ca[i]
    requires forall j | 0 <= j < cb.Length :: !cb[j]
    modifies ca, cb
    ensures Kept(ca[..], ka) == Kept(cb[..], kb)
    ensures CountChanged(ca[..]) + CountChanged(cb[..]) == Cost(ops)
  {
    hide Kept, CountChanged, Cost;
    var ai, bi := 0, 0;
    MarkStart(ca[..ai], ka[..ai], cb[..bi], kb[..bi], ops[..0]);
    for n := 0 to |ops|
      invariant 0 <= ai <= |ka| && 0 <= bi <= |kb|
      invariant WalksFrom(ka, kb, ai, bi, ops[n..])
      invariant forall i | ai <= i < |ka| :: !ca[i]
      invariant forall j | bi <= j < |kb| :: !cb[j]
      invariant Kept(ca[..ai], ka[..ai]) == Kept(cb[..bi], kb[..bi])
      invariant CountChanged(ca[..ai]) + CountChanged(cb[..bi]) == Cost(ops[..n])
    {
      assert ops[n..][0] == ops[n] && ops[n..][1..] == ops[n + 1..];
      assert ops[..n + 1] == ops[..n] + [ops[n]];
      ghost var c, k, c', k' := ca[..ai], ka[..ai], cb[..bi], kb[..bi];
      MarkStep(c, k, c', k', ops[..n], ops[n], if ai < |ka| then ka[ai] else 0, if bi < |kb| then kb[bi] else 0);
      match ops[n]
      case Eq =>
        ai, bi := ai + 1, bi + 1;
        assert ca[..ai] == c + [false] && ka[..ai] == k + [ka[ai - 1]];
        assert cb[..bi] == c' + [false] && kb[..bi] == k' + [kb[bi - 1]];
      case Del =>
        ca[ai] := true;
        ai := ai + 1;
        assert ca[..ai] == c + [true] && ka[..ai] == k + [ka[ai - 1]];
        assert cb[..bi] == c';
      case Ins =>
        cb[bi] := true;
        bi := bi + 1;
        assert cb[..bi] == c' + [true] && kb[..bi] == k' + [kb[bi - 1]];
        assert ca[..ai] == c;
    }
    assert ops[|ops|..] == [] && ops[..|ops|] == ops;
    assert ca[..ai] == ca[..] && cb[..bi] == cb[..] && ka[..ai] == ka && kb[..bi] == kb;
  }

  lemma MarkStart(c: seq<bool>, k: seq<int>, c': seq<bool>, k': seq<int>, ops: seq<Op>)
    requires c == [] && k == [] && c' == [] && k' == [] && ops == []
    ensures Kept(c, k) == Kept(c', k') && CountChanged(c) + CountChanged(c') == Cost(ops)
  {
  }

  lemma MarkStep(c: seq<bool>, k: seq<int>, c': seq<bool>, k': seq<int>, ops: seq<Op>, op: Op, x: int, y: int)
    requires |c| == |k| && |c'| == |k'| && Kept(c, k) == Kept(c', k')
    requires CountChanged(c) + CountChanged(c') == Cost(ops)
    ensures op == Eq && x == y ==> Kept(c + [false], k + [x]) == Kept(c' + [false], k' + [y])
                                   && CountChanged(c + [false]) + CountChanged(c' + [false]) == Cost(ops + [op])
    ensures op == Del ==> Kept(c + [true], k + [x]) == Kept(c', k')
                          && CountChanged(c + [true]) + CountChanged(c') == Cost(ops + [op])
    ensures op == Ins ==> Kept(c, k) == Kept(c' + [true], k' + [y])
                          && CountChanged(c) + CountChanged(c' + [true]) == Cost(ops + [op])
  {
    CostConcat(ops, [op]);
    KeptConcat(c, k, [false], [x]);
    KeptConcat(c, k, [true], [x]);
    KeptConcat(c', k', [false], [y]);
    KeptConcat(c', k', [true], [y]);
  }

  // ---------------------------------------------------------------------
  // Pairing

  /** The groups so far are aligned, and the lines since the last of them agree. */
  ghost predicate AlignedUpTo(a: seq<int>, b: seq<int>, gs: seq<Group>, i: nat, j: nat) {
    && (forall k | 0 <= k < |gs| :: InBounds(a, b, gs[k]))
    && (forall k | 0 <= k < |gs| :: SameLines(a, b, GapStart(gs, k), (gs[k].a0, gs[k].b0)))
    && (forall k | 0 < k < |gs| :: Separated(gs, k))
    && SameLines(a, b, GapStart(gs, |gs|), (i, j))
  }

  /** The same unchanged keys are still ahead on both sides. */
  ghost predicate InStep(ka: seq<int>, kb: seq<int>, ca: seq<bool>, cb: seq<bool>, i: nat, j: nat) {
    && |ca| == |ka| && |cb| == |kb| && i <= |ka| && j <= |kb|
    && Kept(ca[i..], ka[i..]) == Kept(cb[j..], kb[j..])
  }

  lemma {:induction false} KeptNext(c: seq<bool>, k: seq<int>, i: nat)
    requires |c| == |k| && i < |k|
    ensures Kept(c[i..], k[i..]) == (if c[i] then [] else [k[i]]) + Kept(c[i + 1..], k[i + 1..])
    ensures CountChanged(c[..i + 1]) == CountChanged(c[..i]) + (if c[i] then 1 else 0)
  {
    assert c[i..][1..] == c[i + 1..] && k[i..][1..] == k[i + 1..];
    assert c[..i + 1] == c[..i] + [c[i]];
    KeptConcat(c[..i], k[..i], [c[i]], [k[i]]);
  }

  /** At a synchronized point with no change on either side, both have a line and the
      two lines have the same key. */
  lemma PairLine(ka: seq<int>, kb: seq<int>, ca: seq<bool>, cb: seq<bool>, i: nat, j: nat)
    requires InStep(ka, kb, ca, cb, i, j) && (i < |ka| || j < |kb|)
    requires (i < |ka| ==> !ca[i]) && (j < |kb| ==> !cb[j])
    ensures i < |ka| && j < |kb| && ka[i] == kb[j] && InStep(ka, kb, ca, cb, i + 1, j + 1)
    ensures CountChanged(ca[..i + 1]) == CountChanged(ca[..i])
    ensures CountChanged(cb[..j + 1]) == CountChanged(cb[..j])
  {
    if i < |ka| { KeptNext(ca, ka, i); }
    if j < |kb| { KeptNext(cb, kb, j); }
    assert i < |ka| && j < |kb|;
    var ra, rb := Kept(ca[i + 1..], ka[i + 1..]), Kept(cb[j + 1..], kb[j + 1..]);
    assert ([ka[i]] + ra)[0] == ([kb[j]] + rb)[0];
    assert ([ka[i]] + ra)[1..] == ([kb[j]] + rb)[1..];
  }

  /** The lines since the last group go on agreeing. */
  lemma GapGrows(a: seq<int>, b: seq<int>, gs: seq<Group>, i: nat, j: nat)
    requires AlignedUpTo(a, b, gs, i, j) && i < |a| && j < |b| && a[i] == b[j]
    ensures AlignedUpTo(a, b, gs, i + 1, j + 1)
  {
    var (la, lb) := GapStart(gs, |gs|);
    assert SameLines(a, b, (la, lb), (i, j));
    assert a[la..i + 1] == a[la..i] + [a[i]] && b[lb..j + 1] == b[lb..j] + [b[j]];
  }

  /** What the k-th group and the gap before it are does not depend on later groups. */
  lemma GroupKept(gs: seq<Group>, g: Group, k: nat)
    requires k < |gs| + 1
    ensures GapStart(gs + [g], k) == GapStart(gs, k) && (gs + [g])[k] == (if k < |gs| then gs[k] else g)
    ensures k > 0 ==> (gs + [g])[k - 1] == gs[k - 1]
  {
  }

  lemma GapAdded(a: seq<int>, b: seq<int>, gs: seq<Group>, g: Group, k: nat)
    requires AlignedUpTo(a, b, gs, g.a0, g.b0) && InBounds(a, b, g) && k < |gs| + 1
    requires |gs| > 0 ==> gs[|gs| - 1].a1 < g.a0
    ensures var gs' := gs + [g];
            && InBounds(a, b, gs'[k]) && SameLines(a, b, GapStart(gs', k), (gs'[k].a0, gs'[k].b0))
            && (k > 0 ==> Separated(gs', k))
  {
    hide SameLines, InBounds, GapStart;
    GroupKept(gs, g, k);
    assert 0 < k < |gs| ==> Separated(gs, k);
  }

  lemma NothingBetween(a: seq<int>, b: seq<int>, i: nat, j: nat)
    requires i <= |a| && j <= |b|
    ensures SameLines(a, b, (i, j), (i, j))
  {
  }

  lemma SizeAdded(gs: seq<Group>, g: Group)
    ensures Size(gs + [g]) == Size(gs) + (g.a1 - g.a0) + (g.b1 - g.b0)
  {
    assert (gs + [g])[..|gs|] == gs;
  }

  lemma GroupAdded(a: seq<int>, b: seq<int>, gs: seq<Group>, g: Group)
    requires AlignedUpTo(a, b, gs, g.a0, g.b0) && InBounds(a, b, g)
    requires |gs| > 0 ==> gs[|gs| - 1].a1 < g.a0
    ensures AlignedUpTo(a, b, gs + [g], g.a1, g.b1)
  {
    NothingBetween(a, b, g.a1, g.b1);
    hide SameLines, Separated, InBounds;
    var gs' := gs + [g];
    forall k | 0 <= k < |gs'|
      ensures InBounds(a, b, gs'[k]) && SameLines(a, b, GapStart(gs', k), (gs'[k].a0, gs'[k].b0))
      ensures k > 0 ==> Separated(gs', k)
    {
      hide AlignedUpTo;
      GapAdded(a, b, gs, g, k);
    }
  }

  lemma AlignedWhole(a: seq<int>, b: seq<int>, gs: seq<Group>)
    requires AlignedUpTo(a, b, gs, |a|, |b|)
    ensures Aligned(a, b, gs)
  {
  }

  /** The runs of every group are as low as they go. */
  ghost predicate Lowest(a: seq<int>, b: seq<int>, gs: seq<Group>) {
    forall k | 0 <= k < |gs| ::
      var g := gs[k];
      && (g.a0 < g.a1 < |a| ==> a[g.a0] != a[g.a1])
      && (g.b0 < g.b1 < |b| ==> b[g.b0] != b[g.b1])
  }

  /** Lines i..e are all changed and line e is not: what is kept from either is the same. */
  ghost predicate RunTo(keys: seq<int>, c: seq<bool>, i: nat, e: nat) {
    && |c| == |keys| && i <= e <= |keys| && (forall k | i <= k < e :: c[k]) && (e < |keys| ==> !c[e])
    && Kept(c[e..], keys[e..]) == Kept(c[i..], keys[i..])
    && CountChanged(c[..e]) == CountChanged(c[..i]) + (e - i)
  }

  /** End of the run of changed lines that starts at i. */
  method RunEnd(keys: seq<int>, c: array<bool>, i: nat) returns (e: nat)
    requires c.Length == |keys| && i <= |keys|
    ensures i <= e <= |keys| && RunTo(keys, c[..], i, e)
  {
    hide Kept, CountChanged;
    e := i;
    while e < |keys| && c[e]
      invariant i <= e <= |keys| && forall k | i <= k < e :: c[k]
      invariant Kept(c[..][e..], keys[e..]) == Kept(c[..][i..], keys[i..])
      invariant CountChanged(c[..][..e]) == CountChanged(c[..][..i]) + (e - i)
    {
      KeptNext(c[..], keys, e);
      e := e + 1;
    }
  }

  /** A group made of two whole runs. */
  lemma GroupIsLow(ka: seq<int>, kb: seq<int>, ca: seq<bool>, cb: seq<bool>, gs: seq<Group>, g: Group)
    requires |ca| == |ka| && |cb| == |kb| && Lowest(ka, kb, gs) && InBounds(ka, kb, g)
    requires Settled(ca, ka, |ka|) && Settled(cb, kb, |kb|)
    requires (g.a0 > 0 ==> !ca[g.a0 - 1]) && (g.b0 > 0 ==> !cb[g.b0 - 1])
    requires (forall k | g.a0 <= k < g.a1 :: ca[k]) && (g.a1 < |ka| ==> !ca[g.a1])
    requires (forall k | g.b0 <= k < g.b1 :: cb[k]) && (g.b1 < |kb| ==> !cb[g.b1])
    ensures Lowest(ka, kb, gs + [g])
  {
    assert g.a0 < g.a1 < |ka| ==> IsRun(ca, g.a0, g.a1);
    assert g.b0 < g.b1 < |kb| ==> IsRun(cb, g.b0, g.b1);
  }

  /** Between groups: just past the last one, or past an unchanged line. */
  ghost predicate AtBorder(gs: seq<Group>, ca: seq<bool>, cb: seq<bool>, i: nat, j: nat) {
    && i <= |ca| && j <= |cb| && (|gs| > 0 ==> gs[|gs| - 1].a1 <= i)
    && if |gs| > 0 && gs[|gs| - 1].a1 == i then (i < |ca| ==> !ca[i]) && (j < |cb| ==> !cb[j])
       else (i > 0 ==> !ca[i - 1]) && (j > 0 ==> !cb[j - 1])
  }

  /** Everything that holds when lines i and j are next. */
  ghost predicate Grouping(ka: seq<int>, kb: seq<int>, ca: seq<bool>, cb: seq<bool>, gs: seq<Group>, i: nat, j: nat) {
    && InStep(ka, kb, ca, cb, i, j) && AlignedUpTo(ka, kb, gs, i, j) && AtBorder(gs, ca, cb, i, j)
    && Settled(ca, ka, |ka|) && Settled(cb, kb, |kb|) && Lowest(ka, kb, gs)
    && Size(gs) == CountChanged(ca[..i]) + CountChanged(cb[..j])
  }

  lemma GroupStep(ka: seq<int>, kb: seq<int>, ca: seq<bool>, cb: seq<bool>, gs: seq<Group>, g: Group)
    requires Grouping(ka, kb, ca, cb, gs, g.a0, g.b0) && RunTo(ka, ca, g.a0, g.a1) && RunTo(kb, cb, g.b0, g.b1)
    requires (g.a0 < |ka| && ca[g.a0]) || (g.b0 < |kb| && cb[g.b0])
    ensures Grouping(ka, kb, ca, cb, gs + [g], g.a1, g.b1)
  {
    hide Kept, CountChanged, Settled, AlignedUpTo, Lowest, Size;
    GroupIsLow(ka, kb, ca, cb, gs, g);
    GroupAdded(ka, kb, gs, g);
    SizeAdded(gs, g);
  }

  lemma LineStep(ka: seq<int>, kb: seq<int>, ca: seq<bool>, cb: seq<bool>, gs: seq<Group>, i: nat, j: nat)
    requires Grouping(ka, kb, ca, cb, gs, i, j) && (i < |ka| || j < |kb|)
    requires (i < |ka| ==> !ca[i]) && (j < |kb| ==> !cb[j])
    ensures i < |ka| && j < |kb| && Grouping(ka, kb, ca, cb, gs, i + 1, j + 1)
  {
    hide Kept, CountChanged, Settled, AlignedUpTo, Lowest, Size;
    PairLine(ka, kb, ca, cb, i, j);
    GapGrows(ka, kb, gs, i, j);
  }

  lemma GroupingBegins(ka: seq<int>, kb: seq<int>, ca: seq<bool>, cb: seq<bool>)
    requires |ca| == |ka| && |cb| == |kb| && Kept(ca, ka) == Kept(cb, kb)
    requires Settled(ca, ka, |ka|) && Settled(cb, kb, |kb|)
    ensures Grouping(ka, kb, ca, cb, [], 0, 0)
  {
    assert ca[0..] == ca && ka[0..] == ka && cb[0..] == cb && kb[0..] == kb;
  }

  lemma GroupingEnds(ka: seq<int>, kb: seq<int>, ca: seq<bool>, cb: seq<bool>, gs: seq<Group>)
    requires Grouping(ka, kb, ca, cb, gs, |ka|, |kb|)
    ensures Aligned(ka, kb, gs) && Lowest(ka, kb, gs) && Size(gs) == CountChanged(ca) + CountChanged(cb)
  {
    hide CountChanged, Settled, Lowest, Size, AlignedUpTo;
    assert ca[..|ka|] == ca && cb[..|kb|] == cb;
    AlignedWhole(ka, kb, gs);
  }

  /** The change groups of two key sequences: aligned, as low as they go, and with no
      more changed lines than the edit distance. */
  method DiffGroups(ka: seq<int>, kb: seq<int>) returns (gs: seq<Group>)
    ensures Aligned(ka, kb, gs)
    ensures Lowest(ka, kb, gs)
    ensures Size(gs) == Distance(ka, kb)
  {
    hide *;
    var ops := Myers.MyersOps(ka, kb);
    var ca := new bool[|ka|](_ => false);
    var cb := new bool[|kb|](_ => false);
    MarkChanged(ka, kb, ops, ca, cb);
    SlideDown(ca, ka);
    SlideDown(cb, kb);
    ghost var sa, sb := ca[..], cb[..];
    gs := [];
    var i: nat, j: nat := 0, 0;
    GroupingBegins(ka, kb, sa, sb);
    while i < |ka| || j < |kb|
      invariant i <= |ka| && j <= |kb|
      invariant ca[..] == sa && cb[..] == sb
      invariant Grouping(ka, kb, sa, sb, gs, i, j)
      decreases |ka| - i + |kb| - j
    {
      assert (i < |ka| ==> ca[i] == sa[i]) && (j < |kb| ==> cb[j] == sb[j]);
      if (i < |ka| && ca[i]) || (j < |kb| && cb[j]) {
        var i' := RunEnd(ka, ca, i);
        var j' := RunEnd(kb, cb, j);
        RunMoves(ka, sa, i, i');
        RunMoves(kb, sb, j, j');
        GroupStep(ka, kb, sa, sb, gs, Group(i, i', j, j'));
        gs := gs + [Group(i, i', j, j')];
        i, j := i', j';
      } else {
        LineStep(ka, kb, sa, sb, gs, i, j);
        i, j := i + 1, j + 1;
      }
    }
    GroupingEnds(ka, kb, sa, sb, gs);
  }

  lemma RunMoves(keys: seq<int>, c: seq<bool>, i: nat, e: nat)
    requires RunTo(keys, c, i, e)
    ensures i < |c| && c[i] ==> i < e
  {
  }
}
