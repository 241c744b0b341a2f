/** The fields of a line and the scanner that prints those asked for. */
module CutLines {
  import opened Common
  import opened CutList
  import opened CutRanges

  // ---------------------------------------------------------------------
  // Fields

  /** Where d first occurs in s, or -1. */
  function Index(s: seq<Byte>, d: seq<Byte>): (r: int)
    requires d != []
    ensures -1 <= r && (r >= 0 ==> r + |d| <= |s|)
    decreases |s|
  {
    if |s| < |d| then -1
    else if s[..|d|] == d then 0
    else
      var r := Index(s[1..], d);
      if r < 0 then -1 else r + 1
  }

  /** The fields of a line: what stands between the delimiters. */
  function Fields(s: seq<Byte>, d: seq<Byte>): (fs: seq<seq<Byte>>)
    requires d != []
    ensures fs != []
    decreases |s|
  {
    var r := Index(s, d);
    if r < 0 then [s] else [s[..r]] + Fields(s[r + |d|..], d)
  }

  function Joined(parts: seq<seq<Byte>>, d: seq<Byte>): seq<Byte> {
    Rest(parts, true, d)
  }

  /** The parts still to print, each after a delimiter but the very first. */
  function Rest(parts: seq<seq<Byte>>, first: bool, d: seq<Byte>): seq<Byte> {
    if parts == [] then [] else (if first then [] else d) + parts[0] + Rest(parts[1..], false, d)
  }

  /** d stands in s at k. */
  predicate At(s: seq<Byte>, d: seq<Byte>, k: int) {
    0 <= k && k + |d| <= |s| && s[k..k + |d|] == d
  }

  lemma {:induction false} IndexFound(s: seq<Byte>, d: seq<Byte>)
    requires d != [] && Index(s, d) >= 0
    ensures At(s, d, Index(s, d))
    decreases |s|
  {
    if s[..|d|] != d {
      var t := s[1..];
      IndexFound(t, d);
      var r := Index(t, d);
      assert t[r..r + |d|] == s[r + 1..r + 1 + |d|];
    }
  }

  lemma {:induction false} IndexFirst(s: seq<Byte>, d: seq<Byte>, k: int)
    requires d != [] && At(s, d, k)
    ensures 0 <= Index(s, d) <= k
    decreases |s|
  {
    if k == 0 {
      assert s[..|d|] == s[k..k + |d|];
    } else {
      assert s[1..][k - 1..k - 1 + |d|] == s[k..k + |d|];
      IndexFirst(s[1..], d, k - 1);
    }
  }

  lemma RestCons(f: seq<Byte>, fs: seq<seq<Byte>>, first: bool, d: seq<Byte>)
    ensures Rest([f] + fs, first, d) == (if first then [] else d) + f + Rest(fs, false, d)
    ensures fs != [] ==> Rest(fs, false, d) == d + Rest(fs, true, d)
  {
    assert ([f] + fs)[1..] == fs;
    if fs != [] {
      assert d + ([] + fs[0] + Rest(fs[1..], false, d)) == d + fs[0] + Rest(fs[1..], false, d);
    }
  }

  /** The fields are the line: with delimiters between them they give it back. */
  lemma {:induction false} FieldsJoin(s: seq<Byte>, d: seq<Byte>)
    requires d != []
    ensures Joined(Fields(s, d), d) == s
    decreases |s|
  {
    hide Index, Rest;
    var r := Index(s, d);
    if r >= 0 {
      IndexFound(s, d);
      var t := s[r + |d|..];
      FieldsJoin(t, d);
      RestCons(s[..r], Fields(t, d), true, d);
      assert s == s[..r] + (d + t);
    } else {
      RestCons(s, [], true, d);
      assert [s] + [] == [s];
      NoParts(d);
    }
  }

  lemma NoParts(d: seq<Byte>)
    ensures Rest([], false, d) == [] && Rest([], true, d) == []
  {
  }

  /** No field holds a delimiter, not even one that runs into the delimiter after it. */
  lemma {:induction false} FieldsWithout(s: seq<Byte>, d: seq<Byte>, i: nat)
    requires d != [] && i < |Fields(s, d)|
    ensures i + 1 < |Fields(s, d)| ==> Index(Fields(s, d)[i] + d, d) == |Fields(s, d)[i]|
    ensures i + 1 == |Fields(s, d)| ==> Index(Fields(s, d)[i], d) < 0
    decreases |s|
  {
    hide Index;
    var r := Index(s, d);
    if r >= 0 {
      if i > 0 {
        FieldsWithout(s[r + |d|..], d, i - 1);
      } else {
        FirstHere(s, d);
      }
    }
  }

  lemma FirstHere(s: seq<Byte>, d: seq<Byte>)
    requires d != [] && Index(s, d) >= 0
    ensures Index(s[..Index(s, d)] + d, d) == Index(s, d)
  {
    hide Index;
    var r := Index(s, d);
    var t := s[..r] + d;
    IndexFound(s, d);
    assert t[r..r + |d|] == d;
    IndexFirst(t, d, r);
    IndexFound(t, d);
    var k := Index(t, d);
    SamePlace(s, d, r, k);
    IndexFirst(s, d, k);
  }

  lemma SamePlace(s: seq<Byte>, d: seq<Byte>, r: nat, k: nat)
    requires At(s, d, r) && k <= r && At(s[..r] + d, d, k)
    ensures At(s, d, k)
  {
    var t := s[..r] + d;
    assert t == s[..r + |d|];
    assert s[k..k + |d|] == t[k..k + |d|];
  }

  // ---------------------------------------------------------------------
  // Selecting fields

  /** The selected ones of the fields numbered from k on. */
  function Chosen(fs: seq<seq<Byte>>, k: int, rs: seq<Range>): seq<seq<Byte>> {
    if fs == [] then [] else (if Covers(rs, k) then [fs[0]] else []) + Chosen(fs[1..], k + 1, rs)
  }

  ghost predicate Ascending(rs: seq<Range>) {
    forall i, j | 0 <= i < j < |rs| :: rs[i].lo <= rs[j].lo
  }

  lemma {:induction false} ShapedAscending(rs: seq<Range>)
    requires Shaped(rs)
    ensures Ascending(rs)
  {
    if rs != [] {
      ShapedAscending(rs[1..]);
      forall j | 0 < j < |rs| ensures rs[0].lo <= rs[j].lo {
        assert j > 1 ==> rs[1..][0].lo <= rs[1..][j - 1].lo;
      }
    }
  }

  /** With the ranges before p left behind, range p decides. */
  lemma CoveredHere(rs: seq<Range>, p: nat, k: int)
    requires Ascending(rs) && p < |rs| && k <= rs[p].hi && forall j | 0 <= j < p :: rs[j].hi < k
    ensures Covers(rs, k) <==> k >= rs[p].lo
  {
  }

  lemma {:induction false} NoneChosen(fs: seq<seq<Byte>>, k: int, rs: seq<Range>)
    requires forall j | 0 <= j < |rs| :: rs[j].hi < k
    ensures Chosen(fs, k, rs) == []
    decreases |fs|
  {
    if fs != [] {
      NoneChosen(fs[1..], k + 1, rs);
    }
  }

  lemma ChosenCons(f: seq<Byte>, fs: seq<seq<Byte>>, k: int, rs: seq<Range>)
    ensures Chosen([f] + fs, k, rs) == (if Covers(rs, k) then [f] else []) + Chosen(fs, k + 1, rs)
    ensures Chosen([f], k, rs) == if Covers(rs, k) then [f] else []
  {
    hide Covers;
    assert ([f] + fs)[1..] == fs;
    assert Chosen([f][1..], k + 1, rs) == [];
  }

  // ---------------------------------------------------------------------
  // The scanner

  /** The field that begins at start. */
  function FieldAt(line: seq<Byte>, start: nat, d: seq<Byte>): seq<Byte>
    requires d != [] && start <= |line|
  {
    var r := Index(line[start..], d);
    if r < 0 then line[start..] else line[start..start + r]
  }

  /** Where the one after it begins, or -1. */
  function NextAt(line: seq<Byte>, start: nat, d: seq<Byte>): (n: int)
    requires d != [] && start <= |line|
    ensures n < 0 || start < n <= |line|
  {
    var r := Index(line[start..], d);
    if r < 0 then -1 else start + r + |d|
  }

  /** The selected fields still to come, from field k, which begins at start. */
  function Pending(line: seq<Byte>, start: nat, d: seq<Byte>, k: int, rs: seq<Range>): seq<seq<Byte>>
    requires d != [] && start <= |line|
  {
    Chosen(Fields(line[start..], d), k, rs)
  }

  lemma FieldsStep(line: seq<Byte>, start: nat, d: seq<Byte>)
    requires d != [] && start <= |line|
    ensures var n := NextAt(line, start, d);
            Fields(line[start..], d) == [FieldAt(line, start, d)] + if n < 0 then [] else Fields(line[n..], d)
  {
    hide Index;
    var s := line[start..];
    var r := Index(s, d);
    if r >= 0 {
      assert s[..r] == line[start..start + r];
      assert s[r + |d|..] == line[start + r + |d|..];
    } else {
      assert [s] + [] == [s];
    }
  }

  /** One field: pending if it is selected, then those after it. */
  lemma PendingStep(line: seq<Byte>, start: nat, d: seq<Byte>, k: int, rs: seq<Range>)
    requires d != [] && start <= |line|
    ensures var n := NextAt(line, start, d);
            Pending(line, start, d, k, rs) ==
            (if Covers(rs, k) then [FieldAt(line, start, d)] else []) + if n < 0 then [] else Pending(line, n, d, k + 1, rs)
  {
    hide Covers, Chosen, Fields, NextAt, FieldAt;
    FieldsStep(line, start, d);
    var n := NextAt(line, start, d);
    ChosenCons(FieldAt(line, start, d), if n < 0 then [] else Fields(line[n..], d), k, rs);
    NothingChosen(k + 1, rs);
  }

  lemma NothingChosen(k: int, rs: seq<Range>)
    ensures Chosen([], k, rs) == []
  {
  }

  lemma NonePending(line: seq<Byte>, start: nat, d: seq<Byte>, k: int, rs: seq<Range>)
    requires d != [] && start <= |line| && forall j | 0 <= j < |rs| :: rs[j].hi < k
    ensures Pending(line, start, d, k, rs) == []
  {
    NoneChosen(Fields(line[start..], d), k, rs);
  }

  /** One more part, after a delimiter unless it is the first. */
  lemma {:induction false} RestAppend(parts: seq<seq<Byte>>, f: seq<Byte>, first: bool, d: seq<Byte>)
    ensures Rest(parts + [f], first, d) == Rest(parts, first, d) + (if first && parts == [] then [] else d) + f
  {
    if parts == [] {
      assert parts + [f] == [f] + [];
      RestCons(f, [], first, d);
    } else {
      var more := parts[1..];
      assert parts + [f] == [parts[0]] + (more + [f]);
      RestAppend(more, f, false, d);
      RestCons(parts[0], more + [f], first, d);
      assert parts == [parts[0]] + more;
      RestCons(parts[0], more, first, d);
    }
  }

  lemma JoinedAppend(parts: seq<seq<Byte>>, f: seq<Byte>, d: seq<Byte>)
    ensures Joined(parts + [f], d) == Joined(parts, d) + (if parts == [] then [] else d) + f
  {
    RestAppend(parts, f, true, d);
  }

  /** Ranges before p end before k. */
  ghost predicate Behind(rs: seq<Range>, p: nat, k: int) {
    p <= |rs| && forall j | 0 <= j < p :: rs[j].hi < k
  }

  /** From a field before range p on to the range's first field, or to the end of the line. */
  method SkipFields(line: seq<Byte>, start: nat, field: int, rs: seq<Range>, p: nat, d: seq<Byte>)
    returns (start': nat, field': int, found: bool)
    requires d != [] && start <= |line| && p < |rs| && Ascending(rs) && Behind(rs, p, field)
    requires field <= rs[p].lo <= rs[p].hi
    ensures start <= start' <= |line| && Behind(rs, p, field')
    ensures !found ==> Pending(line, start, d, field, rs) == []
    ensures found ==> rs[p].lo == field' && Pending(line, start', d, field', rs) == Pending(line, start, d, field, rs)
  {
    hide Pending, Covers, Index, FieldAt;
    start', field' := start, field;
    while field' < rs[p].lo
      invariant start <= start' <= |line| && Behind(rs, p, field') && field' <= rs[p].lo
      invariant Pending(line, start', d, field', rs) == Pending(line, start, d, field, rs)
    {
      CoveredHere(rs, p, field');
      PendingStep(line, start', d, field', rs);
      var rel := Index(line[start'..], d);
      if rel < 0 {
        return start', field', false;
      }
      start' := start' + rel + |d|;
      field' := field' + 1;
      assert [] + Pending(line, start', d, field', rs) == Pending(line, start', d, field', rs);
    }
    found := true;
  }

  /** The scanner prints the selected fields with output delimiters between them, for any
      ranges in order of their lower ends. */
  method ScanFields(line: seq<Byte>, rs: seq<Range>, d: seq<Byte>, od: seq<Byte>) returns (scratch: seq<Byte>)
    requires d != [] && Ascending(rs) && AllProper(rs)
    ensures scratch == Joined(Chosen(Fields(line, d), 1, rs), od)
  {
    hide Pending, Covers, Index, Chosen, Fields, Joined, Ascending, Behind;
    scratch := [];
    var first := true;
    var field, start: nat, pairIdx: nat := 1, 0, 0;
    ghost var parts: seq<seq<Byte>> := [];
    ghost var all := Chosen(Fields(line, d), 1, rs);
    ScanStart(line, rs, d, od);
    while true
      invariant start <= |line| && Behind(rs, pairIdx, field)
      invariant parts + Pending(line, start, d, field, rs) == all
      invariant scratch == Joined(parts, od) && (first <==> parts == [])
      decreases |line| - start
    {
      pairIdx := SkipRanges(rs, pairIdx, field);
      if pairIdx >= |rs| {
        BehindAll(rs, pairIdx, field);
        NonePending(line, start, d, field, rs);
        break;
      }
      if field < rs[pairIdx].lo {
        var start', field', found := SkipFields(line, start, field, rs, pairIdx, d);
        if !found {
          break;
        }
        start, field := start', field';
      }
      CoveredByRange(rs, pairIdx, field);
      PendingStep(line, start, d, field, rs);
      var rel := Index(line[start..], d);
      var end := if rel >= 0 then start + rel else |line|;
      ghost var f := FieldAt(line, start, d);
      assert line[start..end] == f;
      JoinedAppend(parts, f, od);
      if !first {
        scratch := scratch + od;
      }
      scratch := scratch + line[start..end];
      first := false;
      parts := parts + [f];
      if rel < 0 {
        break;
      }
      BehindMore(rs, pairIdx, field);
      field := field + 1;
      start := end + |d|;
    }
    assert parts == all;
  }

  lemma ScanStart(line: seq<Byte>, rs: seq<Range>, d: seq<Byte>, od: seq<Byte>)
    requires d != []
    ensures Behind(rs, 0, 1) && Joined([], od) == []
    ensures [] + Pending(line, 0, d, 1, rs) == Chosen(Fields(line, d), 1, rs)
  {
    assert line[0..] == line;
  }

  lemma BehindMore(rs: seq<Range>, p: nat, k: int)
    requires Behind(rs, p, k)
    ensures Behind(rs, p, k + 1)
  {
  }

  lemma BehindAll(rs: seq<Range>, p: nat, k: int)
    requires Behind(rs, p, k) && p >= |rs|
    ensures forall j | 0 <= j < |rs| :: rs[j].hi < k
  {
  }

  lemma CoveredByRange(rs: seq<Range>, p: nat, k: int)
    requires p < |rs| && rs[p].lo <= k <= rs[p].hi
    ensures Covers(rs, k)
  {
  }

  method SkipRanges(rs: seq<Range>, p: nat, field: int) returns (p': nat)
    requires Behind(rs, p, field)
    ensures Behind(rs, p', field) && (p' < |rs| ==> field <= rs[p'].hi)
  {
    p' := p;
    while p' < |rs| && field > rs[p'].hi
      invariant Behind(rs, p', field)
    {
      p' := p' + 1;
    }
  }
}
