/** Splitting a file into lines and interning each line's comparison key. */
module Lines {

  // ---------------------------------------------------------------------
  // Text and lines

  predicate OneLine(s: string) {
    '\n' !in s
  }

  ghost predicate OneLiners(lines: seq<string>) {
    forall i | 0 <= i < |lines| :: OneLine(lines[i])
  }

  /** What strings.Split(s, "\n") returns. */
  function Split(s: string): (lines: seq<string>)
    ensures lines != []
  {
    if s == [] then [[]]
    else if s[0] == '\n' then [[]] + Split(s[1..])
    else
      var rest := Split(s[1..]);
      [[s[0]] + rest[0]] + rest[1..]
  }

  function Join(lines: seq<string>): string
    requires lines != []
  {
    if |lines| == 1 then lines[0] else lines[0] + "\n" + Join(lines[1..])
  }

  lemma {:induction false} JoinSplit(s: string)
    ensures Join(Split(s)) == s
    ensures forall i | 0 <= i < |Split(s)| :: OneLine(Split(s)[i])
  {
    if s == [] {
    } else {
      JoinSplit(s[1..]);
      var rest := Split(s[1..]);
      if s[0] == '\n' {
        assert Split(s)[1..] == rest;
      } else if |rest| > 1 {
        assert Split(s)[1..] == rest[1..];
      }
    }
  }

  lemma {:induction false} SplitJoin(lines: seq<string>)
    requires lines != [] && forall i | 0 <= i < |lines| :: OneLine(lines[i])
    ensures Split(Join(lines)) == lines
    decreases |lines|, |lines[0]|
  {
    var s := Join(lines);
    if lines[0] == [] {
      if |lines| > 1 {
        SplitJoin(lines[1..]);
        assert s[0] == '\n' && s[1..] == Join(lines[1..]);
      }
    } else {
      assert s[0] == lines[0][0] && s[0] in lines[0];
      var lines' := [lines[0][1..]] + lines[1..];
      assert lines'[1..] == lines[1..];
      assert s[1..] == Join(lines');
      SplitJoin(lines');
      assert [s[0]] + lines[0][1..] == lines[0];
      assert [[s[0]] + lines'[0]] + lines'[1..] == [lines[0]] + lines[1..] == lines;
    }
  }

  /** Every line with its newline, as Fprintln writes them. */
  function Unlines(lines: seq<string>): string {
    if lines == [] then [] else lines[0] + "\n" + Unlines(lines[1..])
  }

  lemma {:induction false} UnlinesConcat(p: seq<string>, q: seq<string>)
    ensures Unlines(p + q) == Unlines(p) + Unlines(q)
  {
    if p == [] {
      assert p + q == q;
    } else {
      assert (p + q)[1..] == p[1..] + q;
      UnlinesConcat(p[1..], q);
    }
  }

  lemma {:induction false} UnlinesIsJoin(lines: seq<string>)
    requires lines != []
    ensures Unlines(lines) == Join(lines) + "\n"
  {
    if |lines| > 1 {
      UnlinesIsJoin(lines[1..]);
    }
  }

  /** The lines of a text whose last line is terminated. */
  function TerminatedLines(s: string): seq<string> {
    if s == [] then [] else var l := Split(s); l[..|l| - 1]
  }

  /** Reading back what was written line by line. */
  lemma TerminatedLinesOf(lines: seq<string>)
    requires forall i | 0 <= i < |lines| :: OneLine(lines[i])
    ensures TerminatedLines(Unlines(lines)) == lines
  {
    if lines != [] {
      UnlinesIsJoin(lines);
      var l := lines + [[]];
      JoinWithEmptyLast(lines);
      SplitJoin(l);
    }
  }

  lemma {:induction false} JoinWithEmptyLast(lines: seq<string>)
    requires lines != []
    ensures Join(lines + [[]]) == Join(lines) + "\n"
  {
    assert (lines + [[]])[1..] == lines[1..] + [[]];
    if |lines| > 1 {
      JoinWithEmptyLast(lines[1..]);
    }
  }

  /** Where the emitters write, one terminated line at a time. */
  class Sink {
    var lines: seq<string>

    constructor ()
      ensures lines == []
    {
      lines := [];
    }

    method Println(line: string)
      modifies this
      ensures lines == old(lines) + [line]
    {
      lines := lines + [line];
    }

    /** The bytes written. */
    function Text(): string
      reads this
    {
      Unlines(lines)
    }
  }

  // ---------------------------------------------------------------------
  // Preparing one side of a comparison

  /** One side: its lines, their interned keys, and whether the last line lacks its
      newline. */
  datatype Side = Side(lines: seq<string>, keys: seq<int>, noEOL: bool)

  /** The file those lines came from. */
  function FileText(lines: seq<string>, noEOL: bool): string {
    if lines == [] then [] else if noEOL then Join(lines) else Unlines(lines)
  }

  /** Ids are handed out in order of first appearance, one per key. */
  ghost predicate Interned(intern: map<string, int>) {
    && (forall k | k in intern :: 0 <= intern[k] < |intern|)
    && (forall k, k' | k in intern && k' in intern && intern[k] == intern[k'] :: k == k')
  }

  /** The comparison key of line i: a missing final newline counts as part of it
      when `fold` is set. */
  function KeyText(canon: string -> string, fold: bool, lines: seq<string>, noEOL: bool, i: nat): string
    requires i < |lines|
  {
    canon(lines[i]) + if noEOL && i == |lines| - 1 && fold then "\0" else ""
  }

  ghost predicate KeyedBy(canon: string -> string, fold: bool, s: Side, intern: map<string, int>) {
    && |s.keys| == |s.lines|
    && forall i | 0 <= i < |s.lines| ::
         var k := KeyText(canon, fold, s.lines, s.noEOL, i);
         k in intern && s.keys[i] == intern[k]
  }

  ghost predicate Extends(intern: map<string, int>, intern': map<string, int>) {
    forall k | k in intern :: k in intern' && intern'[k] == intern[k]
  }

  lemma InternFresh(intern: map<string, int>, k: string)
    requires Interned(intern) && k !in intern
    ensures Interned(intern[k := |intern|]) && Extends(intern, intern[k := |intern|])
  {
    assert |intern[k := |intern|]| == |intern| + 1;
  }

  /** The first n lines have their keys. */
  ghost predicate KeyedUpTo(canon: string -> string, fold: bool, s: Side, n: nat, intern: map<string, int>) {
    && |s.keys| == n <= |s.lines|
    && forall i | 0 <= i < n ::
         var k := KeyText(canon, fold, s.lines, s.noEOL, i);
         k in intern && s.keys[i] == intern[k]
  }

  lemma KeyNext(canon: string -> string, fold: bool, s: Side, n: nat, intern: map<string, int>, intern': map<string, int>)
    requires KeyedUpTo(canon, fold, s, n, intern) && n < |s.lines| && Extends(intern, intern')
    requires KeyText(canon, fold, s.lines, s.noEOL, n) in intern'
    ensures KeyedUpTo(canon, fold, s.(keys := s.keys + [intern'[KeyText(canon, fold, s.lines, s.noEOL, n)]]), n + 1, intern')
  {
    hide KeyText;
  }

  lemma ExtendsMore(a: map<string, int>, b: map<string, int>, c: map<string, int>)
    requires Extends(a, b) && Extends(b, c)
    ensures Extends(a, c)
  {
  }

  /** Splitting what stands before the final newline, if there is one. */
  lemma PreparedLines(data: string, d: string, noEOL: bool)
    requires data != [] && (if noEOL then d == data else data == d + "\n")
    ensures Split(d) != [] && FileText(Split(d), noEOL) == data
    ensures forall i | 0 <= i < |Split(d)| :: OneLine(Split(d)[i])
  {
    hide Split, Join, Unlines;
    JoinSplit(d);
    UnlinesIsJoin(Split(d));
  }

  method Prep(data: string, canon: string -> string, fold: bool, intern: map<string, int>)
      returns (s: Side, intern': map<string, int>)
    requires Interned(intern)
    ensures Interned(intern') && Extends(intern, intern') && KeyedBy(canon, fold, s, intern')
    ensures FileText(s.lines, s.noEOL) == data
    ensures forall i | 0 <= i < |s.lines| :: OneLine(s.lines[i])
    ensures s.noEOL <==> data != [] && data[|data| - 1] != '\n'
  {
    intern' := intern;
    ExtendsSelf(intern);
    if |data| == 0 {
      return Side([], [], false), intern';
    }
    var d := data;
    var noEOL := false;
    if d[|d| - 1] == '\n' {
      d := d[..|d| - 1];
    } else {
      noEOL := true;
    }
    assert noEOL || data == d + "\n";
    PreparedLines(data, d, noEOL);
    hide Split, FileText, OneLine, Interned, KeyText, Extends;
    s := Side(Split(d), [], noEOL);
    for i := 0 to |s.lines|
      invariant s.lines == Split(d) && s.noEOL == noEOL && KeyedUpTo(canon, fold, s, i, intern')
      invariant Interned(intern') && Extends(intern, intern')
    {
      var k := KeyText(canon, fold, s.lines, noEOL, i);
      ghost var before := intern';
      ExtendsSelf(before);
      if k !in intern' {
        InternFresh(intern', k);
        intern' := intern'[k := |intern'|];
      }
      ExtendsMore(intern, before, intern');
      KeyNext(canon, fold, s, i, before, intern');
      s := s.(keys := s.keys + [intern'[k]]);
    }
  }

  lemma ExtendsSelf(a: map<string, int>)
    ensures Extends(a, a)
  {
  }

  // ---------------------------------------------------------------------
  // Exact comparison

  function Exactly(s: string): string { s }

  /** A line together with whether it is an unterminated last line. */
  function Tagged(lines: seq<string>, noEOL: bool): (r: seq<(string, bool)>)
    ensures |r| == |lines|
  {
    seq(|lines|, i requires 0 <= i < |lines| => (lines[i], noEOL && i == |lines| - 1))
  }

  ghost predicate NulFree(lines: seq<string>) {
    forall i | 0 <= i < |lines| :: '\0' !in lines[i]
  }

  /** Under exact comparison two lines have the same key exactly when they have the
      same bytes and agree on a missing newline. */
  lemma SameKeySameLine(s: Side, t: Side, intern: map<string, int>, i: nat, j: nat)
    requires Interned(intern) && KeyedBy(Exactly, true, s, intern) && KeyedBy(Exactly, true, t, intern)
    requires NulFree(s.lines) && NulFree(t.lines) && i < |s.lines| && j < |t.lines|
    ensures s.keys[i] == t.keys[j] <==> Tagged(s.lines, s.noEOL)[i] == Tagged(t.lines, t.noEOL)[j]
  {
    var k, k' := KeyText(Exactly, true, s.lines, s.noEOL, i), KeyText(Exactly, true, t.lines, t.noEOL, j);
    var l, l' := s.lines[i], t.lines[j];
    assert k == l || (k == l + "\0" && k[|l|] == '\0' && k[..|l|] == l);
    assert k' == l' || (k' == l' + "\0" && k'[|l'|] == '\0' && k'[..|l'|] == l');
    assert '\0' in k <==> k != l;
    assert '\0' in k' <==> k' != l';
  }
}
