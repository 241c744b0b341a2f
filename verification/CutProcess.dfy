/** cut on a stream: byte selection, a line's output, and the refill buffer that finds the
    lines whatever the reads return. */
module CutProcess {
  import opened Common
  import opened Int64
  import opened Streams
  import opened CutList
  import opened CutRanges
  import opened CutLines

  // ---------------------------------------------------------------------
  // Byte mode

  function Least(a: int, b: int): int {
    if a < b then a else b
  }

  /** What byte mode prints for each range that begins in the line. */
  function Pieces(rs: seq<Range>, line: seq<Byte>): seq<seq<Byte>>
    requires Shaped(rs)
  {
    if rs == [] || rs[0].lo > |line| then []
    else [line[rs[0].lo - 1..Least(rs[0].hi, |line|)]] + Pieces(rs[1..], line)
  }

  /** The selected bytes of s, whose first has position k. */
  function Picked(s: seq<Byte>, k: int, rs: seq<Range>): seq<Byte> {
    if s == [] then [] else (if Covers(rs, k) then [s[0]] else []) + Picked(s[1..], k + 1, rs)
  }

  lemma {:induction false} PickedSplit(s: seq<Byte>, t: seq<Byte>, k: int, rs: seq<Range>)
    ensures Picked(s + t, k, rs) == Picked(s, k, rs) + Picked(t, k + |s|, rs)
    decreases |s|
  {
    hide Covers;
    if s == [] {
      assert s + t == t;
    } else {
      assert (s + t)[1..] == s[1..] + t;
      PickedSplit(s[1..], t, k + 1, rs);
    }
  }

  lemma {:induction false} PickedAll(s: seq<Byte>, k: int, rs: seq<Range>)
    requires forall j | k <= j < k + |s| :: Covers(rs, j)
    ensures Picked(s, k, rs) == s
    decreases |s|
  {
    hide Covers;
    if s != [] {
      PickedAll(s[1..], k + 1, rs);
    }
  }

  lemma {:induction false} PickedNone(s: seq<Byte>, k: int, rs: seq<Range>)
    requires forall j | k <= j < k + |s| :: !Covers(rs, j)
    ensures Picked(s, k, rs) == []
    decreases |s|
  {
    hide Covers;
    if s != [] {
      PickedNone(s[1..], k + 1, rs);
    }
  }

  lemma {:induction false} PickedSame(s: seq<Byte>, k: int, rs: seq<Range>, rs': seq<Range>)
    requires forall j | k <= j < k + |s| :: Covers(rs, j) <==> Covers(rs', j)
    ensures Picked(s, k, rs) == Picked(s, k, rs')
    decreases |s|
  {
    hide Covers;
    if s != [] {
      PickedSame(s[1..], k + 1, rs, rs');
    }
  }

  /** No range begins in the line after an open one. */
  predicate NoneLate(rs: seq<Range>, n: nat) {
    |rs| <= 1 || ((rs[0].hi == MAX_INT ==> rs[1].lo > n) && NoneLate(rs[1..], n))
  }

  /** Past positions k - 1 the selected bytes are a gap, the first range, and the rest. */
  lemma PickedFirst(rs: seq<Range>, line: seq<Byte>, k: int)
    requires Shaped(rs) && rs != [] && 1 <= k <= rs[0].lo <= |line|
    ensures var e := Least(rs[0].hi, |line|);
            Picked(line[k - 1..], k, rs) == line[rs[0].lo - 1..e] + Picked(line[e..], e + 1, rs[1..])
  {
    var p := rs[0];
    var e := Least(p.hi, |line|);
    var gap, mid, rest := line[k - 1..p.lo - 1], line[p.lo - 1..e], line[e..];
    CoverParts(rs);
    hide Covers, Shaped, Picked;
    Stretches(line, k - 1, p.lo - 1, e);
    PickedSplit(gap, mid + rest, k, rs);
    PickedSplit(mid, rest, p.lo, rs);
    PickedNone(gap, k, rs);
    PickedAll(mid, p.lo, rs);
    PickedSame(rest, e + 1, rs, rs[1..]);
  }

  lemma Stretches(line: seq<Byte>, i: nat, j: nat, k: nat)
    requires i <= j <= k <= |line|
    ensures line[i..] == line[i..j] + (line[j..k] + line[k..])
  {
  }

  /** Below the first range nothing is selected, in it everything, above it what the others
      select. */
  lemma CoverParts(rs: seq<Range>)
    requires Shaped(rs) && rs != []
    ensures forall j :: j < rs[0].lo ==> !Covers(rs, j)
    ensures forall j :: In(rs[0], j) ==> Covers(rs, j)
    ensures forall j :: j > rs[0].hi ==> (Covers(rs, j) <==> Covers(rs[1..], j))
  {
    var p := rs[0];
    assert rs == [p] + rs[1..];
    forall j ensures Covers(rs, j) <==> In(p, j) || Covers(rs[1..], j) { CoversCons(p, rs[1..], j); }
    forall j | j < p.lo ensures !Covers(rs, j) { CoversAbove(rs, p.lo, j); }
  }

  lemma {:induction false} NoneLateBeyond(rs: seq<Range>, n: nat)
    requires Shaped(rs) && (rs != [] ==> rs[0].lo > n)
    ensures NoneLate(rs, n)
  {
    if |rs| > 1 {
      NoneLateBeyond(rs[1..], n);
    }
  }

  lemma PiecesEmptyIff(rs: seq<Range>, line: seq<Byte>)
    requires Shaped(rs)
    ensures Concat(Pieces(rs, line)) == [] <==> rs == [] || rs[0].lo > |line|
  {
  }

  lemma {:induction false} PiecesIff(rs: seq<Range>, line: seq<Byte>, k: int)
    requires Shaped(rs) && |line| <= MAX_INT && 1 <= k <= |line| + 1 && (rs != [] ==> k <= rs[0].lo)
    ensures Concat(Pieces(rs, line)) == Picked(line[k - 1..], k, rs) <==> NoneLate(rs, |line|)
    decreases |rs|
  {
    hide Covers, Picked;
    if rs == [] || rs[0].lo > |line| {
      forall j | k <= j < |line| + 1 ensures !Covers(rs, j) { CoversAbove(rs, |line| + 1, j); }
      PickedNone(line[k - 1..], k, rs);
      NoneLateBeyond(rs, |line|);
    } else {
      var p, e := rs[0], Least(rs[0].hi, |line|);
      var mid, more := line[p.lo - 1..e], Pieces(rs[1..], line);
      PickedFirst(rs, line, k);
      assert ([mid] + more)[1..] == more;
      assert Concat(Pieces(rs, line)) == mid + Concat(more);
      if p.hi == MAX_INT {
        PickedNone(line[e..], e + 1, rs[1..]);
        PiecesEmptyIff(rs[1..], line);
        if |rs| > 1 && rs[1].lo > |line| {
          NoneLateBeyond(rs[1..], |line|);
        }
        SamePrefix(mid, Concat(more), []);
      } else {
        PiecesIff(rs[1..], line, e + 1);
        SamePrefix(mid, Concat(more), Picked(line[e..], e + 1, rs[1..]));
      }
    }
  }

  lemma SamePrefix(a: seq<Byte>, b: seq<Byte>, c: seq<Byte>)
    ensures a + b == a + c <==> b == c
  {
    if a + b == a + c {
      assert b == (a + b)[|a|..] && c == (a + c)[|a|..];
    }
  }

  /** Byte mode prints the selected bytes, each once and in order, exactly when no range
      begins in the line after an open one. */
  lemma ByteModeIff(rs: seq<Range>, line: seq<Byte>)
    requires Shaped(rs) && |line| <= MAX_INT
    ensures Concat(Pieces(rs, line)) == Picked(line, 1, rs) <==> NoneLate(rs, |line|)
  {
    assert line[0..] == line;
    PiecesIff(rs, line, 1);
  }

  /** In particular for separated ranges, on every line. */
  lemma {:induction false} SeparatedIsNotLate(rs: seq<Range>, n: nat)
    requires Shaped(rs) && Separated(rs)
    ensures NoneLate(rs, n)
  {
    if |rs| > 1 {
      SeparatedIsNotLate(rs[1..], n);
    }
  }

  /** cut -b 2-,4 prints the fourth byte twice. */
  lemma OpenRangePrintsTwice()
    ensures Concat(Pieces([Range(2, MAX_INT), Range(4, 4)], [97, 98, 99, 100])) == [98, 99, 100, 100]
  {
    var rs, line: seq<Byte> := [Range(2, MAX_INT), Range(4, 4)], [97, 98, 99, 100];
    assert rs[1..] == [Range(4, 4)] && rs[1..][1..] == [];
    assert line[3..4] == [100] && line[1..4] == [98, 99, 100];
    assert Pieces(rs[1..], line) == [[100]] + [];
    assert Pieces(rs, line) == [[98, 99, 100]] + [[100]];
    assert Concat([[100]][1..]) == [];
    assert ([[98, 99, 100]] + [[100]])[1..] == [[100]];
  }

  method ScanBytes(line: seq<Byte>, rs: seq<Range>, od: seq<Byte>, hasOutDelim: bool) returns (scratch: seq<Byte>)
    requires Shaped(rs)
    ensures scratch == Joined(Pieces(rs, line), if hasOutDelim then od else [])
  {
    hide *;
    ghost var d := if hasOutDelim then od else [];
    ghost var parts: seq<seq<Byte>> := [];
    ghost var all := Pieces(rs, line);
    NothingJoined(d);
    scratch := [];
    var printDelim := false;
    assert rs[0..] == rs && parts + all == all;
    for i := 0 to |rs|
      invariant Shaped(rs[i..]) && parts + Pieces(rs[i..], line) == all
      invariant scratch == Joined(parts, d) && (printDelim <==> hasOutDelim && parts != [])
    {
      PiecesStep(rs, i, line);
      var p := rs[i];
      if p.lo > |line| {
        assert parts + [] == parts;
        return;
      }
      var end := p.hi;
      if end > |line| {
        end := |line|;
      }
      JoinedAppend(parts, line[p.lo - 1..end], d);
      if printDelim {
        scratch := scratch + od;
      } else if hasOutDelim {
        printDelim := true;
      }
      scratch := scratch + line[p.lo - 1..end];
      parts := parts + [line[p.lo - 1..end]];
    }
    NoPieces(line);
    assert rs[|rs|..] == [] && parts + [] == parts;
  }

  lemma NothingJoined(d: seq<Byte>)
    ensures Joined([], d) == []
  {
  }

  lemma NoPieces(line: seq<Byte>)
    ensures Shaped([]) && Pieces([], line) == []
  {
  }

  lemma PiecesStep(rs: seq<Range>, i: nat, line: seq<Byte>)
    requires i < |rs| && Shaped(rs[i..])
    ensures 1 <= rs[i].lo <= rs[i].hi && Shaped(rs[i + 1..])
    ensures Pieces(rs[i..], line) ==
            if rs[i].lo > |line| then []
            else [line[rs[i].lo - 1..if rs[i].hi > |line| then |line| else rs[i].hi]] + Pieces(rs[i + 1..], line)
  {
    hide Shaped, Pieces;
    assert rs[i..][0] == rs[i] && rs[i..][1..] == rs[i + 1..];
    PiecesCons(rs[i..], line);
  }

  lemma PiecesCons(t: seq<Range>, line: seq<Byte>)
    requires t != [] && Shaped(t)
    ensures Proper(t[0]) && Shaped(t[1..])
    ensures Pieces(t, line) ==
            if t[0].lo > |line| then [] else [line[t[0].lo - 1..Least(t[0].hi, |line|)]] + Pieces(t[1..], line)
  {
  }

  // ---------------------------------------------------------------------
  // A line's output

  datatype Mode = FieldMode | ByteMode

  datatype Options = Options(rs: seq<Range>, mode: Mode, delim: seq<Byte>, od: seq<Byte>, hasOutDelim: bool,
                             onlyDelimited: bool, term: Byte)

  predicate Usable(o: Options) {
    Shaped(o.rs) && o.delim != []
  }

  /** What a line comes to, with its terminator if it had one. */
  function LineOutput(o: Options, line: seq<Byte>, hadTerm: bool): seq<Byte>
    requires Usable(o)
  {
    var end := if hadTerm then [o.term] else [];
    match o.mode
    case ByteMode => Joined(Pieces(o.rs, line), if o.hasOutDelim then o.od else []) + end
    case FieldMode =>
      if Index(line, o.delim) >= 0 then Joined(Chosen(Fields(line, o.delim), 1, o.rs), o.od) + end
      else if o.onlyDelimited then []
      else line + end
  }

  method EmitLine(o: Options, line: seq<Byte>, hadTerm: bool) returns (out: seq<Byte>)
    requires Usable(o)
    ensures out == LineOutput(o, line, hadTerm)
  {
    hide Joined, Pieces, Chosen, Fields, Index, Shaped;
    out := [];
    var scratch: seq<Byte> := [];
    if o.mode == FieldMode {
      if Index(line, o.delim) < 0 {
        if o.onlyDelimited {
          return;
        }
        scratch := line;
      } else {
        ShapedAscending(o.rs);
        ShapedProper(o.rs);
        scratch := ScanFields(line, o.rs, o.delim, o.od);
      }
    } else {
      scratch := ScanBytes(line, o.rs, o.od, o.hasOutDelim);
    }
    if hadTerm {
      scratch := scratch + [o.term];
    }
    if |scratch| > 0 {
      out := scratch;
    }
  }

  // ---------------------------------------------------------------------
  // A stream's output

  /** The terminated lines of an input, then an unterminated rest if the input ended well. */
  function CutAll(o: Options, s: seq<Byte>, eof: bool): seq<Byte>
    requires Usable(o)
    decreases |s|
  {
    var i := IndexByte(s, o.term);
    if i >= 0 then LineOutput(o, s[..i], true) + CutAll(o, s[i + 1..], eof)
    else if eof && s != [] then LineOutput(o, s, false)
    else []
  }

  /** The first line of a text, wherever the text is cut. */
  lemma FirstLine(o: Options, s: seq<Byte>, future: seq<Byte>, eof: bool)
    requires Usable(o) && o.term in s
    ensures var i := IndexByte(s, o.term);
            CutAll(o, s + future, eof) == LineOutput(o, s[..i], true) + CutAll(o, s[i + 1..] + future, eof)
  {
    hide *;
    var i := IndexByte(s, o.term);
    CutInPieces(s, future, i);
    FirstByte(s + future, o.term, i);
    CutFirst(o, s + future, eof);
  }

  lemma CutInPieces(s: seq<Byte>, t: seq<Byte>, i: nat)
    requires i < |s|
    ensures (s + t)[i] == s[i] && (s + t)[..i] == s[..i] && (s + t)[i + 1..] == s[i + 1..] + t
  {
  }

  lemma CutFirst(o: Options, s: seq<Byte>, eof: bool)
    requires Usable(o) && IndexByte(s, o.term) >= 0
    ensures var i := IndexByte(s, o.term);
            CutAll(o, s, eof) == LineOutput(o, s[..i], true) + CutAll(o, s[i + 1..], eof)
  {
    hide LineOutput, IndexByte;
  }

  lemma FirstByte(s: seq<Byte>, c: Byte, i: nat)
    requires i < |s| && s[i] == c && c !in s[..i]
    ensures IndexByte(s, c) == i
  {
  }

  /** Print every terminated line of the buffer. */
  method Drain(o: Options, buf: array<Byte>, head: nat, tail: nat, ghost future: seq<Byte>, ghost eof: bool)
    returns (head': nat, out: seq<Byte>)
    requires Usable(o) && head <= tail <= buf.Length
    ensures head <= head' <= tail && o.term !in buf[head'..tail]
    ensures out + CutAll(o, buf[head'..tail] + future, eof) == CutAll(o, buf[head..tail] + future, eof)
  {
    hide CutAll, LineOutput, IndexByte, Usable;
    out, head' := [], head;
    while true
      invariant head <= head' <= tail
      invariant out + CutAll(o, buf[head'..tail] + future, eof) == CutAll(o, buf[head..tail] + future, eof)
      decreases tail - head'
    {
      ghost var window := buf[head'..tail];
      var idx := IndexByte(buf[head'..tail], o.term);
      if idx < 0 {
        break;
      }
      FirstLine(o, window, future, eof);
      assert window[..idx] == buf[head'..head' + idx];
      assert window[idx + 1..] == buf[head' + idx + 1..tail];
      var line := EmitLine(o, buf[head'..head' + idx], true);
      out := out + line;
      head' := head' + idx + 1;
    }
  }

  /** Move the window to the front of the buffer. */
  method Slide(buf: array<Byte>, head: nat, tail: nat)
    requires head <= tail <= buf.Length
    modifies buf
    ensures buf[..tail - head] == old(buf[head..tail])
  {
    for k := 0 to tail - head
      invariant buf[..k] == old(buf[head..head + k])
      invariant buf[head + k..] == old(buf[head + k..])
    {
      assert buf[head + k] == buf[head + k..][0] == old(buf[head + k]);
      ghost var done := buf[..k];
      ghost var later := buf[head + k..][1..];
      buf[k] := buf[head + k];
      assert buf[..k + 1] == done + [old(buf[head + k])];
      assert buf[head + k + 1..] == later;
    }
  }

  method Grown(buf: array<Byte>) returns (bigger: array<Byte>)
    ensures fresh(bigger) && bigger.Length == 2 * buf.Length && bigger[..buf.Length] == buf[..]
  {
    bigger := new Byte[2 * buf.Length](i requires 0 <= i < 2 * buf.Length reads buf => if i < buf.Length then buf[i] else 0);
  }

  method Fill(buf: array<Byte>, tail: nat, p: seq<Byte>)
    requires tail + |p| <= buf.Length
    modifies buf
    ensures buf[..tail] == old(buf[..tail]) && buf[tail..tail + |p|] == p
  {
    forall i | 0 <= i < |p| {
      buf[tail + i] := p[i];
    }
  }

  class Cutter {
    var buf: array<Byte>

    constructor ()
      ensures buf.Length > 0 && fresh(buf)
    {
      buf := new Byte[4096](_ => 0);
    }

    /** Room for at least one byte after the window. */
    method MakeRoom(head: nat, tail: nat) returns (head': nat, tail': nat)
      requires head <= tail <= buf.Length && buf.Length > 0
      modifies this, buf
      ensures buf == old(buf) || fresh(buf)
      ensures head' <= tail' < buf.Length && buf[head'..tail'] == old(buf[head..tail])
    {
      head', tail' := head, tail;
      if tail == buf.Length {
        if head > 0 {
          Slide(buf, head, tail);
          head', tail' := 0, tail - head;
        } else {
          var bigger := Grown(buf);
          assert bigger[head..tail] == bigger[..buf.Length][head..tail] == buf[head..tail];
          buf := bigger;
        }
      }
    }

    /** One read into the buffer, after making room. */
    method Refill(r: Reader, head: nat, tail: nat) returns (head': nat, tail': nat, end: bool)
      requires head <= tail <= buf.Length && buf.Length > 0
      modifies this, buf, r
      ensures buf == old(buf) || fresh(buf)
      ensures head' <= tail' <= buf.Length && buf.Length > 0
      ensures buf[head'..tail'] + Concat(r.chunks) == old(buf[head..tail] + Concat(r.chunks))
      ensures end ==> Concat(r.chunks) == []
      ensures !end ==> |Concat(r.chunks)| + |r.chunks| < old(|Concat(r.chunks)| + |r.chunks|)
    {
      hide *;
      head', tail' := MakeRoom(head, tail);
      ghost var window, before := buf[head'..tail'], Concat(r.chunks);
      var p: seq<Byte>;
      p, end := r.Read(buf.Length - tail');
      Fill(buf, tail', p);
      WindowGrows(buf[..], head', tail', window, p);
      tail' := tail' + |p|;
      assert window + p + Concat(r.chunks) == window + before;
    }

    /** The output is that of the whole input, however the reads cut it up; after a read
        error it is that of the terminated lines. */
    method Process(o: Options, r: Reader) returns (out: seq<Byte>, ok: bool)
      requires Usable(o) && buf.Length > 0
      modifies this, buf, r
      ensures buf.Length > 0 && (buf == old(buf) || fresh(buf))
      ensures ok == !r.fails && out == CutAll(o, old(Concat(r.chunks)), ok)
    {
      hide *;
      ghost var eof := !r.fails;
      ghost var all := CutAll(o, Concat(r.chunks), eof);
      out := [];
      var head: nat, tail: nat := 0, 0;
      assert buf[0..0] + Concat(r.chunks) == Concat(r.chunks);
      while true
        invariant head <= tail <= buf.Length && buf.Length > 0 && (buf == old(buf) || fresh(buf))
        invariant out + CutAll(o, buf[head..tail] + Concat(r.chunks), eof) == all
        decreases |Concat(r.chunks)| + |r.chunks|
      {
        var end;
        head, tail, end := Refill(r, head, tail);
        var head', lines := Drain(o, buf, head, tail, Concat(r.chunks), eof);
        out := out + lines;
        head := head';
        if end {
          assert buf[head..tail] + [] == buf[head..tail];
          break;
        }
      }
      RestOfInput(o, buf[head..tail], eof);
      if r.fails {
        return out, false;
      }
      if head < tail {
        var last := EmitLine(o, buf[head..tail], false);
        out := out + last;
      }
      ok := true;
    }
  }

  lemma WindowGrows(b: seq<Byte>, head: nat, tail: nat, window: seq<Byte>, p: seq<Byte>)
    requires head <= tail && tail + |p| <= |b| && b[head..tail] == window && b[tail..tail + |p|] == p
    ensures b[head..tail + |p|] == window + p
  {
  }

  lemma RestOfInput(o: Options, s: seq<Byte>, eof: bool)
    requires Usable(o) && o.term !in s
    ensures CutAll(o, s, eof) == if eof && s != [] then LineOutput(o, s, false) else []
  {
  }

  // ---------------------------------------------------------------------
  // From the LIST to the output

  /** rs selects the positions that the list selects, or with complement those it does not. */
  ghost predicate Selects(rs: seq<Range>, given: seq<Range>, complement: bool) {
    forall x | 1 <= x <= MAX_INT :: Covers(rs, x) <==> Covers(given, x) != complement
  }

  /** The fields the list asks for. */
  function Wanted(fs: seq<seq<Byte>>, k: int, given: seq<Range>, complement: bool): seq<seq<Byte>> {
    if fs == [] then []
    else (if Covers(given, k) != complement then [fs[0]] else []) + Wanted(fs[1..], k + 1, given, complement)
  }

  lemma {:induction false} ChosenIsWanted(fs: seq<seq<Byte>>, k: int, rs: seq<Range>, given: seq<Range>, complement: bool)
    requires Selects(rs, given, complement) && 1 <= k && k + |fs| - 1 <= MAX_INT
    ensures Chosen(fs, k, rs) == Wanted(fs, k, given, complement)
    decreases |fs|
  {
    hide Covers;
    if fs != [] {
      ChosenIsWanted(fs[1..], k + 1, rs, given, complement);
    }
  }

  lemma {:induction false} FieldCount(s: seq<Byte>, d: seq<Byte>)
    requires d != []
    ensures |Fields(s, d)| <= |s| + 1
    decreases |s|
  {
    var r := Index(s, d);
    if r >= 0 {
      FieldCount(s[r + |d|..], d);
    }
  }

  /** A delimited line comes to the fields its LIST asks for, by the text of the LIST. */
  lemma FieldOutput(o: Options, line: seq<Byte>, hadTerm: bool, given: seq<Range>, complement: bool)
    requires Usable(o) && o.mode == FieldMode && Selects(o.rs, given, complement)
    requires Index(line, o.delim) >= 0 && |line| < MAX_INT
    ensures LineOutput(o, line, hadTerm) ==
            Joined(Wanted(Fields(line, o.delim), 1, given, complement), o.od) + if hadTerm then [o.term] else []
  {
    hide Index, Fields, Chosen, Wanted, Joined, Selects;
    FieldCount(line, o.delim);
    ChosenIsWanted(Fields(line, o.delim), 1, o.rs, given, complement);
  }

  /** Field k of the line is taken exactly when the LIST asks for position k. */
  lemma {:induction false} WantedNext(fs: seq<seq<Byte>>, f: seq<Byte>, k: int, given: seq<Range>, complement: bool)
    ensures Wanted(fs + [f], k, given, complement) ==
            Wanted(fs, k, given, complement) + if Covers(given, k + |fs|) != complement then [f] else []
    decreases |fs|
  {
    hide Covers;
    if fs == [] {
      assert fs + [f] == [f] && [f][1..] == [];
      assert Wanted([f], k, given, complement) == (if Covers(given, k) != complement then [f] else []) + Wanted([], k + 1, given, complement);
    } else {
      assert (fs + [f])[1..] == fs[1..] + [f];
      WantedNext(fs[1..], f, k + 1, given, complement);
      Regroup(if Covers(given, k) != complement then [fs[0]] else [], Wanted(fs[1..], k + 1, given, complement),
              if Covers(given, k + |fs|) != complement then [f] else []);
    }
  }

  // ---------------------------------------------------------------------
  // Lines without a delimiter

  /** The delimiter stands nowhere in s. */
  ghost predicate Undelimited(s: seq<Byte>, d: seq<Byte>) {
    forall k :: !At(s, d, k)
  }

  /** A line without a delimiter passes whole, or with -s not at all. */
  lemma UndelimitedLine(o: Options, line: seq<Byte>, hadTerm: bool)
    requires Usable(o) && o.mode == FieldMode && Undelimited(line, o.delim)
    ensures LineOutput(o, line, hadTerm) ==
            if o.onlyDelimited then [] else if hadTerm then line + [o.term] else line
  {
    hide Index, At, Fields, Chosen, Joined;
    if Index(line, o.delim) >= 0 {
      IndexFound(line, o.delim);
    }
  }

  lemma AtPart(s: seq<Byte>, d: seq<Byte>, i: nat, j: nat, k: int)
    requires i <= j <= |s| && At(s[i..j], d, k)
    ensures At(s, d, i + k)
  {
    Slice(s, i, j, k, k + |d|);
  }

  lemma UndelimitedPart(s: seq<Byte>, d: seq<Byte>, i: nat, j: nat)
    requires Undelimited(s, d) && i <= j <= |s|
    ensures Undelimited(s[i..j], d)
  {
    hide At;
    forall k ensures At(s[i..j], d, k) ==> At(s, d, i + k) {
      if At(s[i..j], d, k) {
        AtPart(s, d, i, j, k);
      }
    }
  }

  lemma CutLast(o: Options, s: seq<Byte>)
    requires Usable(o) && IndexByte(s, o.term) < 0
    ensures CutAll(o, s, true) == if s == [] then [] else LineOutput(o, s, false)
  {
  }

  /** An input in which the delimiter never occurs comes back unchanged, or with -s nothing
      of it. */
  lemma {:induction false} UndelimitedInput(o: Options, s: seq<Byte>)
    requires Usable(o) && o.mode == FieldMode && Undelimited(s, o.delim)
    ensures CutAll(o, s, true) == if o.onlyDelimited then [] else s
    decreases |s|
  {
    hide LineOutput, Undelimited, IndexByte, CutAll;
    var i := IndexByte(s, o.term);
    if i >= 0 {
      CutFirst(o, s, true);
      UndelimitedPart(s, o.delim, 0, i);
      UndelimitedPart(s, o.delim, i + 1, |s|);
      assert s[0..i] == s[..i] && s[i + 1..|s|] == s[i + 1..];
      UndelimitedLine(o, s[..i], true);
      UndelimitedInput(o, s[i + 1..]);
      assert s == s[..i] + [o.term] + s[i + 1..];
    } else {
      CutLast(o, s);
      if s != [] {
        UndelimitedLine(o, s, false);
      }
    }
  }

  datatype Outcome = Usage(e: Error) | Done(out: seq<Byte>, ok: bool)

  /** cut LIST on one input. */
  method Cut(list: string, complement: bool, o: Options, r: Reader) returns (res: Outcome, ghost rs: seq<Range>)
    requires o.delim != []
    modifies r
    ensures var given := ReadList(list);
            match given
            case Err(e) => res == Usage(e)
            case Ok(g) =>
              && Shaped(rs) && Selects(rs, g, complement)
              && (Separated(rs) <==> complement || Tame(multiset(g)))
              && res == Done(CutAll(o.(rs := rs), old(Concat(r.chunks)), !r.fails), !r.fails)
              && (o.mode == FieldMode && Undelimited(old(Concat(r.chunks)), o.delim) && !r.fails ==>
                    res.out == if o.onlyDelimited then [] else old(Concat(r.chunks)))
  {
    hide ReadList, Tame, Shaped, Covers, CutAll, Concat, Undelimited;
    ghost var input := Concat(r.chunks);
    var parsed := ParseList(list);
    if parsed.Err? {
      return Usage(parsed.e), [];
    }
    ReadListProper(list);
    var ranges := MergeRanges(parsed.rs);
    if complement {
      ranges := ComplementRanges(ranges);
    }
    rs := ranges;
    var cutter := new Cutter();
    var out, ok := cutter.Process(o.(rs := ranges), r);
    if o.mode == FieldMode && Undelimited(input, o.delim) {
      UndelimitedInput(o.(rs := ranges), input);
    }
    res := Done(out, ok);
  }
}
