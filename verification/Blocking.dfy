/** dd's record conversions: conv=block turns lines into fixed-width padded records, conv=unblock
    turns them back, and conv=ebcdic / conv=ascii do the same through the byte tables. */
module Blocking {
  import opened Common
  import opened Records
  import opened Ebcdic

  const NL: Byte := 10
  const SPACE: Byte := 32

  /** The optional translation table of a block conversion. */
  datatype Table = NoTable | Table(of: Byte -> Byte)

  // ---------------------------------------------------------------------
  // Lines

  /** The lines of an input: what stands before each newline, then an unterminated rest. */
  function Lines(s: seq<Byte>): seq<seq<Byte>> {
    LinesAfter([], s)
  }

  function LinesAfter(line: seq<Byte>, s: seq<Byte>): seq<seq<Byte>>
    decreases |s|
  {
    if s == [] then (if line == [] then [] else [line])
    else if s[0] == NL then [line] + LinesAfter([], s[1..])
    else LinesAfter(line + [s[0]], s[1..])
  }

  function Unlines(lines: seq<seq<Byte>>): seq<Byte> {
    if lines == [] then [] else lines[0] + [NL] + Unlines(lines[1..])
  }

  ghost predicate NoBreaks(lines: seq<seq<Byte>>) {
    forall i | 0 <= i < |lines| :: NL !in lines[i]
  }

  lemma {:induction false} UnlinesAppend(lines: seq<seq<Byte>>, line: seq<Byte>)
    ensures Unlines(lines + [line]) == Unlines(lines) + line + [NL]
  {
    if lines == [] {
      assert lines + [line] == [line] + [];
      UnlinesCons(line, []);
    } else {
      assert lines + [line] == [lines[0]] + (lines[1..] + [line]);
      UnlinesCons(lines[0], lines[1..] + [line]);
      UnlinesAppend(lines[1..], line);
    }
  }

  lemma {:induction false} LineRead(before: seq<Byte>, line: seq<Byte>, rest: seq<Byte>)
    requires NL !in line
    ensures LinesAfter(before, line + rest) == LinesAfter(before + line, rest)
    decreases |line|
  {
    if line == [] {
      assert line + rest == rest && before + line == before;
    } else {
      assert (line + rest)[1..] == line[1..] + rest;
      assert before + [line[0]] + line[1..] == before + line;
      LineRead(before + [line[0]], line[1..], rest);
    }
  }

  /** A text is its lines in one way only. */
  lemma {:induction false} LinesOf(lines: seq<seq<Byte>>, rest: seq<Byte>)
    requires NoBreaks(lines) && NL !in rest
    ensures Lines(Unlines(lines) + rest) == lines + (if rest == [] then [] else [rest])
    decreases |lines|
  {
    if lines == [] {
      assert Unlines(lines) + rest == rest + [];
      LineRead([], rest, []);
      assert [] + rest == rest;
    } else {
      var tail := [NL] + (Unlines(lines[1..]) + rest);
      assert Unlines(lines) + rest == lines[0] + tail;
      LineRead([], lines[0], tail);
      assert [] + lines[0] == lines[0];
      assert tail[1..] == Unlines(lines[1..]) + rest;
      LinesOf(lines[1..], rest);
      assert lines == [lines[0]] + lines[1..];
    }
  }

  /** A text with the newline it may lack at its end. */
  function Ended(s: seq<Byte>): seq<Byte> {
    if s == [] || s[|s| - 1] == NL then s else s + [NL]
  }

  lemma EndedAfterBreak(line: seq<Byte>, s: seq<Byte>)
    ensures Ended(line + [NL] + s) == line + [NL] + Ended(s)
  {
    var t := line + [NL] + s;
    assert s != [] ==> t[|t| - 1] == s[|s| - 1];
    assert s == [] ==> t[|t| - 1] == NL;
  }

  lemma UnlinesCons(line: seq<Byte>, lines: seq<seq<Byte>>)
    ensures Unlines([line] + lines) == line + [NL] + Unlines(lines)
  {
    assert ([line] + lines)[1..] == lines;
  }

  lemma Shift(line: seq<Byte>, s: seq<Byte>)
    requires s != []
    ensures line + [s[0]] + s[1..] == line + s
  {
  }

  lemma LastLine(line: seq<Byte>)
    requires NL !in line
    ensures Unlines(LinesAfter(line, [])) == Ended(line)
  {
    if line != [] {
      UnlinesCons(line, []);
      assert [line] + [] == [line];
    }
  }

  /** Every text is its lines, each ended but perhaps the last. */
  lemma {:induction false} LinesBack(line: seq<Byte>, s: seq<Byte>)
    requires NL !in line
    ensures Unlines(LinesAfter(line, s)) == Ended(line + s)
    decreases |s|
  {
    hide Ended, Unlines;
    if s == [] {
      LastLine(line);
      assert line + s == line;
    } else {
      Shift(line, s);
      if s[0] == NL {
        LinesBack([], s[1..]);
        assert [] + s[1..] == s[1..];
        EndedAfterBreak(line, s[1..]);
        UnlinesCons(line, LinesAfter([], s[1..]));
      } else {
        LinesBack(line + [s[0]], s[1..]);
      }
    }
  }

  lemma {:induction false} LinesWhole(line: seq<Byte>, s: seq<Byte>)
    requires NL !in line
    ensures NoBreaks(LinesAfter(line, s))
    decreases |s|
  {
    if s != [] {
      if s[0] == NL { LinesWhole([], s[1..]); } else { LinesWhole(line + [s[0]], s[1..]); }
    }
  }

  // ---------------------------------------------------------------------
  // The two conversions, on whole inputs

  function Spaces(n: nat): (s: seq<Byte>)
    ensures |s| == n && forall i | 0 <= i < n :: s[i] == SPACE
  {
    seq(n, _ => SPACE)
  }

  function Mapped(f: Byte -> Byte, s: seq<Byte>): (r: seq<Byte>)
    ensures |r| == |s| && forall i | 0 <= i < |s| :: r[i] == f(s[i])
  {
    seq(|s|, i requires 0 <= i < |s| => f(s[i]))
  }

  function Translated(t: Table, s: seq<Byte>): (r: seq<Byte>)
    ensures |r| == |s|
  {
    match t
    case NoTable => s
    case Table(f) => Mapped(f, s)
  }

  function Cut(line: seq<Byte>, width: nat): seq<Byte> {
    if |line| <= width then line else line[..width]
  }

  function Padded(line: seq<Byte>, width: nat): (r: seq<Byte>)
    ensures |r| == width
  {
    Cut(line, width) + Spaces(width - |Cut(line, width)|)
  }

  function RecordsOf(lines: seq<seq<Byte>>, width: nat, t: Table): (r: seq<seq<Byte>>)
    ensures |r| == |lines| && forall i | 0 <= i < |r| :: |r[i]| == width && r[i] == Translated(t, Padded(lines[i], width))
  {
    seq(|lines|, i requires 0 <= i < |lines| => Translated(t, Padded(lines[i], width)))
  }

  function Blocked(s: seq<Byte>, width: nat, t: Table): seq<Byte> {
    Concat(RecordsOf(Lines(s), width, t))
  }

  /** How many lines do not fit. */
  function Long(lines: seq<seq<Byte>>, width: nat): nat {
    if lines == [] then 0
    else Long(lines[..|lines| - 1], width) + (if |lines[|lines| - 1]| > width then 1 else 0)
  }

  /** One more line counts exactly if it is longer than the records. */
  lemma LongNext(lines: seq<seq<Byte>>, line: seq<Byte>, width: nat)
    ensures Long(lines + [line], width) == Long(lines, width) + (if |line| > width then 1 else 0)
  {
    assert (lines + [line])[..|lines|] == lines;
  }

  /** A record is the line's first bytes, and spaces to its end. */
  lemma PaddedAt(line: seq<Byte>, width: nat, i: nat)
    requires i < width
    ensures Padded(line, width)[i] == if i < |line| then line[i] else 32
  {
  }

  function Trim(s: seq<Byte>): seq<Byte> {
    if s != [] && s[|s| - 1] == SPACE then Trim(s[..|s| - 1]) else s
  }

  function Trims(records: seq<seq<Byte>>): (r: seq<seq<Byte>>)
    ensures |r| == |records| && forall i | 0 <= i < |r| :: r[i] == Trim(records[i])
  {
    seq(|records|, i requires 0 <= i < |records| => Trim(records[i]))
  }

  function Unblocked(s: seq<Byte>, width: nat): seq<Byte>
    requires width > 0
  {
    Unlines(Trims(Chunks(s, width)))
  }

  // ---------------------------------------------------------------------
  // There and back

  lemma {:induction false} MappedConcat(f: Byte -> Byte, ss: seq<seq<Byte>>, rs: seq<seq<Byte>>)
    requires |rs| == |ss| && forall i | 0 <= i < |ss| :: rs[i] == Mapped(f, ss[i])
    ensures Mapped(f, Concat(ss)) == Concat(rs)
  {
    if ss != [] {
      MappedConcat(f, ss[1..], rs[1..]);
      assert Mapped(f, ss[0] + Concat(ss[1..])) == Mapped(f, ss[0]) + Mapped(f, Concat(ss[1..]));
    }
  }

  lemma {:induction false} TrimSpaces(s: seq<Byte>, n: nat)
    ensures Trim(s + Spaces(n)) == Trim(s)
  {
    if n == 0 {
      assert s + Spaces(n) == s;
    } else {
      TrimSpaces(s, n - 1);
      assert (s + Spaces(n))[..|s| + n - 1] == s + Spaces(n - 1);
    }
  }

  /** What a line comes back as. */
  function Survivor(line: seq<Byte>, width: nat): seq<Byte> {
    Trim(Cut(line, width))
  }

  function Survivors(lines: seq<seq<Byte>>, width: nat): (r: seq<seq<Byte>>)
    ensures |r| == |lines| && forall i | 0 <= i < |r| :: r[i] == Survivor(lines[i], width)
  {
    seq(|lines|, i requires 0 <= i < |lines| => Survivor(lines[i], width))
  }

  lemma RecordBack(line: seq<Byte>, width: nat)
    ensures Mapped(ToAscii, Translated(Table(ToEbcdic), Padded(line, width))) == Padded(line, width)
    ensures Trim(Padded(line, width)) == Survivor(line, width)
  {
    hide ToAscii, ToEbcdic;
    forall c: Byte ensures ToAscii(ToEbcdic(c)) == c { AsciiOfEbcdic(c); }
    TrimSpaces(Cut(line, width), width - |Cut(line, width)|);
  }

  /** conv=ebcdic and then conv=ascii with the same cbs: each line comes back cut to cbs,
      its trailing spaces gone, its newline added. */
  lemma EbcdicThenAscii(s: seq<Byte>, width: nat)
    requires width > 0
    ensures Unblocked(Mapped(ToAscii, Blocked(s, width, Table(ToEbcdic))), width) == Unlines(Survivors(Lines(s), width))
  {
    hide ToAscii, ToEbcdic, Lines, Padded, Translated, Mapped, Chunks, Concat, Survivor;
    var lines := Lines(s);
    var records := RecordsOf(lines, width, Table(ToEbcdic));
    var plain := RecordsOf(lines, width, NoTable);
    forall i | 0 <= i < |lines|
      ensures plain[i] == Mapped(ToAscii, records[i]) && Trim(plain[i]) == Survivor(lines[i], width)
    {
      RecordBack(lines[i], width);
      NotTranslated(Padded(lines[i], width));
    }
    MappedConcat(ToAscii, records, plain);
    ChunksOfParts(plain, [], width);
    assert Concat(plain) + [] == Concat(plain);
    assert plain + [] == plain;
    assert Trims(plain) == Survivors(lines, width);
  }

  lemma NotTranslated(s: seq<Byte>)
    ensures Translated(NoTable, s) == s
  {
  }

  ghost predicate Clean(line: seq<Byte>, width: nat) {
    |line| <= width && (line == [] || line[|line| - 1] != SPACE)
  }

  lemma {:induction false} TrimIsPrefix(s: seq<Byte>)
    ensures Trim(s) <= s
    ensures Trim(s) == s <==> (s == [] || s[|s| - 1] != SPACE)
    decreases |s|
  {
    if s != [] && s[|s| - 1] == SPACE {
      TrimIsPrefix(s[..|s| - 1]);
    }
  }

  lemma SurvivorIs(line: seq<Byte>, width: nat)
    ensures Survivor(line, width) <= line
    ensures Survivor(line, width) == line <==> Clean(line, width)
  {
    TrimIsPrefix(Cut(line, width));
  }

  /** The input itself comes back exactly when it is empty or ends in a newline, no line is
      longer than cbs, and none ends in a space. */
  lemma SameTextIffClean(s: seq<Byte>, width: nat)
    requires width > 0
    ensures Unblocked(Mapped(ToAscii, Blocked(s, width, Table(ToEbcdic))), width) == s <==>
            ((s == [] || s[|s| - 1] == NL) && forall i | 0 <= i < |Lines(s)| :: Clean(Lines(s)[i], width))
  {
    hide ToAscii, ToEbcdic, Mapped, Blocked, Unblocked, Survivor, Clean, LinesAfter;
    EbcdicThenAscii(s, width);
    LinesBack([], s);
    LinesWhole([], s);
    assert [] + s == s;
    var lines := Lines(s);
    var back := Survivors(lines, width);
    forall i | 0 <= i < |lines|
      ensures back[i] <= lines[i] && (back[i] == lines[i] <==> Clean(lines[i], width))
    {
      SurvivorIs(lines[i], width);
    }
    LinesOf(back, []);
    assert Unlines(back) + [] == Unlines(back) && back + [] == back;
    if Unlines(back) == s {
      assert back == lines;
      UnlinesEnds(lines);
    } else if forall i | 0 <= i < |lines| :: Clean(lines[i], width) {
      assert back == lines;
    }
  }

  lemma {:induction false} UnlinesEnds(lines: seq<seq<Byte>>)
    ensures Unlines(lines) == [] || Unlines(lines)[|Unlines(lines)| - 1] == NL
  {
    if lines != [] {
      UnlinesEnds(lines[1..]);
    }
  }
}
