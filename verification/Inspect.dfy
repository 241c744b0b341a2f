/** How file looks at parts of a file: the byte ranges its tests need, read by offset or from
    a stream, kept as chunks, and asked for windows. */
module Inspect {
  import opened Common
  import opened Int64

  const MAX_OFFSET: nat := 0x7fff_ffff_ffff_ffff

  datatype Span = Span(start: nat, end: nat)

  datatype Chunk = Chunk(start: nat, data: seq<Byte>)

  predicate InSpan(s: Span, x: int) {
    s.start <= x < s.end
  }

  /** Position x is asked for. */
  predicate Wanted(spans: seq<Span>, x: int) {
    exists i :: 0 <= i < |spans| && InSpan(spans[i], x)
  }

  predicate InChunk(c: Chunk, x: int) {
    c.start <= x < c.start + |c.data|
  }

  /** The byte at position x is kept. */
  predicate Holds(chunks: seq<Chunk>, x: int) {
    exists i :: 0 <= i < |chunks| && InChunk(chunks[i], x)
  }

  /** Every kept byte is the file's. */
  ghost predicate Faithful(chunks: seq<Chunk>, file: seq<Byte>) {
    forall i | 0 <= i < |chunks| :: PartOf(chunks[i], file)
  }

  predicate PartOf(c: Chunk, file: seq<Byte>) {
    c.start + |c.data| <= |file| && c.data == file[c.start..c.start + |c.data|]
  }

  ghost predicate Ordered(chunks: seq<Chunk>) {
    forall i, j | 0 <= i < j < |chunks| :: chunks[i].start <= chunks[j].start
  }

  // ---------------------------------------------------------------------
  // Merging ranges

  ghost predicate SortedSpans(spans: seq<Span>) {
    forall i, j | 0 <= i < j < |spans| :: spans[i].start <= spans[j].start
  }

  function InsertSpan(s: Span, spans: seq<Span>): seq<Span> {
    if spans == [] || s.start <= spans[0].start then [s] + spans else [spans[0]] + InsertSpan(s, spans[1..])
  }

  function SortSpans(spans: seq<Span>): seq<Span> {
    if spans == [] then [] else InsertSpan(spans[0], SortSpans(spans[1..]))
  }

  lemma WantedCons(s: Span, spans: seq<Span>, x: int)
    ensures Wanted([s] + spans, x) <==> InSpan(s, x) || Wanted(spans, x)
  {
    var all := [s] + spans;
    if i :| 0 <= i < |spans| && InSpan(spans[i], x) {
      assert all[i + 1] == spans[i];
    }
    if InSpan(s, x) {
      assert all[0] == s;
    }
  }

  lemma WantedAppend(spans: seq<Span>, s: Span, x: int)
    ensures Wanted(spans + [s], x) <==> InSpan(s, x) || Wanted(spans, x)
  {
    var all := spans + [s];
    if i :| 0 <= i < |spans| && InSpan(spans[i], x) {
      assert all[i] == spans[i];
    }
    if InSpan(s, x) {
      assert all[|spans|] == s;
    }
  }

  lemma {:induction false} InsertKeeps(s: Span, spans: seq<Span>)
    requires SortedSpans(spans)
    ensures SortedSpans(InsertSpan(s, spans)) && |InsertSpan(s, spans)| == |spans| + 1
    ensures forall t :: t in InsertSpan(s, spans) <==> t == s || t in spans
  {
    if spans != [] && s.start > spans[0].start {
      var rest := spans[1..];
      InsertKeeps(s, rest);
      var t := InsertSpan(s, rest);
      forall i | 0 <= i < |t| ensures spans[0].start <= t[i].start {
        assert t[i] == s || t[i] in rest;
      }
      assert spans == [spans[0]] + rest;
    }
  }

  lemma {:induction false} SortKeeps(spans: seq<Span>)
    ensures SortedSpans(SortSpans(spans))
    ensures forall t :: t in SortSpans(spans) <==> t in spans
  {
    if spans != [] {
      SortKeeps(spans[1..]);
      InsertKeeps(spans[0], SortSpans(spans[1..]));
      assert spans == [spans[0]] + spans[1..];
    }
  }

  lemma WantedByMember(spans: seq<Span>, x: int)
    ensures Wanted(spans, x) <==> exists s :: s in spans && InSpan(s, x)
  {
    if i :| 0 <= i < |spans| && InSpan(spans[i], x) {
      assert spans[i] in spans;
    }
    if s :| s in spans && InSpan(s, x) {
      var i :| 0 <= i < |spans| && spans[i] == s;
    }
  }

  /** Non-empty, in order, and with a gap between any two. */
  predicate Gapped(spans: seq<Span>) {
    spans == [] ||
    (var n := |spans| - 1;
     && spans[n].start < spans[n].end
     && (n > 0 ==> spans[n - 1].end < spans[n].start)
     && Gapped(spans[..n]))
  }

  function AddSpan(out: seq<Span>, cur: Span): seq<Span> {
    var n := |out| - 1;
    if cur.end <= cur.start then out
    else if out == [] || cur.start > out[n].end then out + [cur]
    else if cur.end > out[n].end then out[..n] + [Span(out[n].start, cur.end)]
    else out
  }

  lemma AddGapped(out: seq<Span>, cur: Span)
    requires Gapped(out) && (out != [] ==> out[|out| - 1].start <= cur.start)
    ensures var r := AddSpan(out, cur); Gapped(r) && (r != [] ==> r[|r| - 1].start <= cur.start)
  {
    var n := |out| - 1;
    if cur.end > cur.start {
      if out == [] || cur.start > out[n].end {
        assert (out + [cur])[..|out|] == out;
      } else if cur.end > out[n].end {
        var r := out[..n] + [Span(out[n].start, cur.end)];
        assert r[..n] == out[..n];
      }
    }
  }

  lemma AddWanted(out: seq<Span>, cur: Span, x: int)
    requires Gapped(out) && (out != [] ==> out[|out| - 1].start <= cur.start)
    ensures Wanted(AddSpan(out, cur), x) <==> InSpan(cur, x) || Wanted(out, x)
  {
    hide Wanted;
    var n := |out| - 1;
    if cur.end > cur.start {
      if out == [] || cur.start > out[n].end {
        WantedAppend(out, cur, x);
      } else {
        assert out == out[..n] + [out[n]];
        WantedAppend(out[..n], out[n], x);
        WantedAppend(out[..n], Span(out[n].start, cur.end), x);
      }
    }
  }

  /** The merged ranges ask for the same positions, with a gap between any two. */
  method MergeRanges(ranges: seq<Span>) returns (out: seq<Span>)
    ensures Gapped(out) && forall x :: Wanted(out, x) <==> Wanted(ranges, x)
  {
    hide Wanted, Gapped, InSpan, SortSpans;
    var spans := SortSpans(ranges);
    SortKeeps(ranges);
    out := [];
    NoSpans();
    for i := 0 to |spans|
      invariant Gapped(out) && (out != [] && i < |spans| ==> out[|out| - 1].start <= spans[i].start)
      invariant forall x :: Wanted(out, x) <==> Wanted(spans[..i], x)
    {
      var current := spans[i];
      AddGapped(out, current);
      assert spans[..i + 1] == spans[..i] + [current];
      forall x ensures Wanted(AddSpan(out, current), x) <==> Wanted(spans[..i + 1], x) {
        AddWanted(out, current, x);
        WantedAppend(spans[..i], current, x);
      }
      if current.end <= current.start {
        continue;
      }
      if |out| == 0 || current.start > out[|out| - 1].end {
        out := out + [current];
        continue;
      }
      if current.end > out[|out| - 1].end {
        out := out[..|out| - 1] + [Span(out[|out| - 1].start, current.end)];
      }
    }
    assert spans[..|spans|] == spans;
    forall x ensures Wanted(spans, x) <==> Wanted(ranges, x) {
      WantedByMember(spans, x);
      WantedByMember(ranges, x);
    }
  }

  lemma NoSpans()
    ensures Gapped([]) && forall x :: !Wanted([], x)
  {
  }

  // ---------------------------------------------------------------------
  // Windows

  /** Everything the first n chunks keep lies before pos. */
  ghost predicate Passed(chunks: seq<Chunk>, n: nat, pos: nat) {
    n <= |chunks| && forall j | 0 <= j < n :: chunks[j].start + |chunks[j].data| <= pos
  }

  lemma NotHeld(chunks: seq<Chunk>, n: nat, pos: nat)
    requires Ordered(chunks) && Passed(chunks, n, pos) && (n < |chunks| ==> chunks[n].start > pos)
    ensures !Holds(chunks, pos)
  {
    forall i | 0 <= i < |chunks| ensures !InChunk(chunks[i], pos) {
      if i >= n {
        assert chunks[n].start <= chunks[i].start;
      }
    }
  }

  /** Chunk c keeps everything from pos to its end. */
  lemma HeldBy(chunks: seq<Chunk>, n: nat, lo: nat, hi: nat)
    requires n < |chunks| && chunks[n].start <= lo && hi <= chunks[n].start + |chunks[n].data|
    ensures forall x | lo <= x < hi :: Holds(chunks, x)
  {
    forall x | lo <= x < hi ensures Holds(chunks, x) {
      assert InChunk(chunks[n], x);
    }
  }

  /** Copy bytes [from, from + n) of data to position at of result. */
  method Copy(result: array<Byte>, at: nat, data: seq<Byte>, from: nat, n: nat)
    requires at + n <= result.Length && from + n <= |data|
    modifies result
    ensures result[..at] == old(result[..at]) && result[at..at + n] == data[from..from + n]
  {
    forall i | 0 <= i < n {
      result[at + i] := data[from + i];
    }
  }

  /** A window is answered exactly when every byte in it is kept (an empty one always), and
      then with the file's bytes. */
  method BytesAt(chunks: seq<Chunk>, offset: nat, width: nat, ghost file: seq<Byte>)
    returns (result: seq<Byte>, ok: bool)
    requires offset < U64 && width <= MAX_OFFSET && |file| < U64
    requires Faithful(chunks, file) && Ordered(chunks)
    ensures ok <==> width == 0 || (offset + width < U64 && forall x | offset <= x < offset + width :: Holds(chunks, x))
    ensures ok && width > 0 ==> offset + width <= |file| && result == file[offset..offset + width]
    ensures ok ==> |result| == width
  {
    hide Holds, Ordered, Faithful, Passed, PartOf;
    if width == 0 {
      return [], true;
    }
    var end := (offset + width) % U64;
    EndOrWrap(offset, width);
    if end < offset {
      return [], false;
    }
    hide U64;
    var buf := new Byte[width](_ => 0);
    var pos := offset;
    NonePassed(chunks, pos);
    for i := 0 to |chunks|
      invariant offset <= pos < end && Passed(chunks, i, pos)
      invariant pos > offset ==> pos <= |file| && buf[..pos - offset] == file[offset..pos]
      invariant forall x | offset <= x < pos :: Holds(chunks, x)
    {
      var chunk := chunks[i];
      var chunkEnd := chunk.start + |chunk.data|;
      if chunkEnd <= pos {
        PassOne(chunks, i, pos, pos);
        continue;
      }
      if chunk.start > pos {
        NotHeld(chunks, i, pos);
        return [], false;
      }
      var copyEnd := if chunkEnd < end then chunkEnd else end;
      HeldBy(chunks, i, pos, copyEnd);
      CopyPart(buf, chunks, i, offset, pos, copyEnd, file);
      ghost var before := pos;
      pos := copyEnd;
      if pos == end {
        assert buf[..pos - offset] == buf[..];
        return buf[..], true;
      }
      PassOne(chunks, i, before, pos);
    }
    NotHeld(chunks, |chunks|, pos);
    return [], false;
  }

  lemma EndOrWrap(offset: nat, width: nat)
    requires offset < U64 && 0 < width <= MAX_OFFSET
    ensures offset + width < U64 ==> (offset + width) % U64 == offset + width
    ensures offset + width >= U64 ==> (offset + width) % U64 < offset
  {
  }

  lemma NonePassed(chunks: seq<Chunk>, pos: nat)
    ensures Passed(chunks, 0, pos)
  {
  }

  lemma PassOne(chunks: seq<Chunk>, n: nat, pos: nat, to: nat)
    requires Passed(chunks, n, pos) && n < |chunks| && pos <= to && chunks[n].start + |chunks[n].data| <= to
    ensures Passed(chunks, n + 1, to)
  {
  }

  lemma PartSlice(c: Chunk, file: seq<Byte>, pos: nat, to: nat)
    requires PartOf(c, file) && c.start <= pos <= to <= c.start + |c.data|
    ensures c.data[pos - c.start..to - c.start] == file[pos..to]
  {
    var a, b := c.data[pos - c.start..to - c.start], file[pos..to];
    forall i | 0 <= i < to - pos ensures a[i] == b[i] {
      assert a[i] == c.data[pos - c.start + i];
      assert c.data[pos - c.start + i] == file[c.start..c.start + |c.data|][pos - c.start + i];
    }
  }

  /** The next part of a window comes from chunk i. */
  method CopyPart(buf: array<Byte>, chunks: seq<Chunk>, i: nat, offset: nat, pos: nat, to: nat, ghost file: seq<Byte>)
    requires i < |chunks| && Faithful(chunks, file)
    requires chunks[i].start <= pos < to <= chunks[i].start + |chunks[i].data|
    requires offset <= pos && to - offset <= buf.Length
    requires pos > offset ==> pos <= |file| && buf[..pos - offset] == file[offset..pos]
    modifies buf
    ensures to <= |file| && buf[..to - offset] == file[offset..to]
  {
    var chunk := chunks[i];
    assert PartOf(chunk, file);
    ghost var done := buf[..pos - offset];
    Copy(buf, pos - offset, chunk.data, pos - chunk.start, to - pos);
    PartSlice(chunk, file, pos, to);
    Extended(buf[..], done, file, offset, pos, to);
  }

  lemma Extended(buf: seq<Byte>, done: seq<Byte>, file: seq<Byte>, offset: nat, pos: nat, to: nat)
    requires offset <= pos <= to <= |file| && to - offset <= |buf| && buf[..pos - offset] == done
    requires pos > offset ==> done == file[offset..pos]
    requires buf[pos - offset..to - offset] == file[pos..to]
    ensures buf[..to - offset] == file[offset..to]
  {
    assert buf[..to - offset] == buf[..pos - offset] + buf[pos - offset..to - offset];
    assert file[offset..to] == file[offset..pos] + file[pos..to];
  }

  // ---------------------------------------------------------------------
  // Reading by offset

  datatype Error = TooWide | ReadFailed | NoProgress

  datatype Inspected = Kept(chunks: seq<Chunk>) | Failed(e: Error)

  /** A file read by offset: at some offsets reading fails. */
  datatype File = File(data: seq<Byte>, broken: nat -> bool)

  /** Up to width bytes from an offset, fewer only at the end of the file. */
  function ReadAt(f: File, offset: nat, width: nat): seq<Byte> {
    if offset >= |f.data| then []
    else if offset + width <= |f.data| then f.data[offset..offset + width]
    else f.data[offset..]
  }

  lemma HoldsAppend(chunks: seq<Chunk>, c: Chunk, x: int)
    ensures Holds(chunks + [c], x) <==> InChunk(c, x) || Holds(chunks, x)
  {
    var all := chunks + [c];
    if i :| 0 <= i < |chunks| && InChunk(chunks[i], x) {
      assert all[i] == chunks[i];
    }
    if InChunk(c, x) {
      assert all[|chunks|] == c;
    }
  }

  /** The chunks keep exactly the wanted bytes that the file has. */
  ghost predicate Keeps(chunks: seq<Chunk>, spans: seq<Span>, file: seq<Byte>) {
    && Faithful(chunks, file) && Ordered(chunks)
    && forall x :: Holds(chunks, x) <==> 0 <= x < |file| && Wanted(spans, x)
  }

  /** Chunks so far lie before the next span. */
  ghost predicate Before(chunks: seq<Chunk>, at: nat) {
    forall i | 0 <= i < |chunks| :: chunks[i].start <= at
  }

  /** One more span read: its chunk, if it has any bytes. */
  lemma AddChunk(chunks: seq<Chunk>, spans: seq<Span>, s: Span, f: File, data: seq<Byte>)
    requires Keeps(chunks, spans, f.data) && Before(chunks, s.start) && s.start <= s.end
    requires data == ReadAt(f, s.start, s.end - s.start)
    ensures var r := if |data| > 0 then chunks + [Chunk(s.start, data)] else chunks;
            Keeps(r, spans + [s], f.data) && Before(r, s.start)
  {
    var c := Chunk(s.start, data);
    forall x ensures InChunk(c, x) <==> 0 <= x < |f.data| && InSpan(s, x) {}
    forall x ensures Holds(chunks + [c], x) <==> 0 <= x < |f.data| && Wanted(spans + [s], x) {
      HoldsAppend(chunks, c, x);
      WantedAppend(spans, s, x);
    }
    if |data| == 0 {
      forall x ensures Holds(chunks, x) <==> 0 <= x < |f.data| && Wanted(spans + [s], x) {
        HoldsAppend(chunks, c, x);
      }
    }
  }

  /** More positions asked for in one run than an integer counts. */
  ghost predicate WideRun(ranges: seq<Span>, x: nat) {
    x <= MAX_OFFSET && forall z | x <= z <= x + MAX_OFFSET :: Wanted(ranges, z)
  }

  /** A run of positions asked for begins at x. */
  ghost predicate Begins(ranges: seq<Span>, x: nat) {
    Wanted(ranges, x) && !Wanted(ranges, x - 1)
  }

  /** The run that begins at x cannot be read: it is too wide, or reading there fails. */
  ghost predicate Trouble(f: File, ranges: seq<Span>, x: nat) {
    x <= MAX_OFFSET && Begins(ranges, x) && (WideRun(ranges, x) || f.broken(x))
  }

  ghost predicate Readable(f: File, ranges: seq<Span>) {
    forall x: nat :: !Trouble(f, ranges, x)
  }

  /** The first run that cannot be read gives the error. */
  ghost predicate FirstTrouble(f: File, ranges: seq<Span>, e: Error) {
    exists x: nat :: Trouble(f, ranges, x) && (forall y: nat | y < x :: !Trouble(f, ranges, y))
                     && e == if WideRun(ranges, x) then TooWide else ReadFailed
  }

  lemma RunOfSpan(spans: seq<Span>, ranges: seq<Span>, i: nat)
    requires Gapped(spans) && i < |spans| && forall x :: Wanted(spans, x) <==> Wanted(ranges, x)
    ensures Begins(ranges, spans[i].start)
    ensures spans[i].start <= MAX_OFFSET ==> (WideRun(ranges, spans[i].start) <==> spans[i].end - spans[i].start > MAX_OFFSET)
  {
    var s := spans[i];
    forall j | 0 <= j < |spans| ensures !InSpan(spans[j], s.start - 1) && !InSpan(spans[j], s.end) {
      GappedAt(spans, j);
      GappedAt(spans, i);
    }
    SpanIsWanted(spans, i);
    hide Gapped;
    GappedAt(spans, i);
    assert Wanted(spans, s.start) && !Wanted(spans, s.start - 1) && !Wanted(spans, s.end);
  }

  lemma BeginsAtSpan(spans: seq<Span>, x: nat)
    requires Begins(spans, x)
    ensures exists j :: 0 <= j < |spans| && spans[j].start == x
  {
    var j :| 0 <= j < |spans| && InSpan(spans[j], x);
    assert spans[j].start < x ==> InSpan(spans[j], x - 1);
  }

  /** All spans before the i-th are readable. */
  ghost predicate ReadableTo(f: File, ranges: seq<Span>, spans: seq<Span>, i: nat) {
    i <= |spans| && forall j | 0 <= j < i :: !Trouble(f, ranges, spans[j].start)
  }

  lemma TroubleHere(f: File, ranges: seq<Span>, spans: seq<Span>, i: nat)
    requires Gapped(spans) && (forall x :: Wanted(spans, x) <==> Wanted(ranges, x)) && ReadableTo(f, ranges, spans, i)
    requires i < |spans| ==> Trouble(f, ranges, spans[i].start)
    ensures if i == |spans| then Readable(f, ranges)
            else FirstTrouble(f, ranges, if WideRun(ranges, spans[i].start) then TooWide else ReadFailed)
  {
    hide Gapped, Wanted, WideRun;
    forall y: nat | Trouble(f, ranges, y) ensures i < |spans| && y >= spans[i].start {
      BeginsAtSpan(spans, y);
      var j :| 0 <= j < |spans| && spans[j].start == y;
      if i < j {
        GappedAt(spans, i);
      }
    }
  }

  /** What is kept from the start of the file without a break. */
  function Prefix(chunks: seq<Chunk>): seq<Byte> {
    if |chunks| != 0 && chunks[0].start == 0 then chunks[0].data else []
  }

  /** The prefix is the file's, up to the first position not asked for. */
  ghost predicate PrefixIs(chunks: seq<Chunk>, ranges: seq<Span>, file: seq<Byte>) {
    var n := |Prefix(chunks)|;
    && n <= |file| && Prefix(chunks) == file[..n]
    && (n < |file| ==> !Wanted(ranges, n)) && forall x | 0 <= x < n :: Wanted(ranges, x)
  }

  /** If the first range starts the file, the first chunk is as much of it as there is. */
  ghost predicate Leading(chunks: seq<Chunk>, first: Span, file: seq<Byte>) {
    first.start == 0 && |file| > 0 ==>
      |chunks| > 0 && chunks[0].start == 0 && |chunks[0].data| == (if first.end < |file| then first.end else |file|)
  }

  lemma FirstSpan(spans: seq<Span>)
    requires Gapped(spans) && Wanted(spans, 0)
    ensures spans != [] && spans[0].start == 0
  {
    var k :| 0 <= k < |spans| && InSpan(spans[k], 0);
    GappedAt(spans, 0);
  }

  lemma AfterFirst(spans: seq<Span>)
    requires Gapped(spans) && spans != []
    ensures !Wanted(spans, spans[0].end)
  {
    GappedAt(spans, 0);
  }

  lemma FirstHeld(chunks: seq<Chunk>)
    requires Ordered(chunks) && Holds(chunks, 0)
    ensures |chunks| > 0 && chunks[0].start == 0
  {
    var i :| 0 <= i < |chunks| && InChunk(chunks[i], 0);
    assert i > 0 ==> chunks[0].start <= chunks[i].start;
  }

  lemma PrefixHeld(chunks: seq<Chunk>, spans: seq<Span>, file: seq<Byte>)
    requires Keeps(chunks, spans, file)
    ensures var n := |Prefix(chunks)|;
            n <= |file| && Prefix(chunks) == file[..n] && forall x | 0 <= x < n :: Wanted(spans, x)
  {
    var n := |Prefix(chunks)|;
    if n > 0 {
      assert PartOf(chunks[0], file);
      assert file[0..n] == file[..n];
      forall x | 0 <= x < n ensures Wanted(spans, x) {
        assert InChunk(chunks[0], x);
        assert Holds(chunks, x);
      }
    }
  }

  lemma PrefixFound(chunks: seq<Chunk>, spans: seq<Span>, file: seq<Byte>)
    requires Keeps(chunks, spans, file) && Gapped(spans)
    requires |spans| > 0 ==> Leading(chunks, spans[0], file)
    ensures PrefixIs(chunks, spans, file)
  {
    PrefixHeld(chunks, spans, file);
    assert |file| > 0 && Wanted(spans, 0) ==> Holds(chunks, 0);
    hide Wanted, Gapped, Holds;
    if |file| > 0 && Wanted(spans, 0) {
      FirstSpan(spans);
      FirstHeld(chunks);
      AfterFirst(spans);
    }
  }

  /** If every run that is asked for can be read, exactly the wanted bytes that the file has
      are kept; otherwise the first that cannot be read gives the error. */
  method InspectReaderAt(f: File, ranges: seq<Span>) returns (r: Inspected)
    requires |f.data| <= MAX_OFFSET
    ensures r.Kept? ==> Keeps(r.chunks, ranges, f.data)
    ensures r.Kept? ==> PrefixIs(r.chunks, ranges, f.data)
    ensures r.Kept? ==> Readable(f, ranges)
    ensures r.Failed? ==> FirstTrouble(f, ranges, r.e)
  {
    hide Keeps, Before, Wanted, Gapped, ReadAt, PrefixIs, WideRun, Leading, Begins, Readable, FirstTrouble;
    var spans := MergeRanges(ranges);
    var chunks: seq<Chunk> := [];
    NothingKept(f.data);
    for i := 0 to |spans|
      invariant Keeps(chunks, spans[..i], f.data)
      invariant forall j | i <= j < |spans| :: Before(chunks, spans[j].start)
      invariant i > 0 ==> Leading(chunks, spans[0], f.data)
      invariant i == 0 ==> chunks == []
      invariant ReadableTo(f, ranges, spans, i)
    {
      var span := spans[i];
      RunOfSpan(spans, ranges, i);
      GappedAt(spans, i);
      assert spans[..i + 1] == spans[..i] + [span];
      if span.start > MAX_OFFSET {
        BeyondEnd(chunks, spans[..i], span, f.data);
        NotLeading(chunks, span, f.data);
        continue;
      }
      var width := span.end - span.start;
      if width > MAX_OFFSET {
        TroubleHere(f, ranges, spans, i);
        return Failed(TooWide);
      }
      if f.broken(span.start) {
        TroubleHere(f, ranges, spans, i);
        return Failed(ReadFailed);
      }
      var buf := ReadAt(f, span.start, width);
      AddChunk(chunks, spans[..i], span, f, buf);
      LeadingStep(chunks, i, spans[0], span, f, buf);
      if |buf| > 0 {
        chunks := chunks + [Chunk(span.start, buf)];
      }
      BeforeLater(chunks, spans, i);
    }
    assert spans[..|spans|] == spans;
    PrefixFound(chunks, spans, f.data);
    SameKept(chunks, spans, ranges, f.data);
    TroubleHere(f, ranges, spans, |spans|);
    r := Kept(chunks);
  }

  lemma NothingKept(file: seq<Byte>)
    ensures Keeps([], [], file) && forall x :: Before([], x)
  {
  }

  lemma {:induction false} GappedAt(spans: seq<Span>, i: nat)
    requires Gapped(spans) && i < |spans|
    ensures spans[i].start < spans[i].end
    ensures forall j | i < j < |spans| :: spans[i].end < spans[j].start
    decreases |spans|
  {
    var n := |spans| - 1;
    if i < n {
      GappedAt(spans[..n], i);
      if i < n - 1 {
        GappedAt(spans[..n], n - 1);
      }
    }
  }

  lemma SpanIsWanted(spans: seq<Span>, i: nat)
    requires i < |spans|
    ensures forall z | spans[i].start <= z < spans[i].end :: Wanted(spans, z)
  {
    forall z | spans[i].start <= z < spans[i].end ensures Wanted(spans, z) {
      assert InSpan(spans[i], z);
    }
  }

  /** No file has a byte past the largest offset. */
  lemma BeyondEnd(chunks: seq<Chunk>, spans: seq<Span>, s: Span, file: seq<Byte>)
    requires Keeps(chunks, spans, file) && s.start >= |file|
    ensures Keeps(chunks, spans + [s], file)
  {
    forall x | 0 <= x < |file| ensures Wanted(spans + [s], x) <==> Wanted(spans, x) {
      WantedAppend(spans, s, x);
    }
  }

  lemma BeforeLater(chunks: seq<Chunk>, spans: seq<Span>, i: nat)
    requires i < |spans| && Before(chunks, spans[i].start) && Gapped(spans)
    ensures forall j | i < j < |spans| :: Before(chunks, spans[j].start)
  {
    GappedAt(spans, i);
  }

  lemma SameKept(chunks: seq<Chunk>, spans: seq<Span>, ranges: seq<Span>, file: seq<Byte>)
    requires Keeps(chunks, spans, file) && PrefixIs(chunks, spans, file) && forall x :: Wanted(spans, x) <==> Wanted(ranges, x)
    ensures Keeps(chunks, ranges, file) && PrefixIs(chunks, ranges, file)
  {
  }

  lemma NotLeading(chunks: seq<Chunk>, s: Span, file: seq<Byte>)
    requires s.start > 0
    ensures Leading(chunks, s, file)
  {
  }

  /** The first chunk is settled by the first range and never moves. */
  lemma LeadingStep(chunks: seq<Chunk>, i: nat, first: Span, s: Span, f: File, data: seq<Byte>)
    requires if i == 0 then chunks == [] && first == s else Leading(chunks, first, f.data)
    requires s.start < s.end && data == ReadAt(f, s.start, s.end - s.start)
    ensures Leading(if |data| > 0 then chunks + [Chunk(s.start, data)] else chunks, first, f.data)
  {
  }

  /** After an inspection a window is answered exactly when it lies in the file and all of
      it was asked for, and then with the file's bytes. */
  method Window(chunks: seq<Chunk>, offset: nat, width: nat, ghost spans: seq<Span>, ghost file: seq<Byte>)
    returns (result: seq<Byte>, ok: bool)
    requires offset < U64 && width <= MAX_OFFSET && |file| < U64 && Keeps(chunks, spans, file)
    ensures ok <==> width == 0 || (offset + width <= |file| && forall x | offset <= x < offset + width :: Wanted(spans, x))
    ensures ok && width > 0 ==> result == file[offset..offset + width]
  {
    hide Wanted, Holds;
    result, ok := BytesAt(chunks, offset, width, file);
    if width > 0 && offset + width < U64 && !ok {
      var x :| offset <= x < offset + width && !Holds(chunks, x);
      assert !(0 <= x < |file| && Wanted(spans, x));
    }
  }
}
