/** Both ways file inspects an operand, with the range that only a PE header reveals. */
module InspectFile {
  import opened Common
  import opened Streams
  import opened Inspect

  // ---------------------------------------------------------------------
  // The range a header reveals

  /** The signature's range, from the little-endian word at 0x3c of an MZ header. */
  function PeSpans(prefix: seq<Byte>): seq<Span> {
    if |prefix| < 0x40 || prefix[0] != 77 || prefix[1] != 90 then []
    else
      var b0: nat, b1: nat, b2: nat, b3: nat := prefix[0x3c], prefix[0x3d], prefix[0x3e], prefix[0x3f];
      var at := b0 + 0x100 * b1 + 0x1_0000 * b2 + 0x100_0000 * b3;
      [Span(at, at + 4)]
  }

  lemma PeOfPrefix(file: seq<Byte>, n: nat)
    requires n <= |file|
    ensures PeSpans(file[..n]) == if n < 0x40 then [] else PeSpans(file)
  {
  }

  /** The file begins as an MZ header of 64 bytes. */
  predicate MzHeader(file: seq<Byte>) {
    |file| >= 0x40 && file[0] == 77 && file[1] == 90
  }

  /** An MZ header whose bytes from 0x3c on spell the offset, the lowest first. */
  predicate SignatureAt(file: seq<Byte>, at: nat) {
    && MzHeader(file) && at < 0x1_0000_0000
    && file[0x3c] == at % 0x100 && file[0x3d] == at / 0x100 % 0x100
    && file[0x3e] == at / 0x1_0000 % 0x100 && file[0x3f] == at / 0x100_0000
  }

  /** The range is the four bytes at the offset that the header spells, and every MZ header
      spells one. */
  lemma PeIff(file: seq<Byte>)
    ensures forall at: nat :: PeSpans(file) == [Span(at, at + 4)] <==> SignatureAt(file, at)
    ensures PeSpans(file) == [] <==> !MzHeader(file)
    ensures MzHeader(file) ==> exists at: nat :: SignatureAt(file, at)
  {
    if MzHeader(file) {
      var b0: nat, b1: nat, b2: nat, b3: nat := file[0x3c], file[0x3d], file[0x3e], file[0x3f];
      var w := b0 + 0x100 * b1 + 0x1_0000 * b2 + 0x100_0000 * b3;
      assert PeSpans(file) == [Span(w, w + 4)];
      BytesOfWord(b0, b1, b2, b3);
      assert SignatureAt(file, w);
      forall at: nat ensures PeSpans(file) == [Span(at, at + 4)] <==> SignatureAt(file, at) {
        if SignatureAt(file, at) {
          WordOfBytes(at);
        }
        assert PeSpans(file)[0].start == w;
      }
    }
  }

  lemma BytesOfWord(b0: nat, b1: nat, b2: nat, b3: nat)
    requires b0 < 256 && b1 < 256 && b2 < 256 && b3 < 256
    ensures var w := b0 + 0x100 * b1 + 0x1_0000 * b2 + 0x100_0000 * b3;
            && w < 0x1_0000_0000 && w % 0x100 == b0 && w / 0x100 % 0x100 == b1
            && w / 0x1_0000 % 0x100 == b2 && w / 0x100_0000 == b3
  {
    var w := b0 + 0x100 * b1 + 0x1_0000 * b2 + 0x100_0000 * b3;
    assert w / 0x100 == b1 + 0x100 * b2 + 0x1_0000 * b3;
    assert w / 0x1_0000 == b2 + 0x100 * b3;
  }

  lemma WordOfBytes(at: nat)
    ensures at == at % 0x100 + 0x100 * (at / 0x100 % 0x100) + 0x1_0000 * (at / 0x1_0000 % 0x100) + 0x100_0000 * (at / 0x100_0000)
  {
    assert at / 0x1_0000 == at / 0x100 / 0x100;
    assert at / 0x100_0000 == at / 0x1_0000 / 0x100;
  }

  // ---------------------------------------------------------------------
  // By offset

  function InsertChunk(c: Chunk, chunks: seq<Chunk>): seq<Chunk> {
    if chunks == [] || c.start <= chunks[0].start then [c] + chunks else [chunks[0]] + InsertChunk(c, chunks[1..])
  }

  function SortChunks(chunks: seq<Chunk>): seq<Chunk> {
    if chunks == [] then [] else InsertChunk(chunks[0], SortChunks(chunks[1..]))
  }

  lemma {:induction false} InsertChunkKeeps(c: Chunk, chunks: seq<Chunk>)
    requires Ordered(chunks)
    ensures Ordered(InsertChunk(c, chunks))
    ensures forall d :: d in InsertChunk(c, chunks) <==> d == c || d in chunks
  {
    if chunks != [] && c.start > chunks[0].start {
      var rest := chunks[1..];
      InsertChunkKeeps(c, rest);
      var t := InsertChunk(c, rest);
      forall i | 0 <= i < |t| ensures chunks[0].start <= t[i].start {
        assert t[i] == c || t[i] in rest;
      }
      assert chunks == [chunks[0]] + rest;
    }
  }

  lemma {:induction false} SortChunksKeeps(chunks: seq<Chunk>)
    ensures Ordered(SortChunks(chunks))
    ensures forall d :: d in SortChunks(chunks) <==> d in chunks
  {
    if chunks != [] {
      SortChunksKeeps(chunks[1..]);
      InsertChunkKeeps(chunks[0], SortChunks(chunks[1..]));
      assert chunks == [chunks[0]] + chunks[1..];
    }
  }

  lemma HoldsByMember(chunks: seq<Chunk>, x: int)
    ensures Holds(chunks, x) <==> exists c :: c in chunks && InChunk(c, x)
  {
    if i :| 0 <= i < |chunks| && InChunk(chunks[i], x) {
      assert chunks[i] in chunks;
    }
    if c :| c in chunks && InChunk(c, x) {
      var i :| 0 <= i < |chunks| && chunks[i] == c;
    }
  }

  lemma WantedEither(a: seq<Span>, b: seq<Span>, x: int)
    ensures Wanted(a + b, x) <==> Wanted(a, x) || Wanted(b, x)
  {
    WantedByMember(a, x);
    WantedByMember(b, x);
    WantedByMember(a + b, x);
  }

  /** Two inspections of one file, put together in order. */
  lemma TogetherKeep(a: seq<Chunk>, b: seq<Chunk>, spans: seq<Span>, more: seq<Span>, file: seq<Byte>)
    requires Keeps(a, spans, file) && Keeps(b, more, file)
    ensures Keeps(SortChunks(a + b), spans + more, file)
  {
    hide SortChunks;
    var all := SortChunks(a + b);
    SortChunksKeeps(a + b);
    forall i | 0 <= i < |all| ensures PartOf(all[i], file) {
      assert all[i] in a + b;
    }
    forall x ensures Holds(all, x) <==> 0 <= x < |file| && Wanted(spans + more, x) {
      hide Wanted, Holds;
      WantedEither(spans, more, x);
      HoldsByMember(all, x);
      HoldsByMember(a, x);
      HoldsByMember(b, x);
    }
  }

  /** How many of len bytes the ranges ask for without a break, from n on. */
  ghost function WantedRun(ranges: seq<Span>, len: nat, n: nat): nat
    decreases len - n
  {
    if n < len && Wanted(ranges, n) then WantedRun(ranges, len, n + 1) else n
  }

  lemma {:induction false} WantedRunIs(ranges: seq<Span>, len: nat, i: nat, n: nat)
    requires i <= n <= len && (n < len ==> !Wanted(ranges, n)) && forall x | 0 <= x < n :: Wanted(ranges, x)
    ensures WantedRun(ranges, len, i) == n
    decreases n - i
  {
    hide Wanted;
    if i < n {
      WantedRunIs(ranges, len, i + 1, n);
    }
  }

  /** The signature's range is never too wide: only reading there can fail. */
  lemma PeTrouble(f: File, file: seq<Byte>)
    ensures Readable(f, PeSpans(file)) <==> PeSpans(file) == [] || !f.broken(PeSpans(file)[0].start)
    ensures forall e | FirstTrouble(f, PeSpans(file), e) :: e == ReadFailed && PeSpans(file) != [] && f.broken(PeSpans(file)[0].start)
  {
    var pe := PeSpans(file);
    if pe != [] {
      var at := pe[0].start;
      assert forall x :: Wanted(pe, x) <==> InSpan(pe[0], x);
      forall x: nat | Trouble(f, pe, x) ensures x == at && f.broken(at) && !WideRun(pe, x) {
        assert !Wanted(pe, x + MAX_OFFSET);
      }
      assert Begins(pe, at);
      assert f.broken(at) ==> Trouble(f, pe, at);
    }
  }

  /** A regular file: what is kept is what the ranges ask for, and the signature's bytes if
      the ranges ask for a whole header at the start.  Inspection fails exactly when one of
      these cannot be read, and then with the first reason. */
  method InspectRegular(f: File, ranges: seq<Span>) returns (r: Inspected)
    requires |f.data| <= MAX_OFFSET
    ensures var pe := if WantedRun(ranges, |f.data|, 0) < 0x40 then [] else PeSpans(f.data);
            && (r.Kept? ==> Keeps(r.chunks, ranges + pe, f.data))
            && (r.Kept? <==> Readable(f, ranges) && (pe == [] || !f.broken(pe[0].start)))
            && (r.Failed? ==> if Readable(f, ranges) then r.e == ReadFailed else FirstTrouble(f, ranges, r.e))
    ensures WantedRun(ranges, |f.data|, 0) <= |f.data|
    ensures r.Kept? ==> Prefix(r.chunks) == f.data[..WantedRun(ranges, |f.data|, 0)]
  {
    WantedRunFits(ranges, |f.data|, 0);
    hide Keeps, Wanted, PrefixIs, PeSpans, Prefix, WantedRun, Trouble;
    r := InspectReaderAt(f, ranges);
    if r.Failed? {
      return;
    }
    PrefixLength(r.chunks, ranges, f.data);
    var pe := PeSpans(Prefix(r.chunks));
    if |pe| == 0 {
      assert ranges + pe == ranges;
      return;
    }
    var extra := InspectReaderAt(f, pe);
    PeTrouble(f, f.data);
    hide Readable, FirstTrouble;
    if extra.Failed? {
      r := extra;
      return;
    }
    TogetherKeep(r.chunks, extra.chunks, ranges, pe, f.data);
    SamePrefix(r.chunks, extra.chunks);
    r := Kept(SortChunks(r.chunks + extra.chunks));
  }

  lemma {:induction false} WantedRunFits(ranges: seq<Span>, len: nat, n: nat)
    requires n <= len
    ensures n <= WantedRun(ranges, len, n) <= len
    decreases len - n
  {
    hide Wanted;
    if n < len && Wanted(ranges, n) {
      WantedRunFits(ranges, len, n + 1);
    }
  }

  /** Sorting is stable, so the chunk at the start of the file stays in front. */
  lemma SamePrefix(a: seq<Chunk>, b: seq<Chunk>)
    requires Prefix(a) != []
    ensures Prefix(SortChunks(a + b)) == Prefix(a)
  {
    assert (a + b)[0] == a[0];
  }

  lemma PrefixLength(chunks: seq<Chunk>, ranges: seq<Span>, file: seq<Byte>)
    requires PrefixIs(chunks, ranges, file)
    ensures WantedRun(ranges, |file|, 0) == |Prefix(chunks)| <= |file| && Prefix(chunks) == file[..|Prefix(chunks)|]
    ensures PeSpans(Prefix(chunks)) == if WantedRun(ranges, |file|, 0) < 0x40 then [] else PeSpans(file)
    ensures PeSpans(Prefix(chunks)) != [] ==> Prefix(chunks) != []
  {
    PeOfPrefix(file, |Prefix(chunks)|);
    WantedRunIs(ranges, |file|, 0, |Prefix(chunks)|);
  }

  // ---------------------------------------------------------------------
  // Telling PE from DOS executables

  datatype Kind = Unread(e: Error) | Pe | Dos | Other

  /** The signature "PE" and two zero bytes. */
  const PE: seq<Byte> := [80, 69, 0, 0]

  /** The file has the signature where its header says. */
  ghost predicate IsPe(file: seq<Byte>) {
    exists at: nat :: SignatureAt(file, at) && at + 4 <= |file| && file[at..at + 4] == PE
  }

  lemma SignatureWanted(ranges: seq<Span>, file: seq<Byte>, at: nat)
    requires SignatureAt(file, at)
    ensures forall x | at <= x < at + 4 :: Wanted(ranges + PeSpans(file), x)
  {
    PeIff(file);
    hide PeSpans, SignatureAt;
    forall x | at <= x < at + 4 ensures Wanted(ranges + PeSpans(file), x) {
      WantedAppend(ranges, Span(at, at + 4), x);
    }
  }

  lemma OneSignature(file: seq<Byte>, at: nat)
    requires SignatureAt(file, at)
    ensures IsPe(file) <==> at + 4 <= |file| && file[at..at + 4] == PE
  {
    hide PE;
    if IsPe(file) {
      var at': nat :| SignatureAt(file, at') && at' + 4 <= |file| && file[at'..at' + 4] == PE;
      WordOfBytes(at);
      WordOfBytes(at');
    }
  }

  /** What the first bytes and the window at the signature's offset say. */
  method ExecutableKind(chunks: seq<Chunk>, ghost ranges: seq<Span>, ghost file: seq<Byte>) returns (k: Kind)
    requires |file| <= MAX_OFFSET && Keeps(chunks, ranges, file)
    requires |Prefix(chunks)| <= |file| && Prefix(chunks) == file[..|Prefix(chunks)|]
    requires |Prefix(chunks)| >= 0x40 ==> forall at: nat, x | SignatureAt(file, at) && at <= x < at + 4 :: Wanted(ranges, x)
    ensures |Prefix(chunks)| >= 0x40 ==> k == if !MzHeader(file) then Other else if IsPe(file) then Pe else Dos
    ensures |Prefix(chunks)| < 0x40 ==> k == Other
  {
    hide Keeps, Wanted, IsPe, SignatureAt, Prefix, PeSpans;
    var data := Prefix(chunks);
    if |data| < 0x40 || data[0] != 77 || data[1] != 90 {
      return Other;
    }
    var spans := PeSpans(data);
    PeOfPrefix(file, |data|);
    PeIff(file);
    ghost var at: nat :| SignatureAt(file, at);
    var off := spans[0].start;
    OffsetFits(file, at);
    var signature, ok := Window(chunks, off, 4, ranges, file);
    OneSignature(file, at);
    k := if ok && signature == PE then Pe else Dos;
  }

  lemma OffsetFits(file: seq<Byte>, at: nat)
    requires SignatureAt(file, at)
    ensures at < 0x1_0000_0000 && PeSpans(file) == [Span(at, at + 4)]
  {
    PeIff(file);
  }

  /** The whole header is asked for, and reading fails where it says the signature is. */
  ghost predicate BrokenSignature(f: File, ranges: seq<Span>) {
    WantedRun(ranges, |f.data|, 0) >= 0x40 && exists at: nat :: SignatureAt(f.data, at) && f.broken(at)
  }

  lemma BrokenIff(f: File, ranges: seq<Span>, pe: seq<Span>)
    requires pe == if WantedRun(ranges, |f.data|, 0) < 0x40 then [] else PeSpans(f.data)
    ensures BrokenSignature(f, ranges) <==> pe != [] && f.broken(pe[0].start)
  {
    PeIff(f.data);
    hide PeSpans, WantedRun, SignatureAt;
    if pe != [] {
      var at: nat :| SignatureAt(f.data, at);
      assert pe == [Span(at, at + 4)];
      forall at': nat | SignatureAt(f.data, at') ensures at' == at {
        assert pe == [Span(at', at' + 4)];
      }
    }
  }

  /** A regular file whose ranges ask for a whole header: a PE executable is told from a DOS
      one by the signature at the offset in the header, wherever in the file that is. */
  method RegularKind(f: File, ranges: seq<Span>) returns (k: Kind)
    requires |f.data| <= MAX_OFFSET
    ensures k.Unread? <==> !Readable(f, ranges) || BrokenSignature(f, ranges)
    ensures !k.Unread? ==> k == if WantedRun(ranges, |f.data|, 0) < 0x40 || !MzHeader(f.data) then Other
                               else if IsPe(f.data) then Pe else Dos
  {
    hide *;
    var r := InspectRegular(f, ranges);
    ghost var pe := if WantedRun(ranges, |f.data|, 0) < 0x40 then [] else PeSpans(f.data);
    BrokenIff(f, ranges, pe);
    if r.Failed? {
      return Unread(r.e);
    }
    if WantedRun(ranges, |f.data|, 0) >= 0x40 {
      forall at: nat | SignatureAt(f.data, at) ensures forall x | at <= x < at + 4 :: Wanted(ranges + pe, x) {
        SignatureWanted(ranges, f.data, at);
      }
    }
    k := ExecutableKind(r.chunks, ranges + pe, f.data);
  }

  // ---------------------------------------------------------------------
  // From a stream

  datatype Status = Fine | Ended | Broken(e: Error)

  function StatusOf(o: Outcome): Status {
    match o
    case All => Fine
    case End => Ended
    case Failure => Broken(ReadFailed)
    case Stall => Broken(NoProgress)
  }

  /** Read count bytes, keeping them or not: all of them, or to the end of the stream.  It
      stops early exactly when the stream does, an empty read being no progress. */
  method TransferReader(r: Reader, bufLen: nat, count: nat, keep: bool) returns (total: nat, captured: seq<Byte>, st: Status)
    requires bufLen > 0
    modifies r
    ensures var all := old(Concat(r.chunks));
            && total <= count && total <= |all| && all[total..] == Concat(r.chunks)
            && (keep ==> captured == all[..total]) && (!keep ==> captured == [])
    ensures st == StatusOf(Reading(old(r.Rest()), count))
    ensures st == Fine ==> total == count && LeftAfter(old(r.Rest()), r.Rest(), count)
    ensures st == Ended ==> Concat(r.chunks) == [] && !r.fails
  {
    hide Concat, Reading, LeftAfter, Given, Left;
    ghost var src := r.Rest();
    ghost var all := Concat(r.chunks);
    total, captured := 0, [];
    assert all[0..] == all;
    AllLeft(src);
    while total < count
      invariant total <= count && total <= |all| && all[total..] == Concat(r.chunks)
      invariant (keep ==> captured == all[..total]) && (!keep ==> captured == [])
      invariant LeftAfter(src, r.Rest(), total)
      decreases |Concat(r.chunks)| + |r.chunks|
    {
      var want := if bufLen < count - total then bufLen else count - total;
      ghost var before := r.Rest();
      StillToRead(src, before, total, count);
      var p, end := r.Read(want);
      Moved(all, total, p, Concat(r.chunks));
      if keep {
        captured := captured + p;
      }
      total := total + |p|;
      if end {
        LastRead(before, want, count - (total - |p|));
        st := if r.fails then Broken(ReadFailed) else Ended;
        return;
      }
      if |p| == 0 {
        EmptyRead(before, want, count - total);
        return total, captured, Broken(NoProgress);
      }
      NextRead(before, want);
      LeftTwice(src, before, r.Rest(), total - |p|, |p|);
    }
    StillToRead(src, r.Rest(), total, count);
    NothingAsked(r.Rest());
    st := Fine;
  }

  lemma StillToRead(src: Source, rest: Source, total: nat, count: nat)
    requires LeftAfter(src, rest, total) && total <= count
    ensures Reading(src, count) == Reading(rest, count - total)
  {
  }

  lemma Moved(all: seq<Byte>, total: nat, p: seq<Byte>, rest: seq<Byte>)
    requires total <= |all| && all[total..] == p + rest
    ensures total + |p| <= |all| && all[total + |p|..] == rest && all[..total + |p|] == all[..total] + p
  {
    assert all[total..][|p|..] == all[total + |p|..];
    assert all[total..][..|p|] == all[total..total + |p|];
  }

  /** How far the spans make a reader at pos go, and whether it stops there because the
      next bytes are too many to keep. */
  datatype Aim = Aim(to: nat, wide: bool)

  function AimOf(pos: nat, spans: seq<Span>): Aim
    decreases |spans|
  {
    if spans == [] then Aim(pos, false)
    else if spans[0].end <= pos then AimOf(pos, spans[1..])
    else
      var start := if spans[0].start > pos then spans[0].start else pos;
      if spans[0].end - start > MAX_OFFSET then Aim(start, true) else AimOf(spans[0].end, spans[1..])
  }

  /** The same by positions: past pos nothing is asked for from aim on, or a run begins there
      that is too wide, and none of the runs before is. */
  ghost predicate ReadsTo(pos: nat, ranges: seq<Span>, aim: Aim) {
    && pos <= aim.to
    && (aim.wide ==> WantedAll(ranges, aim.to) && (aim.to > pos ==> !Wanted(ranges, aim.to - 1)))
    && (!aim.wide ==> (forall z | aim.to <= z :: !Wanted(ranges, z)) && (aim.to > pos ==> Wanted(ranges, aim.to - 1)))
    && forall x: nat | pos <= x < aim.to :: !WantedAll(ranges, x)
  }

  /** More positions asked for from x on than an integer counts. */
  ghost predicate WantedAll(ranges: seq<Span>, x: nat) {
    forall z | x <= z <= x + MAX_OFFSET :: Wanted(ranges, z)
  }

  lemma {:induction false} GappedRest(spans: seq<Span>)
    requires Gapped(spans) && spans != []
    ensures Gapped(spans[1..])
    decreases |spans|
  {
    var n := |spans| - 1;
    if n > 0 {
      GappedRest(spans[..n]);
      assert spans[1..][..n - 1] == spans[..n][1..];
    }
  }

  /** The first span and the others, which lie past a gap. */
  ghost predicate FirstAndRest(spans: seq<Span>, s: Span, rest: seq<Span>) {
    && s.start < s.end && (forall z :: Wanted(spans, z) <==> InSpan(s, z) || Wanted(rest, z))
    && forall z | z <= s.end :: !Wanted(rest, z)
  }

  lemma SplitFirst(spans: seq<Span>)
    requires Gapped(spans) && spans != []
    ensures FirstAndRest(spans, spans[0], spans[1..]) && Gapped(spans[1..])
  {
    GappedRest(spans);
    GappedAt(spans, 0);
    assert spans == [spans[0]] + spans[1..];
    forall z ensures Wanted(spans, z) <==> InSpan(spans[0], z) || Wanted(spans[1..], z) {
      WantedCons(spans[0], spans[1..], z);
    }
  }

  lemma AimPassed(pos: nat, spans: seq<Span>, s: Span, rest: seq<Span>, aim: Aim)
    requires FirstAndRest(spans, s, rest) && s.end <= pos && ReadsTo(pos, rest, aim)
    ensures ReadsTo(pos, spans, aim)
  {
    hide Wanted;
    forall x: nat | pos <= x < aim.to ensures !WantedAll(spans, x) {
      assert !WantedAll(rest, x);
      var z :| x <= z <= x + MAX_OFFSET && !Wanted(rest, z);
      assert !Wanted(spans, z);
    }
  }

  lemma AimWide(pos: nat, spans: seq<Span>, s: Span, rest: seq<Span>, start: nat)
    requires FirstAndRest(spans, s, rest) && s.end > pos && start == (if s.start > pos then s.start else pos)
    requires s.end - start > MAX_OFFSET
    ensures ReadsTo(pos, spans, Aim(start, true))
  {
    hide Wanted;
    forall x: nat | pos <= x < start ensures !WantedAll(spans, x) {
      assert !Wanted(spans, x);
    }
  }

  lemma AimFurther(pos: nat, spans: seq<Span>, s: Span, rest: seq<Span>, aim: Aim)
    requires FirstAndRest(spans, s, rest) && s.end > pos && s.end - (if s.start > pos then s.start else pos) <= MAX_OFFSET
    requires ReadsTo(s.end, rest, aim)
    ensures ReadsTo(pos, spans, aim)
  {
    hide Wanted;
    forall x: nat | pos <= x < aim.to ensures !WantedAll(spans, x) {
      if x < s.start {
        assert !Wanted(spans, x);
      } else if x < s.end {
        assert !Wanted(spans, s.end);
      } else {
        assert !WantedAll(rest, x);
        var z :| x <= z <= x + MAX_OFFSET && !Wanted(rest, z);
        assert !Wanted(spans, z);
      }
    }
    if aim.wide {
      assert Wanted(rest, aim.to);
    }
  }

  /** The reader's aim is what the positions asked for make it. */
  lemma {:induction false} AimIs(pos: nat, spans: seq<Span>)
    requires Gapped(spans)
    ensures ReadsTo(pos, spans, AimOf(pos, spans))
    decreases |spans|
  {
    hide Gapped, ReadsTo, FirstAndRest, Wanted;
    if spans == [] {
      NoAim(pos);
    } else {
      SplitFirst(spans);
      var s, rest := spans[0], spans[1..];
      var start := if s.start > pos then s.start else pos;
      if s.end <= pos {
        AimIs(pos, rest);
        AimPassed(pos, spans, s, rest, AimOf(pos, rest));
      } else if s.end - start > MAX_OFFSET {
        AimWide(pos, spans, s, rest, start);
      } else {
        AimIs(s.end, rest);
        AimFurther(pos, spans, s, rest, AimOf(s.end, rest));
      }
    }
  }

  lemma NoAim(pos: nat)
    ensures ReadsTo(pos, [], Aim(pos, false))
  {
  }

  /** What of span s lies before pos is already kept. */
  ghost predicate Behind(chunks: seq<Chunk>, s: Span, pos: nat) {
    forall x | InSpan(s, x) && x < pos :: Holds(chunks, x)
  }

  /** One more span of the stream: the part of it from start to its end or the file's. */
  lemma AddStreamChunk(chunks: seq<Chunk>, spans: seq<Span>, s: Span, pos: nat, data: seq<Byte>, file: seq<Byte>)
    requires Keeps(chunks, spans, file) && Behind(chunks, s, pos)
    requires var start := if s.start > pos then s.start else pos;
             && Before(chunks, start) && start <= |file| && start < s.end
             && data == file[start..if s.end < |file| then s.end else |file|]
    ensures var start := if s.start > pos then s.start else pos;
            var r := if |data| != 0 then chunks + [Chunk(start, data)] else chunks;
            Keeps(r, spans + [s], file) && Before(r, start)
  {
    var start := if s.start > pos then s.start else pos;
    var c := Chunk(start, data);
    forall x ensures InChunk(c, x) <==> start <= x < |file| && InSpan(s, x) {}
    forall x ensures Holds(chunks + [c], x) <==> 0 <= x < |file| && Wanted(spans + [s], x) {
      HoldsAppend(chunks, c, x);
      WantedAppend(spans, s, x);
    }
    if |data| == 0 {
      forall x ensures Holds(chunks, x) <==> 0 <= x < |file| && Wanted(spans + [s], x) {
        HoldsAppend(chunks, c, x);
      }
    }
  }

  /** A span with nothing of the file past pos adds nothing. */
  lemma SkipSpan(chunks: seq<Chunk>, spans: seq<Span>, s: Span, pos: nat, file: seq<Byte>)
    requires Keeps(chunks, spans, file) && Behind(chunks, s, pos) && (s.end <= pos || |file| <= pos || |file| <= s.start)
    ensures Keeps(chunks, spans + [s], file)
  {
    forall x ensures Holds(chunks, x) <==> 0 <= x < |file| && Wanted(spans + [s], x) {
      WantedAppend(spans, s, x);
    }
  }

  /** After the end of the file all further spans add nothing. */
  lemma {:induction false} SkipRest(chunks: seq<Chunk>, wanted: seq<Span>, rest: seq<Span>, file: seq<Byte>)
    requires Keeps(chunks, wanted, file) && forall j | 0 <= j < |rest| :: Behind(chunks, rest[j], |file|)
    ensures Keeps(chunks, wanted + rest, file)
    decreases |rest|
  {
    hide Keeps, Behind;
    if rest == [] {
      assert wanted + rest == wanted;
    } else {
      SkipSpan(chunks, wanted, rest[0], |file|, file);
      SkipRest(chunks, wanted + [rest[0]], rest[1..], file);
      assert wanted + [rest[0]] + rest[1..] == wanted + rest;
    }
  }

  /** Between two spans of a stream. */
  ghost predicate Streaming(chunks: seq<Chunk>, wanted: seq<Span>, spans: seq<Span>, i: nat, pos: nat, file: seq<Byte>) {
    && Gapped(spans) && i <= |spans| && pos <= |file|
    && Keeps(chunks, wanted + spans[..i], file) && Before(chunks, pos)
    && forall j | i <= j < |spans| :: Behind(chunks, spans[j], pos)
  }

  /** A span that ends before pos. */
  lemma StreamSkip(chunks: seq<Chunk>, wanted: seq<Span>, spans: seq<Span>, i: nat, pos: nat, file: seq<Byte>)
    requires Streaming(chunks, wanted, spans, i, pos, file) && i < |spans| && spans[i].end <= pos
    ensures Streaming(chunks, wanted, spans, i + 1, pos, file)
  {
    SkipSpan(chunks, wanted + spans[..i], spans[i], pos, file);
    assert wanted + spans[..i + 1] == wanted + spans[..i] + [spans[i]];
  }

  /** Bytes up to a span's start are passed over. */
  lemma StreamGap(chunks: seq<Chunk>, wanted: seq<Span>, spans: seq<Span>, i: nat, pos: nat, to: nat, file: seq<Byte>)
    requires Streaming(chunks, wanted, spans, i, pos, file) && i < |spans| && pos <= to <= spans[i].start && to <= |file|
    ensures Streaming(chunks, wanted, spans, i, to, file)
  {
    GappedAt(spans, i);
  }

  /** A span's bytes are kept. */
  lemma StreamKeep(chunks: seq<Chunk>, wanted: seq<Span>, spans: seq<Span>, i: nat, pos: nat, data: seq<Byte>, file: seq<Byte>)
    requires Streaming(chunks, wanted, spans, i, pos, file) && i < |spans| && spans[i].start <= pos < spans[i].end
    requires data == file[pos..if spans[i].end < |file| then spans[i].end else |file|]
    ensures Streaming(if |data| != 0 then chunks + [Chunk(pos, data)] else chunks, wanted, spans, i + 1, pos + |data|, file)
  {
    AddStreamChunk(chunks, wanted + spans[..i], spans[i], pos, data, file);
    assert wanted + spans[..i + 1] == wanted + spans[..i] + [spans[i]];
    GappedAt(spans, i);
  }

  /** At the end of the file nothing more is wanted of it. */
  lemma StreamEnds(chunks: seq<Chunk>, wanted: seq<Span>, spans: seq<Span>, i: nat, file: seq<Byte>)
    requires Streaming(chunks, wanted, spans, i, |file|, file)
    ensures Keeps(chunks, wanted + spans, file)
  {
    hide Keeps;
    SkipRest(chunks, wanted + spans[..i], spans[i..], file);
    assert wanted + spans[..i] + spans[i..] == wanted + spans;
  }

  /** What a reader with that aim comes to. */
  function Verdict(src: Source, aim: Aim): Status {
    if Reading(src, aim.to) == All && aim.wide then Broken(TooWide) else StatusOf(Reading(src, aim.to))
  }

  lemma AimOfOne(pos: nat, s: Span)
    ensures var start := if s.start > pos then s.start else pos;
            AimOf(pos, [s]) == if s.end <= pos then Aim(pos, false)
                               else if s.end - start > MAX_OFFSET then Aim(start, true)
                               else Aim(s.end, false)
  {
    assert [s][1..] == [];
  }

  lemma AimOfMore(pos: nat, spans: seq<Span>)
    requires spans != []
    ensures var first := AimOf(pos, [spans[0]]);
            AimOf(pos, spans) == if first.wide then first else AimOf(first.to, spans[1..])
  {
    AimOfOne(pos, spans[0]);
  }

  lemma {:induction false} AimIsAhead(pos: nat, spans: seq<Span>)
    ensures pos <= AimOf(pos, spans).to
    decreases |spans|
  {
    if spans != [] {
      AimIsAhead(if spans[0].end <= pos then pos else spans[0].end, spans[1..]);
    }
  }

  /** What stops a reader in the first span stops it in all of them. */
  lemma StopsInFirst(src: Source, pos: nat, spans: seq<Span>)
    requires spans != [] && Verdict(src, AimOf(pos, [spans[0]])) != Fine
    ensures Verdict(src, AimOf(pos, spans)) == Verdict(src, AimOf(pos, [spans[0]]))
  {
    hide AimOf, Reading;
    AimOfMore(pos, spans);
    var first := AimOf(pos, [spans[0]]);
    if !first.wide {
      AimIsAhead(first.to, spans[1..]);
      ReadingStops(src, first.to, AimOf(pos, spans).to);
    }
  }

  /** What has been read could be read. */
  lemma ReadSoFar(src: Source, rest: Source, at: nat)
    requires LeftAfter(src, rest, at)
    ensures Reading(src, at) == All && at <= |Concat(src.chunks)| && Concat(src.chunks)[at..] == Concat(rest.chunks)
  {
    NothingAsked(rest);
    assert Reading(src, at) == Reading(rest, at - at);
  }

  lemma EndedBy(src: Source, n: nat)
    requires Reading(src, n) == End
    ensures |Concat(src.chunks)| <= n
  {
  }

  /** Reading on in the file from position at. */
  method Advance(r: Reader, at: nat, count: nat, keep: bool, ghost src: Source, ghost file: seq<Byte>)
    returns (n: nat, captured: seq<Byte>, st: Status)
    requires LeftAfter(src, r.Rest(), at) && file == Concat(src.chunks)
    modifies r
    ensures n <= count && at + n <= |file| && (keep ==> captured == file[at..at + n])
    ensures st == StatusOf(Reading(src, at + count))
    ensures st == Fine ==> n == count && LeftAfter(src, r.Rest(), at + n)
    ensures st == Ended ==> at + n == |file|
  {
    hide Concat, LeftAfter, Reading, StatusOf;
    ghost var all, before := Concat(r.chunks), r.Rest();
    ReadSoFar(src, before, at);
    StillToRead(src, before, at, at + count);
    n, captured, st := TransferReader(r, 32 * 1024, count, keep);
    assert all[..n] == file[at..at + n];
    assert all[n..] == file[at + n..];
    if st == Fine {
      LeftTwice(src, before, r.Rest(), at, n);
    }
  }

  /** One span: passed over, read to its end, or as far as the stream goes. */
  method InspectSpan(r: Reader, spans: seq<Span>, i: nat, chunks: seq<Chunk>, pos: nat,
                     ghost wanted: seq<Span>, ghost src: Source, ghost file: seq<Byte>)
    returns (out: seq<Chunk>, to: nat, st: Status)
    requires i < |spans| && Streaming(chunks, wanted, spans, i, pos, file)
    requires LeftAfter(src, r.Rest(), pos) && file == Concat(src.chunks)
    modifies r
    ensures st == Verdict(src, AimOf(pos, [spans[i]]))
    ensures st == Fine ==> Streaming(out, wanted, spans, i + 1, to, file) && LeftAfter(src, r.Rest(), to)
    ensures st == Fine ==> to == AimOf(pos, [spans[i]]).to
    ensures st == Fine && chunks == [] && spans[i].start == pos ==> pos <= to <= |file| && out == [Chunk(pos, file[pos..to])]
    ensures st == Ended ==> Keeps(out, wanted + spans, file)
  {
    hide *;
    out, to := chunks, pos;
    var span := spans[i];
    SpanOf(out, wanted, spans, i, to, file);
    SpanVerdict(src, pos, span);
    ReadSoFar(src, r.Rest(), pos);
    if span.end <= to {
      StreamSkip(out, wanted, spans, i, to, file);
      return out, to, Fine;
    }
    if span.start > to {
      var n, _, st' := Advance(r, to, span.start - to, false, src, file);
      StreamGap(out, wanted, spans, i, to, to + n, file);
      to := to + n;
      if st' != Fine {
        if st' == Ended {
          StreamEnds(out, wanted, spans, i, file);
        }
        return out, to, st';
      }
      ReadSoFar(src, r.Rest(), to);
    }
    var start := if span.start > to then span.start else to;
    if span.end <= start {
      assert false;
    }
    var width := span.end - start;
    if width > MAX_OFFSET {
      return [], to, Broken(TooWide);
    }
    var n, captured, st' := Advance(r, to, width, true, src, file);
    if st'.Broken? {
      return out, to + n, st';
    }
    StreamKeep(out, wanted, spans, i, to, captured, file);
    if |captured| != 0 {
      out := out + [Chunk(start, captured)];
    }
    to := to + n;
    st := st';
    if st == Ended {
      StreamEnds(out, wanted, spans, i + 1, file);
    }
  }

  /** The verdict on one span, step by step. */
  lemma SpanVerdict(src: Source, pos: nat, s: Span)
    requires s.start < s.end
    ensures StatusOf(All) == Fine
    ensures var start := if s.start > pos then s.start else pos;
            var v := Verdict(src, AimOf(pos, [s]));
            if s.end <= pos then v == StatusOf(Reading(src, pos)) && AimOf(pos, [s]).to == pos
            else if Reading(src, start) != All then v == StatusOf(Reading(src, start))
            else if s.end - start > MAX_OFFSET then v == Broken(TooWide)
            else v == StatusOf(Reading(src, s.end)) && AimOf(pos, [s]).to == s.end
    ensures forall n | StatusOf(Reading(src, n)) == Fine :: Reading(src, n) == All
  {
    hide AimOf, Reading;
    AimOfOne(pos, s);
    var start := if s.start > pos then s.start else pos;
    if s.end > pos && Reading(src, start) != All {
      ReadingStops(src, start, s.end);
    }
  }

  /** Every span from pos on is kept, or the stream ends first; or what stopped the reader is
      the reason given. */
  method InspectStreamRanges(r: Reader, spans: seq<Span>, pos: nat, chunks: seq<Chunk>,
                             ghost wanted: seq<Span>, ghost src: Source, ghost file: seq<Byte>)
    returns (out: seq<Chunk>, to: nat, st: Status)
    requires Streaming(chunks, wanted, spans, 0, pos, file)
    requires LeftAfter(src, r.Rest(), pos) && file == Concat(src.chunks)
    modifies r
    ensures !st.Broken? ==> Keeps(out, wanted + spans, file)
    ensures st == Verdict(src, AimOf(pos, spans))
    ensures st == Fine ==> LeftAfter(src, r.Rest(), to) && Before(out, to) && to == AimOf(pos, spans).to
    ensures st == Fine && chunks == [] && |spans| == 1 && spans[0].start == pos ==>
              pos <= to <= |file| && out == [Chunk(pos, file[pos..to])]
  {
    hide *;
    out, to := chunks, pos;
    assert spans[0..] == spans;
    for i := 0 to |spans|
      invariant Streaming(out, wanted, spans, i, to, file) && LeftAfter(src, r.Rest(), to)
      invariant AimOf(to, spans[i..]) == AimOf(pos, spans) && (i == 0 ==> out == chunks && to == pos)
      invariant i == 1 && chunks == [] && spans[0].start == pos ==> pos <= to <= |file| && out == [Chunk(pos, file[pos..to])]
    {
      ghost var before := to;
      assert spans[i..][0] == spans[i] && spans[i..][1..] == spans[i + 1..];
      out, to, st := InspectSpan(r, spans, i, out, to, wanted, src, file);
      if st != Fine {
        StopsInFirst(src, before, spans[i..]);
        return;
      }
      FineIsNotWide(src, AimOf(before, [spans[i]]));
      AimOfMore(before, spans[i..]);
    }
    assert spans[|spans|..] == [];
    StreamDone(out, wanted, spans, to, file);
    ReadSoFar(src, r.Rest(), to);
    AimOfNone(src, to);
    st := Fine;
  }

  lemma AimOfNone(src: Source, pos: nat)
    ensures AimOf(pos, []) == Aim(pos, false) && (Reading(src, pos) == All ==> Verdict(src, Aim(pos, false)) == Fine)
  {
  }

  lemma FineIsNotWide(src: Source, aim: Aim)
    requires Verdict(src, aim) == Fine
    ensures !aim.wide && Reading(src, aim.to) == All
  {
  }

  lemma SpanOf(chunks: seq<Chunk>, wanted: seq<Span>, spans: seq<Span>, i: nat, pos: nat, file: seq<Byte>)
    requires Streaming(chunks, wanted, spans, i, pos, file) && i < |spans|
    ensures spans[i].start < spans[i].end
  {
    GappedAt(spans, i);
  }

  lemma StreamDone(chunks: seq<Chunk>, wanted: seq<Span>, spans: seq<Span>, pos: nat, file: seq<Byte>)
    requires Streaming(chunks, wanted, spans, |spans|, pos, file)
    ensures Keeps(chunks, wanted + spans, file) && Before(chunks, pos)
  {
    assert spans[..|spans|] == spans;
  }

  lemma StreamStart(spans: seq<Span>, file: seq<Byte>)
    requires Gapped(spans)
    ensures Streaming([], [], spans, 0, 0, file)
  {
    NothingKept(file);
    assert [] + spans[..0] == [];
  }

  lemma OneSpan(s: Span)
    requires s.start < s.end
    ensures Gapped([s])
  {
    assert [s][..0] == [];
  }

  /** After the prefix the other spans can follow. */
  lemma StreamMore(chunks: seq<Chunk>, wanted: seq<Span>, spans: seq<Span>, pos: nat, file: seq<Byte>)
    requires Keeps(chunks, wanted, file) && Before(chunks, pos) && Gapped(spans) && pos <= |file|
    requires forall x | 0 <= x < pos :: Wanted(wanted, x)
    ensures Streaming(chunks, wanted, spans, 0, pos, file)
  {
    assert wanted + spans[..0] == wanted;
  }

  /** Once the whole file is kept, further ranges make no difference. */
  lemma AllKept(chunks: seq<Chunk>, wanted: seq<Span>, more: seq<Span>, file: seq<Byte>)
    requires Keeps(chunks, wanted, file) && forall x | 0 <= x < |file| :: Wanted(wanted, x)
    ensures Keeps(chunks, wanted + more, file)
  {
    forall x | 0 <= x < |file| ensures Wanted(wanted + more, x) {
      WantedEither(wanted, more, x);
    }
  }

  lemma SameWanted(chunks: seq<Chunk>, before: seq<Span>, a: seq<Span>, b: seq<Span>, file: seq<Byte>)
    requires Keeps(chunks, before + a, file) && forall x :: Wanted(a, x) <==> Wanted(b, x)
    ensures Keeps(chunks, before + b, file)
  {
    forall x ensures Wanted(before + a, x) <==> Wanted(before + b, x) {
      WantedEither(before, a, x);
      WantedEither(before, b, x);
    }
  }

  lemma WantedFirst(n: nat)
    ensures forall x :: Wanted([Span(0, n)], x) <==> 0 <= x < n
  {
    forall x ensures Wanted([Span(0, n)], x) <==> 0 <= x < n {
      WantedCons(Span(0, n), [], x);
      assert [Span(0, n)] + [] == [Span(0, n)];
    }
  }

  /** The bytes at the offset in the header are kept, as far as the file has them. */
  ghost predicate SignatureKept(chunks: seq<Chunk>, file: seq<Byte>) {
    forall at: nat, x | SignatureAt(file, at) && at <= x < at + 4 && x < |file| :: Holds(chunks, x)
  }

  lemma KeepsSignature(chunks: seq<Chunk>, first: seq<Span>, ranges: seq<Span>, file: seq<Byte>)
    requires Keeps(chunks, first + (ranges + PeSpans(file)), file)
    ensures SignatureKept(chunks, file)
  {
    hide PeSpans, Wanted, SignatureAt;
    assert first + (ranges + PeSpans(file)) == (first + ranges) + PeSpans(file);
    forall at: nat, x | SignatureAt(file, at) && at <= x < at + 4 && x < |file| ensures Holds(chunks, x) {
      SignatureWanted(first + ranges, file, at);
    }
  }

  /** The result that the stream and the positions asked for lead to. */
  ghost predicate ComesTo(src: Source, prefixBytes: nat, spans: seq<Span>, res: Inspected) {
    if prefixBytes > MAX_OFFSET then Agrees(res, Broken(TooWide))
    else if Reading(src, prefixBytes) != All then Agrees(res, StatusOf(Reading(src, prefixBytes)))
    else exists aim :: ReadsTo(prefixBytes, spans, aim) && Agrees(res, Verdict(src, aim))
  }

  predicate Agrees(res: Inspected, st: Status) {
    if st.Broken? then res == Failed(st.e) else res.Kept?
  }

  /** A stream: what is kept is the context prefix, what the ranges ask for, and the
      signature's bytes if the prefix holds a whole header; unless the stream stalls or fails
      before the last of them, or one run of them is too wide. */
  method InspectStream(r: Reader, prefixBytes: nat, ranges: seq<Span>) returns (res: Inspected)
    modifies r
    ensures var file := old(Concat(r.chunks));
            var pe := if prefixBytes < 0x40 then [] else PeSpans(file);
            && (res.Kept? ==> Keeps(res.chunks, [Span(0, prefixBytes)] + (ranges + pe), file))
            && (res.Kept? && prefixBytes >= 0x40 ==> SignatureKept(res.chunks, file))
            && ComesTo(old(r.Rest()), prefixBytes, ranges + pe, res)
  {
    hide Keeps, Concat, Streaming, PeSpans, Wanted, Gapped, Before, AimOf, Reading, LeftAfter, ReadsTo, SignatureKept;
    ghost var src, file := r.Rest(), Concat(r.chunks);
    ghost var first := [Span(0, prefixBytes)];
    ghost var pe := if prefixBytes < 0x40 then [] else PeSpans(file);
    WantedFirst(prefixBytes);
    AllLeft(src);
    var data: seq<Chunk>, pos: nat := [], 0;
    if prefixBytes > 0 {
      OneSpan(Span(0, prefixBytes));
      StreamStart(first, file);
      AimOfOne(0, Span(0, prefixBytes));
      ReadSoFar(src, src, 0);
      var out, to, st := InspectStreamRanges(r, [Span(0, prefixBytes)], 0, [], [], src, file);
      assert [] + first == first;
      if st.Broken? {
        return Failed(st.e);
      }
      data, pos := out, to;
      if st == Ended {
        EndedBy(src, prefixBytes);
        AllKept(data, first, ranges + pe, file);
        if prefixBytes >= 0x40 {
          KeepsSignature(data, first, ranges, file);
        }
        return Kept(data);
      }
      PeOfPrefix(file, pos);
    } else {
      NoPrefix(file);
    }
    ReadSoFar(src, r.Rest(), pos);
    var spans := ranges + PeSpans(Prefix(data));
    PrefixRead(data, file, pos);
    assert PeSpans(Prefix(data)) == pe;
    var merged := MergeRanges(spans);
    StreamMore(data, first, merged, pos, file);
    var all, _, st := InspectStreamRanges(r, merged, pos, data, first, src, file);
    AimIs(pos, merged);
    SameAim(pos, merged, spans, AimOf(pos, merged));
    if st.Broken? {
      return Failed(st.e);
    }
    SameWanted(all, first, merged, spans, file);
    if prefixBytes >= 0x40 {
      KeepsSignature(all, first, ranges, file);
    }
    res := Kept(all);
  }

  /** The positions asked for leave only one aim. */
  lemma OneAim(pos: nat, ranges: seq<Span>, a: Aim, b: Aim)
    requires ReadsTo(pos, ranges, a) && ReadsTo(pos, ranges, b)
    ensures a == b
  {
    hide Wanted;
    assert a.wide ==> WantedAll(ranges, a.to) && Wanted(ranges, a.to);
    assert b.wide ==> WantedAll(ranges, b.to) && Wanted(ranges, b.to);
  }

  lemma SameAim(pos: nat, spans: seq<Span>, ranges: seq<Span>, aim: Aim)
    requires ReadsTo(pos, spans, aim) && forall x :: Wanted(spans, x) <==> Wanted(ranges, x)
    ensures ReadsTo(pos, ranges, aim)
  {
    forall x: nat ensures WantedAll(spans, x) <==> WantedAll(ranges, x) {}
  }

  lemma NoPrefix(file: seq<Byte>)
    ensures Keeps([], [Span(0, 0)], file) && Before([], 0) && PeSpans([]) == []
  {
    WantedFirst(0);
  }

  lemma PrefixRead(data: seq<Chunk>, file: seq<Byte>, pos: nat)
    requires pos <= |file| && (if pos == 0 then data == [] else data == [Chunk(0, file[0..pos])])
    ensures Prefix(data) == file[..pos]
  {
  }
}
