/** The block and unblock writers themselves, fixed record buffers filled byte by byte in
    front of the re-blocking output, and the two pipelines built from them. */
module BlockWriters {
  import opened Common
  import opened Records
  import opened Ebcdic
  import opened Blocking

  method TranslateBytes(p: array<Byte>, table: Byte -> Byte)
    modifies p
    ensures p[..] == Mapped(table, old(p[..]))
  {
    for i := 0 to p.Length
      invariant p[..i] == Mapped(table, old(p[..i]))
      invariant p[i..] == old(p[i..])
    {
      ghost var done := p[..i];
      p[i] := table(p[i]);
      assert p[..i + 1] == done + [table(old(p[i]))];
    }
  }

  lemma {:induction false} RecordsAppend(lines: seq<seq<Byte>>, line: seq<Byte>, width: nat, t: Table)
    ensures Concat(RecordsOf(lines + [line], width, t)) ==
            Concat(RecordsOf(lines, width, t)) + Translated(t, Padded(line, width))
    ensures Long(lines + [line], width) == Long(lines, width) + (if |line| > width then 1 else 0)
  {
    assert RecordsOf(lines + [line], width, t) == RecordsOf(lines, width, t) + [Translated(t, Padded(line, width))];
    ConcatAppend(RecordsOf(lines, width, t), Translated(t, Padded(line, width)));
    LongNext(lines, line, width);
  }

  class BlockWriter {
    const w: ObsWriter
    const record: array<Byte>
    const translate: Table
    var len: nat
    var overflow: bool
    var truncated: nat
    ghost var done: seq<seq<Byte>>  // the lines already written
    ghost var line: seq<Byte>       // the line being read

    ghost predicate Valid()
      reads this, record, w, w.w
    {
      && w.Valid() && record.Length > 0
      && NoBreaks(done) && NL !in line
      && len == |Cut(line, record.Length)| && record[..len] == Cut(line, record.Length)
      && (overflow <==> |line| > record.Length)
      && truncated == Long(done, record.Length)
      && w.total == Concat(RecordsOf(done, record.Length, translate))
    }

    /** Everything read. */
    ghost function Total(): seq<Byte>
      reads this
    {
      Unlines(done) + line
    }

    constructor (w: ObsWriter, cbs: nat, translate: Table)
      requires w.Valid() && w.total == [] && cbs > 0
      ensures Valid() && Total() == [] && this.w == w && record.Length == cbs && this.translate == translate
      ensures fresh(record)
    {
      this.w, this.translate := w, translate;
      record := new Byte[cbs](_ => 0);
      len, overflow, truncated := 0, false, 0;
      done, line := [], [];
    }

    method Pad()
      requires len <= record.Length
      modifies record, this`len
      ensures len == record.Length
      ensures record[..] == old(record[..len]) + Spaces(record.Length - old(len))
    {
      while len < record.Length
        invariant old(len) <= len <= record.Length
        invariant record[..len] == old(record[..len]) + Spaces(len - old(len))
      {
        ghost var sofar := record[..len];
        record[len] := SPACE;
        assert record[..len + 1] == sofar + [SPACE];
        len := len + 1;
      }
      assert record[..len] == record[..];
    }

    method Emit()
      requires Valid()
      modifies this, record, w, w.w
      ensures Valid() && done == old(done) + [old(line)] && line == []
    {
      hide Concat, Long, Unlines, RecordsOf, Mapped, Chunks, ToAscii, ToEbcdic;
      RecordsAppend(done, line, record.Length, translate);
      Pad();
      assert record[..] == Padded(line, record.Length);
      match translate {
        case NoTable =>
        case Table(f) => TranslateBytes(record, f);
      }
      assert record[..] == Translated(translate, Padded(line, record.Length));
      w.Write(record[..]);
      if overflow {
        truncated := truncated + 1;
      }
      len, overflow := 0, false;
      done, line := done + [line], [];
    }

    method WriteByte(c: Byte)
      requires Valid()
      modifies this, record, w, w.w
      ensures Valid() && Total() == old(Total()) + [c]
    {
      hide Concat, Long, Unlines, RecordsOf, Chunks;
      if c == NL {
        UnlinesAppend(done, line);
        Emit();
      } else {
        ghost var had := record[..len];
        if len < record.Length {
          record[len] := c;
          len := len + 1;
          assert record[..len] == had + [c];
        } else {
          overflow := true;
        }
        line := line + [c];
      }
    }

    method Write(p: seq<Byte>)
      requires Valid()
      modifies this, record, w, w.w
      ensures Valid() && Total() == old(Total()) + p
    {
      hide BlockWriter.Valid, BlockWriter.Total;
      for i := 0 to |p|
        invariant Valid() && Total() == old(Total()) + p[..i]
      {
        WriteByte(p[i]);
        assert p[..i + 1] == p[..i] + [p[i]];
      }
      assert p[..|p|] == p;
    }

    /** After the last byte: the output is the whole input blocked, and the truncation count
        is the number of lines that did not fit. */
    method Flush()
      requires Valid()
      modifies this, record, w, w.w
      ensures Valid()
      ensures w.total == Blocked(old(Total()), record.Length, translate)
      ensures truncated == Long(Lines(old(Total())), record.Length)
    {
      hide Concat, Long, Unlines, RecordsOf, Chunks, Lines;
      LinesOf(done, line);
      if len == 0 && !overflow {
        assert done + [] == done;
        return;
      }
      Emit();
    }
  }

  lemma {:induction false} TrimsAppend(records: seq<seq<Byte>>, r: seq<Byte>)
    ensures Unlines(Trims(records + [r])) == Unlines(Trims(records)) + Trim(r) + [NL]
  {
    assert Trims(records + [r]) == Trims(records) + [Trim(r)];
    UnlinesAppend(Trims(records), Trim(r));
  }

  class UnblockWriter {
    const w: ObsWriter
    const record: array<Byte>
    var len: nat
    ghost var done: seq<seq<Byte>>  // the records already written as lines

    ghost predicate Valid()
      reads this, record, w, w.w
    {
      && w.Valid() && len < record.Length
      && (forall i | 0 <= i < |done| :: |done[i]| == record.Length)
      && w.total == Unlines(Trims(done))
    }

    /** Everything read. */
    ghost function Total(): seq<Byte>
      requires len <= record.Length
      reads this, record
    {
      Concat(done) + record[..len]
    }

    constructor (w: ObsWriter, cbs: nat)
      requires w.Valid() && w.total == [] && cbs > 0
      ensures Valid() && Total() == [] && this.w == w && record.Length == cbs && fresh(record)
    {
      this.w := w;
      record := new Byte[cbs](_ => 0);
      len, done := 0, [];
    }

    method Emit()
      requires len <= record.Length && w.Valid()
      modifies this`len, w, w.w
      ensures len == 0 && w.Valid()
      ensures w.total == old(w.total) + Trim(record[..old(len)]) + [NL]
    {
      hide Concat, Chunks;
      var end := len;
      while end > 0 && record[end - 1] == SPACE
        invariant 0 <= end <= len && Trim(record[..end]) == Trim(record[..len])
      {
        assert record[..end][..end - 1] == record[..end - 1];
        end := end - 1;
      }
      w.Write(record[..end]);
      w.Write([NL]);
      len := 0;
    }

    method WriteByte(c: Byte)
      requires Valid()
      modifies this, record, w, w.w
      ensures Valid() && Total() == old(Total()) + [c]
    {
      hide Concat, Trim, Trims, Unlines, Chunks;
      ghost var had := record[..len];
      record[len] := c;
      len := len + 1;
      assert record[..len] == had + [c];
      if len == record.Length {
        TrimsAppend(done, record[..]);
        ConcatAppend(done, record[..]);
        assert record[..len] == record[..];
        done := done + [record[..]];
        Emit();
      }
    }

    method Write(p: seq<Byte>)
      requires Valid()
      modifies this, record, w, w.w
      ensures Valid() && Total() == old(Total()) + p
    {
      hide UnblockWriter.Total, ObsWriter.Valid, Concat, Trim, Trims, Unlines;
      for i := 0 to |p|
        invariant Valid() && Total() == old(Total()) + p[..i]
      {
        WriteByte(p[i]);
        assert p[..i + 1] == p[..i] + [p[i]];
      }
      assert p[..|p|] == p;
    }

    /** After the last byte: the output is the whole input unblocked. */
    method Flush()
      requires Valid()
      modifies this, record, w, w.w
      ensures w.Valid() && w.total == Unblocked(old(Total()), record.Length)
    {
      hide Concat, Trim, Trims, Unlines, Chunks, ObsWriter.Valid;
      ChunksOfParts(done, record[..len], record.Length);
      if len == 0 {
        assert done + [] == done;
        return;
      }
      TrimsAppend(done, record[..len]);
      Emit();
    }
  }

  // ---------------------------------------------------------------------
  // The pipelines

  /** dd conv=block (or conv=ebcdic, conv=ibm): lines to records, records to output blocks,
      whatever chunks the input arrives in. */
  method RunBlock(chunks: seq<seq<Byte>>, cbs: nat, obs: nat, translate: Table)
    returns (blocks: seq<seq<Byte>>, full: nat, partial: nat, truncated: nat)
    requires cbs > 0 && obs > 0
    ensures var out := Blocked(Concat(chunks), cbs, translate);
            && blocks == Chunks(out, obs)
            && full == |out| / obs && partial == (if |out| % obs == 0 then 0 else 1)
    ensures truncated == Long(Lines(Concat(chunks)), cbs)
  {
    hide Concat, Chunks, Blocked, Long, Lines, BlockWriter.Total, BlockWriter.Valid;
    var counter := new Counter();
    var blocker := new ObsWriter(counter, obs);
    var conv := new BlockWriter(blocker, cbs, translate);
    ConcatNothing<Byte>();
    for i := 0 to |chunks|
      invariant conv.w == blocker && blocker.w == counter && conv.translate == translate
      invariant conv.record.Length == cbs && blocker.obs == obs
      invariant fresh(conv) && fresh(conv.record) && fresh(blocker) && fresh(counter)
      invariant conv.Valid() && conv.Total() == Concat(chunks[..i])
    {
      ConcatAppend(chunks[..i], chunks[i]);
      assert chunks[..i + 1] == chunks[..i] + [chunks[i]];
      conv.Write(chunks[i]);
    }
    assert chunks[..|chunks|] == chunks;
    conv.Flush();
    StillValid(conv);
    blocker.Flush();
    blocks, full, partial, truncated := counter.records, blocker.full, blocker.partial, conv.truncated;
  }

  lemma StillValid(conv: BlockWriter)
    requires conv.Valid()
    ensures conv.w.Valid()
  {
  }

  /** One input chunk of conv=ascii, translated in its own buffer. */
  method ConvertAscii(chunk: seq<Byte>) returns (p: seq<Byte>)
    ensures p == Mapped(ToAscii, chunk)
  {
    hide ToAscii;
    var buf := new Byte[|chunk|](i requires 0 <= i < |chunk| => chunk[i]);
    assert buf[..] == chunk;
    TranslateBytes(buf, ToAscii);
    p := buf[..];
  }

  /** dd conv=ascii: bytes translated, records back to lines. */
  method RunAscii(chunks: seq<seq<Byte>>, cbs: nat, obs: nat)
    returns (blocks: seq<seq<Byte>>, full: nat, partial: nat)
    requires cbs > 0 && obs > 0
    ensures var out := Unblocked(Mapped(ToAscii, Concat(chunks)), cbs);
            && blocks == Chunks(out, obs)
            && full == |out| / obs && partial == (if |out| % obs == 0 then 0 else 1)
  {
    hide Concat, Chunks, Unblocked, Mapped, ToAscii, UnblockWriter.Total, ObsWriter.Valid, Unlines, Trims;
    var counter := new Counter();
    var blocker := new ObsWriter(counter, obs);
    var conv := new UnblockWriter(blocker, cbs);
    ConcatNothing<Byte>();
    for i := 0 to |chunks|
      invariant conv.w == blocker && blocker.w == counter
      invariant conv.record.Length == cbs && blocker.obs == obs
      invariant fresh(conv) && fresh(conv.record) && fresh(blocker) && fresh(counter)
      invariant conv.Valid() && conv.Total() == Mapped(ToAscii, Concat(chunks[..i]))
    {
      ConcatAppend(chunks[..i], chunks[i]);
      assert chunks[..i + 1] == chunks[..i] + [chunks[i]];
      assert Mapped(ToAscii, Concat(chunks[..i]) + chunks[i]) == Mapped(ToAscii, Concat(chunks[..i])) + Mapped(ToAscii, chunks[i]);
      var p := ConvertAscii(chunks[i]);
      conv.Write(p);
    }
    assert chunks[..|chunks|] == chunks;
    conv.Flush();
    blocker.Flush();
    blocks, full, partial := counter.records, blocker.full, blocker.partial;
  }

  /** A run of conv=ebcdic whose output blocks are read one by one by a run of conv=ascii
      prints the surviving lines. */
  method ThereAndBack(chunks: seq<seq<Byte>>, cbs: nat, obs: nat, obs': nat) returns (blocks: seq<seq<Byte>>)
    requires cbs > 0 && obs > 0 && obs' > 0
    ensures Concat(blocks) == Unlines(Survivors(Lines(Concat(chunks)), cbs))
  {
    hide Chunks, Blocked, Unblocked, Mapped, ToAscii, ToEbcdic, Lines, Unlines, Survivors;
    var tape, _, _, _ := RunBlock(chunks, cbs, obs, Table(ToEbcdic));
    ChunksJoin(Blocked(Concat(chunks), cbs, Table(ToEbcdic)), obs);
    var printed, _, _ := RunAscii(tape, cbs, obs');
    blocks := printed;
    ChunksJoin(Unblocked(Mapped(ToAscii, Concat(tape)), cbs), obs');
    EbcdicThenAscii(Concat(chunks), cbs);
  }
}
