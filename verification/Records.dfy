/** dd's output side: every write re-blocked into records of obs bytes, counted as full or
    partial, through a byte counter into the sink. */
module Records {
  import opened Common

  /** The reference: a text cut into records of n, the last one possibly shorter. */
  function Chunks<T>(s: seq<T>, n: nat): seq<seq<T>>
    requires n > 0
    decreases |s|
  {
    if s == [] then [] else if |s| <= n then [s] else [s[..n]] + Chunks(s[n..], n)
  }

  /** The reference is right: put together the records are the text. */
  lemma {:induction false} ChunksJoin<T>(s: seq<T>, n: nat)
    requires n > 0
    ensures Concat(Chunks(s, n)) == s
    decreases |s|
  {
    hide Concat;
    ConcatNothing<T>();
    if s == [] {
    } else if |s| <= n {
      ConcatCons(s, []);
      assert [s] + [] == [s];
    } else {
      ChunksJoin(s[n..], n);
      ConcatCons(s[..n], Chunks(s[n..], n));
    }
  }

  /** Every record but the last is whole, and none is empty. */
  lemma {:induction false} ChunksWhole<T>(s: seq<T>, n: nat, i: nat)
    requires n > 0 && i < |Chunks(s, n)|
    ensures 0 < |Chunks(s, n)[i]| <= n
    ensures i + 1 < |Chunks(s, n)| ==> |Chunks(s, n)[i]| == n
    decreases |s|
  {
    if |s| > n && i > 0 {
      ChunksWhole(s[n..], n, i - 1);
    }
  }

  /** Full records followed by less than one more. */
  lemma {:induction false} ChunksOfParts<T>(records: seq<seq<T>>, buf: seq<T>, n: nat)
    requires n > 0 && |buf| < n && forall i | 0 <= i < |records| :: |records[i]| == n
    ensures Chunks(Concat(records) + buf, n) == records + (if buf == [] then [] else [buf])
    decreases |records|
  {
    hide Chunks;
    if records == [] {
      assert Concat(records) + buf == buf;
      LastChunk(buf, n);
    } else {
      var rest := records[1..];
      ChunksOfParts(rest, buf, n);
      FirstChunk(records[0], Concat(rest) + buf, n);
      assert Concat(records) + buf == records[0] + (Concat(rest) + buf);
      assert records == [records[0]] + rest;
    }
  }

  lemma LastChunk<T>(r: seq<T>, n: nat)
    requires n > 0 && |r| < n
    ensures Chunks(r, n) == if r == [] then [] else [r]
  {
  }

  lemma FirstChunk<T>(r: seq<T>, rest: seq<T>, n: nat)
    requires n > 0 && |r| == n
    ensures Chunks(r + rest, n) == [r] + Chunks(rest, n)
  {
    var s := r + rest;
    assert s[..n] == r && s[n..] == rest;
    if rest == [] {
      assert s == r;
    }
  }

  lemma {:induction false} RecordsLength<T>(records: seq<seq<T>>, n: nat)
    requires forall i | 0 <= i < |records| :: |records[i]| == n
    ensures |Concat(records)| == n * |records|
  {
    if records != [] {
      RecordsLength(records[1..], n);
      assert n * |records| == n + n * (|records| - 1);
    }
  }

  // ---------------------------------------------------------------------
  // The writers

  /** countWriter in front of an error-free sink: the records as they are written, and
      the running byte count. */
  class Counter {
    var records: seq<seq<Byte>>
    var n: nat

    constructor ()
      ensures records == [] && n == 0
    {
      records, n := [], 0;
    }

    method Write(p: seq<Byte>)
      modifies this
      ensures records == old(records) + [p] && n == old(n) + |p|
    {
      records := records + [p];
      n := n + |p|;
    }
  }

  class ObsWriter {
    const w: Counter
    const obs: nat
    var buf: seq<Byte>
    var full: nat
    var partial: nat
    ghost var total: seq<Byte>  // everything handed to Write

    ghost predicate Valid()
      reads this, w
    {
      && obs > 0 && |buf| < obs
      && (forall i | 0 <= i < |w.records| :: |w.records[i]| == obs)
      && Concat(w.records) + buf == total
      && full == |w.records| && partial == 0
      && w.n + |buf| == |total|
    }

    constructor (w: Counter, obs: nat)
      requires obs > 0 && w.records == [] && w.n == 0
      ensures Valid() && total == [] && this.w == w && this.obs == obs
    {
      this.w, this.obs := w, obs;
      buf, full, partial, total := [], 0, 0, [];
    }

    /** A full record goes out. */
    lemma RecordOut(r: seq<Byte>)
      ensures Concat(w.records + [r]) == Concat(w.records) + r
    {
      ConcatAppend(w.records, r);
    }

    method Write(p: seq<Byte>)
      requires Valid()
      modifies this, w
      ensures Valid() && total == old(total) + p
    {
      hide Concat;
      var rest := p;
      while |rest| > 0
        invariant Valid() && total + rest == old(total) + p
        decreases |rest|
      {
        if |buf| == 0 && |rest| >= obs {
          RecordOut(rest[..obs]);
          w.Write(rest[..obs]);
          full := full + 1;
          assert rest == rest[..obs] + rest[obs..];
          total := total + rest[..obs];
          rest := rest[obs..];
        } else {
          var n := if obs - |buf| < |rest| then obs - |buf| else |rest|;
          assert rest == rest[..n] + rest[n..];
          RecordOut(buf + rest[..n]);
          total := total + rest[..n];
          buf := buf + rest[..n];
          rest := rest[n..];
          if |buf| == obs {
            w.Write(buf);
            full := full + 1;
            buf := [];
          }
        }
      }
    }

    /** What dd reports after the last write: the records are the reference's, the counts
        are those of whole and broken records, and every byte was counted. */
    method Flush()
      requires Valid()
      modifies this, w
      ensures w.records == Chunks(old(total), obs)
      ensures full == |old(total)| / obs
      ensures partial == if |old(total)| % obs == 0 then 0 else 1
      ensures w.n == |old(total)| && total == old(total) && buf == []
    {
      hide Concat, Chunks;
      ChunksOfParts(w.records, buf, obs);
      RecordsLength(w.records, obs);
      QuotientIs(|total|, obs, |w.records|, |buf|);
      if |buf| == 0 {
        assert w.records + [] == w.records;
        return;
      }
      w.Write(buf);
      partial := partial + 1;
      buf := [];
    }
  }

  /** The payload in any chunks: records and counts depend on its bytes only. */
  method Reblock(chunks: seq<seq<Byte>>, obs: nat) returns (records: seq<seq<Byte>>, full: nat, partial: nat, n: nat)
    requires obs > 0
    ensures var s := Concat(chunks);
            && records == Chunks(s, obs)
            && full == |s| / obs && partial == (if |s| % obs == 0 then 0 else 1) && n == |s|
  {
    hide Concat, Chunks;
    var counter := new Counter();
    var w := new ObsWriter(counter, obs);
    ConcatNothing<Byte>();
    for i := 0 to |chunks|
      invariant fresh(w) && fresh(counter) && w.w == counter && w.obs == obs && w.Valid()
      invariant w.total == Concat(chunks[..i])
    {
      ConcatAppend(chunks[..i], chunks[i]);
      assert chunks[..i + 1] == chunks[..i] + [chunks[i]];
      w.Write(chunks[i]);
    }
    assert chunks[..|chunks|] == chunks;
    w.Flush();
    records, full, partial, n := counter.records, w.full, w.partial, counter.n;
  }
}
