/** Readers, as cut and file consume them. */
module Streams {
  import opened Common

  /** What one read with room for `space` bytes gives out of the chunks. */
  function Given(chunks: seq<seq<Byte>>, space: nat): seq<Byte> {
    if chunks == [] then []
    else if |chunks[0]| <= space then chunks[0]
    else chunks[0][..space]
  }

  function Left(chunks: seq<seq<Byte>>, space: nat): seq<seq<Byte>> {
    if chunks == [] then []
    else if |chunks[0]| <= space then chunks[1..]
    else [chunks[0][space..]] + chunks[1..]
  }

  /** The bytes to come, and how their end comes: with the last of them or after, and as
      the end of the file or as an error. */
  datatype Source = Source(chunks: seq<seq<Byte>>, eager: bool, fails: bool)

  /** A source of bytes: it gives out its chunks as far as there is room, and then ends or
      fails, with the last bytes (if eager) or after them. */
  class Reader {
    var chunks: seq<seq<Byte>>
    const fails: bool
    const eager: bool

    constructor (chunks: seq<seq<Byte>>, fails: bool, eager: bool)
      ensures this.chunks == chunks && this.fails == fails && this.eager == eager
    {
      this.chunks, this.fails, this.eager := chunks, fails, eager;
    }

    function Rest(): Source
      reads this
    {
      Source(chunks, eager, fails)
    }

    method Read(space: nat) returns (p: seq<Byte>, end: bool)
      requires space > 0
      modifies this
      ensures p == Given(old(chunks), space) && chunks == Left(old(chunks), space)
      ensures end <==> old(chunks) == [] || (eager && chunks == [])
      ensures |p| <= space && p + Concat(chunks) == old(Concat(chunks))
      ensures end ==> Concat(chunks) == []
      ensures !end ==> |Concat(chunks)| + |chunks| < old(|Concat(chunks)| + |chunks|)
    {
      if chunks == [] {
        return [], true;
      }
      var c := chunks[0];
      if |c| <= space {
        p, chunks := c, chunks[1..];
        end := eager && chunks == [];
      } else {
        p, end := c[..space], false;
        var rest := chunks[1..];
        chunks := [c[space..]] + rest;
        assert chunks[1..] == rest;
        assert c == c[..space] + c[space..];
      }
    }
  }

  /** Before n bytes are out, a read gives nothing although the end has not come. */
  predicate Stalls(chunks: seq<seq<Byte>>, eager: bool, n: int) {
    && n > 0 && chunks != []
    && ((chunks[0] == [] && !(eager && |chunks| == 1)) || Stalls(chunks[1..], eager, n - |chunks[0]|))
  }

  /** The end comes before n bytes are out, or with the last of them. */
  predicate Ends(chunks: seq<seq<Byte>>, eager: bool, n: int) {
    || |Concat(chunks)| < n
    || (|Concat(chunks)| == n > 0 && eager && chunks[|chunks| - 1] != [])
  }

  /** What asking for n bytes comes to. */
  datatype Outcome = All | End | Failure | Stall

  function Reading(src: Source, n: int): Outcome {
    if Stalls(src.chunks, src.eager, n) then Stall
    else if Ends(src.chunks, src.eager, n) then if src.fails then Failure else End
    else All
  }

  /** rest is what is left of src after n bytes. */
  ghost predicate LeftAfter(src: Source, rest: Source, n: nat) {
    && n <= |Concat(src.chunks)| && Concat(src.chunks)[n..] == Concat(rest.chunks)
    && src.fails == rest.fails
    && forall m: int | m >= n :: Reading(src, m) == Reading(rest, m - n)
  }

  lemma AllLeft(src: Source)
    ensures LeftAfter(src, src, 0)
  {
  }

  lemma LeftTwice(a: Source, b: Source, c: Source, n: nat, m: nat)
    requires LeftAfter(a, b, n) && LeftAfter(b, c, m)
    ensures LeftAfter(a, c, n + m)
  {
    hide Reading, Concat;
    DropTwice(Concat(a.chunks), n, m);
    forall k: int | k >= n + m ensures Reading(a, k) == Reading(c, k - (n + m)) {
      assert Reading(a, k) == Reading(b, k - n);
    }
  }

  lemma NothingAsked(src: Source)
    ensures Reading(src, 0) == All
  {
  }

  /** The read that brings the end. */
  lemma LastRead(src: Source, space: nat, n: nat)
    requires 0 < space <= n && (src.chunks == [] || (src.eager && Left(src.chunks, space) == []))
    ensures Reading(src, n) == if src.fails then Failure else End
  {
    var chunks := src.chunks;
    if chunks != [] {
      assert |chunks| == 1;
      assert chunks[1..] == [] && Concat(chunks) == chunks[0];
      assert !Stalls(chunks[1..], true, n - |chunks[0]|);
    }
  }

  lemma EmptyRead(src: Source, space: nat, n: nat)
    requires 0 < space <= n && Given(src.chunks, space) == [] && src.chunks != []
    requires !(src.eager && Left(src.chunks, space) == [])
    ensures Reading(src, n) == Stall
  {
    assert src.chunks[0] == [];
  }

  lemma {:induction false} NothingInNothing(chunks: seq<seq<Byte>>)
    requires Concat(chunks) == []
    ensures forall i | 0 <= i < |chunks| :: chunks[i] == []
  {
    if chunks != [] {
      NothingInNothing(chunks[1..]);
      assert chunks == [chunks[0]] + chunks[1..];
    }
  }

  lemma NextChunk(chunks: seq<seq<Byte>>, eager: bool, space: nat, n: int)
    requires space > 0 && chunks != [] && !(eager && Left(chunks, space) == [])
    requires 0 < |Given(chunks, space)| <= n
    ensures Stalls(chunks, eager, n) == Stalls(Left(chunks, space), eager, n - |Given(chunks, space)|)
    ensures Ends(chunks, eager, n) == Ends(Left(chunks, space), eager, n - |Given(chunks, space)|)
  {
    var c, rest, left := chunks[0], chunks[1..], Left(chunks, space);
    if |c| <= space {
      if Concat(rest) == [] && rest != [] {
        NothingInNothing(rest);
        assert chunks[|chunks| - 1] == rest[|rest| - 1];
      }
    } else {
      assert left[1..] == rest;
      assert left[|left| - 1] != [] <==> chunks[|chunks| - 1] != [];
    }
  }

  /** Any other read leaves the rest of the stream to come as it would have. */
  lemma NextRead(src: Source, space: nat)
    requires space > 0 && src.chunks != [] && !(src.eager && Left(src.chunks, space) == [])
    requires Given(src.chunks, space) != []
    ensures LeftAfter(src, src.(chunks := Left(src.chunks, space)), |Given(src.chunks, space)|)
  {
    var p, left := Given(src.chunks, space), Left(src.chunks, space);
    LeftJoins(src.chunks, space);
    hide Given, Left, Stalls, Ends, Concat;
    forall m: int | m >= |p| ensures Reading(src, m) == Reading(src.(chunks := left), m - |p|) {
      NextChunk(src.chunks, src.eager, space, m);
    }
  }

  lemma LeftJoins(chunks: seq<seq<Byte>>, space: nat)
    ensures Given(chunks, space) + Concat(Left(chunks, space)) == Concat(chunks)
  {
    if chunks != [] && |chunks[0]| > space {
      var c := chunks[0];
      assert Left(chunks, space)[1..] == chunks[1..];
      assert c == c[..space] + c[space..];
    }
  }

  lemma {:induction false} StallsLater(chunks: seq<seq<Byte>>, eager: bool, a: int, b: int)
    requires a <= b && Stalls(chunks, eager, a)
    ensures Stalls(chunks, eager, b)
    decreases |chunks|
  {
    if Stalls(chunks[1..], eager, a - |chunks[0]|) {
      StallsLater(chunks[1..], eager, a - |chunks[0]|, b - |chunks[0]|);
    }
  }

  lemma EndsRest(chunks: seq<seq<Byte>>, eager: bool, n: int)
    requires |chunks| > 1 && n > |chunks[0]|
    ensures Ends(chunks, eager, n) == Ends(chunks[1..], eager, n - |chunks[0]|)
  {
    assert chunks[|chunks| - 1] == chunks[1..][|chunks| - 2];
  }

  /** Bytes and an end with them, of which some are still to come: nothing comes after. */
  lemma EndsHere(chunks: seq<seq<Byte>>, eager: bool, n: int)
    requires chunks != [] && 0 < n <= |chunks[0]| && Ends(chunks, eager, n)
    ensures |chunks| == 1
  {
    assert forall i | 1 <= i < |chunks| :: chunks[i] == chunks[1..][i - 1];
    NothingInNothing(chunks[1..]);
  }

  lemma {:induction false} EndsFirst(chunks: seq<seq<Byte>>, eager: bool, a: int, b: int)
    requires 0 < a <= b && Ends(chunks, eager, a) && !Stalls(chunks, eager, a)
    ensures !Stalls(chunks, eager, b)
    decreases |chunks|
  {
    hide Ends;
    if |chunks| == 1 {
      assert !Stalls(chunks[1..], eager, b - |chunks[0]|);
    } else if chunks != [] {
      if a > |chunks[0]| {
        EndsRest(chunks, eager, a);
        EndsFirst(chunks[1..], eager, a - |chunks[0]|, b - |chunks[0]|);
      } else {
        EndsHere(chunks, eager, a);
      }
    }
  }

  /** What stops a reader stops it when it asks for more, too. */
  lemma ReadingStops(src: Source, a: int, b: int)
    requires a <= b && Reading(src, a) != All
    ensures Reading(src, b) == Reading(src, a)
  {
    if Stalls(src.chunks, src.eager, a) {
      StallsLater(src.chunks, src.eager, a, b);
    } else {
      EndsFirst(src.chunks, src.eager, a, b);
    }
  }
}
