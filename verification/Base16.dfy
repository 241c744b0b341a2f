/** Base16 (section 8 of RFC 4648), encoded as a stream: every Write of the payload goes
    through the hexadecimal encoder into the line wrapper. */
module Base16 {
  import opened Common
  import opened Alphabet
  import opened Wrap

  const DIGITS: string := "0123456789" + "ABCDEF"
  const ALPHABET: string := "0123456789" + "ABCDEF" + "abcdef"

  /** The value of a hexadecimal digit of either case. */
  function HexValue(c: char): (v: nat)
    requires c in ALPHABET
    ensures v < 16
  {
    LetterRanges(c);
    if '0' <= c <= '9' then (c - '0') as nat
    else if 'A' <= c <= 'F' then (c - 'A') as nat + 10
    else (c - 'a') as nat + 10
  }

  lemma LetterRanges(c: char)
    ensures c in ALPHABET ==> '0' <= c <= '9' || 'A' <= c <= 'F' || 'a' <= c <= 'f'
  {
  }

  lemma DigitAt(d: nat)
    requires d < 16
    ensures |DIGITS| == 16 && DIGITS[d] in ALPHABET && HexValue(DIGITS[d]) == d
    ensures '\n' !in ALPHABET
  {
    assert DIGITS[d] == if d < 10 then '0' + d as char else 'A' + (d - 10) as char;
    assert DIGITS[d] == ALPHABET[d];
  }

  /** Two digits per byte, the high half first. */
  function Hex(p: seq<Byte>): (s: string)
    ensures |s| == 2 * |p|
  {
    if p == [] then []
    else
      DigitAt(0);
      [DIGITS[p[0] / 16], DIGITS[p[0] % 16]] + Hex(p[1..])
  }

  lemma {:induction false} HexIsOver(p: seq<Byte>)
    ensures Over(ALPHABET, Hex(p))
  {
    hide ALPHABET, DIGITS;
    if p != [] {
      DigitAt(p[0] / 16);
      DigitAt(p[0] % 16);
      HexIsOver(p[1..]);
    }
  }

  lemma {:induction false} HexConcat(p: seq<Byte>, q: seq<Byte>)
    ensures Hex(p + q) == Hex(p) + Hex(q)
  {
    hide ALPHABET, DIGITS;
    DigitAt(0);
    if p == [] {
      assert p + q == q;
    } else {
      assert (p + q)[1..] == p[1..] + q;
      HexConcat(p[1..], q);
    }
  }

  /** Byte i is printed as its high half and then its low half. */
  lemma {:induction false} HexAt(p: seq<Byte>, i: nat)
    requires i < |p|
    ensures |DIGITS| == 16 && Hex(p)[2 * i] == DIGITS[p[i] / 16] && Hex(p)[2 * i + 1] == DIGITS[p[i] % 16]
  {
    hide ALPHABET, DIGITS;
    DigitAt(0);
    if i > 0 {
      HexAt(p[1..], i - 1);
    }
  }

  ghost function Unhex(s: string): seq<Byte>
    requires Over(ALPHABET, s) && |s| % 2 == 0
  {
    if s == [] then [] else [HexValue(s[0]) * 16 + HexValue(s[1])] + Unhex(s[2..])
  }

  lemma {:induction false} UnhexHex(p: seq<Byte>)
    ensures Over(ALPHABET, Hex(p)) && Unhex(Hex(p)) == p
  {
    hide ALPHABET, DIGITS, HexValue;
    HexIsOver(p);
    if p != [] {
      DigitAt(p[0] / 16);
      DigitAt(p[0] % 16);
      UnhexHex(p[1..]);
      assert Hex(p)[2..] == Hex(p[1..]);
      assert p[0] / 16 * 16 + p[0] % 16 == p[0];
      assert p == [p[0]] + p[1..];
    }
  }

  /** The digits in the case the encoder prints. */
  function Upper(s: string): string {
    if s == [] then [] else [if 'a' <= s[0] <= 'f' then s[0] - 'a' + 'A' else s[0]] + Upper(s[1..])
  }

  lemma UpperDigit(c: char)
    requires c in ALPHABET
    ensures |DIGITS| == 16 && DIGITS[HexValue(c)] == if 'a' <= c <= 'f' then c - 'a' + 'A' else c
  {
    LetterRanges(c);
    DigitIs(HexValue(c));
  }

  lemma DigitIs(d: nat)
    requires d < 16
    ensures |DIGITS| == 16 && DIGITS[d] == if d < 10 then '0' + d as char else 'A' + (d - 10) as char
  {
  }

  lemma HalvesOf(h: nat, l: nat)
    requires h < 16 && l < 16
    ensures (h * 16 + l) / 16 == h && (h * 16 + l) % 16 == l
  {
  }

  lemma HexCons(b: Byte, p: seq<Byte>)
    ensures |DIGITS| == 16 && Hex([b] + p) == [DIGITS[b / 16], DIGITS[b % 16]] + Hex(p)
  {
    hide ALPHABET, DIGITS;
    DigitAt(0);
    assert ([b] + p)[1..] == p;
  }

  lemma UpperCons(c: char, d: char, s: string)
    requires c in ALPHABET && d in ALPHABET
    ensures |DIGITS| == 16 && Upper([c, d] + s) == [DIGITS[HexValue(c)], DIGITS[HexValue(d)]] + Upper(s)
  {
    hide ALPHABET, DIGITS, HexValue;
    UpperDigit(c);
    UpperDigit(d);
    assert ([c, d] + s)[1..] == [d] + s && ([d] + s)[1..] == s;
  }

  /** Digits of either case, encoded again after decoding, are themselves in upper case. */
  lemma {:induction false} HexUnhex(s: string)
    requires Over(ALPHABET, s) && |s| % 2 == 0
    ensures Hex(Unhex(s)) == Upper(s)
    decreases |s|
  {
    hide ALPHABET, DIGITS, HexValue, Hex, Upper;
    if s == [] {
      NothingUpper();
    } else {
      HalvesOf(HexValue(s[0]), HexValue(s[1]));
      HexUnhex(s[2..]);
      HexCons(HexValue(s[0]) * 16 + HexValue(s[1]), Unhex(s[2..]));
      UpperCons(s[0], s[1], s[2..]);
      assert s == [s[0], s[1]] + s[2..];
    }
  }

  lemma NothingUpper()
    ensures Hex([]) == [] && Upper([]) == []
  {
  }

  /** The letter case of the digits makes no difference, and nothing else is ignored. */
  lemma AnyCase(s: string, t: string)
    requires Over(ALPHABET, s) && |s| % 2 == 0 && Over(ALPHABET, t) && |t| % 2 == 0
    ensures Unhex(s) == Unhex(t) <==> Upper(s) == Upper(t)
  {
    hide ALPHABET, Unhex, Upper, Hex;
    HexUnhex(s);
    HexUnhex(t);
    UnhexHex(Unhex(s));
    UnhexHex(Unhex(t));
  }

  // ---------------------------------------------------------------------
  // The code

  /** The digits of one Write, filled into a buffer of twice its length. */
  method EncodeHex(p: seq<Byte>) returns (buf: array<char>)
    ensures fresh(buf) && buf[..] == Hex(p)
  {
    hide ALPHABET, DIGITS;
    DigitAt(0);
    buf := new char[|p| * 2](_ => '0');
    assert p[..0] == [];
    for i := 0 to |p|
      invariant buf[..2 * i] == Hex(p[..i])
    {
      var b := p[i];
      ghost var before := buf[..2 * i];
      buf[i * 2] := DIGITS[b / 16];
      buf[i * 2 + 1] := DIGITS[b % 16];
      HexConcat(p[..i], [b]);
      assert p[..i + 1] == p[..i] + [b];
      HexOfOne(b);
      assert buf[..2 * (i + 1)] == before + [DIGITS[b / 16], DIGITS[b % 16]];
    }
    assert p[..|p|] == p && buf[..2 * |p|] == buf[..];
  }

  method WriteHex(w: WrapWriter, p: seq<Byte>)
    requires w.Valid()
    modifies w
    ensures w.Valid() && w.total == old(w.total) + Hex(p)
  {
    var buf := EncodeHex(p);
    w.Write(buf[..]);
  }

  lemma HexOfOne(b: Byte)
    ensures |DIGITS| == 16 && Hex([b]) == [DIGITS[b / 16], DIGITS[b % 16]]
  {
    hide ALPHABET, DIGITS;
    DigitAt(0);
    assert [b][1..] == [];
  }

  /** The payload arrives in any chunks; the text does not depend on them. */
  method EncodeStream(chunks: seq<seq<Byte>>, cols: int) returns (text: string)
    ensures text == Wrapped(Hex(Concat(chunks)), cols)
  {
    hide Hex, Wrapped, Broken, LastLine;
    var w := new WrapWriter(cols);
    ghost var done: seq<Byte> := [];
    HexOfNothing();
    for i := 0 to |chunks|
      invariant fresh(w) && w.Valid() && w.total == Hex(done) && w.cols == cols
      invariant Concat(chunks) == done + Concat(chunks[i..])
    {
      assert chunks[i..][1..] == chunks[i + 1..];
      HexConcat(done, chunks[i]);
      WriteHex(w, chunks[i]);
      done := done + chunks[i];
    }
    assert done + [] == done;
    w.Finish();
    text := w.out;
  }

  lemma HexOfNothing()
    ensures Hex([]) == []
  {
  }

  method DecodeBase16(data: string, ignore: bool) returns (r: Option<seq<Byte>>)
    ensures var s := Letters(data, ALPHABET);
            if Accepts(data, ALPHABET, ignore) && |s| % 2 == 0
            then Over(ALPHABET, s) && r == Some(Unhex(s))
            else r == None
  {
    hide ALPHABET, HexValue, Letters, Accepts;
    var filtered := FilterBytes(data, ALPHABET, ignore);
    if filtered.None? || |filtered.value| % 2 != 0 { return None; }
    LettersOver(data, ALPHABET);
    var encoded := filtered.value;
    var out: seq<Byte> := [];
    ghost var target := Unhex(encoded);
    while |encoded| > 0
      invariant |encoded| % 2 == 0 && Over(ALPHABET, encoded)
      invariant target == out + Unhex(encoded)
      decreases |encoded|
    {
      var b := HexValue(encoded[0]) * 16 + HexValue(encoded[1]);
      assert out + ([b] + Unhex(encoded[2..])) == out + [b] + Unhex(encoded[2..]);
      out := out + [b];
      encoded := encoded[2..];
    }
    assert out + [] == out;
    r := Some(out);
  }

  /** Encoded in any chunks, wrapped at any width and decoded: the bytes come back. */
  lemma WrappedRoundTrip(data: seq<Byte>, cols: int, ignore: bool)
    ensures var text := Wrapped(Hex(data), cols);
            var s := Letters(text, ALPHABET);
            Accepts(text, ALPHABET, ignore) && |s| % 2 == 0 && Over(ALPHABET, s) && Unhex(s) == data
  {
    hide ALPHABET, Wrapped, Letters, Accepts;
    DigitAt(0);
    UnhexHex(data);
    WrappedDecodes(Hex(data), cols, ALPHABET, ignore);
  }
}
