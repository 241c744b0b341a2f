/** Z85: four bytes as one 32-bit word, five letters per word. */
module Z85 {
  import opened Common
  import opened Radix
  import opened Alphabet
  import opened Wrap

  const ALPHABET: string :=
    "0123456789" + "abcdefghijklm" + "nopqrstuvwxyz" + "ABCDEFGHIJKLM" + "NOPQRSTUVWXYZ" + ".-:+=^!/*?&" + "<>()[]{}@%$#"

  const WORD: nat := 0x1_0000_0000

  function Letter(d: nat): char
    requires d < 62
  {
    if d < 10 then '0' + d as char else if d < 36 then 'a' + (d - 10) as char else 'A' + (d - 36) as char
  }

  predicate Alphanumeric(c: char) {
    '0' <= c <= '9' || 'a' <= c <= 'z' || 'A' <= c <= 'Z'
  }

  lemma LetterAt(i: nat)
    requires i < 62
    ensures |ALPHABET| == 85 && ALPHABET[i] == Letter(i)
  {
  }

  lemma SignsAreDistinct()
    ensures |ALPHABET| == 85
    ensures forall i, j | 62 <= i < j < 85 :: ALPHABET[i] != ALPHABET[j]
    ensures forall i | 62 <= i < 85 :: !Alphanumeric(ALPHABET[i]) && ALPHABET[i] != '\n'
  {
  }

  lemma AlphabetIsDistinct()
    ensures |ALPHABET| == 85 && Distinct(ALPHABET) && '\n' !in ALPHABET
  {
    hide ALPHABET;
    SignsAreDistinct();
    forall i | 0 <= i < 62
      ensures ALPHABET[i] == Letter(i)
    {
      LetterAt(i);
    }
  }

  // ---------------------------------------------------------------------
  // One word

  function Word(b: seq<nat>): nat
    requires |b| == 4
  {
    ((b[0] * 256 + b[1]) * 256 + b[2]) * 256 + b[3]
  }

  function Bytes(v: nat): seq<nat> {
    [v / 0x100_0000 % 256, v / 0x1_0000 % 256, v / 0x100 % 256, v % 256]
  }

  /** The base-85 digits of a word, most significant first. */
  function Digits85(v: nat): seq<nat> {
    [v / 85 / 85 / 85 / 85 % 85, v / 85 / 85 / 85 % 85, v / 85 / 85 % 85, v / 85 % 85, v % 85]
  }

  /** uint32 arithmetic: one more digit, modulo 2^32. */
  function Shift32(v: nat, d: nat): nat {
    (v * 85 + d) % WORD
  }

  function Horner32(ds: seq<nat>): nat {
    if ds == [] then 0 else Shift32(Horner32(ds[..|ds| - 1]), ds[|ds| - 1])
  }

  /** No step of the accumulation leaves 32 bits. */
  ghost predicate Fits32(ds: seq<nat>) {
    ds == [] || (Fits32(ds[..|ds| - 1]) && Horner32(ds[..|ds| - 1]) * 85 + ds[|ds| - 1] < WORD)
  }

  lemma WordOfBytes(b: seq<nat>)
    requires |b| == 4 && forall i | 0 <= i < 4 :: b[i] < 256
    ensures Word(b) < WORD && Bytes(Word(b)) == b
  {
    var w := Word(b);
    var hi := b[0] * 256 + b[1];
    assert w / 0x100 == hi * 256 + b[2];
    assert w / 0x1_0000 == hi;
    assert w / 0x100_0000 == b[0];
  }

  lemma HornerNext(ds: seq<nat>, q: nat, next: nat)
    requires Horner32(ds) == q == next / 85 && Fits32(ds) && next < WORD
    ensures Horner32(ds + [next % 85]) == next && Fits32(ds + [next % 85])
  {
    assert (ds + [next % 85])[..|ds|] == ds;
    assert q * 85 + next % 85 == next;
  }

  /** Accumulating the digits of a word gives the word, and every intermediate value is
      the word without its last digits, so nothing wraps. */
  lemma HornerOfDigits(v: nat)
    requires v < WORD
    ensures Horner32(Digits85(v)) == v && Fits32(Digits85(v))
  {
    hide Horner32, Fits32;
    var q1 := v / 85;
    var q2 := q1 / 85;
    var q3 := q2 / 85;
    var q4 := q3 / 85;
    HornerOfNothing();
    HornerNext([], 0, q4);
    HornerNext([] + [q4 % 85], q4, q3);
    HornerNext([] + [q4 % 85] + [q3 % 85], q3, q2);
    HornerNext([] + [q4 % 85] + [q3 % 85] + [q2 % 85], q2, q1);
    HornerNext([] + [q4 % 85] + [q3 % 85] + [q2 % 85] + [q1 % 85], q1, v);
    assert Digits85(v) == [] + [q4 % 85] + [q3 % 85] + [q2 % 85] + [q1 % 85] + [v % 85];
  }

  lemma HornerOfNothing()
    ensures Horner32([]) == 0 && Fits32([])
  {
  }

  // ---------------------------------------------------------------------
  // Whole texts

  ghost function EncodedDigits(data: seq<nat>): (ds: seq<nat>)
    requires |data| % 4 == 0
    ensures |ds| == |data| / 4 * 5 && DigitsOf(85, ds)
  {
    if data == [] then [] else Digits85(Word(data[..4])) + EncodedDigits(data[4..])
  }

  ghost function DecodedBytes(ds: seq<nat>): seq<nat>
    requires |ds| % 5 == 0
  {
    if ds == [] then [] else Bytes(Horner32(ds[..5])) + DecodedBytes(ds[5..])
  }

  /** Every block of five digits is accumulated without leaving 32 bits. */
  ghost predicate NeverWraps(ds: seq<nat>)
    requires |ds| % 5 == 0
  {
    ds == [] || (Fits32(ds[..5]) && NeverWraps(ds[5..]))
  }

  /** Decoding what was encoded gives the bytes back, and the uint32 accumulator never
      wraps on it. */
  lemma {:induction false} DecodeEncode(data: seq<nat>)
    requires |data| % 4 == 0 && DigitsOf(256, data)
    ensures DecodedBytes(EncodedDigits(data)) == data && NeverWraps(EncodedDigits(data))
  {
    hide Horner32, Fits32, Digits85, Bytes, Word;
    if data != [] {
      var b := data[..4];
      WordOfBytes(b);
      HornerOfDigits(Word(b));
      DecodeEncode(data[4..]);
      var ds := EncodedDigits(data);
      FiveDigits(Word(b));
      assert ds[..5] == Digits85(Word(b)) && ds[5..] == EncodedDigits(data[4..]);
      assert data == b + data[4..];
    }
  }

  lemma FiveDigits(v: nat)
    ensures |Digits85(v)| == 5 && DigitsOf(85, Digits85(v))
  {
  }

  /** The text of a byte string whose length is a multiple of four. */
  ghost function Encoded(data: seq<nat>): string
    requires |data| % 4 == 0
  {
    AlphabetIsDistinct();
    Spell(ALPHABET, EncodedDigits(data))
  }

  ghost function Decoded(s: string): seq<nat>
    requires Over(ALPHABET, s) && |s| % 5 == 0
  {
    DecodedBytes(Read(ALPHABET, s))
  }

  lemma {:induction false} OneWord(b: seq<nat>)
    requires |b| == 4
    ensures EncodedDigits(b) == Digits85(Word(b))
  {
    hide Digits85, Word;
    FiveDigits(Word(b));
    assert b[..4] == b && b[4..] == [];
    assert Digits85(Word(b)) + [] == Digits85(Word(b));
  }

  /** Four bytes, the highest first, and their five digits, the highest first, are the same
      number. */
  lemma SameNumber(b: seq<nat>)
    requires |b| == 4 && DigitsOf(256, b)
    ensures var d := EncodedDigits(b);
            |d| == 5 && Value(85, d) == Value(256, b)
  {
    OneWord(b);
    FiveDigits(Word(b));
    WordOfBytes(b);
    WordIsValue(b);
    DigitsAreValue(Word(b));
  }

  lemma WordIsValue(b: seq<nat>)
    requires |b| == 4
    ensures Value(256, b) == Word(b)
  {
    assert b == [] + [b[0]] + [b[1]] + [b[2]] + [b[3]];
    hide Value;
    NoValue(256);
    ValueAppend(256, [], b[0]);
    ValueAppend(256, [] + [b[0]], b[1]);
    ValueAppend(256, [] + [b[0]] + [b[1]], b[2]);
    ValueAppend(256, [] + [b[0]] + [b[1]] + [b[2]], b[3]);
  }

  lemma NoValue(base: nat)
    ensures Value(base, []) == 0
  {
  }

  lemma DigitsAreValue(v: nat)
    requires v < WORD
    ensures Value(85, Digits85(v)) == v
  {
    var q1 := v / 85;
    var q2 := q1 / 85;
    var q3 := q2 / 85;
    var q4 := q3 / 85;
    var d := [] + [q4 % 85] + [q3 % 85] + [q2 % 85] + [q1 % 85] + [v % 85];
    assert Digits85(v) == d && q4 % 85 == q4;
    hide Value, Digits85;
    NoValue(85);
    ValueAppend(85, [], q4 % 85);
    ValueAppend(85, [] + [q4 % 85], q3 % 85);
    ValueAppend(85, [] + [q4 % 85] + [q3 % 85], q2 % 85);
    ValueAppend(85, [] + [q4 % 85] + [q3 % 85] + [q2 % 85], q1 % 85);
    ValueAppend(85, [] + [q4 % 85] + [q3 % 85] + [q2 % 85] + [q1 % 85], v % 85);
  }

  /** The bytes 86 4F D2 6F are the text Hello. */
  lemma Hello()
    ensures Encoded([0x86, 0x4f, 0xd2, 0x6f]) == "Hello"
  {
    var b := [0x86, 0x4f, 0xd2, 0x6f];
    assert Word(b) == 0x864f_d26f;
    assert Digits85(0x864f_d26f) == [43, 14, 21, 21, 24];
    OneWord(b);
    LetterAt(43);
    LetterAt(14);
    LetterAt(21);
    LetterAt(24);
    hide ALPHABET, Word, Digits85, EncodedDigits;
    assert Letter(43) == 'H' && Letter(14) == 'e' && Letter(21) == 'l' && Letter(24) == 'o';
  }

  // ---------------------------------------------------------------------
  // The code

  /** One word, least significant letter first into the back of the block. */
  method EncodeBlock(value: nat) returns (block: array<char>)
    requires |ALPHABET| == 85
    ensures fresh(block) && block.Length == 5 && block[..] == Spell(ALPHABET, Digits85(value))
  {
    hide ALPHABET;
    block := new char[5](_ => '0');
    var v := value;
    block[4] := ALPHABET[v % 85];
    v := v / 85;
    block[3] := ALPHABET[v % 85];
    v := v / 85;
    block[2] := ALPHABET[v % 85];
    v := v / 85;
    block[1] := ALPHABET[v % 85];
    v := v / 85;
    block[0] := ALPHABET[v % 85];
  }

  method EncodeZ85(data: seq<Byte>) returns (r: Option<string>)
    ensures if |data| % 4 == 0 then r == Some(Encoded(data)) else r == None
  {
    hide ALPHABET, Digits85;
    if |data| % 4 != 0 { return None; }
    AlphabetIsDistinct();
    var out := [];
    var rest := data;
    ghost var target := Encoded(data);
    while |rest| > 0
      invariant |rest| % 4 == 0 && DigitsOf(256, rest)
      invariant target == out + Encoded(rest)
      decreases |rest|
    {
      var value := Word(rest[..4]);
      FiveDigits(value);
      var block := EncodeBlock(value);
      EncodedNext(rest);
      assert out + (Spell(ALPHABET, Digits85(value)) + Encoded(rest[4..])) == out + block[..] + Encoded(rest[4..]);
      out := out + block[..];
      rest := rest[4..];
    }
    NothingEncoded(rest);
    assert out + [] == out;
    r := Some(out);
  }

  lemma EncodedNext(data: seq<nat>)
    requires |data| > 0 && |data| % 4 == 0
    ensures |ALPHABET| == 85
    ensures Encoded(data) == Spell(ALPHABET, Digits85(Word(data[..4]))) + Encoded(data[4..])
  {
    hide ALPHABET, Digits85;
    AlphabetIsDistinct();
  }

  lemma NothingEncoded(data: seq<nat>)
    requires data == []
    ensures Encoded(data) == []
  {
    hide ALPHABET;
    AlphabetIsDistinct();
  }

  /** Five letters into a uint32. */
  method Accumulate(block: string) returns (value: nat)
    requires Over(ALPHABET, block)
    ensures value == Horner32(Read(ALPHABET, block))
  {
    hide ALPHABET;
    value := 0;
    ghost var ds := Read(ALPHABET, block);
    for k := 0 to |block|
      invariant value == Horner32(ds[..k])
    {
      var idx := IndexByte(ALPHABET, block[k]);
      assert ds[..k + 1][..k] == ds[..k];
      value := (value * 85 + idx) % WORD;
    }
    assert ds[..|block|] == ds;
  }

  method DecodeZ85(data: string, ignore: bool) returns (r: Option<seq<nat>>)
    ensures var s := Letters(data, ALPHABET);
            if Accepts(data, ALPHABET, ignore) && |s| % 5 == 0
            then Over(ALPHABET, s) && r == Some(Decoded(s))
            else r == None
  {
    hide ALPHABET, Horner32, Bytes, Letters, Accepts;
    var filtered := FilterBytes(data, ALPHABET, ignore);
    if filtered.None? || |filtered.value| % 5 != 0 { return None; }
    LettersOver(data, ALPHABET);
    var encoded := filtered.value;
    var out := [];
    ghost var target := Decoded(encoded);
    while |encoded| > 0
      invariant |encoded| % 5 == 0 && Over(ALPHABET, encoded)
      invariant target == out + Decoded(encoded)
      decreases |encoded|
    {
      var value := Accumulate(encoded[..5]);
      DecodedNext(ALPHABET, encoded);
      assert out + (Bytes(value) + Decoded(encoded[5..])) == out + Bytes(value) + Decoded(encoded[5..]);
      out := out + Bytes(value);
      encoded := encoded[5..];
    }
    NothingDecoded(encoded);
    assert out + [] == out;
    r := Some(out);
  }

  lemma DecodedNext(alphabet: string, s: string)
    requires |s| > 0 && |s| % 5 == 0 && Over(alphabet, s)
    ensures Over(alphabet, s[..5]) && Over(alphabet, s[5..])
    ensures DecodedBytes(Read(alphabet, s)) == Bytes(Horner32(Read(alphabet, s[..5]))) + DecodedBytes(Read(alphabet, s[5..]))
  {
    hide Horner32, Bytes;
    var ds := Read(alphabet, s);
    assert ds[..5] == Read(alphabet, s[..5]) && ds[5..] == Read(alphabet, s[5..]);
  }

  lemma NothingDecoded(s: string)
    requires s == []
    ensures Decoded(s) == []
  {
    hide ALPHABET;
  }

  /** Encoded, wrapped at any width and decoded: the bytes come back. */
  lemma WrappedRoundTrip(data: seq<nat>, cols: int, ignore: bool)
    requires |data| % 4 == 0 && DigitsOf(256, data)
    ensures var text := Wrapped(Encoded(data), cols);
            var s := Letters(text, ALPHABET);
            && Accepts(text, ALPHABET, ignore) && |s| % 5 == 0 && Over(ALPHABET, s)
            && NeverWraps(Read(ALPHABET, s)) && Decoded(s) == data
  {
    hide ALPHABET, Wrapped, Letters, Accepts, EncodedDigits, DecodedBytes;
    AlphabetIsDistinct();
    ReadSpelled(ALPHABET, EncodedDigits(data));
    WrappedDecodes(Encoded(data), cols, ALPHABET, ignore);
    DecodeEncode(data);
  }
}
