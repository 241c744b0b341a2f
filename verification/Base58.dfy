/** Base58: a byte string read as one big number in base 256 and written in base 58, with
    one '1' for every leading zero byte. */
module Base58 {
  import opened Common
  import opened Radix
  import opened Alphabet
  import opened Wrap

  const ALPHABET: string :=
    "123456789" + "ABCDEFGH" + "JKLMN" + "PQRSTUVWXYZ" + "abcdefghijk" + "mnopqrstuvwxyz"

  function Letter(d: nat): char
    requires d < 58
  {
    if d < 9 then '1' + d as char
    else if d < 17 then 'A' + (d - 9) as char
    else if d < 22 then 'J' + (d - 17) as char
    else if d < 33 then 'P' + (d - 22) as char
    else if d < 44 then 'a' + (d - 33) as char
    else 'm' + (d - 44) as char
  }

  lemma LetterAt(i: nat)
    requires i < 58
    ensures |ALPHABET| == 58 && ALPHABET[i] == Letter(i)
  {
  }

  lemma AlphabetIsDistinct()
    ensures |ALPHABET| == 58 && Distinct(ALPHABET) && ALPHABET[0] == '1' && '\n' !in ALPHABET
  {
    forall i | 0 <= i < 58
      ensures |ALPHABET| == 58 && ALPHABET[i] == Letter(i)
    {
      LetterAt(i);
    }
    LetterAt(0);
  }

  // ---------------------------------------------------------------------
  // The reference: what the encoding is, in numbers

  ghost function LeadingZeros(ds: seq<nat>): (z: nat)
    ensures z <= |ds| && (forall i | 0 <= i < z :: ds[i] == 0) && (z < |ds| ==> ds[z] != 0)
  {
    if ds == [] || ds[0] != 0 then 0
    else
      1 + LeadingZeros(ds[1..])
  }

  function Zeros(n: nat): (r: seq<nat>)
    ensures |r| == n && forall i | 0 <= i < n :: r[i] == 0
  {
    seq(n, _ => 0)
  }

  /** The same number in another base, keeping as many leading zeros. */
  ghost function Rebase(from: nat, to: nat, ds: seq<nat>): seq<nat>
    requires to > 1
  {
    var z := LeadingZeros(ds);
    Zeros(z) + Digits(to, Value(from, ds[z..]))
  }

  lemma LeadingZerosOf(z: nat, ds: seq<nat>)
    requires ds != [] ==> ds[0] != 0
    ensures LeadingZeros(Zeros(z) + ds) == z
    ensures (Zeros(z) + ds)[z..] == ds
  {
    var s := Zeros(z) + ds;
    assert forall i | 0 <= i < z :: s[i] == 0;
    assert z < |s| ==> s[z] == ds[0];
  }

  /** Changing base and back gives the digits one started with. */
  lemma RebaseBack(from: nat, to: nat, ds: seq<nat>)
    requires from > 1 && to > 1 && DigitsOf(from, ds)
    ensures DigitsOf(to, Rebase(from, to, ds))
    ensures Rebase(to, from, Rebase(from, to, ds)) == ds
  {
    hide Value, Digits, Zeros;
    var z := LeadingZeros(ds);
    var rest := ds[z..];
    var n := Value(from, rest);
    ValueOfDigits(to, n);
    NoDigits(from, to);
    NoDigits(to, from);
    assert ds == Zeros(z) + rest;
    if rest != [] {
      DigitsOfValue(from, rest);
    }
    LeadingZerosOf(z, Digits(to, n));
  }

  /** The text of a byte string. */
  ghost function Encoded(data: seq<nat>): string
    requires DigitsOf(256, data)
  {
    AlphabetIsDistinct();
    RebaseBack(256, 58, data);
    Spell(ALPHABET, Rebase(256, 58, data))
  }

  /** The bytes of a text over the alphabet. */
  ghost function Decoded(s: string): seq<nat>
    requires Over(ALPHABET, s)
  {
    AlphabetIsDistinct();
    Rebase(58, 256, Read(ALPHABET, s))
  }

  /** Decoding what was encoded gives the bytes back, for every byte string. */
  lemma DecodeEncode(data: seq<nat>)
    requires DigitsOf(256, data)
    ensures Over(ALPHABET, Encoded(data)) && Decoded(Encoded(data)) == data
  {
    AlphabetIsDistinct();
    RebaseBack(256, 58, data);
    ReadSpelled(ALPHABET, Rebase(256, 58, data));
  }

  /** Encoding what was decoded gives the text back, for every text over the alphabet. */
  lemma EncodeDecode(s: string)
    requires Over(ALPHABET, s)
    ensures DigitsOf(256, Decoded(s)) && Encoded(Decoded(s)) == s
  {
    AlphabetIsDistinct();
    RebaseBack(58, 256, Read(ALPHABET, s));
    SpelledRead(ALPHABET, s);
  }

  /** As many leading '1's as leading zero bytes, and no other leading zero digit. */
  lemma LeadingOnes(data: seq<nat>)
    requires DigitsOf(256, data)
    ensures var z := LeadingZeros(data);
            && z <= |Encoded(data)|
            && (forall i | 0 <= i < z :: Encoded(data)[i] == '1')
            && (z < |Encoded(data)| ==> Encoded(data)[z] != '1')
  {
    hide ALPHABET, Value, Digits, Zeros, LeadingZeros, Distinct;
    AlphabetIsDistinct();
    var z := LeadingZeros(data);
    var n := Value(256, data[z..]);
    ValueOfDigits(58, n);
    RebaseBack(256, 58, data);
    var ds := Rebase(256, 58, data);
    assert z < |ds| ==> ds[z] == Digits(58, n)[0];
  }

  lemma {:induction false} LeadingZerosValue(base: nat, ds: seq<nat>, z: nat)
    requires z <= |ds| && forall i | 0 <= i < z :: ds[i] == 0
    ensures Value(base, ds) == Value(base, ds[z..])
    decreases |ds|
  {
    var n := |ds| - 1;
    if z == |ds| {
      if z > 0 {
        LeadingZerosValue(base, ds[..n], n);
        assert ds[..n][n..] == [] && ds[z..] == [];
      }
    } else {
      LeadingZerosValue(base, ds[..n], z);
      assert ds[z..][..|ds[z..]| - 1] == ds[..n][z..];
    }
  }

  /** Read most significant first, the letters and the bytes are the same number. */
  lemma SameNumber(data: seq<nat>)
    requires DigitsOf(256, data)
    ensures Over(ALPHABET, Encoded(data)) && Value(58, Read(ALPHABET, Encoded(data))) == Value(256, data)
  {
    hide Value, Digits, ALPHABET;
    AlphabetIsDistinct();
    RebaseBack(256, 58, data);
    var ds := Rebase(256, 58, data);
    ReadSpelled(ALPHABET, ds);
    var z := LeadingZeros(data);
    var n := Value(256, data[z..]);
    ValueOfDigits(58, n);
    LeadingZerosValue(256, data, z);
    LeadingZerosValue(58, ds, z);
    assert ds[z..] == Digits(58, n);
  }

  predicate Letter58(c: char) {
    ('0' <= c <= '9' || 'A' <= c <= 'Z' || 'a' <= c <= 'z') && c != '0' && c != 'O' && c != 'I' && c != 'l'
  }

  function Place(c: char): nat
    requires Letter58(c)
  {
    var n := c as int;
    if c <= '9' then n - 49 else if c <= 'H' then n - 65 + 9 else if c <= 'N' then n - 74 + 17 else if c <= 'Z' then n - 80 + 22
    else if c <= 'k' then n - 97 + 33 else n - 109 + 44
  }

  lemma LetterPlace(c: char)
    requires Letter58(c)
    ensures Place(c) < 58 && Letter(Place(c)) == c
  {
  }

  lemma LetterOrder(i: nat, j: nat)
    requires i < j < 58
    ensures Letter58(Letter(i)) && Letter58(Letter(j)) && Letter(i) < Letter(j)
  {
  }

  /** The letters are the digits and letters of ASCII in their order, without 0, O, I and l. */
  lemma AlphabetIs(c: char)
    ensures c in ALPHABET <==> Letter58(c)
    ensures forall i, j | 0 <= i < j < |ALPHABET| :: ALPHABET[i] < ALPHABET[j]
  {
    LetterAt(0);
    hide ALPHABET, Letter58, Letter, Place;
    forall i | 0 <= i < 58
      ensures ALPHABET[i] == Letter(i) && Letter58(Letter(i))
    {
      LetterAt(i);
      if i < 57 { LetterOrder(i, i + 1); } else { LetterOrder(0, i); }
    }
    forall i, j | 0 <= i < j < 58 ensures ALPHABET[i] < ALPHABET[j] {
      LetterOrder(i, j);
    }
    if Letter58(c) {
      LetterPlace(c);
      assert ALPHABET[Place(c)] == c;
    }
  }

  // ---------------------------------------------------------------------
  // The code

  method CountLeading<T(==)>(s: seq<T>, x: T) returns (n: nat)
    ensures n <= |s| && (forall i | 0 <= i < n :: s[i] == x) && (n < |s| ==> s[n] != x)
  {
    n := 0;
    while n < |s| && s[n] == x
      invariant n <= |s| && forall i | 0 <= i < n :: s[i] == x
    {
      n := n + 1;
    }
  }

  /** Convert a big-endian digit string to another base with the in-place carry loops. */
  method Convert(ds: seq<nat>, from: nat, to: nat) returns (out: array<nat>)
    requires from > 1 && to > 1 && DigitsOf(from, ds) && (ds != [] ==> ds[0] != 0)
    ensures fresh(out)
    ensures if ds == [] then out[..] == [0] else out[..] == Digits(to, Value(from, ds))
  {
    hide Value, Digits;
    out := new nat[1](_ => 0);
    ZeroValue(from, to, out[..]);
    for k := 0 to |ds|
      invariant fresh(out) && out.Length > 0 && DigitsOf(to, out[..])
      invariant Value(to, out[..]) == Value(from, ds[..k])
      invariant if k == 0 then out[..] == [0] else Canonical(out[..])
    {
      ValueAppend(from, ds[..k], ds[k]);
      assert ds[..k + 1] == ds[..k] + [ds[k]];
      out := Absorb(out, from, to, ds[k]);
    }
    assert ds[..|ds|] == ds;
    if ds != [] {
      DigitsOfValue(to, out[..]);
    }
  }

  lemma ZeroValue(from: nat, to: nat, ds: seq<nat>)
    requires ds == [0]
    ensures Value(to, ds) == Value(from, []) == 0
  {
    assert ds[..0] == [];
  }

  method EncodeBase58(data: seq<Byte>) returns (out: string)
    ensures DigitsOf(256, data) && out == Encoded(data)
  {
    hide ALPHABET, Value, Digits;
    AlphabetIsDistinct();
    if |data| == 0 {
      NothingEncoded(data);
      return [];
    }
    var zeros := CountLeading(data, 0);
    var num := data[zeros..];
    LeadingZerosAre(data, zeros);
    var digits := Convert(num, 256, 58);
    out := seq(zeros, _ => '1');
    RebaseBack(256, 58, data);
    if num == [] { NoDigits(256, 58); }
    ghost var ds := if num == [] then [] else digits[..];
    assert Rebase(256, 58, data) == Zeros(zeros) + ds;
    for k := 0 to digits.Length
      invariant if num == [] then out == seq(zeros, _ => '1') else out == seq(zeros, _ => '1') + Spell(ALPHABET, digits[..k])
    {
      var d := digits[k];
      if |num| == 0 && d == 0 {
        continue;
      }
      assert digits[..k + 1] == digits[..k] + [d];
      out := out + [ALPHABET[d]];
    }
    assert digits[..digits.Length] == digits[..];
    assert out == Spell(ALPHABET, Zeros(zeros) + ds);
  }

  lemma NothingEncoded(data: seq<nat>)
    requires data == []
    ensures DigitsOf(256, data) && Encoded(data) == []
  {
    hide ALPHABET;
    AlphabetIsDistinct();
    NoDigits(256, 58);
  }

  lemma NoDigits(from: nat, to: nat)
    requires to > 1
    ensures Value(from, []) == 0 && Digits(to, 0) == []
  {
  }

  lemma LeadingZerosAre(ds: seq<nat>, z: nat)
    requires z <= |ds| && (forall i | 0 <= i < z :: ds[i] == 0) && (z < |ds| ==> ds[z] != 0)
    ensures LeadingZeros(ds) == z
  {
  }

  /** The indexes of the letters from position `from` on. */
  method Indexes(encoded: string, from: nat) returns (indexes: seq<nat>)
    requires Over(ALPHABET, encoded) && |ALPHABET| == 58 && from <= |encoded|
    ensures indexes == Read(ALPHABET, encoded)[from..]
  {
    hide ALPHABET;
    indexes := [];
    for k := from to |encoded|
      invariant indexes == Read(ALPHABET, encoded)[from..k]
    {
      var idx := IndexByte(ALPHABET, encoded[k]);
      indexes := indexes + [idx];
    }
  }

  method DecodeBase58(data: string, ignore: bool) returns (r: Option<seq<nat>>)
    ensures if Accepts(data, ALPHABET, ignore)
            then Over(ALPHABET, Letters(data, ALPHABET)) && r == Some(Decoded(Letters(data, ALPHABET)))
            else r == None
  {
    hide ALPHABET, Value, Digits, Decoded, Over, Accepts, Letters, Read;
    AlphabetIsDistinct();
    var filtered := FilterBytes(data, ALPHABET, ignore);
    if filtered.None? { return None; }
    var encoded := filtered.value;
    LettersOver(data, ALPHABET);
    if |encoded| == 0 {
      NothingDecoded(encoded);
      return Some([]);
    }
    var zeros := CountLeading(encoded, '1');
    ReadLeading(encoded, zeros);
    var indexes := Indexes(encoded, zeros);
    DecodedParts(encoded, zeros);
    var bytes := Convert(indexes, 58, 256);
    var out := Zeros(zeros);
    if |encoded| != zeros {
      out := out + bytes[..];
    } else {
      assert out + [] == out;
    }
    r := Some(out);
  }

  /** The bytes of a text: its leading zeros and the digits of the rest. */
  lemma DecodedParts(s: string, zeros: nat)
    requires Over(ALPHABET, s) && |ALPHABET| == 58 && zeros <= |s|
    requires (forall i | 0 <= i < zeros :: Read(ALPHABET, s)[i] == 0) && (zeros < |s| ==> Read(ALPHABET, s)[zeros] != 0)
    ensures DigitsOf(58, Read(ALPHABET, s)[zeros..])
    ensures Decoded(s) == Zeros(zeros) + if zeros == |s| then [] else Digits(256, Value(58, Read(ALPHABET, s)[zeros..]))
  {
    hide ALPHABET, Value, Digits;
    LeadingZerosAre(Read(ALPHABET, s), zeros);
    NoDigits(58, 256);
  }

  lemma NothingDecoded(s: string)
    requires s == []
    ensures Over(ALPHABET, s) && Decoded(s) == []
  {
    hide ALPHABET;
    AlphabetIsDistinct();
    NoDigits(58, 256);
  }

  lemma ReadLeading(s: string, z: nat)
    requires Over(ALPHABET, s) && |ALPHABET| == 58
    requires z <= |s| && (forall i | 0 <= i < z :: s[i] == '1') && (z < |s| ==> s[z] != '1')
    ensures (forall i | 0 <= i < z :: Read(ALPHABET, s)[i] == 0) && (z < |s| ==> Read(ALPHABET, s)[z] != 0)
  {
    hide ALPHABET;
    AlphabetIsDistinct();
    IndexOfLetter(ALPHABET, 0);
  }

  /** Encoded, wrapped at any width and decoded: the bytes come back. */
  lemma WrappedRoundTrip(data: seq<nat>, cols: int, ignore: bool)
    requires DigitsOf(256, data)
    ensures var text := Wrapped(Encoded(data), cols);
            var s := Letters(text, ALPHABET);
            Accepts(text, ALPHABET, ignore) && Over(ALPHABET, s) && Decoded(s) == data
  {
    AlphabetIsDistinct();
    hide ALPHABET, Wrapped, Letters, Accepts, Encoded, Decoded, Over;
    DecodeEncode(data);
    WrappedDecodes(Encoded(data), cols, ALPHABET, ignore);
  }
}
