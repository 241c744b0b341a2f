/** Base2: eight letters '0' or '1' per byte, most or least significant bit first. */
module Base2 {
  import opened Common
  import opened Alphabet
  import opened Wrap

  const ALPHABET: string := "01"

  function Pow2(k: nat): nat {
    if k == 0 then 1 else 2 * Pow2(k - 1)
  }

  lemma Powers()
    ensures Pow2(0) == 1 && Pow2(1) == 2 && Pow2(2) == 4 && Pow2(3) == 8
    ensures Pow2(4) == 16 && Pow2(5) == 32 && Pow2(6) == 64 && Pow2(7) == 128
  {
  }

  lemma {:induction false} PowPositive(k: nat)
    ensures Pow2(k) > 0
  {
    if k > 0 { PowPositive(k - 1); }
  }

  /** The bit that letter i of a byte shows. */
  function ShiftOf(i: nat, lsbFirst: bool): nat
    requires i < 8
  {
    if lsbFirst then i else 7 - i
  }

  predicate BitSet(b: nat, shift: nat) {
    PowPositive(shift);
    b / Pow2(shift) % 2 == 1
  }

  function Letters8(b: nat, lsbFirst: bool): (s: string)
    ensures |s| == 8 && forall i | 0 <= i < 8 :: s[i] == if BitSet(b, ShiftOf(i, lsbFirst)) then '1' else '0'
  {
    seq(8, i requires 0 <= i < 8 => if BitSet(b, ShiftOf(i, lsbFirst)) then '1' else '0')
  }

  /** The byte whose set bits the first n letters show. */
  function Gather(s: string, lsbFirst: bool, n: nat): nat
    requires n <= |s| && n <= 8
  {
    if n == 0 then 0 else Gather(s, lsbFirst, n - 1) + if s[n - 1] == '1' then Pow2(ShiftOf(n - 1, lsbFirst)) else 0
  }

  /** The last letter shows whether the byte is odd, or with the other order the first does,
      and the letter next to it the same of half the byte. */
  lemma BitOrder(b: Byte)
    ensures Letters8(b, false)[7] == (if b % 2 == 1 then '1' else '0') && Letters8(b, true)[0] == (if b % 2 == 1 then '1' else '0')
    ensures forall i | 0 <= i < 7 :: Letters8(b, false)[i] == Letters8(b / 2, false)[i + 1]
    ensures forall i | 0 <= i < 7 :: Letters8(b, true)[i + 1] == Letters8(b / 2, true)[i]
  {
    hide Letters8;
    forall k | 0 <= k < 7 ensures BitSet(b, k + 1) == BitSet(b / 2, k) {
      PowPositive(k);
      DivideTwice(b, Pow2(k));
    }
    assert Pow2(0) == 1;
  }

  lemma DivideTwice(b: nat, p: nat)
    requires p > 0
    ensures b / (2 * p) == b / 2 / p
  {
    var q := b / 2 / p;
    var r := b / 2 % p;
    assert b / 2 == q * p + r;
    assert b == 2 * (q * p + r) + b % 2;
    assert b == 2 * p * q + (2 * r + b % 2);
    QuotientIs(b, 2 * p, q, 2 * r + b % 2);
  }

  lemma Halves(b: nat)
    ensures b / 4 == b / 2 / 2 && b / 8 == b / 4 / 2 && b / 16 == b / 8 / 2 && b / 32 == b / 16 / 2
    ensures b / 64 == b / 32 / 2 && b / 128 == b / 64 / 2
  {
  }

  /** The eight bits of a byte, weighted, are the byte. */
  lemma BitsOfByte(b: nat)
    requires b < 256
    ensures b == b % 2 + b / 2 % 2 * 2 + b / 4 % 2 * 4 + b / 8 % 2 * 8
                 + b / 16 % 2 * 16 + b / 32 % 2 * 32 + b / 64 % 2 * 64 + b / 128 % 2 * 128
  {
    Halves(b);
    var q1 := b / 2;
    var q2 := q1 / 2;
    var q3 := q2 / 2;
    var q4 := q3 / 2;
    var q5 := q4 / 2;
    var q6 := q5 / 2;
    var q7 := q6 / 2;
    assert q7 < 2 && q7 % 2 == q7;
  }

  /** What letter i contributes to the byte. */
  function Weight(b: nat, i: nat, lsbFirst: bool): nat
    requires i < 8
  {
    if BitSet(b, ShiftOf(i, lsbFirst)) then Pow2(ShiftOf(i, lsbFirst)) else 0
  }

  function Weights(b: nat, lsbFirst: bool, n: nat): nat
    requires n <= 8
  {
    if n == 0 then 0 else Weights(b, lsbFirst, n - 1) + Weight(b, n - 1, lsbFirst)
  }

  lemma {:induction false} GatherIsWeights(b: nat, lsbFirst: bool, n: nat)
    requires n <= 8
    ensures Gather(Letters8(b, lsbFirst), lsbFirst, n) == Weights(b, lsbFirst, n)
  {
    if n > 0 {
      GatherIsWeights(b, lsbFirst, n - 1);
    }
  }

  lemma UnrollWeights(b: nat, lsbFirst: bool)
    ensures Weights(b, lsbFirst, 8)
            == Weight(b, 0, lsbFirst) + Weight(b, 1, lsbFirst) + Weight(b, 2, lsbFirst) + Weight(b, 3, lsbFirst)
               + Weight(b, 4, lsbFirst) + Weight(b, 5, lsbFirst) + Weight(b, 6, lsbFirst) + Weight(b, 7, lsbFirst)
  {
    hide Weight;
    assert Weights(b, lsbFirst, 0) == 0;
    assert Weights(b, lsbFirst, 1) == Weight(b, 0, lsbFirst);
    assert Weights(b, lsbFirst, 3) == Weights(b, lsbFirst, 1) + Weight(b, 1, lsbFirst) + Weight(b, 2, lsbFirst);
    assert Weights(b, lsbFirst, 5) == Weights(b, lsbFirst, 3) + Weight(b, 3, lsbFirst) + Weight(b, 4, lsbFirst);
    assert Weights(b, lsbFirst, 7) == Weights(b, lsbFirst, 5) + Weight(b, 5, lsbFirst) + Weight(b, 6, lsbFirst);
  }

  lemma AllWeights(b: nat, lsbFirst: bool)
    ensures Weights(b, lsbFirst, 8)
            == b % 2 + b / 2 % 2 * 2 + b / 4 % 2 * 4 + b / 8 % 2 * 8
               + b / 16 % 2 * 16 + b / 32 % 2 * 32 + b / 64 % 2 * 64 + b / 128 % 2 * 128
  {
    hide Weight, Weights;
    UnrollWeights(b, lsbFirst);
    Powers();
    hide Pow2;
    WeightOf(b, 0, 1);
    WeightOf(b, 1, 2);
    WeightOf(b, 2, 4);
    WeightOf(b, 3, 8);
    WeightOf(b, 4, 16);
    WeightOf(b, 5, 32);
    WeightOf(b, 6, 64);
    WeightOf(b, 7, 128);
  }

  /** Bit k weighs 2^k, whichever letter shows it. */
  lemma WeightOf(b: nat, k: nat, p: nat)
    requires k < 8 && p == Pow2(k)
    ensures p > 0 && Weight(b, k, true) == Weight(b, 7 - k, false) == b / p % 2 * p
  {
    PowPositive(k);
    hide Pow2;
  }

  lemma GatherLetters(b: nat, lsbFirst: bool)
    requires b < 256
    ensures Gather(Letters8(b, lsbFirst), lsbFirst, 8) == b
  {
    hide Gather, Letters8, Weights;
    GatherIsWeights(b, lsbFirst, 8);
    AllWeights(b, lsbFirst);
    BitsOfByte(b);
  }

  // ---------------------------------------------------------------------
  // Whole texts

  function Encoded(data: seq<nat>, lsbFirst: bool): (s: string)
    ensures |s| == 8 * |data| && Over(ALPHABET, s)
  {
    if data == [] then [] else Letters8(data[0], lsbFirst) + Encoded(data[1..], lsbFirst)
  }

  function Decoded(s: string, lsbFirst: bool): seq<nat>
    requires |s| % 8 == 0
  {
    if s == [] then [] else [Gather(s[..8], lsbFirst, 8)] + Decoded(s[8..], lsbFirst)
  }

  lemma {:induction false} DecodeEncode(data: seq<nat>, lsbFirst: bool)
    requires forall i | 0 <= i < |data| :: data[i] < 256
    ensures Decoded(Encoded(data, lsbFirst), lsbFirst) == data
  {
    hide Gather, Letters8;
    if data != [] {
      GatherLetters(data[0], lsbFirst);
      DecodeEncode(data[1..], lsbFirst);
      var s := Encoded(data, lsbFirst);
      EightLetters(data[0], lsbFirst);
      assert s[..8] == Letters8(data[0], lsbFirst) && s[8..] == Encoded(data[1..], lsbFirst);
    }
  }

  lemma EightLetters(b: nat, lsbFirst: bool)
    ensures |Letters8(b, lsbFirst)| == 8
  {
  }

  // ---------------------------------------------------------------------
  // The code

  method EncodeByte(b: Byte, lsbFirst: bool) returns (out: string)
    ensures out == Letters8(b, lsbFirst)
  {
    hide BitSet;
    out := [];
    for i := 0 to 8
      invariant out == Letters8(b, lsbFirst)[..i]
    {
      var shift := ShiftOf(i, lsbFirst);
      out := out + [if BitSet(b, shift) then '1' else '0'];
    }
  }

  method EncodeBase2(data: seq<Byte>, lsbFirst: bool) returns (out: string)
    ensures out == Encoded(data, lsbFirst)
  {
    hide Letters8;
    out := [];
    ghost var target := Encoded(data, lsbFirst);
    assert data[0..] == data;
    for k := 0 to |data|
      invariant target == out + Encoded(data[k..], lsbFirst)
    {
      assert data[k..][1..] == data[k + 1..];
      var byte := EncodeByte(data[k], lsbFirst);
      assert out + (byte + Encoded(data[k + 1..], lsbFirst)) == out + byte + Encoded(data[k + 1..], lsbFirst);
      out := out + byte;
    }
    assert out + [] == out;
  }

  method DecodeBase2(data: string, lsbFirst: bool, ignore: bool) returns (r: Option<seq<nat>>)
    ensures var s := Letters(data, ALPHABET);
            if Accepts(data, ALPHABET, ignore) && |s| % 8 == 0 then r == Some(Decoded(s, lsbFirst)) else r == None
  {
    hide Letters, Accepts;
    var filtered := FilterBytes(data, ALPHABET, ignore);
    if filtered.None? || |filtered.value| % 8 != 0 { return None; }
    var bits := filtered.value;
    var out := [];
    ghost var target := Decoded(bits, lsbFirst);
    while |bits| > 0
      invariant |bits| % 8 == 0
      invariant target == out + Decoded(bits, lsbFirst)
      decreases |bits|
    {
      var b := 0;
      for j := 0 to 8
        invariant b == Gather(bits[..8], lsbFirst, j)
      {
        if bits[j] == '1' {
          b := b + Pow2(ShiftOf(j, lsbFirst));
        }
      }
      assert out + ([b] + Decoded(bits[8..], lsbFirst)) == out + [b] + Decoded(bits[8..], lsbFirst);
      out := out + [b];
      bits := bits[8..];
    }
    assert out + [] == out;
    r := Some(out);
  }

  /** Encoded in either order, wrapped at any width and decoded: the bytes come back. */
  lemma WrappedRoundTrip(data: seq<nat>, lsbFirst: bool, cols: int, ignore: bool)
    requires forall i | 0 <= i < |data| :: data[i] < 256
    ensures var text := Wrapped(Encoded(data, lsbFirst), cols);
            var s := Letters(text, ALPHABET);
            Accepts(text, ALPHABET, ignore) && |s| % 8 == 0 && Decoded(s, lsbFirst) == data
  {
    hide Wrapped, Letters, Accepts;
    DecodeEncode(data, lsbFirst);
    WrappedDecodes(Encoded(data, lsbFirst), cols, ALPHABET, ignore);
  }
}
