/** Finding a character in an alphabet, and filtering the input of a decoder. */
module Alphabet {
  import opened Common
  import opened Radix

  ghost predicate Distinct(s: string) {
    forall i, j | 0 <= i < j < |s| :: s[i] != s[j]
  }

  /** In an alphabet without repetition the index of the i-th letter is i. */
  lemma IndexOfLetter(s: string, i: nat)
    requires Distinct(s) && i < |s|
    ensures IndexByte(s, s[i]) == i
  {
  }

  ghost predicate Over(alphabet: string, s: string) {
    forall i | 0 <= i < |s| :: s[i] in alphabet
  }

  /** Digits written as letters. */
  ghost function Spell(alphabet: string, ds: seq<nat>): string
    requires DigitsOf(|alphabet|, ds)
  {
    seq(|ds|, i requires 0 <= i < |ds| => alphabet[ds[i]])
  }

  /** Letters read as digits. */
  ghost function Read(alphabet: string, s: string): (ds: seq<nat>)
    requires Over(alphabet, s)
    ensures |ds| == |s| && DigitsOf(|alphabet|, ds)
  {
    seq(|s|, i requires 0 <= i < |s| => IndexByte(alphabet, s[i]))
  }

  lemma ReadSpelled(alphabet: string, ds: seq<nat>)
    requires DigitsOf(|alphabet|, ds) && Distinct(alphabet)
    ensures Over(alphabet, Spell(alphabet, ds)) && Read(alphabet, Spell(alphabet, ds)) == ds
  {
    forall i | 0 <= i < |ds|
      ensures Spell(alphabet, ds)[i] in alphabet && IndexByte(alphabet, Spell(alphabet, ds)[i]) == ds[i]
    {
      IndexOfLetter(alphabet, ds[i]);
    }
  }

  lemma SpelledRead(alphabet: string, s: string)
    requires Over(alphabet, s)
    ensures Spell(alphabet, Read(alphabet, s)) == s
  {
    assert forall i | 0 <= i < |s| :: s[i] in alphabet;
  }

  /** Every byte is a letter, a newline, or to be ignored. */
  predicate Accepts(data: string, alphabet: string, ignore: bool) {
    forall i | 0 <= i < |data| :: data[i] in alphabet || ignore || data[i] == '\n'
  }

  /** The letters of the input that belong to the alphabet, in order. */
  function Letters(data: string, alphabet: string): string {
    if data == [] then []
    else (if data[0] in alphabet then [data[0]] else []) + Letters(data[1..], alphabet)
  }

  lemma {:induction false} LettersAppend(data: string, c: char, alphabet: string)
    ensures Letters(data + [c], alphabet) == Letters(data, alphabet) + if c in alphabet then [c] else []
  {
    if data == [] {
      assert data + [c] == [c];
    } else {
      assert (data + [c])[1..] == data[1..] + [c] && (data + [c])[0] == data[0];
      LettersAppend(data[1..], c, alphabet);
      Regroup(if data[0] in alphabet then [data[0]] else [], Letters(data[1..], alphabet), if c in alphabet then [c] else []);
    }
  }

  /** What a decoder works on: the letters, or None if a foreign byte is not ignored.
      Newlines are always dropped. */
  method FilterBytes(data: string, alphabet: string, ignore: bool) returns (r: Option<string>)
    ensures r == if Accepts(data, alphabet, ignore) then Some(Letters(data, alphabet)) else None
  {
    var out := [];
    for i := 0 to |data|
      invariant Accepts(data[..i], alphabet, ignore) && out == Letters(data[..i], alphabet)
    {
      assert data[..i + 1] == data[..i] + [data[i]];
      LettersAppend(data[..i], data[i], alphabet);
      if data[i] in alphabet {
        out := out + [data[i]];
      } else if ignore || data[i] == '\n' {
      } else {
        return None;
      }
    }
    assert data[..|data|] == data;
    r := Some(out);
  }

  /** Text over the alphabet passes unchanged. */
  lemma {:induction false} LettersKeep(s: string, alphabet: string)
    requires Over(alphabet, s)
    ensures Letters(s, alphabet) == s
  {
    if s != [] {
      LettersKeep(s[1..], alphabet);
    }
  }

  lemma {:induction false} LettersOver(s: string, alphabet: string)
    ensures Over(alphabet, Letters(s, alphabet))
  {
    if s != [] {
      LettersOver(s[1..], alphabet);
    }
  }
}
