/** The streaming line wrapper behind the encoders. */
module Wrap {
  import opened Common
  import opened Alphabet

  /** Text broken after every `cols` bytes, the last line left open. */
  function Broken(s: string, cols: int): string
    decreases |s|
  {
    if cols <= 0 || |s| <= cols then s
    else s[..cols] + "\n" + Broken(s[cols..], cols)
  }

  /** Length of the open line. */
  function LastLine(len: nat, cols: nat): (r: nat)
    requires cols > 0
    ensures r <= cols && (len == 0 <==> r == 0)
  {
    if len <= cols then len else LastLine(len - cols, cols)
  }

  /** What a finished writer has put out. */
  function Wrapped(s: string, cols: int): string {
    Broken(s, cols) + if cols > 0 && s != [] then "\n" else ""
  }

  /** More text on the open line, as far as it has room. */
  lemma {:induction false} BrokenExtends(s: string, t: string, cols: nat)
    requires cols > 0 && LastLine(|s|, cols) + |t| <= cols
    ensures Broken(s + t, cols) == Broken(s, cols) + t
    ensures LastLine(|s + t|, cols) == LastLine(|s|, cols) + |t|
    decreases |s|
  {
    if |s| > cols {
      BrokenExtends(s[cols..], t, cols);
      assert (s + t)[..cols] == s[..cols] && (s + t)[cols..] == s[cols..] + t;
    }
  }

  /** Text after a full line begins a new one. */
  lemma {:induction false} BrokenBreaks(s: string, t: string, cols: nat)
    requires cols > 0 && LastLine(|s|, cols) == cols && 0 < |t| <= cols
    ensures Broken(s + t, cols) == Broken(s, cols) + "\n" + t
    ensures LastLine(|s + t|, cols) == |t|
    decreases |s|
  {
    if |s| > cols {
      BrokenBreaks(s[cols..], t, cols);
      assert (s + t)[..cols] == s[..cols] && (s + t)[cols..] == s[cols..] + t;
    } else {
      assert (s + t)[..cols] == s && (s + t)[cols..] == t;
    }
  }

  lemma NeverBroken(s: string, cols: int)
    requires cols <= 0
    ensures Broken(s, cols) == s
  {
  }

  class WrapWriter {
    var out: string
    const cols: int
    var col: int
    ghost var total: string  // everything handed to Write

    ghost predicate Valid()
      reads this
    {
      out == Broken(total, cols) && (cols > 0 ==> col == LastLine(|total|, cols))
    }

    constructor (cols: int)
      ensures Valid() && total == [] && this.cols == cols
    {
      this.cols := cols;
      out, col, total := [], 0, [];
    }

    method Write(p: string)
      requires Valid()
      modifies this
      ensures Valid() && total == old(total) + p
    {
      hide Broken, LastLine;
      if cols <= 0 {
        NeverBroken(total, cols);
        NeverBroken(total + p, cols);
        out := out + p;
        total := total + p;
        return;
      }
      var rest := p;
      while |rest| > 0
        invariant Valid() && total + rest == old(total) + p
        decreases |rest|
      {
        var full := col == cols;
        if full {
          out := out + "\n";
          col := 0;
        }
        var chunk := rest;
        var room := cols - col;
        if |chunk| > room {
          chunk := chunk[..room];
        }
        if full {
          BrokenBreaks(total, chunk, cols);
        } else {
          BrokenExtends(total, chunk, cols);
        }
        out := out + chunk;
        col := col + |chunk|;
        assert rest == chunk + rest[|chunk|..];
        total := total + chunk;
        rest := rest[|chunk|..];
      }
    }

    /** The closing newline. */
    method Finish()
      requires Valid()
      modifies this
      ensures out == Wrapped(old(total), cols) && total == old(total)
    {
      if cols > 0 && col > 0 {
        out := out + "\n";
      }
    }
  }

  // ---------------------------------------------------------------------
  // What wrapping promises

  /** Any cols + 1 bytes in a row contain a newline. */
  ghost predicate LinesFit(out: string, cols: nat) {
    forall i: nat, j: nat | i <= j <= |out| && j - i > cols :: '\n' in out[i..j]
  }

  lemma {:induction false} BrokenFits(s: string, cols: nat)
    requires cols > 0
    ensures LinesFit(Broken(s, cols), cols)
    decreases |s|
  {
    if |s| > cols {
      var rest := Broken(s[cols..], cols);
      BrokenFits(s[cols..], cols);
      var out := Broken(s, cols);
      forall i: nat, j: nat | i <= j <= |out| && j - i > cols
        ensures '\n' in out[i..j]
      {
        if i <= cols {
          assert out[i..j][cols - i] == '\n';
        } else {
          assert out[i..j] == rest[i - cols - 1..j - cols - 1];
        }
      }
    }
  }

  /** Byte r of line q is printed after q newlines, the last of them just before it if it
      begins the line, and nothing is printed after the last byte. */
  lemma {:induction false} BrokenAt(s: string, cols: nat, q: nat, r: nat)
    requires r < cols && cols * q + r < |s|
    ensures var out := Broken(s, cols); var at := cols * q + r + q;
            && at < |out| && out[at] == s[cols * q + r] && (q > 0 && r == 0 ==> at > 0 && out[at - 1] == '\n')
            && (cols * q + r + 1 == |s| ==> at + 1 == |out|)
    decreases q
  {
    if q > 0 {
      var i := cols * (q - 1) + r;
      assert cols * q + r == cols + i;
      MulMono(cols, 0, q - 1);
      BrokenAt(s[cols..], cols, q - 1, r);
      BrokenIs(s, cols);
      hide Broken;
      var rest := Broken(s[cols..], cols);
      assert (s[..cols] + "\n" + rest)[cols + 1 + (i + q - 1)] == rest[i + q - 1];
      if r == 0 && q > 1 {
        assert (s[..cols] + "\n" + rest)[cols + 1 + (i + q - 1) - 1] == rest[i + q - 1 - 1];
      }
    }
  }

  lemma BrokenIs(s: string, cols: nat)
    requires 0 < cols < |s|
    ensures Broken(s, cols) == s[..cols] + "\n" + Broken(s[cols..], cols)
  {
  }

  /** No printed line is longer than cols. */
  lemma WrappedFits(s: string, cols: nat)
    requires cols > 0
    ensures LinesFit(Wrapped(s, cols), cols)
  {
    BrokenFits(s, cols);
    var b, out := Broken(s, cols), Wrapped(s, cols);
    forall i: nat, j: nat | i <= j <= |out| && j - i > cols
      ensures '\n' in out[i..j]
    {
      if j <= |b| {
        assert out[i..j] == b[i..j];
      } else {
        assert out[i..j][j - i - 1] == '\n';
      }
    }
  }

  lemma {:induction false} LettersConcat(s: string, t: string, alphabet: string)
    ensures Letters(s + t, alphabet) == Letters(s, alphabet) + Letters(t, alphabet)
  {
    if s == [] {
      assert s + t == t;
    } else {
      var u := s + t;
      assert u[0] == s[0] && u[1..] == s[1..] + t;
      LettersConcat(s[1..], t, alphabet);
      LettersNext(s, alphabet);
      LettersNext(u, alphabet);
    }
  }

  lemma LettersNext(s: string, alphabet: string)
    requires s != []
    ensures Letters(s, alphabet) == (if s[0] in alphabet then [s[0]] else []) + Letters(s[1..], alphabet)
  {
  }

  lemma {:induction false} BrokenLetters(s: string, cols: int, alphabet: string)
    requires '\n' !in alphabet && Over(alphabet, s)
    ensures Letters(Broken(s, cols), alphabet) == s && Accepts(Broken(s, cols), alphabet, false)
    decreases |s|
  {
    hide Letters;
    if cols <= 0 || |s| <= cols {
      LettersKeep(s, alphabet);
    } else {
      var first, rest := s[..cols], Broken(s[cols..], cols);
      BrokenLetters(s[cols..], cols, alphabet);
      LettersKeep(first, alphabet);
      LettersConcat(first, "\n" + rest, alphabet);
      NewlineDropped(rest, alphabet);
      assert first + "\n" + rest == first + ("\n" + rest);
      assert s == first + s[cols..];
    }
  }

  lemma NewlineDropped(rest: string, alphabet: string)
    requires '\n' !in alphabet
    ensures Letters("\n" + rest, alphabet) == Letters(rest, alphabet)
  {
    assert ("\n" + rest)[1..] == rest;
  }

  /** A decoder sees through the line breaks: it accepts wrapped text and works on
      exactly the text that was wrapped. */
  lemma WrappedDecodes(s: string, cols: int, alphabet: string, ignore: bool)
    requires '\n' !in alphabet && Over(alphabet, s)
    ensures Accepts(Wrapped(s, cols), alphabet, ignore) && Letters(Wrapped(s, cols), alphabet) == s
  {
    BrokenLetters(s, cols, alphabet);
    var end := if cols > 0 && s != [] then "\n" else "";
    LettersConcat(Broken(s, cols), end, alphabet);
    NewlineDropped("", alphabet);
    assert "\n" + "" == "\n" && Letters(end, alphabet) == [];
  }
}
