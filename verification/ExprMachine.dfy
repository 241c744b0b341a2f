/** The parser of expr as it runs: a position in the tokens, advanced by one method for each
    strength of operator, and a left side updated in loops. */
module ExprMachine {
  import opened Decimal
  import opened Expr
  import opened ExprParser

  class Parser {
    const tokens: seq<string>
    const re: Matcher
    var pos: nat

    constructor (tokens: seq<string>, re: Matcher)
      ensures this.tokens == tokens && this.re == re && pos == 0
    {
      this.tokens, this.re, this.pos := tokens, re, 0;
    }

    /** The tokens not yet read. */
    ghost function Rest(): seq<string>
      requires pos <= |tokens|
      reads this
    {
      tokens[pos..]
    }

    /** A result and the position after it are what the parser function gives. */
    ghost predicate Agrees(r: Result, p: Parsed)
      reads this
    {
      match p
      case Fail(e) => r == Err(e)
      case Done(v, rest) => r == Ok(v) && pos <= |tokens| && tokens[pos..] == rest
    }

    predicate More()
      reads this
    {
      pos < |tokens|
    }

    function Peek(): string
      reads this
    {
      if More() then tokens[pos] else ""
    }

    method Next() returns (s: string)
      modifies this
      ensures s == old(Peek()) && pos == old(pos) + 1
    {
      s := Peek();
      pos := pos + 1;
    }

    lemma Split()
      requires More()
      ensures tokens[pos..] == [tokens[pos]] + tokens[pos + 1..]
    {
    }

    method ParseOr() returns (r: Result)
      requires pos <= |tokens|
      modifies this
      ensures Agrees(r, Parse(re, 1, old(Rest())))
      decreases |tokens| - pos, 8
    {
      hide Parse, ExprParser.More, Apply, Text, IsInteger, IntegerOf, Quo, Rem, Truthy, Compare;
      ghost var ts := Rest();
      ParseIs(re, 1, ts);
      r := ParseAnd();
      if r.Err? {
        return;
      }
      var left := r.v;
      while Peek() == "|"
        invariant pos <= |tokens| && pos > old(pos)
        invariant Parse(re, 1, ts) == ExprParser.More(re, 1, left, Rest())
        decreases |tokens| - pos
      {
        Split();
        MoreStep(re, left, "|", tokens[pos + 1..]);
        var op := Next();
        r := ParseAnd();
        if r.Err? {
          return;
        }
        var right := r.v;
        ApplyOr(re, left, right);
        if !Truthy(left) {
          if right == "" {
            left := "0";
          } else {
            left := right;
          }
        }
      }
      MoreStops(re, 1, left, Rest());
      r := Ok(left);
    }

    method ParseAnd() returns (r: Result)
      requires pos <= |tokens|
      modifies this
      ensures Agrees(r, Parse(re, 2, old(Rest())))
      decreases |tokens| - pos, 7
    {
      hide Parse, ExprParser.More, Apply, Text, IsInteger, IntegerOf, Quo, Rem, Truthy, Compare;
      ghost var ts := Rest();
      ParseIs(re, 2, ts);
      r := ParseCompare();
      if r.Err? {
        return;
      }
      var left := r.v;
      while Peek() == "&"
        invariant pos <= |tokens| && pos > old(pos)
        invariant Parse(re, 2, ts) == ExprParser.More(re, 2, left, Rest())
        decreases |tokens| - pos
      {
        Split();
        MoreStep(re, left, tokens[pos], tokens[pos + 1..]);
        var op := Next();
        r := ParseCompare();
        if r.Err? {
          return;
        }
        var right := r.v;
        ApplyAnd(re, left, right);
        if !(Truthy(left) && Truthy(right)) {
          left := "0";
        }
      }
      MoreStops(re, 2, left, Rest());
      r := Ok(left);
    }

    method ParseCompare() returns (r: Result)
      requires pos <= |tokens|
      modifies this
      ensures Agrees(r, Parse(re, 3, old(Rest())))
      decreases |tokens| - pos, 6
    {
      hide Parse, ExprParser.More, Apply, Text, IsInteger, IntegerOf, Quo, Rem, Truthy, Compare;
      ghost var ts := Rest();
      ParseIs(re, 3, ts);
      r := ParseAdd();
      if r.Err? {
        return;
      }
      var left := r.v;
      while Strength(Peek()) == 3
        invariant pos <= |tokens| && pos > old(pos)
        invariant Parse(re, 3, ts) == ExprParser.More(re, 3, left, Rest())
        decreases |tokens| - pos
      {
        Split();
        MoreStep(re, left, tokens[pos], tokens[pos + 1..]);
        var op := Next();
        r := ParseAdd();
        if r.Err? {
          return;
        }
        var right := r.v;
        ApplyCompare(re, op, left, right);
        var cmp := Compare(left, right);
        left := if Compared(op, cmp) then "1" else "0";
      }
      MoreStops(re, 3, left, Rest());
      r := Ok(left);
    }

    method ParseAdd() returns (r: Result)
      requires pos <= |tokens|
      modifies this
      ensures Agrees(r, Parse(re, 4, old(Rest())))
      decreases |tokens| - pos, 5
    {
      hide Parse, ExprParser.More, Apply, Text, IsInteger, IntegerOf, Quo, Rem, Truthy, Compare;
      ghost var ts := Rest();
      ParseIs(re, 4, ts);
      r := ParseMul();
      if r.Err? {
        return;
      }
      var left := r.v;
      while Peek() == "+" || Peek() == "-"
        invariant pos <= |tokens| && pos > old(pos)
        invariant Parse(re, 4, ts) == ExprParser.More(re, 4, left, Rest())
        decreases |tokens| - pos
      {
        Split();
        MoreStep(re, left, tokens[pos], tokens[pos + 1..]);
        var op := Next();
        r := ParseMul();
        if r.Err? {
          return;
        }
        var right := r.v;
        ApplyArithmetic(re, op, left, right);
        if !IsInteger(left) || !IsInteger(right) {
          return Err(NonInteger);
        }
        var a, b := IntegerOf(left), IntegerOf(right);
        left := if op == "+" then Text(a + b) else Text(a - b);
      }
      MoreStops(re, 4, left, Rest());
      r := Ok(left);
    }

    method ParseMul() returns (r: Result)
      requires pos <= |tokens|
      modifies this
      ensures Agrees(r, Parse(re, 5, old(Rest())))
      decreases |tokens| - pos, 4
    {
      hide Parse, ExprParser.More, Apply, Text, IsInteger, IntegerOf, Quo, Rem, Truthy, Compare;
      ghost var ts := Rest();
      ParseIs(re, 5, ts);
      r := ParseMatch();
      if r.Err? {
        return;
      }
      var left := r.v;
      while Peek() == "*" || Peek() == "/" || Peek() == "%"
        invariant pos <= |tokens| && pos > old(pos)
        invariant Parse(re, 5, ts) == ExprParser.More(re, 5, left, Rest())
        decreases |tokens| - pos
      {
        Split();
        MoreStep(re, left, tokens[pos], tokens[pos + 1..]);
        var op := Next();
        r := ParseMatch();
        if r.Err? {
          return;
        }
        var right := r.v;
        ApplyArithmetic(re, op, left, right);
        if !IsInteger(left) || !IsInteger(right) {
          return Err(NonInteger);
        }
        var a, b := IntegerOf(left), IntegerOf(right);
        if op == "*" {
          left := Text(a * b);
        } else {
          if b == 0 {
            return Err(DivisionByZero);
          }
          left := if op == "/" then Text(Quo(a, b)) else Text(Rem(a, b));
        }
      }
      MoreStops(re, 5, left, Rest());
      r := Ok(left);
    }

    method ParseMatch() returns (r: Result)
      requires pos <= |tokens|
      modifies this
      ensures Agrees(r, Parse(re, 6, old(Rest())))
      decreases |tokens| - pos, 3
    {
      hide Parse, ExprParser.More, Apply, Text, IsInteger, IntegerOf, Quo, Rem, Truthy, Compare;
      ghost var ts := Rest();
      ParseIs(re, 6, ts);
      r := ParsePrimary();
      if r.Err? {
        return;
      }
      var left := r.v;
      while Peek() == ":"
        invariant pos <= |tokens| && pos > old(pos)
        invariant Parse(re, 6, ts) == ExprParser.More(re, 6, left, Rest())
        decreases |tokens| - pos
      {
        Split();
        MoreStep(re, left, tokens[pos], tokens[pos + 1..]);
        var op := Next();
        r := ParsePrimary();
        if r.Err? {
          return;
        }
        var right := r.v;
        ApplyMatch(re, left, right);
        match re(left, right) {
          case BadPattern => return Err(InvalidRegex);
          case Value(v) => left := v;
        }
      }
      MoreStops(re, 6, left, Rest());
      r := Ok(left);
    }

    method ParsePrimary() returns (r: Result)
      requires pos <= |tokens|
      modifies this
      ensures Agrees(r, Parse(re, 7, old(Rest())))
      decreases |tokens| - pos, 2
    {
      hide Parse, ExprParser.More, ExprParser.Call;
      ghost var ts := Rest();
      OperandIs(re, ts);
      if !More() {
        return Err(MissingOperand);
      }
      Split();
      var t := Next();
      if t == "+" && More() {
        var s := Next();
        return Ok(s);
      }
      if t == "(" {
        r := ParseOr();
        if r.Err? {
          return;
        }
        var close := Next();
        if close != ")" {
          return Err(UnmatchedOpen);
        }
        return;
      }
      if t == ")" {
        return Err(UnmatchedClose);
      }
      if t == "length" || t == "index" || t == "substr" || t == "match" {
        var f := if t == "length" then Length else if t == "index" then Index else if t == "substr" then Substr else Match;
        r := ParseFunction(f);
        return;
      }
      r := Ok(t);
    }

    method ParseArgument(f: Fn) returns (r: Result)
      requires pos <= |tokens|
      modifies this
      ensures Agrees(r, ExprParser.Argument(re, f, old(Rest())))
      decreases |tokens| - pos, 3
    {
      ghost var ts := Rest();
      ArgumentIs(re, f, ts);
      if !More() {
        return Err(MissingArgument(f));
      }
      r := ParsePrimary();
    }

    method ParseFunction(f: Fn) returns (r: Result)
      requires pos <= |tokens|
      modifies this
      ensures Agrees(r, ExprParser.Call(re, f, old(Rest())))
      decreases |tokens| - pos, 4
    {
      hide Argument, MatchAgain, SubstrArgs;
      r := ParseArgument(f);
      if r.Err? {
        return;
      }
      var a := r.v;
      if f == Length {
        return Ok(Text(|a|));
      }
      r := ParseArgument(f);
      if r.Err? {
        return;
      }
      var b := r.v;
      if f == Index {
        var i := FindIndex(a, b);
        return Ok(Text(i));
      }
      if f == Match {
        return MatchAgain(re, a, b);
      }
      r := ParseArgument(f);
      if r.Err? {
        return;
      }
      r := SubstrArgs(a, b, r.v);
    }
  }

  method FindIndex(s: string, chars: string) returns (i: nat)
    ensures i == IndexOf(s, chars, 0)
  {
    for k := 0 to |s|
      invariant IndexOf(s, chars, 0) == IndexOf(s, chars, k)
    {
      for j := 0 to |chars|
        invariant s[k] !in chars[..j]
      {
        if s[k] == chars[j] {
          return k + 1;
        }
        assert chars[..j + 1] == chars[..j] + [chars[j]];
      }
      assert chars[..|chars|] == chars;
    }
    i := 0;
  }

  lemma ParseIs(re: Matcher, k: nat, ts: seq<string>)
    requires 1 <= k <= 6
    ensures Parse(re, k + 1, ts).Fail? ==> Parse(re, k, ts) == Parse(re, k + 1, ts)
    ensures Parse(re, k + 1, ts).Done? ==> Parse(re, k, ts) == ExprParser.More(re, k, Parse(re, k + 1, ts).v, Parse(re, k + 1, ts).rest)
  {
  }

  lemma MoreStops(re: Matcher, k: nat, left: string, ts: seq<string>)
    requires 1 <= k <= 6 && (ts == [] || Strength(ts[0]) != k)
    ensures ExprParser.More(re, k, left, ts) == Done(left, ts)
  {
  }

  lemma ApplyOr(re: Matcher, l: string, r: string)
    ensures Apply(re, "|", l, r) == Ok(if Truthy(l) then l else if r == "" then "0" else r)
  {
  }

  lemma ApplyAnd(re: Matcher, l: string, r: string)
    ensures Apply(re, "&", l, r) == Ok(if Truthy(l) && Truthy(r) then l else "0")
  {
  }

  lemma ApplyCompare(re: Matcher, op: string, l: string, r: string)
    requires Strength(op) == 3
    ensures Apply(re, op, l, r) == Ok(if Compared(op, Compare(l, r)) then "1" else "0")
  {
  }

  lemma ApplyArithmetic(re: Matcher, op: string, l: string, r: string)
    requires 4 <= Strength(op) <= 5
    ensures Apply(re, op, l, r) ==
            if IsInteger(l) && IsInteger(r) then Arithmetic(op, IntegerOf(l), IntegerOf(r)) else Err(NonInteger)
  {
  }

  lemma ApplyMatch(re: Matcher, l: string, r: string)
    ensures Apply(re, ":", l, r) == MatchOf(re, l, r)
  {
  }

  lemma OperandIs(re: Matcher, ts: seq<string>)
    ensures Parse(re, 7, ts) == Operand(re, ts)
  {
  }

  lemma ArgumentIs(re: Matcher, f: Fn, ts: seq<string>)
    ensures ts != [] ==> Argument(re, f, ts) == Parse(re, 7, ts)
  {
  }

  /** expr's output and exit status: 0 or 1 by the value, 2 for an invalid expression, 3 for
      one that cannot be evaluated. */
  method Run(args: seq<string>, re: Matcher) returns (out: string, status: nat)
    ensures args == [] ==> status == 2
    ensures args != [] ==>
              match Outcome(re, args)
              case Ok(v) => out == v + "\n" && status == (if Truthy(v) then 0 else 1)
              case Err(e) => out == "" && status == (if e == DivisionByZero then 3 else 2)
  {
    hide Parse, Truthy;
    if |args| == 0 {
      return "", 2;
    }
    var p := new Parser(args, re);
    assert p.Rest() == args;
    var r := p.ParseOr();
    if r.Ok? && p.More() {
      r := Err(Syntax);
    }
    match r {
      case Err(e) => return "", if e == DivisionByZero then 3 else 2;
      case Ok(v) => return v + "\n", if Truthy(v) then 0 else 1;
    }
  }

  /** The scan that decides whether a value is a number. */
  method ScanInteger(s: string) returns (n: int, ok: bool)
    ensures ok <==> IsInteger(s)
    ensures ok ==> n == IntegerOf(s)
  {
    n, ok := 0, false;
    if s == "" {
      return;
    }
    var i := 0;
    if s[0] == '-' {
      i := 1;
    }
    if i == |s| {
      return;
    }
    ghost var first := i;
    while i < |s|
      invariant first <= i <= |s| && Decimal.AllDigits(s[first..i])
    {
      if s[i] < '0' || s[i] > '9' {
        assert s[first..][i - first] == s[i];
        assert first == 0 ==> s[first..] == s;
        return;
      }
      assert s[first..i + 1] == s[first..i] + [s[i]];
      i := i + 1;
    }
    assert s[first..i] == s[first..];
    assert first == 0 ==> s[first..] == s;
    ok := true;
    n := IntegerOf(s);
  }
}
