/** What expr computes, on command lines: comparison, arithmetic, the connectives, the string
    functions, and which operators bind tighter. */
module ExprLaws {
  import opened Decimal
  import opened Expr
  import opened ExprParser

  /** One operator between any two values, each guarded so that it is an operand. */
  function Command(l: string, op: string, r: string): seq<string> {
    ["+", l, op, "+", r]
  }

  lemma CommandTree(re: Matcher, l: string, op: string, r: string)
    requires Strength(op) > 0
    ensures var t := Binary(op, Guarded(l), Guarded(r));
            Wf(t, true) && Print(t) == Command(l, op, r) && Eval(re, t) == Apply(re, op, l, r)
  {
    hide Apply, Strength;
  }

  /** The outcome of one operator is what it makes of its operands. */
  lemma CommandIs(re: Matcher, l: string, op: string, r: string)
    requires Strength(op) > 0
    ensures Outcome(re, Command(l, op, r)) == Apply(re, op, l, r)
  {
    hide *;
    CommandTree(re, l, op, r);
    TreeErrors(re, Binary(op, Guarded(l), Guarded(r)));
  }

  // ---------------------------------------------------------------------
  // Numbers

  /** Null or a zero: no characters, or an optional minus sign and zeros. */
  predicate NullOrZero(v: string) {
    |v| == 0 || (if v[0] == '-' then |v| > 1 && AllZeros(v[1..]) else AllZeros(v))
  }

  lemma TruthyIff(v: string)
    ensures Truthy(v) <==> !NullOrZero(v)
  {
    if |v| > 0 {
      var ds := if v[0] == '-' then v[1..] else v;
      if AllDigits(ds) {
        ZeroIff(ds);
      }
      assert AllZeros(ds) ==> AllDigits(ds);
    }
  }

  // ---------------------------------------------------------------------
  // Comparison

  function Answer(b: bool): Result {
    Ok(if b then "1" else "0")
  }

  /** Two numbers compare by value. */
  lemma CompareNumbers(re: Matcher, l: string, r: string)
    requires IsInteger(l) && IsInteger(r)
    ensures Outcome(re, Command(l, "=", r)) == Answer(IntegerOf(l) == IntegerOf(r))
    ensures Outcome(re, Command(l, "==", r)) == Answer(IntegerOf(l) == IntegerOf(r))
    ensures Outcome(re, Command(l, "!=", r)) == Answer(IntegerOf(l) != IntegerOf(r))
    ensures Outcome(re, Command(l, "<", r)) == Answer(IntegerOf(l) < IntegerOf(r))
    ensures Outcome(re, Command(l, "<=", r)) == Answer(IntegerOf(l) <= IntegerOf(r))
    ensures Outcome(re, Command(l, ">", r)) == Answer(IntegerOf(l) > IntegerOf(r))
    ensures Outcome(re, Command(l, ">=", r)) == Answer(IntegerOf(l) >= IntegerOf(r))
  {
    hide Outcome, Command, IsInteger, IntegerOf;
    CommandIs(re, l, "=", r);
    CommandIs(re, l, "==", r);
    CommandIs(re, l, "!=", r);
    CommandIs(re, l, "<", r);
    CommandIs(re, l, "<=", r);
    CommandIs(re, l, ">", r);
    CommandIs(re, l, ">=", r);
  }

  /** a comes before b: at the first difference it has ended or has the smaller byte. */
  ghost predicate Before(a: string, b: string) {
    exists k :: Differs(a, b, k)
  }

  predicate Differs(a: string, b: string, k: int) {
    && 0 <= k <= |a| && k < |b| && a[..k] == b[..k] && (k < |a| ==> a[k] < b[k])
  }

  lemma {:induction false} LessIff(a: string, b: string)
    ensures Less(a, b) <==> Before(a, b)
  {
    if a == "" || b == "" {
      assert b != "" ==> Differs(a, b, 0);
    } else {
      LessIff(a[1..], b[1..]);
      if a[0] < b[0] {
        assert Differs(a, b, 0);
      } else if a[0] == b[0] {
        if k :| Differs(a[1..], b[1..], k) {
          assert a[..k + 1] == [a[0]] + a[1..][..k] && b[..k + 1] == [b[0]] + b[1..][..k];
          assert Differs(a, b, k + 1);
        }
      }
      if k :| Differs(a, b, k) {
        DiffersLater(a, b, k);
      }
    }
  }

  lemma DiffersLater(a: string, b: string, k: int)
    requires Differs(a, b, k) && a != ""
    ensures a[0] < b[0] || (a[0] == b[0] && Differs(a[1..], b[1..], k - 1))
  {
    if k > 0 {
      assert a[..k][0] == a[0] && b[..k][0] == b[0];
      assert a[1..][..k - 1] == a[..k][1..] && b[1..][..k - 1] == b[..k][1..];
    }
  }

  lemma {:induction false} LessOrSame(a: string, b: string)
    ensures a == b <==> !Less(a, b) && !Less(b, a)
    ensures !(Less(a, b) && Less(b, a))
  {
    if a != "" && b != "" {
      LessOrSame(a[1..], b[1..]);
      assert a == [a[0]] + a[1..] && b == [b[0]] + b[1..];
    }
  }

  /** Otherwise values compare byte by byte. */
  lemma CompareStrings(re: Matcher, l: string, r: string)
    requires !(IsInteger(l) && IsInteger(r))
    ensures Outcome(re, Command(l, "=", r)) == Answer(l == r)
    ensures Outcome(re, Command(l, "==", r)) == Answer(l == r)
    ensures Outcome(re, Command(l, "!=", r)) == Answer(l != r)
    ensures Outcome(re, Command(l, "<", r)) == Answer(Before(l, r))
    ensures Outcome(re, Command(l, "<=", r)) == Answer(Before(l, r) || l == r)
    ensures Outcome(re, Command(l, ">", r)) == Answer(Before(r, l))
    ensures Outcome(re, Command(l, ">=", r)) == Answer(Before(r, l) || l == r)
  {
    LessIff(l, r);
    LessIff(r, l);
    LessOrSame(l, r);
    hide Outcome, Command, IsInteger, IntegerOf, Before, Less;
    CommandIs(re, l, "=", r);
    CommandIs(re, l, "==", r);
    CommandIs(re, l, "!=", r);
    CommandIs(re, l, "<", r);
    CommandIs(re, l, "<=", r);
    CommandIs(re, l, ">", r);
    CommandIs(re, l, ">=", r);
  }

  // ---------------------------------------------------------------------
  // Arithmetic

  /** The result is the number n, printed. */
  predicate Gives(r: Result, n: int) {
    r.Ok? && IsInteger(r.v) && IntegerOf(r.v) == n && r.v == Text(n)
  }

  lemma TextGives(n: int)
    ensures Gives(Ok(Text(n)), n)
  {
    TextIsInteger(n);
  }

  lemma SumsAndProducts(re: Matcher, l: string, r: string)
    requires IsInteger(l) && IsInteger(r)
    ensures Gives(Outcome(re, Command(l, "+", r)), IntegerOf(l) + IntegerOf(r))
    ensures Gives(Outcome(re, Command(l, "-", r)), IntegerOf(l) - IntegerOf(r))
    ensures Gives(Outcome(re, Command(l, "*", r)), IntegerOf(l) * IntegerOf(r))
  {
    hide Outcome, Command, IsInteger, IntegerOf, Text, Gives;
    CommandIs(re, l, "+", r);
    CommandIs(re, l, "-", r);
    CommandIs(re, l, "*", r);
    TextGives(IntegerOf(l) + IntegerOf(r));
    TextGives(IntegerOf(l) - IntegerOf(r));
    TextGives(IntegerOf(l) * IntegerOf(r));
  }

  /** Quotient and remainder of a by b, the remainder with the sign of a. */
  predicate Divided(a: int, b: int, q: int, r: int) {
    a == q * b + r && Abs(r) < Abs(b) && (r != 0 ==> (r < 0 <==> a < 0))
  }

  lemma Division(re: Matcher, l: string, r: string) returns (quo: int, rem: int)
    requires IsInteger(l) && IsInteger(r)
    ensures IntegerOf(r) == 0 ==>
              Outcome(re, Command(l, "/", r)) == Outcome(re, Command(l, "%", r)) == Err(DivisionByZero)
    ensures IntegerOf(r) != 0 ==> Divided(IntegerOf(l), IntegerOf(r), quo, rem)
    ensures IntegerOf(r) != 0 ==> Gives(Outcome(re, Command(l, "/", r)), quo) && Gives(Outcome(re, Command(l, "%", r)), rem)
  {
    hide Outcome, Command, IsInteger, IntegerOf, Text, Gives, Quo, Rem, Divided;
    CommandIs(re, l, "/", r);
    CommandIs(re, l, "%", r);
    var a, b := IntegerOf(l), IntegerOf(r);
    quo, rem := 0, 0;
    if b != 0 {
      quo, rem := Quo(a, b), Rem(a, b);
      DividedIs(a, b);
      TextGives(quo);
      TextGives(rem);
    }
  }

  lemma DividedIs(a: int, b: int)
    requires b != 0
    ensures Divided(a, b, Quo(a, b), Rem(a, b))
  {
    hide Quo, Rem;
    DivisionIs(a, b);
  }

  lemma NotNumbers(re: Matcher, l: string, op: string, r: string)
    requires !(IsInteger(l) && IsInteger(r)) && op in {"+", "-", "*", "/", "%"}
    ensures Outcome(re, Command(l, op, r)) == Err(NonInteger)
  {
    hide Outcome, Command, IsInteger, IntegerOf;
    CommandIs(re, l, op, r);
  }

  // ---------------------------------------------------------------------
  // The connectives

  lemma OrAnd(re: Matcher, l: string, r: string)
    ensures Outcome(re, Command(l, "|", r)) == Ok(if !NullOrZero(l) then l else if r == "" then "0" else r)
    ensures Outcome(re, Command(l, "&", r)) == Ok(if NullOrZero(l) || NullOrZero(r) then "0" else l)
  {
    TruthyIff(l);
    TruthyIff(r);
    hide Outcome, Command, NullOrZero, Truthy;
    CommandIs(re, l, "|", r);
    CommandIs(re, l, "&", r);
  }

  // ---------------------------------------------------------------------
  // Functions of strings

  lemma LengthTree(re: Matcher, s: string)
    ensures var t := LengthOf(Guarded(s));
            Wf(t, true) && Print(t) == ["length", "+", s] && Eval(re, t) == Ok(Text(|s|))
  {
    hide Text;
    assert Print(Guarded(s)) == ["+", s] && Eval(re, Guarded(s)) == Ok(s);
  }

  lemma LengthLaw(re: Matcher, s: string)
    ensures Gives(Outcome(re, ["length", "+", s]), |s|)
  {
    hide Outcome, Gives, Print, Eval, Wf, Text;
    LengthTree(re, s);
    TreeErrors(re, LengthOf(Guarded(s)));
    TextGives(|s|);
  }

  /** n is the least position of a character of s that is one of chars, or 0. */
  predicate LeastPosition(s: string, chars: string, n: int) {
    if n == 0 then forall i | 0 <= i < |s| :: s[i] !in chars
    else 1 <= n <= |s| && s[n - 1] in chars && forall i | 0 <= i < n - 1 :: s[i] !in chars
  }

  lemma {:induction false} IndexIsLeast(s: string, chars: string, from: nat)
    requires from <= |s| && forall i | 0 <= i < from :: s[i] !in chars
    ensures LeastPosition(s, chars, IndexOf(s, chars, from))
    decreases |s| - from
  {
    if from < |s| && s[from] !in chars {
      IndexIsLeast(s, chars, from + 1);
    }
  }

  lemma IndexTree(re: Matcher, s: string, chars: string)
    ensures var t := IndexIn(Guarded(s), Guarded(chars));
            && Wf(t, true) && Print(t) == ["index", "+", s, "+", chars]
            && Eval(re, t) == Ok(Text(IndexOf(s, chars, 0)))
  {
    hide Text, IndexOf;
  }

  lemma IndexLaw(re: Matcher, s: string, chars: string) returns (n: int)
    ensures Gives(Outcome(re, ["index", "+", s, "+", chars]), n) && LeastPosition(s, chars, n)
  {
    hide Outcome, Gives, Print, Eval, Wf, Text, LeastPosition, IndexOf;
    n := IndexOf(s, chars, 0);
    IndexIsLeast(s, chars, 0);
    IndexTree(re, s, chars);
    TreeErrors(re, IndexIn(Guarded(s), Guarded(chars)));
    TextGives(n);
  }

  /** v is the characters of s at positions pos up to pos + len - 1, as far as s has them; none
      if pos is not positive. */
  predicate Substring(s: string, pos: int, len: int, v: string) {
    if pos <= 0 then v == ""
    else
      && (forall i | 0 <= i < |v| :: i < len && pos - 1 + i < |s| && v[i] == s[pos - 1 + i])
      && (|v| < len ==> pos - 1 + |v| >= |s|)
  }

  lemma SubstrIs(s: string, pos: int, len: int)
    ensures Substring(s, pos, len, SubstrOf(s, pos, len))
  {
  }

  lemma SubstrTree(re: Matcher, s: string, pos: string, len: string)
    ensures var t := SubstrIn(Guarded(s), Guarded(pos), Guarded(len));
            && Wf(t, true) && Print(t) == ["substr", "+", s, "+", pos, "+", len]
            && Eval(re, t) == SubstrArgs(s, pos, len)
  {
    hide SubstrArgs;
  }

  lemma SubstrLaw(re: Matcher, s: string, pos: string, len: string)
    ensures var r := Outcome(re, ["substr", "+", s, "+", pos, "+", len]);
            if IsInteger(pos) && IsInteger(len) then r.Ok? && Substring(s, IntegerOf(pos), IntegerOf(len), r.v)
            else r == Err(NonInteger)
  {
    hide Outcome, Wf, Print, Eval, IsInteger, IntegerOf, Substring, SubstrOf;
    SubstrTree(re, s, pos, len);
    TreeErrors(re, SubstrIn(Guarded(s), Guarded(pos), Guarded(len)));
    if IsInteger(pos) && IsInteger(len) {
      SubstrIs(s, IntegerOf(pos), IntegerOf(len));
    }
  }

  lemma ColonLaw(re: Matcher, s: string, pattern: string)
    ensures Outcome(re, Command(s, ":", pattern)) == match re(s, pattern) { case Value(v) => Ok(v) case BadPattern => Err(InvalidRegex) }
  {
    hide Outcome, Command;
    CommandIs(re, s, ":", pattern);
  }

  // ---------------------------------------------------------------------
  // Precedence

  /** The operators, the loosest first. */
  const LEVELS: seq<seq<string>> :=
    [["|"], ["&"], ["=", "==", "!=", "<", "<=", ">", ">="], ["+", "-"], ["*", "/", "%"], [":"]]

  predicate Operator(op: string, level: int) {
    0 <= level < |LEVELS| && op in LEVELS[level]
  }

  lemma LevelIs(op: string, level: int)
    requires Operator(op, level)
    ensures Strength(op) == level + 1
  {
  }

  /** Two operators without parentheses mean: the tighter one first, and of two equally tight
      ones the left one first. */
  lemma Precedence(re: Matcher, x: string, op: string, i: int, y: string, op': string, j: int, z: string)
    requires Operator(op, i) && Operator(op', j)
    ensures Outcome(re, ["+", x, op, "+", y, op', "+", z]) ==
            if i < j then Outcome(re, ["+", x, op, "("] + Command(y, op', z) + [")"])
            else Outcome(re, ["("] + Command(x, op, y) + [")", op', "+", z])
  {
    LevelIs(op, i);
    LevelIs(op', j);
    if i < j {
      TighterRight(re, x, op, y, op', z);
    } else {
      TighterLeft(re, x, op, y, op', z);
    }
  }

  lemma GuardedIs(re: Matcher, x: string)
    ensures Wf(Guarded(x), true) && Wf(Guarded(x), false) && Print(Guarded(x)) == ["+", x] && Tight(Guarded(x)) == 7
    ensures Eval(re, Guarded(x)) == Ok(x)
  {
  }

  lemma ParenIs(re: Matcher, t: Tree)
    requires Wf(t, true) && Wf(t, false)
    ensures Wf(Paren(t), true) && Wf(Paren(t), false) && Print(Paren(t)) == ["("] + Print(t) + [")"] && Tight(Paren(t)) == 7
    ensures Eval(re, Paren(t)) == Eval(re, t)
  {
  }

  /** An operator over trees: only their values count. */
  lemma BinaryIs(re: Matcher, op: string, l: Tree, r: Tree, l': Tree, r': Tree)
    requires Strength(op) > 0 && Tight(l) >= Strength(op) && Tight(l') >= Strength(op)
    requires Tight(r) > Strength(op) && Tight(r') > Strength(op)
    requires Wf(l, false) && Wf(l, true) && Wf(l', false) && Wf(l', true) && Wf(r, false) && Wf(r, true) && Wf(r', false) && Wf(r', true)
    requires Eval(re, l) == Eval(re, l') && Eval(re, r) == Eval(re, r')
    ensures Wf(Binary(op, l, r), true) && Wf(Binary(op, l', r'), true) && Wf(Binary(op, l, r), false)
    ensures Print(Binary(op, l, r)) == Print(l) + [op] + Print(r) && Print(Binary(op, l', r')) == Print(l') + [op] + Print(r')
    ensures Eval(re, Binary(op, l, r)) == Eval(re, Binary(op, l', r')) && Tight(Binary(op, l, r)) == Strength(op)
  {
    hide Apply, Strength;
  }

  lemma TighterRight(re: Matcher, x: string, op: string, y: string, op': string, z: string)
    requires 0 < Strength(op) < Strength(op')
    ensures Outcome(re, ["+", x, op, "+", y, op', "+", z]) == Outcome(re, ["+", x, op, "("] + Command(y, op', z) + [")"])
  {
    hide Apply, Strength, Outcome, Wf, Print, Eval, Tight;
    AtMostSix(op);
    AtMostSix(op');
    var gx, gy, gz := Guarded(x), Guarded(y), Guarded(z);
    GuardedIs(re, x);
    GuardedIs(re, y);
    GuardedIs(re, z);
    var inner := Binary(op', gy, gz);
    BinaryIs(re, op', gy, gz, gy, gz);
    ParenIs(re, inner);
    BinaryIs(re, op, gx, inner, gx, Paren(inner));
    TreeErrors(re, Binary(op, gx, inner));
    TreeErrors(re, Binary(op, gx, Paren(inner)));
    assert ["+", x] + [op] + (["+", y] + [op'] + ["+", z]) == ["+", x, op, "+", y, op', "+", z];
    assert ["+", y] + [op'] + ["+", z] == Command(y, op', z);
    assert ["+", x] + [op] + (["("] + Command(y, op', z) + [")"]) == ["+", x, op, "("] + Command(y, op', z) + [")"];
  }

  lemma TighterLeft(re: Matcher, x: string, op: string, y: string, op': string, z: string)
    requires Strength(op) >= Strength(op') > 0
    ensures Outcome(re, ["+", x, op, "+", y, op', "+", z]) == Outcome(re, ["("] + Command(x, op, y) + [")", op', "+", z])
  {
    hide Apply, Strength, Outcome, Wf, Print, Eval, Tight;
    AtMostSix(op);
    AtMostSix(op');
    var gx, gy, gz := Guarded(x), Guarded(y), Guarded(z);
    GuardedIs(re, x);
    GuardedIs(re, y);
    GuardedIs(re, z);
    var inner := Binary(op, gx, gy);
    BinaryIs(re, op, gx, gy, gx, gy);
    ParenIs(re, inner);
    BinaryIs(re, op', inner, gz, Paren(inner), gz);
    TreeErrors(re, Binary(op', inner, gz));
    TreeErrors(re, Binary(op', Paren(inner), gz));
    assert ["+", x] + [op] + ["+", y] + [op'] + ["+", z] == ["+", x, op, "+", y, op', "+", z];
    assert ["+", x] + [op] + ["+", y] == Command(x, op, y);
    assert ["("] + Command(x, op, y) + [")"] + [op'] + ["+", z] == ["("] + Command(x, op, y) + [")", op', "+", z];
  }

  lemma AtMostSix(op: string)
    ensures Strength(op) <= 6
  {
  }

  // ---------------------------------------------------------------------
  // What is no expression

  /** A token that is an operand and nothing else. */
  predicate Plain(t: string) {
    t != "+" && Classify(t) == Other && Strength(t) == 0
  }

  lemma PlainRead(re: Matcher, k: nat, t: string, rest: seq<string>)
    requires 1 <= k <= 7 && Plain(t) && (rest == [] || Strength(rest[0]) == 0)
    ensures Parse(re, k, [t] + rest) == Done(t, rest)
    decreases 7 - k
  {
    assert ([t] + rest)[1..] == rest;
    if k < 7 {
      PlainRead(re, k + 1, t, rest);
    }
  }

  lemma {:induction false} FailsUp(re: Matcher, k: nat, ts: seq<string>, e: Error)
    requires 1 <= k <= 7 && Operand(re, ts) == Fail(e)
    ensures Parse(re, k, ts) == Fail(e)
    decreases 7 - k
  {
    hide Operand;
    if k < 7 {
      FailsUp(re, k + 1, ts, e);
    }
  }

  /** Two operands in a row, and parentheses that do not match. */
  lemma SyntaxErrors(re: Matcher, a: string, b: string)
    requires Plain(a) && Plain(b)
    ensures Outcome(re, [a]) == Ok(a)
    ensures Outcome(re, [a, b]) == Err(Syntax)
    ensures Outcome(re, ["(", a]) == Err(UnmatchedOpen)
    ensures Outcome(re, [")"]) == Err(UnmatchedClose)
    ensures Outcome(re, ["length"]) == Err(MissingArgument(Length))
  {
    assert [a] + [] == [a] && [a] + [b] == [a, b] && ["(", a][1..] == [a] && ["length"][1..] == [];
    assert Strength("(") == 0;
    PlainRead(re, 1, a, []);
    PlainRead(re, 1, a, [b]);
    assert Operand(re, ["(", a]) == Fail(UnmatchedOpen) by { hide Parse; }
    assert Operand(re, [")"]) == Fail(UnmatchedClose);
    assert Operand(re, ["length"]) == Fail(MissingArgument(Length)) by { ClassifySpelled(Length); }
    hide Parse, Operand;
    FailsUp(re, 1, ["(", a], UnmatchedOpen);
    FailsUp(re, 1, [")"], UnmatchedClose);
    FailsUp(re, 1, ["length"], MissingArgument(Length));
  }
}
