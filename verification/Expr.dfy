/** expr: values and operators, and the grammar as trees with their eager evaluation. */
module Expr {
  import opened Decimal

  datatype Error = MissingOperand | MissingArgument(f: Fn) | UnmatchedOpen | UnmatchedClose | NonInteger |
                   DivisionByZero | InvalidRegex | Syntax

  datatype Result = Ok(v: string) | Err(e: Error)

  datatype Fn = Length | Index | Substr | Match

  /** What a pattern makes of a string: the value of the match, or a bad pattern. */
  datatype Matched = Value(v: string) | BadPattern

  type Matcher = (string, string) -> Matched

  // ---------------------------------------------------------------------
  // Values

  /** An optional minus sign and at least one digit. */
  predicate IsInteger(s: string) {
    s != "" && (if s[0] == '-' then |s| > 1 && AllDigits(s[1..]) else AllDigits(s))
  }

  function IntegerOf(s: string): int
    requires IsInteger(s)
  {
    if s[0] == '-' then -(Decimal.Value(s[1..]) as int) else Decimal.Value(s)
  }

  lemma TextIsInteger(n: int)
    ensures IsInteger(Text(n)) && IntegerOf(Text(n)) == n
  {
    if n < 0 {
      ValueOfNumeral(-n);
      assert Text(n)[1..] == Numeral(-n);
    } else {
      ValueOfNumeral(n);
      assert IsDigit(Numeral(n)[0]);
    }
  }

  /** Neither empty nor a zero. */
  predicate Truthy(s: string) {
    s != "" && (IsInteger(s) ==> IntegerOf(s) != 0)
  }

  /** Quotient and remainder toward zero. */
  function Quo(a: int, b: int): int
    requires b != 0
  {
    if (a < 0) == (b < 0) then Abs(a) / Abs(b) else -(Abs(a) / Abs(b))
  }

  function Rem(a: int, b: int): int
    requires b != 0
  {
    if a < 0 then -(Abs(a) % Abs(b)) else Abs(a) % Abs(b)
  }

  function Abs(a: int): nat {
    if a < 0 then -a else a
  }

  lemma DivisionIs(a: int, b: int)
    requires b != 0
    ensures a == Quo(a, b) * b + Rem(a, b) && Abs(Rem(a, b)) < Abs(b)
    ensures Rem(a, b) != 0 ==> (Rem(a, b) < 0 <==> a < 0)
  {
    var q, r := Abs(a) / Abs(b), Abs(a) % Abs(b);
    assert Abs(a) == q * Abs(b) + r;
    assert (-q) * b == q * (-b) == -(q * b);
  }

  predicate Less(a: string, b: string) {
    b != "" && (a == "" || a[0] < b[0] || (a[0] == b[0] && Less(a[1..], b[1..])))
  }

  /** Numbers by value, other strings byte by byte. */
  function Compare(a: string, b: string): int {
    if IsInteger(a) && IsInteger(b) then IntegerOf(a) - IntegerOf(b)
    else if Less(a, b) then -1
    else if Less(b, a) then 1
    else 0
  }

  // ---------------------------------------------------------------------
  // Operators

  /** The binding strength of an operator token, 1 for | up to 6 for :, and 0 for others. */
  function Strength(t: string): (k: nat)
    ensures k <= 6
  {
    if t == "|" then 1
    else if t == "&" then 2
    else if t == "=" || t == "==" || t == "!=" || t == "<" || t == "<=" || t == ">" || t == ">=" then 3
    else if t == "+" || t == "-" then 4
    else if t == "*" || t == "/" || t == "%" then 5
    else if t == ":" then 6
    else 0
  }

  function Compared(op: string, c: int): bool {
    if op == "=" || op == "==" then c == 0
    else if op == "!=" then c != 0
    else if op == "<" then c < 0
    else if op == "<=" then c <= 0
    else if op == ">" then c > 0
    else c >= 0
  }

  function Arithmetic(op: string, a: int, b: int): Result {
    if op == "+" then Ok(Text(a + b))
    else if op == "-" then Ok(Text(a - b))
    else if op == "*" then Ok(Text(a * b))
    else if b == 0 then Err(DivisionByZero)
    else if op == "/" then Ok(Text(Quo(a, b)))
    else Ok(Text(Rem(a, b)))
  }

  /** An operator on the values of both its operands. */
  function Apply(re: Matcher, op: string, l: string, r: string): Result
    requires Strength(op) > 0
  {
    match Strength(op)
    case 1 => Ok(if Truthy(l) then l else if r == "" then "0" else r)
    case 2 => Ok(if Truthy(l) && Truthy(r) then l else "0")
    case 3 => Ok(if Compared(op, Compare(l, r)) then "1" else "0")
    case 6 => MatchOf(re, l, r)
    case _ => if IsInteger(l) && IsInteger(r) then Arithmetic(op, IntegerOf(l), IntegerOf(r)) else Err(NonInteger)
  }

  function MatchOf(re: Matcher, s: string, pattern: string): Result {
    match re(s, pattern)
    case Value(v) => Ok(v)
    case BadPattern => Err(InvalidRegex)
  }

  // ---------------------------------------------------------------------
  // Functions

  /** The position of the first character of s that is one of chars, or 0. */
  function IndexOf(s: string, chars: string, from: nat): nat
    requires from <= |s|
    decreases |s| - from
  {
    if from == |s| then 0 else if s[from] in chars then from + 1 else IndexOf(s, chars, from + 1)
  }

  function SubstrOf(s: string, pos: int, len: int): string {
    if pos <= 0 || len <= 0 || pos > |s| then ""
    else if len >= |s| - (pos - 1) then s[pos - 1..]
    else s[pos - 1..pos - 1 + len]
  }

  // ---------------------------------------------------------------------
  // Tokens

  datatype Word = Open | Close | Name(f: Fn) | Other

  /** What a token is where an operand may begin. */
  function Classify(t: string): Word {
    if t == "(" then Open
    else if t == ")" then Close
    else if t == "length" then Name(Length)
    else if t == "index" then Name(Index)
    else if t == "substr" then Name(Substr)
    else if t == "match" then Name(Match)
    else Other
  }

  function Spelled(f: Fn): string {
    match f
    case Length => "length"
    case Index => "index"
    case Substr => "substr"
    case Match => "match"
  }

  lemma ClassifySpelled(f: Fn)
    ensures Classify(Spelled(f)) == Name(f) && Spelled(f) != "+"
  {
    assert "substr"[0] == 's' && "length"[0] == 'l' && "match"[0] == 'm' && "index"[0] == 'i';
  }

  // ---------------------------------------------------------------------
  // Trees

  /** An expression as written: a bare token, a token after the + guard, parentheses, a
      function of operands, or a binary operator. */
  datatype Tree =
    | Bare(s: string)
    | Guarded(s: string)
    | Paren(t: Tree)
    | LengthOf(a: Tree)
    | IndexIn(a: Tree, b: Tree)
    | SubstrIn(a: Tree, b: Tree, c: Tree)
    | MatchIn(a: Tree, b: Tree)
    | Binary(op: string, l: Tree, r: Tree)

  function Tight(t: Tree): nat {
    if t.Binary? then Strength(t.op) else 7
  }

  /** Well formed by precedence with left association: an operator's left side binds at
      least as tightly, its right side more tightly, a function's operands are primary. A
      bare + stands only at the very end. */
  predicate Wf(t: Tree, last: bool) {
    match t
    case Bare(s) => Classify(s) == Other && (s == "+" ==> last)
    case Guarded(_) => true
    case Paren(u) => Wf(u, false)
    case LengthOf(a) => Wf(a, last) && !a.Binary?
    case IndexIn(a, b) => Wf(a, false) && Wf(b, last) && !a.Binary? && !b.Binary?
    case SubstrIn(a, b, c) => Wf(a, false) && Wf(b, false) && Wf(c, last) && !a.Binary? && !b.Binary? && !c.Binary?
    case MatchIn(a, b) => Wf(a, false) && Wf(b, last) && !a.Binary? && !b.Binary?
    case Binary(op, l, r) => Strength(op) > 0 && Wf(l, false) && Wf(r, last) && Tight(l) >= Strength(op) && Tight(r) > Strength(op)
  }

  function Print(t: Tree): seq<string> {
    match t
    case Bare(s) => [s]
    case Guarded(s) => ["+", s]
    case Paren(u) => ["("] + Print(u) + [")"]
    case LengthOf(a) => [Spelled(Length)] + Print(a)
    case IndexIn(a, b) => [Spelled(Index)] + Print(a) + Print(b)
    case SubstrIn(a, b, c) => [Spelled(Substr)] + Print(a) + Print(b) + Print(c)
    case MatchIn(a, b) => [Spelled(Match)] + Print(a) + Print(b)
    case Binary(op, l, r) => Print(l) + [op] + Print(r)
  }

  /** The function match, which its program computes by reading the three tokens s : pattern
      again with the whole parser. */
  function MatchAgain(re: Matcher, s: string, pattern: string): Result {
    if s == "+" then (if pattern == ":" then Err(MissingOperand) else Ok(":"))
    else match Classify(s)
      case Open =>
        if Strength(pattern) > 0 then Err(MissingOperand)
        else if pattern == ")" then Ok(":")
        else Err(UnmatchedOpen)
      case Close => Err(UnmatchedClose)
      case Other => Then(LastOperand(pattern), p => MatchOf(re, s, p))
      case Name(Length) => if pattern == ":" then Err(MissingOperand) else Ok("1")
      case Name(Index) => Then(LastOperand(pattern), p => Ok(Text(IndexOf(":", p, 0))))
      case Name(Substr) => Then(LastOperand(pattern), p => Err(MissingArgument(Substr)))
      case Name(Match) => Then(LastOperand(pattern), p => MatchOf(re, ":", p))
  }

  function Then(r: Result, next: string -> Result): Result {
    match r
    case Ok(v) => next(v)
    case Err(e) => Err(e)
  }

  /** A token that must be an operand with nothing after it. */
  function LastOperand(t: string): Result {
    match Classify(t)
    case Open => Err(MissingOperand)
    case Close => Err(UnmatchedClose)
    case Name(f) => Err(MissingArgument(f))
    case Other => Ok(t)
  }

  function SubstrArgs(s: string, pos: string, len: string): Result {
    if IsInteger(pos) && IsInteger(len) then Ok(SubstrOf(s, IntegerOf(pos), IntegerOf(len))) else Err(NonInteger)
  }

  /** Eager evaluation, left to right: every operand is evaluated, and the first error is
      the result. */
  function Eval(re: Matcher, t: Tree): Result
    requires Wf(t, true)
  {
    match t
    case Bare(s) => Ok(s)
    case Guarded(s) => Ok(s)
    case Paren(u) => WfMore(u); Eval(re, u)
    case LengthOf(a) =>
      (match Eval(re, a) case Err(e) => Err(e) case Ok(v) => Ok(Text(|v|)))
    case IndexIn(a, b) =>
      WfMore(a);
      (match Eval(re, a)
       case Err(e) => Err(e)
       case Ok(v) => (match Eval(re, b) case Err(e) => Err(e) case Ok(w) => Ok(Text(IndexOf(v, w, 0)))))
    case SubstrIn(a, b, c) =>
      WfMore(a); WfMore(b);
      (match Eval(re, a)
       case Err(e) => Err(e)
       case Ok(v) =>
         (match Eval(re, b)
          case Err(e) => Err(e)
          case Ok(w) => (match Eval(re, c) case Err(e) => Err(e) case Ok(x) => SubstrArgs(v, w, x))))
    case MatchIn(a, b) =>
      WfMore(a);
      (match Eval(re, a)
       case Err(e) => Err(e)
       case Ok(v) => (match Eval(re, b) case Err(e) => Err(e) case Ok(w) => MatchAgain(re, v, w)))
    case Binary(op, l, r) =>
      WfMore(l);
      (match Eval(re, l)
       case Err(e) => Err(e)
       case Ok(v) => (match Eval(re, r) case Err(e) => Err(e) case Ok(w) => Apply(re, op, v, w)))
  }

  lemma {:induction false} WfMore(t: Tree)
    requires Wf(t, false)
    ensures Wf(t, true)
  {
    match t
    case Bare(_) =>
    case Guarded(_) =>
    case Paren(_) =>
    case LengthOf(a) => WfMore(a);
    case IndexIn(_, b) => WfMore(b);
    case SubstrIn(_, _, c) => WfMore(c);
    case MatchIn(_, b) => WfMore(b);
    case Binary(_, _, r) => WfMore(r);
  }
}
