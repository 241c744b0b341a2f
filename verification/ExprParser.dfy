/** The single-pass parser of expr, which evaluates as it reads: it takes exactly the printed
    trees, and its value is theirs. */
module ExprParser {
  import opened Decimal
  import opened Expr

  datatype Parsed = Done(v: string, rest: seq<string>) | Fail(e: Error)

  /** A result with the tokens after it. */
  function With(r: Result, rest: seq<string>): Parsed {
    match r
    case Ok(v) => Done(v, rest)
    case Err(e) => Fail(e)
  }

  // ---------------------------------------------------------------------
  // The parser as a function

  /** Operators of strength k and tighter, for k up to 6; an operand for k = 7. */
  function Parse(re: Matcher, k: nat, ts: seq<string>): (r: Parsed)
    requires 1 <= k <= 7
    ensures r.Done? ==> |r.rest| < |ts|
    decreases |ts|, 8 - k, 0
  {
    if k == 7 then Operand(re, ts)
    else
      match Parse(re, k + 1, ts)
      case Fail(e) => Fail(e)
      case Done(v, rest) => More(re, k, v, rest)
  }

  /** After a left side: as long as operators of strength k follow. */
  function More(re: Matcher, k: nat, left: string, ts: seq<string>): (r: Parsed)
    requires 1 <= k <= 6
    ensures r.Done? ==> |r.rest| <= |ts|
    decreases |ts|, 8 - k, 0
  {
    if ts == [] || Strength(ts[0]) != k then Done(left, ts)
    else
      match Parse(re, k + 1, ts[1..])
      case Fail(e) => Fail(e)
      case Done(right, rest) =>
        match Apply(re, ts[0], left, right)
        case Err(e) => Fail(e)
        case Ok(v) => More(re, k, v, rest)
  }

  function Operand(re: Matcher, ts: seq<string>): (r: Parsed)
    ensures r.Done? ==> |r.rest| < |ts|
    decreases |ts|, 0, 1
  {
    if ts == [] then Fail(MissingOperand)
    else if ts[0] == "+" && |ts| > 1 then Done(ts[1], ts[2..])
    else
      match Classify(ts[0])
      case Open =>
        (match Parse(re, 1, ts[1..])
         case Fail(e) => Fail(e)
         case Done(v, rest) => if rest != [] && rest[0] == ")" then Done(v, rest[1..]) else Fail(UnmatchedOpen))
      case Close => Fail(UnmatchedClose)
      case Name(f) => Call(re, f, ts[1..])
      case Other => Done(ts[0], ts[1..])
  }

  function Argument(re: Matcher, f: Fn, ts: seq<string>): (r: Parsed)
    ensures r.Done? ==> |r.rest| < |ts|
    decreases |ts|, 1, 0
  {
    if ts == [] then Fail(MissingArgument(f)) else Operand(re, ts)
  }

  function Call(re: Matcher, f: Fn, ts: seq<string>): (r: Parsed)
    ensures r.Done? ==> |r.rest| < |ts|
    decreases |ts|, 1, 1
  {
    match Argument(re, f, ts)
    case Fail(e) => Fail(e)
    case Done(a, rest) =>
      if f == Length then Done(Text(|a|), rest)
      else
        match Argument(re, f, rest)
        case Fail(e) => Fail(e)
        case Done(b, rest') =>
          if f == Index then Done(Text(IndexOf(a, b, 0)), rest')
          else if f == Match then With(MatchAgain(re, a, b), rest')
          else
            match Argument(re, f, rest')
            case Fail(e) => Fail(e)
            case Done(c, rest'') => With(SubstrArgs(a, b, c), rest'')
  }

  // ---------------------------------------------------------------------
  // Every printed tree is read back

  /** No operator of strength k or tighter comes next. */
  predicate Stops(ts: seq<string>, k: nat) {
    ts == [] || Strength(ts[0]) < k
  }

  /** What reading at strength k comes to once the tree before ts has been read. */
  function Continue(re: Matcher, k: nat, r: Result, ts: seq<string>): Parsed
    requires 1 <= k <= 7
  {
    match r
    case Err(e) => Fail(e)
    case Ok(v) => if k == 7 then Done(v, ts) else More(re, k, v, ts)
  }

  lemma ContinueStops(re: Matcher, k: nat, r: Result, ts: seq<string>)
    requires 1 <= k <= 7 && Stops(ts, k)
    ensures Continue(re, k, r, ts) == With(r, ts)
  {
  }

  /** Reading a tree at a strength no tighter than its own. */
  lemma {:induction false} ReadTree(re: Matcher, t: Tree, k: nat, rest: seq<string>)
    requires 1 <= k <= 7 && Wf(t, true) && Wf(t, rest == []) && Tight(t) >= k && Stops(rest, k + 1)
    ensures Parse(re, k, Print(t) + rest) == Continue(re, k, Eval(re, t), rest)
    decreases t, 10 - k
  {
    hide Strength, Apply, Classify, Operand, Eval;
    if k == 7 {
      ReadOperand(re, t, rest);
    } else if Tight(t) > k {
      ReadTree(re, t, k + 1, rest);
      ContinueStops(re, k + 1, Eval(re, t), rest);
    } else {
      ReadBinary(re, t, rest);
    }
  }

  /** An operator between a left side and what was read to its right, and then on. */
  function Applied(re: Matcher, left: string, op: string, right: Parsed): Parsed
    requires Strength(op) > 0
  {
    match right
    case Fail(e) => Fail(e)
    case Done(w, rest) => Continue(re, Strength(op), Apply(re, op, left, w), rest)
  }

  lemma MoreStep(re: Matcher, left: string, op: string, after: seq<string>)
    requires Strength(op) > 0
    ensures More(re, Strength(op), left, [op] + after) == Applied(re, left, op, Parse(re, Strength(op) + 1, after))
  {
    hide Strength, Apply, Parse;
    assert ([op] + after)[1..] == after;
  }

  lemma {:induction false} ReadBinary(re: Matcher, t: Tree, rest: seq<string>)
    requires t.Binary? && Wf(t, true) && Wf(t, rest == []) && Stops(rest, Strength(t.op) + 1)
    ensures Parse(re, Strength(t.op), Print(t) + rest) == Continue(re, Strength(t.op), Eval(re, t), rest)
    decreases t, 1
  {
    var k := Strength(t.op);
    BinaryParts(re, t, rest);
    hide Strength, Apply, Parse, More, Wf, Print, Eval, Applied;
    var after := Print(t.r) + rest;
    ReadTree(re, t.l, k, [t.op] + after);
    match Eval(re, t.l) {
      case Err(_) =>
      case Ok(v) =>
        MoreStep(re, v, t.op, after);
        ReadTree(re, t.r, k + 1, rest);
        ContinueStops(re, k + 1, Eval(re, t.r), rest);
        AppliedIs(re, v, t.op, Eval(re, t.r), rest);
    }
  }

  /** The value of an operator tree, from its right side. */
  function WithRight(re: Matcher, left: string, op: string, right: Result): Result
    requires Strength(op) > 0
  {
    match right
    case Err(e) => Err(e)
    case Ok(w) => Apply(re, op, left, w)
  }

  lemma AppliedIs(re: Matcher, left: string, op: string, right: Result, rest: seq<string>)
    requires Strength(op) > 0
    ensures Applied(re, left, op, With(right, rest)) == Continue(re, Strength(op), WithRight(re, left, op, right), rest)
  {
  }

  lemma BinaryParts(re: Matcher, t: Tree, rest: seq<string>)
    requires t.Binary? && Wf(t, true) && Wf(t, rest == [])
    ensures Strength(t.op) > 0 && Wf(t.l, false) && Wf(t.l, true) && Wf(t.r, true) && Wf(t.r, rest == [])
    ensures Tight(t.l) >= Strength(t.op) && Tight(t.r) > Strength(t.op)
    ensures Print(t) + rest == Print(t.l) + ([t.op] + (Print(t.r) + rest))
    ensures Eval(re, t.l).Err? ==> Eval(re, t) == Eval(re, t.l)
    ensures Eval(re, t.l).Ok? ==> Eval(re, t) == WithRight(re, Eval(re, t.l).v, t.op, Eval(re, t.r))
  {
    hide Strength, Apply;
    WfMore(t.l);
  }

  /** Reading a primary tree, whatever follows. */
  lemma {:induction false} ReadOperand(re: Matcher, t: Tree, rest: seq<string>)
    requires !t.Binary? && Wf(t, true) && Wf(t, rest == [])
    ensures Parse(re, 7, Print(t) + rest) == With(Eval(re, t), rest)
    decreases t, 2
  {
    var ts := Print(t) + rest;
    if t.Bare? {
      assert ts[1..] == rest;
    } else if t.Guarded? {
      assert ts[2..] == rest;
    } else if t.Paren? {
      ReadParen(re, t, rest);
    } else if t.SubstrIn? {
      ReadThree(re, t, rest);
    } else if t.LengthOf? {
      ReadOne(re, t, rest);
    } else {
      ReadTwo(re, t, rest);
    }
  }

  lemma {:induction false} ReadParen(re: Matcher, t: Tree, rest: seq<string>)
    requires t.Paren? && Wf(t, true)
    ensures Parse(re, 7, Print(t) + rest) == With(Eval(re, t), rest)
    decreases t, 1
  {
    var u := t.t;
    WfMore(u);
    var ts, tail := Print(t) + rest, [")"] + rest;
    assert Strength(")") == 0 && Classify("(") == Open && "(" != "+";
    assert ts[1..] == Print(u) + tail && tail[1..] == rest;
    hide Strength, Classify;
    ReadTree(re, u, 1, tail);
    ContinueStops(re, 1, Eval(re, u), tail);
  }

  lemma PrintIsSome(t: Tree)
    ensures Print(t) != []
  {
  }

  /** One argument of a function. */
  lemma {:induction false} ReadArgument(re: Matcher, f: Fn, a: Tree, rest: seq<string>)
    requires !a.Binary? && Wf(a, true) && Wf(a, rest == [])
    ensures Argument(re, f, Print(a) + rest) == With(Eval(re, a), rest)
    decreases a, 3
  {
    PrintIsSome(a);
    ReadOperand(re, a, rest);
  }

  lemma NameIsCall(re: Matcher, f: Fn, ts: seq<string>)
    ensures Parse(re, 7, [Spelled(f)] + ts) == Call(re, f, ts)
  {
    ClassifySpelled(f);
    hide Classify, Spelled, Call;
    assert ([Spelled(f)] + ts)[1..] == ts;
  }

  lemma {:induction false} ReadOne(re: Matcher, t: Tree, rest: seq<string>)
    requires t.LengthOf? && Wf(t, true) && Wf(t, rest == [])
    ensures Parse(re, 7, Print(t) + rest) == With(Eval(re, t), rest)
    decreases t, 1
  {
    hide Parse, Operand, Argument, Spelled, Text;
    assert Print(t) + rest == [Spelled(Length)] + (Print(t.a) + rest);
    NameIsCall(re, Length, Print(t.a) + rest);
    ReadArgument(re, Length, t.a, rest);
  }

  lemma {:induction false} ReadTwo(re: Matcher, t: Tree, rest: seq<string>)
    requires (t.IndexIn? || t.MatchIn?) && Wf(t, true) && Wf(t, rest == [])
    ensures Parse(re, 7, Print(t) + rest) == With(Eval(re, t), rest)
    decreases t, 1
  {
    hide Parse, Operand, Argument, Spelled, MatchAgain, IndexOf, Text;
    var f := if t.IndexIn? then Index else Match;
    var last := Print(t.b) + rest;
    assert Print(t) + rest == [Spelled(f)] + (Print(t.a) + last);
    NameIsCall(re, f, Print(t.a) + last);
    WfMore(t.a);
    PrintIsSome(t.b);
    ReadArgument(re, f, t.a, last);
    ReadArgument(re, f, t.b, rest);
  }

  lemma {:induction false} ReadThree(re: Matcher, t: Tree, rest: seq<string>)
    requires t.SubstrIn? && Wf(t, true) && Wf(t, rest == [])
    ensures Parse(re, 7, Print(t) + rest) == With(Eval(re, t), rest)
    decreases t, 1
  {
    hide Parse, Operand, Argument, Spelled, SubstrArgs;
    var last := Print(t.c) + rest;
    var two := Print(t.b) + last;
    assert Print(t) + rest == [Spelled(Substr)] + (Print(t.a) + two);
    NameIsCall(re, Substr, Print(t.a) + two);
    WfMore(t.a);
    WfMore(t.b);
    PrintIsSome(t.b);
    PrintIsSome(t.c);
    ReadArgument(re, Substr, t.a, two);
    ReadArgument(re, Substr, t.b, last);
    ReadArgument(re, Substr, t.c, rest);
  }

  /** A printed tree alone is read to its end, with its value or its first error. */
  lemma ReadBack(re: Matcher, t: Tree)
    requires Wf(t, true)
    ensures Parse(re, 1, Print(t)) == With(Eval(re, t), [])
  {
    assert Print(t) + [] == Print(t);
    ReadTree(re, t, 1, []);
    ContinueStops(re, 1, Eval(re, t), []);
  }

  // ---------------------------------------------------------------------
  // Nothing else is

  /** The tokens up to rest are a tree of strength k or tighter, with value v, and no
      operator of strength k or tighter goes on with it. */
  ghost predicate Reads(re: Matcher, k: nat, ts: seq<string>, v: string, rest: seq<string>, t: Tree) {
    && Wf(t, true) && Wf(t, rest == []) && Tight(t) >= k && Stops(rest, k)
    && Print(t) + rest == ts && Eval(re, t) == Ok(v)
  }

  /** Whatever the parser accepts, on any tokens, is a tree it has evaluated. */
  lemma {:induction false} TreeOf(re: Matcher, k: nat, ts: seq<string>) returns (t: Tree)
    requires 1 <= k <= 7 && Parse(re, k, ts).Done?
    ensures Reads(re, k, ts, Parse(re, k, ts).v, Parse(re, k, ts).rest, t)
    decreases |ts|, 8 - k, 0
  {
    hide Reads, Operand, More;
    if k == 7 {
      t := OperandTree(re, ts);
    } else {
      var first := Parse(re, k + 1, ts);
      var l := TreeOf(re, k + 1, ts);
      Looser(re, k, ts, first.v, first.rest, l);
      t := MoreTree(re, k, ts, first.v, first.rest, l);
    }
  }

  /** Read at strength k + 1, with a tree still to go on at strength k. */
  ghost predicate Started(re: Matcher, k: nat, ts: seq<string>, v: string, rest: seq<string>, t: Tree) {
    && Wf(t, true) && Wf(t, rest == []) && Tight(t) >= k && Stops(rest, k + 1)
    && Print(t) + rest == ts && Eval(re, t) == Ok(v)
  }

  lemma Looser(re: Matcher, k: nat, ts: seq<string>, v: string, rest: seq<string>, t: Tree)
    requires Reads(re, k + 1, ts, v, rest, t)
    ensures Started(re, k, ts, v, rest, t)
  {
  }

  lemma {:induction false} MoreTree(re: Matcher, k: nat, all: seq<string>, left: string, ts: seq<string>, l: Tree)
    returns (t: Tree)
    requires 1 <= k <= 6 && More(re, k, left, ts).Done? && Started(re, k, all, left, ts, l)
    ensures Reads(re, k, all, More(re, k, left, ts).v, More(re, k, left, ts).rest, t)
    decreases |ts|, 8 - k, 0
  {
    hide Parse, Apply, Reads, Started, Strength;
    if ts == [] || Strength(ts[0]) != k {
      t := l;
      Finished(re, k, all, left, ts, l);
    } else {
      var right := Parse(re, k + 1, ts[1..]);
      var r := TreeOf(re, k + 1, ts[1..]);
      var b := Binary(ts[0], l, r);
      Joined(re, k, all, left, ts, l, right.v, right.rest, r);
      t := MoreTree(re, k, all, Apply(re, ts[0], left, right.v).v, right.rest, b);
    }
  }

  lemma Finished(re: Matcher, k: nat, all: seq<string>, v: string, ts: seq<string>, t: Tree)
    requires Started(re, k, all, v, ts, t) && (ts == [] || Strength(ts[0]) != k)
    ensures Reads(re, k, all, v, ts, t)
  {
  }

  lemma Joined(re: Matcher, k: nat, all: seq<string>, left: string, ts: seq<string>, l: Tree,
               right: string, rest: seq<string>, r: Tree)
    requires 1 <= k <= 6 && Started(re, k, all, left, ts, l) && ts != [] && Strength(ts[0]) == k
    requires Reads(re, k + 1, ts[1..], right, rest, r) && Apply(re, ts[0], left, right).Ok?
    ensures Started(re, k, all, Apply(re, ts[0], left, right).v, rest, Binary(ts[0], l, r))
  {
    var b := Binary(ts[0], l, r);
    JoinedTokens(b, rest);
    assert ts == [ts[0]] + ts[1..];
    assert Wf(b, true) && Wf(b, rest == []) && Eval(re, b) == Apply(re, ts[0], left, right) by {
      hide Apply, Strength, Print;
    }
    hide Apply, Strength, Print, Wf, Eval;
  }

  lemma JoinedTokens(b: Tree, rest: seq<string>)
    requires b.Binary?
    ensures Print(b) + rest == Print(b.l) + ([b.op] + (Print(b.r) + rest))
  {
  }

  lemma {:induction false} OperandTree(re: Matcher, ts: seq<string>) returns (t: Tree)
    requires Operand(re, ts).Done?
    ensures Reads(re, 7, ts, Operand(re, ts).v, Operand(re, ts).rest, t)
    decreases |ts|, 0, 1
  {
    hide Parse;
    if ts[0] == "+" && |ts| > 1 {
      t := Guarded(ts[1]);
      assert ts == ["+", ts[1]] + ts[2..];
    } else {
      assert ts == [ts[0]] + ts[1..];
      match Classify(ts[0]) {
        case Other =>
          t := Bare(ts[0]);
        case Open =>
          var inside := Parse(re, 1, ts[1..]);
          var u := TreeOf(re, 1, ts[1..]);
          t := Paren(u);
          InParens(re, ts, inside.v, inside.rest, u);
        case Name(f) =>
          assert ts[0] == Spelled(f);
          t := CallTree(re, f, ts[1..]);
      }
    }
  }

  lemma InParens(re: Matcher, ts: seq<string>, v: string, rest: seq<string>, u: Tree)
    requires ts != [] && Classify(ts[0]) == Open && Reads(re, 1, ts[1..], v, rest, u) && rest != [] && rest[0] == ")"
    ensures Reads(re, 7, ts, v, rest[1..], Paren(u))
  {
    assert ts[0] == "(";
    hide Classify, Strength;
    assert ts == ["("] + (Print(u) + ([")"] + rest[1..])) by {
      assert rest == [")"] + rest[1..];
      assert ts == [ts[0]] + ts[1..];
    }
    assert Print(Paren(u)) + rest[1..] == ["("] + (Print(u) + ([")"] + rest[1..]));
  }

  lemma {:induction false} ArgumentTree(re: Matcher, f: Fn, ts: seq<string>) returns (t: Tree)
    requires Argument(re, f, ts).Done?
    ensures Reads(re, 7, ts, Argument(re, f, ts).v, Argument(re, f, ts).rest, t)
    decreases |ts|, 1, 0
  {
    t := OperandTree(re, ts);
  }

  lemma {:induction false} CallTree(re: Matcher, f: Fn, ts: seq<string>) returns (t: Tree)
    requires Call(re, f, ts).Done?
    ensures Reads(re, 7, [Spelled(f)] + ts, Call(re, f, ts).v, Call(re, f, ts).rest, t)
    decreases |ts|, 1, 1
  {
    hide Argument, Spelled, MatchAgain, SubstrArgs, IndexOf, Text, Reads;
    var one := Argument(re, f, ts);
    var a := ArgumentTree(re, f, ts);
    if f == Length {
      t := LengthOf(a);
      OneRead(re, ts, one.v, one.rest, a);
    } else {
      var two := Argument(re, f, one.rest);
      var b := ArgumentTree(re, f, one.rest);
      if f == Index {
        t := IndexIn(a, b);
        TwoRead(re, ts, one.v, one.rest, a, two.v, two.rest, b);
      } else if f == Match {
        t := MatchIn(a, b);
        TwoRead(re, ts, one.v, one.rest, a, two.v, two.rest, b);
      } else {
        var three := Argument(re, f, two.rest);
        var c := ArgumentTree(re, f, two.rest);
        t := SubstrIn(a, b, c);
        ThreeRead(re, ts, one.v, one.rest, a, two.v, two.rest, b, three.v, three.rest, c);
      }
    }
  }

  lemma OneRead(re: Matcher, ts: seq<string>, v: string, rest: seq<string>, a: Tree)
    requires Reads(re, 7, ts, v, rest, a)
    ensures Reads(re, 7, [Spelled(Length)] + ts, Text(|v|), rest, LengthOf(a))
  {
    hide Strength, Classify, Spelled, Text;
    assert [Spelled(Length)] + Print(a) + rest == [Spelled(Length)] + (Print(a) + rest);
  }

  lemma TwoRead(re: Matcher, ts: seq<string>, v: string, mid: seq<string>, a: Tree, w: string, rest: seq<string>, b: Tree)
    requires Reads(re, 7, ts, v, mid, a) && Reads(re, 7, mid, w, rest, b)
    ensures Reads(re, 7, [Spelled(Index)] + ts, Text(IndexOf(v, w, 0)), rest, IndexIn(a, b))
    ensures MatchAgain(re, v, w).Ok? ==> Reads(re, 7, [Spelled(Match)] + ts, MatchAgain(re, v, w).v, rest, MatchIn(a, b))
  {
    hide Strength, Classify, Spelled, Text, IndexOf, MatchAgain;
    PrintIsSome(b);
    var pa, pb := Print(a), Print(b);
    TwoParts(Spelled(Index), pa, pb, rest);
    TwoParts(Spelled(Match), pa, pb, rest);
  }

  lemma TwoParts(s: string, a: seq<string>, b: seq<string>, rest: seq<string>)
    ensures [s] + a + b + rest == [s] + (a + (b + rest))
  {
  }

  lemma ThreeRead(re: Matcher, ts: seq<string>, v: string, mid: seq<string>, a: Tree, w: string, late: seq<string>, b: Tree,
                  x: string, rest: seq<string>, c: Tree)
    requires Reads(re, 7, ts, v, mid, a) && Reads(re, 7, mid, w, late, b) && Reads(re, 7, late, x, rest, c)
    requires SubstrArgs(v, w, x).Ok?
    ensures Reads(re, 7, [Spelled(Substr)] + ts, SubstrArgs(v, w, x).v, rest, SubstrIn(a, b, c))
  {
    hide Strength, Classify, Spelled, SubstrArgs;
    PrintIsSome(b);
    PrintIsSome(c);
    ThreeParts(Spelled(Substr), Print(a), Print(b), Print(c), rest);
  }

  lemma ThreeParts(s: string, a: seq<string>, b: seq<string>, c: seq<string>, rest: seq<string>)
    ensures [s] + a + b + c + rest == [s] + (a + (b + (c + rest)))
  {
  }

  /** What expr makes of its arguments: the value of the whole, if all tokens are read. */
  function Outcome(re: Matcher, args: seq<string>): Result {
    match Parse(re, 1, args)
    case Fail(e) => Err(e)
    case Done(v, rest) => if rest == [] then Ok(v) else Err(Syntax)
  }

  /** Arguments are accepted with a value exactly when they are a printed tree with that
      value. */
  lemma AcceptsTrees(re: Matcher, args: seq<string>, v: string)
    ensures Outcome(re, args) == Ok(v) <==> exists t :: Wf(t, true) && Print(t) == args && Eval(re, t) == Ok(v)
  {
    hide Parse, Wf, Print, Eval;
    if t :| Wf(t, true) && Print(t) == args && Eval(re, t) == Ok(v) {
      ReadBack(re, t);
    }
    if Outcome(re, args) == Ok(v) {
      var t := TreeOf(re, 1, args);
      assert Print(t) + [] == Print(t);
    }
  }

  /** A tree whose evaluation fails gives its first error. */
  lemma TreeErrors(re: Matcher, t: Tree)
    requires Wf(t, true)
    ensures Outcome(re, Print(t)) == Eval(re, t)
  {
    hide Parse, Wf, Print, Eval;
    ReadBack(re, t);
  }

  // ---------------------------------------------------------------------
  // The function match reads its operands again

  function ResultOf(p: Parsed): Result {
    match p
    case Done(v, _) => Ok(v)
    case Fail(e) => Err(e)
  }

  lemma {:induction false} ParseNothing(re: Matcher, k: nat)
    requires 1 <= k <= 7
    ensures Parse(re, k, []) == Fail(MissingOperand)
    decreases 8 - k
  {
    if k < 7 {
      ParseNothing(re, k + 1);
    }
  }

  lemma {:induction false} FailsLooser(re: Matcher, i: nat, k: nat, ts: seq<string>, e: Error)
    requires 1 <= i <= k <= 7 && Parse(re, k, ts) == Fail(e)
    ensures Parse(re, i, ts) == Fail(e)
    decreases k - i
  {
    if i < k {
      FailsLooser(re, i + 1, k, ts, e);
    }
  }

  lemma Colon()
    ensures Classify(":") == Other && Strength(":") == 6 && ":" != "+"
  {
  }

  /** A colon read as an operand, then one last token. */
  lemma ColonFirst(re: Matcher, pattern: string)
    ensures Operand(re, [":", pattern]) == Done(":", [pattern])
    ensures Parse(re, 1, [":", pattern]) == if Strength(pattern) > 0 then Fail(MissingOperand) else Done(":", [pattern])
  {
    Colon();
    hide Classify, Strength;
    var t, k := Bare(":"), Strength(pattern);
    assert [":", pattern][1..] == [pattern];
    assert Print(t) + [pattern] == [":", pattern];
    if k > 0 {
      ReadTree(re, t, k, [pattern]);
      assert [pattern] == [pattern] + [];
      MoreStep(re, ":", pattern, []);
      ParseNothing(re, k + 1);
      FailsLooser(re, 1, k, [":", pattern], MissingOperand);
    } else {
      ReadTree(re, t, 1, [pattern]);
      ContinueStops(re, 1, Ok(":"), [pattern]);
    }
  }

  lemma LastOperandIs(re: Matcher, pattern: string)
    ensures Operand(re, [pattern]) == With(LastOperand(pattern), [])
    ensures Parse(re, 7, [pattern]) == With(LastOperand(pattern), [])
  {
    hide Strength;
    assert [pattern][1..] == [];
    ParseNothing(re, 1);
  }

  /** At the strength of : a value goes on only with a colon, and then needs an operand. */
  lemma AfterValue(re: Matcher, v: string, pattern: string)
    ensures More(re, 6, v, [pattern]) == if pattern == ":" then Fail(MissingOperand) else Done(v, [pattern])
  {
    Colon();
    if pattern == ":" {
      assert [pattern] == [pattern] + [];
      MoreStep(re, v, pattern, []);
      ParseNothing(re, 7);
    }
  }

  lemma AtColon(re: Matcher, ts: seq<string>)
    ensures Operand(re, ts).Fail? ==> Parse(re, 6, ts) == Operand(re, ts)
    ensures Operand(re, ts).Done? ==> Parse(re, 6, ts) == More(re, 6, Operand(re, ts).v, Operand(re, ts).rest)
  {
    hide Operand, More;
    assert Parse(re, 7, ts) == Operand(re, ts);
  }

  lemma SubParserPlus(re: Matcher, pattern: string)
    ensures ResultOf(Parse(re, 6, ["+", ":", pattern])) == MatchAgain(re, "+", pattern)
  {
    hide More, Classify, Strength;
    AtColon(re, ["+", ":", pattern]);
    assert ["+", ":", pattern][2..] == [pattern];
    AfterValue(re, ":", pattern);
  }

  lemma SubParserOther(re: Matcher, s: string, pattern: string)
    requires s != "+" && Classify(s) == Other
    ensures ResultOf(Parse(re, 6, [s, ":", pattern])) == MatchAgain(re, s, pattern)
  {
    Colon();
    hide More, Classify, Strength, LastOperand;
    AtColon(re, [s, ":", pattern]);
    assert [s, ":", pattern][1..] == [":"] + [pattern];
    MoreStep(re, s, ":", [pattern]);
    LastOperandIs(re, pattern);
    assert forall v :: More(re, 6, v, []) == Done(v, []) by { Ends(re); }
  }

  lemma Ends(re: Matcher)
    ensures forall v :: More(re, 6, v, []) == Done(v, [])
  {
  }

  lemma SubParserOpen(re: Matcher, s: string, pattern: string)
    requires Classify(s) == Open
    ensures ResultOf(Parse(re, 6, [s, ":", pattern])) == MatchAgain(re, s, pattern)
  {
    assert s == "(" && s != "+";
    hide More, Classify, Strength;
    AtColon(re, [s, ":", pattern]);
    assert [s, ":", pattern][1..] == [":", pattern];
    ColonFirst(re, pattern);
    assert [pattern][1..] == [];
    Ends(re);
  }

  lemma SubParserClose(re: Matcher, s: string, pattern: string)
    requires Classify(s) == Close
    ensures ResultOf(Parse(re, 6, [s, ":", pattern])) == MatchAgain(re, s, pattern)
  {
    assert s == ")" && s != "+";
    hide More, Classify, Strength;
    AtColon(re, [s, ":", pattern]);
  }

  lemma SubParserName(re: Matcher, s: string, f: Fn, pattern: string)
    requires Classify(s) == Name(f)
    ensures ResultOf(Parse(re, 6, [s, ":", pattern])) == MatchAgain(re, s, pattern)
  {
    assert s == Spelled(f);
    ClassifySpelled(f);
    assert Text(1) == "1";
    Colon();
    assert MatchAgain(re, ":", pattern) == Then(LastOperand(pattern), p => MatchOf(re, ":", p));
    hide More, Classify, Strength, Spelled;
    assert [s, ":", pattern] == [Spelled(f)] + [":", pattern];
    AtColon(re, [s, ":", pattern]);
    NameIsCall(re, f, [":", pattern]);
    ColonFirst(re, pattern);
    LastOperandIs(re, pattern);
    AfterValue(re, "1", pattern);
    Ends(re);
  }

  /** The three tokens read by the parser itself, as the program does it. */
  lemma SubParser(re: Matcher, s: string, pattern: string)
    ensures ResultOf(Parse(re, 6, [s, ":", pattern])) == MatchAgain(re, s, pattern)
  {
    hide Parse, MatchAgain;
    if s == "+" {
      SubParserPlus(re, pattern);
    } else {
      match Classify(s) {
        case Other => SubParserOther(re, s, pattern);
        case Open => SubParserOpen(re, s, pattern);
        case Close => SubParserClose(re, s, pattern);
        case Name(f) => SubParserName(re, s, f, pattern);
      }
    }
  }

  /** match S P is S : P under every matcher exactly when neither operand's value reads as
      anything but an operand. */
  lemma MatchIsColonIff(s: string, pattern: string)
    ensures (forall re: Matcher :: MatchAgain(re, s, pattern) == MatchOf(re, s, pattern)) <==>
            s != "+" && Classify(s) == Other && Classify(pattern) == Other
  {
    if s != "+" && Classify(s) == Other && Classify(pattern) == Other {
    } else {
      var re: Matcher := (a, b) => Value(if a == s then "no" else "yes");
      Colon();
      assert MatchOf(re, s, pattern) == Ok("no");
      assert Text(0) == "0" && Text(1) == "1";
      assert Text(IndexOf(":", pattern, 0)) == "0" || Text(IndexOf(":", pattern, 0)) == "1";
      assert "no" != "yes" && "no" != ":" && "no" != "0" && "no" != "1";
      assert MatchAgain(re, s, pattern) != MatchOf(re, s, pattern);
    }
  }

  lemma GuardedTree(re: Matcher, m: Tree, c: Tree)
    requires m == MatchIn(Guarded("length"), Bare("x")) && c == Binary(":", Guarded("length"), Bare("x"))
    ensures Wf(m, true) && Eval(re, m) == Ok("1") && Wf(c, true) && Eval(re, c) == MatchOf(re, "length", "x")
  {
    assert Classify("x") == Other;
  }

  lemma GuardedTokens(m: Tree, c: Tree)
    requires m == MatchIn(Guarded("length"), Bare("x")) && c == Binary(":", Guarded("length"), Bare("x"))
    ensures Print(m) == ["match", "+", "length", "x"] && Print(c) == ["+", "length", ":", "x"]
  {
  }

  /** `expr match + length x` is 1 whatever the pattern x matches, and `expr + length : x` is
      what it matches. */
  lemma MatchOfLength(re: Matcher)
    ensures Outcome(re, ["match", "+", "length", "x"]) == Ok("1")
    ensures Outcome(re, ["+", "length", ":", "x"]) == MatchOf(re, "length", "x")
  {
    hide *;
    var m, c := MatchIn(Guarded("length"), Bare("x")), Binary(":", Guarded("length"), Bare("x"));
    GuardedTokens(m, c);
    GuardedTree(re, m, c);
    TreeErrors(re, m);
    TreeErrors(re, c);
  }
}
