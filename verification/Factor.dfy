/** Trial division of a 64-bit number into its primes. */
module Factor {
  import opened Common
  import opened Int64

  // ---------------------------------------------------------------------
  // Divisors and primes

  ghost predicate Divides(d: nat, n: nat) {
    exists k: nat :: n == d * k
  }

  ghost predicate Prime(p: nat) {
    p > 1 && forall d: nat | Divides(d, p) :: d == 1 || d == p
  }

  function Product(s: seq<nat>): nat {
    if s == [] then 1 else Product(s[..|s| - 1]) * s[|s| - 1]
  }

  ghost predicate Sorted(s: seq<nat>) {
    forall i, j | 0 <= i < j < |s| :: s[i] <= s[j]
  }

  /** The factorization of n: primes in order, with that product. */
  ghost predicate Factors(s: seq<nat>, n: nat) {
    (forall p | p in s :: Prime(p)) && Sorted(s) && Product(s) == n
  }

  /** No divisor of n lies between 1 and p. */
  ghost predicate NoneBelow(n: nat, p: nat) {
    forall d: nat | Divides(d, n) :: d == 1 || d >= p
  }

  lemma DividesBy(d: nat, n: nat)
    requires d > 0
    ensures n % d == 0 <==> Divides(d, n)
    ensures n % d == 0 ==> n == d * (n / d)
  {
    if k: nat :| n == d * k {
      MulMod(d, k);
    }
    if n % d == 0 {
      assert n == d * (n / d);
    }
  }

  lemma MulMod(d: nat, k: nat)
    requires d > 0
    ensures (d * k) % d == 0 && (d * k) / d == k
  {
    var q, r := (d * k) / d, (d * k) % d;
    assert d * k == d * q + r;
    if q < k { MulMono(d, q + 1, k); assert false; }
    if q > k { MulMono(d, k + 1, q); assert false; }
  }

  lemma DividesTrans(a: nat, b: nat, c: nat)
    requires Divides(a, b) && Divides(b, c)
    ensures Divides(a, c)
  {
    var i: nat :| b == a * i;
    var j: nat :| c == b * j;
    MulAssoc(a, i, j);
    assert c == a * (i * j);
  }

  lemma MulAssoc(a: nat, b: nat, c: nat)
    ensures a * b * c == a * (b * c)
  {
  }

  /** The least divisor is prime. */
  lemma LeastIsPrime(p: nat, n: nat)
    requires p > 1 && n > 0 && NoneBelow(n, p) && Divides(p, n)
    ensures Prime(p)
  {
    forall d: nat | Divides(d, p) ensures d == 1 || d == p {
      DividesTrans(d, p, n);
      AtMost(d, p);
    }
  }

  lemma AtMost(d: nat, n: nat)
    requires n > 0 && Divides(d, n)
    ensures 0 < d <= n
  {
    var k: nat :| n == d * k;
    if d > n { MulMono(d, 1, k); }
  }

  /** With no divisor below p and less than p * p there is none at all. */
  lemma RestIsPrime(n: nat, p: nat)
    requires n > 1 && p > 0 && NoneBelow(n, p) && n < p * p
    ensures Prime(n)
  {
    forall d: nat | Divides(d, n) ensures d == 1 || d == n {
      var k: nat :| n == d * k;
      assert n == k * d;
      assert Divides(k, n);
      if d != 1 && k != 1 {
        MulMono(d, p, k);
        MulMono(p, p, d);
      }
    }
  }

  lemma NoneBelowQuotient(n: nat, p: nat, q: nat)
    requires NoneBelow(n, p) && Divides(q, n)
    ensures NoneBelow(q, p)
  {
    forall d: nat | Divides(d, q) ensures d == 1 || d >= p {
      DividesTrans(d, q, n);
    }
  }

  /** From an odd number with no divisor below p, nor p itself, to p + 2. */
  lemma NextOdd(n: nat, p: nat)
    requires n % 2 == 1 && p % 2 == 1 && n % p != 0 && NoneBelow(n, p)
    ensures NoneBelow(n, p + 2)
  {
    forall d: nat | Divides(d, n) ensures d == 1 || d >= p + 2 {
      if d == p {
        DividesBy(p, n);
      }
      if d == p + 1 {
        DividesBy(2, d);
        DividesTrans(2, d, n);
        DividesBy(2, n);
      }
    }
  }

  // ---------------------------------------------------------------------
  // There is one factorization

  /** x is the least positive number whose product with b is a multiple of p. */
  ghost predicate Least(x: nat, p: nat, b: nat) {
    x > 0 && Divides(p, x * b) && forall y: nat | 0 < y < x :: !Divides(p, y * b)
  }

  lemma {:induction false} FindLeast(p: nat, b: nat, from: nat, x: nat) returns (least: nat)
    requires 0 < from <= x && Divides(p, x * b)
    requires forall y: nat | 0 < y < from :: !Divides(p, y * b)
    ensures Least(least, p, b)
    decreases x - from
  {
    if Divides(p, from * b) {
      least := from;
    } else {
      least := FindLeast(p, b, from + 1, x);
    }
  }

  lemma LeastDivides(x: nat, p: nat, b: nat, y: nat)
    requires Least(x, p, b) && Divides(p, y * b)
    ensures Divides(x, y)
  {
    var q, r := y / x, y % x;
    var i: nat :| x * b == p * i;
    var j: nat :| y * b == p * j;
    RemainderMultiple(x, b, p, q, r, i, j);
    assert r == 0;
    assert y == x * q;
  }

  lemma RemainderMultiple(x: nat, b: nat, p: nat, q: nat, r: nat, i: nat, j: nat)
    requires x * b == p * i && (q * x + r) * b == p * j
    ensures Divides(p, r * b)
  {
    assert (q * x + r) * b == q * (x * b) + r * b;
    assert q * (p * i) == p * (q * i);
    assert r * b == p * (j - q * i);
    if p == 0 {
      assert r * b == p * 0;
    } else {
      if j < q * i { MulNegative(p, j - q * i); assert false; }
      var k: nat := j - q * i;
      assert r * b == p * k;
    }
  }

  lemma MulNegative(p: nat, k: int)
    requires p > 0 && k < 0
    ensures p * k < 0
  {
  }

  /** A prime that divides a product divides one of its factors. */
  lemma Euclid(p: nat, a: nat, b: nat)
    requires Prime(p) && Divides(p, a * b)
    ensures Divides(p, a) || Divides(p, b)
  {
    assert p * b == p * b;
    assert Divides(p, p * b);
    var x := FindLeast(p, b, 1, p);
    LeastDivides(x, p, b, p);
    LeastDivides(x, p, b, a);
    assert x == 1 ==> x * b == b;
  }

  lemma {:induction false} PrimeInProduct(p: nat, s: seq<nat>)
    requires Prime(p) && Divides(p, Product(s)) && forall q | q in s :: Prime(q)
    ensures p in s
  {
    if s == [] {
      AtMost(p, 1);
      assert false;
    } else {
      var front, last := s[..|s| - 1], s[|s| - 1];
      Euclid(p, Product(front), last);
      if Divides(p, last) {
        assert Prime(last);
      } else {
        PrimeInProduct(p, front);
      }
    }
  }

  lemma LastDivides(s: seq<nat>)
    requires s != []
    ensures Divides(s[|s| - 1], Product(s))
  {
    assert Product(s) == s[|s| - 1] * Product(s[..|s| - 1]);
  }

  lemma CancelLast(s: seq<nat>, t: seq<nat>)
    requires s != [] && t != [] && s[|s| - 1] == t[|t| - 1] > 0 && Product(s) == Product(t)
    ensures Product(s[..|s| - 1]) == Product(t[..|t| - 1])
  {
    var p := s[|s| - 1];
    MulMod(p, Product(s[..|s| - 1]));
    MulMod(p, Product(t[..|t| - 1]));
  }

  lemma {:induction false} NotOne(s: seq<nat>)
    requires s != [] && forall p | p in s :: Prime(p)
    ensures Product(s) > 1
  {
    var front, last := s[..|s| - 1], s[|s| - 1];
    assert Prime(last);
    if front != [] {
      NotOne(front);
      MulMono(last, 1, Product(front));
    }
  }

  /** Two factorizations of a number are the same. */
  lemma {:induction false} OneFactorization(s: seq<nat>, t: seq<nat>, n: nat)
    requires Factors(s, n) && Factors(t, n)
    ensures s == t
    decreases |s|
  {
    if s == [] {
      if t != [] { NotOne(t); assert false; }
    } else if t == [] {
      NotOne(s);
      assert false;
    } else {
      var p, q := s[|s| - 1], t[|t| - 1];
      LastDivides(s);
      LastDivides(t);
      PrimeInProduct(p, t);
      PrimeInProduct(q, s);
      assert p == q && p > 0;
      CancelLast(s, t);
      OneFactorization(s[..|s| - 1], t[..|t| - 1], Product(s[..|s| - 1]));
      assert s == s[..|s| - 1] + [p] && t == t[..|t| - 1] + [p];
    }
  }

  // ---------------------------------------------------------------------
  // The program

  /** What is printed for a prime: the number, or the number and its exponent. */
  datatype Term = One(p: nat) | Power(p: nat, k: nat)

  function Copies(p: nat, k: nat): (s: seq<nat>)
    ensures |s| == k && forall i | 0 <= i < k :: s[i] == p
  {
    seq(k, _ => p)
  }

  /** The factors a printed line stands for. */
  function Meaning(terms: seq<Term>): seq<nat> {
    if terms == [] then []
    else
      Meaning(terms[..|terms| - 1]) +
      match terms[|terms| - 1] {
        case One(p) => [p]
        case Power(p, k) => Copies(p, k)
      }
  }

  /** A map read as Go reads it, zero when absent. */
  function Count(counts: map<nat, nat>, p: nat): nat {
    if p in counts then counts[p] else 0
  }

  function Expand(order: seq<nat>, counts: map<nat, nat>): seq<nat> {
    if order == [] then []
    else
      var last := order[|order| - 1];
      Expand(order[..|order| - 1], counts) + Copies(last, Count(counts, last))
  }

  lemma {:induction false} ExpandSame(order: seq<nat>, counts: map<nat, nat>, p: nat, k: nat)
    requires p !in order
    ensures Expand(order, counts[p := k]) == Expand(order, counts)
  {
    if order != [] {
      ExpandSame(order[..|order| - 1], counts, p, k);
    }
  }

  ghost predicate Increasing(s: seq<nat>) {
    forall i, j | 0 <= i < j < |s| :: s[i] < s[j]
  }

  lemma ExpandAppend(order: seq<nat>, p: nat, counts: map<nat, nat>)
    ensures Expand(order + [p], counts) == Expand(order, counts) + Copies(p, Count(counts, p))
  {
    assert (order + [p])[..|order|] == order;
  }

  lemma MeaningAppend(terms: seq<Term>, t: Term)
    ensures Meaning(terms + [t]) == Meaning(terms) + match t { case One(p) => [p] case Power(p, k) => Copies(p, k) }
  {
    assert (terms + [t])[..|terms|] == terms;
  }

  lemma GreatestIsLast(order: seq<nat>, p: nat)
    requires Increasing(order) && p in order && forall q | q in order :: q <= p
    ensures p == order[|order| - 1] && p !in order[..|order| - 1]
  {
    assert order[|order| - 1] in order;
    assert order[|order| - 1] <= p;
  }

  ghost predicate Tracks(order: seq<nat>, counts: map<nat, nat>) {
    forall p :: p in order <==> Count(counts, p) > 0
  }

  lemma TracksNew(order: seq<nat>, counts: map<nat, nat>, p: nat)
    requires Increasing(order) && Tracks(order, counts) && Count(counts, p) == 0 && forall q | q in order :: q <= p
    ensures Increasing(order + [p]) && Tracks(order + [p], counts[p := 1])
  {
    assert p !in order;
    forall i | 0 <= i < |order| ensures order[i] < p {
      assert order[i] in order;
    }
    forall q ensures q in order + [p] <==> Count(counts[p := 1], q) > 0 {
      assert q in order + [p] <==> (q in order || q == p);
    }
  }

  lemma InOrder(order: seq<nat>, counts: map<nat, nat>, p: nat)
    requires Tracks(order, counts)
    ensures p in order <==> Count(counts, p) > 0
  {
  }

  lemma TracksOld(order: seq<nat>, counts: map<nat, nat>, p: nat, k: nat)
    requires Tracks(order, counts) && p in order && k > 0
    ensures Tracks(order, counts[p := k])
  {
  }

  class Tally {
    var counts: map<nat, nat>
    var order: seq<nat>

    ghost predicate Valid()
      reads this
    {
      Increasing(order) && Tracks(order, counts)
    }

    ghost function Found(): seq<nat>
      reads this
    {
      Expand(order, counts)
    }

    constructor ()
      ensures Valid() && Found() == [] && order == []
    {
      counts, order := map[], [];
    }

    /** Primes arrive in order, so one already counted is the last. */
    method Add(p: nat)
      requires Valid() && forall q | q in order :: q <= p
      modifies this
      ensures Valid() && Found() == old(Found()) + [p]
      ensures forall q | q in order :: q <= p
    {
      hide Expand, Copies, Increasing, Tracks;
      var k := Count(counts, p) + 1;
      MoreCopies(p, k - 1);
      if Count(counts, p) == 0 {
        TracksNew(order, counts, p);
        InOrder(order, counts, p);
        ExpandSame(order, counts, p, k);
        ExpandAppend(order, p, counts[p := k]);
        order := order + [p];
      } else {
        InOrder(order, counts, p);
        TracksOld(order, counts, p, k);
        GreatestIsLast(order, p);
        ghost var front := order[..|order| - 1];
        assert order == front + [p];
        ExpandSame(front, counts, p, k);
        ExpandAppend(front, p, counts);
        ExpandAppend(front, p, counts[p := k]);
      }
      counts := counts[p := k];
    }

    method Print(exponents: bool) returns (terms: seq<Term>)
      requires Valid()
      ensures Meaning(terms) == Found()
      ensures !exponents ==> forall t | t in terms :: t.One?
      ensures exponents ==> |terms| == |order| && forall i | 0 <= i < |terms| :: terms[i].p == order[i]
      ensures forall t | t in terms && t.Power? :: t.k > 1
    {
      hide Expand, Copies;
      terms := [];
      NothingYet(counts);
      hide Meaning;
      for i := 0 to |order|
        invariant Meaning(terms) == Expand(order[..i], counts)
        invariant !exponents ==> forall t | t in terms :: t.One?
        invariant exponents ==> |terms| == i && forall j | 0 <= j < i :: terms[j].p == order[j]
        invariant forall t | t in terms && t.Power? :: t.k > 1
      {
        var p := order[i];
        assert order[..i + 1] == order[..i] + [p];
        ExpandAppend(order[..i], p, counts);
        assert p in order;
        if exponents && counts[p] > 1 {
          MeaningAppend(terms, Power(p, counts[p]));
          terms := terms + [Power(p, counts[p])];
        } else {
          terms := PrintCopies(terms, p, counts[p]);
        }
      }
      assert order[..|order|] == order;
    }
  }

  lemma NothingYet(counts: map<nat, nat>)
    ensures Expand([], counts) == [] && Meaning([]) == []
  {
  }

  lemma MoreCopies(p: nat, k: nat)
    ensures Copies(p, k + 1) == Copies(p, k) + [p] && Copies(p, 0) == []
  {
  }

  method PrintCopies(before: seq<Term>, p: nat, k: nat) returns (terms: seq<Term>)
    ensures |terms| == |before| + k && terms[..|before|] == before
    ensures forall i | |before| <= i < |terms| :: terms[i] == One(p)
    ensures Meaning(terms) == Meaning(before) + Copies(p, k)
  {
    hide Meaning, Copies;
    MoreCopies(p, 0);
    terms := before;
    for i := 0 to k
      invariant |terms| == |before| + i && terms[..|before|] == before
      invariant forall j | |before| <= j < |terms| :: terms[j] == One(p)
      invariant Meaning(terms) == Meaning(before) + Copies(p, i)
    {
      MeaningAppend(terms, One(p));
      MoreCopies(p, i);
      terms := terms + [One(p)];
    }
  }

  /** One found prime: the product of what is found and what is left stays n. */
  lemma FoundOne(found: seq<nat>, p: nat, n: nat, rest: nat)
    requires p > 0 && rest % p == 0 && Product(found) * rest == n
    ensures rest == p * (rest / p) && Product(found + [p]) * (rest / p) == n
  {
    DividesBy(p, rest);
    assert (found + [p])[..|found|] == found;
    MulAssoc(Product(found), p, rest / p);
  }

  lemma SortedAppend(found: seq<nat>, p: nat)
    requires Sorted(found) && forall q | q in found :: q <= p
    ensures Sorted(found + [p])
  {
    forall i | 0 <= i < |found| ensures found[i] <= p {
      assert found[i] in found;
    }
  }

  ghost predicate Progress(found: seq<nat>, p: nat, rest: nat, n: nat) {
    && (forall q | q in found :: Prime(q) && q <= p) && Sorted(found)
    && rest > 0 && Product(found) * rest == n
  }

  /** Dividing out p once. */
  lemma Divided(found: seq<nat>, p: nat, rest: nat, n: nat)
    requires p > 1 && Progress(found, p, rest, n) && rest % p == 0 && NoneBelow(rest, p)
    ensures Progress(found + [p], p, rest / p, n) && NoneBelow(rest / p, p) && rest / p < rest
    ensures rest % 2 == 1 ==> rest / p % 2 == 1
  {
    hide Product, Prime, NoneBelow, Sorted, Divides;
    FoundOne(found, p, n, rest);
    SortedAppend(found, p);
    DividesBy(p, rest);
    LeastIsPrime(p, rest);
    Smaller(rest, p);
    NoneBelowQuotient(rest, p, rest / p);
  }

  lemma Smaller(rest: nat, p: nat)
    requires p > 1 && rest > 0 && rest % p == 0
    ensures 0 < rest / p < rest && Divides(rest / p, rest)
    ensures rest % 2 == 1 ==> rest / p % 2 == 1
  {
    var q := rest / p;
    assert rest == q * p;
    MulMono(q, 2, p);
    if q % 2 == 0 {
      EvenMultiple(q, p);
    }
  }

  lemma EvenMultiple(q: nat, p: nat)
    requires q % 2 == 0
    ensures (q * p) % 2 == 0
  {
    assert q * p == 2 * (q / 2 * p);
    MulMod(2, q / 2 * p);
  }

  method DivideOut(tally: Tally, p: nat, rest: nat, ghost n: nat) returns (rest': nat)
    requires tally.Valid() && Progress(tally.Found(), p, rest, n) && p > 1 && NoneBelow(rest, p)
    requires forall q | q in tally.order :: q <= p
    modifies tally
    ensures tally.Valid() && Progress(tally.Found(), p, rest', n) && NoneBelow(rest', p)
    ensures forall q | q in tally.order :: q <= p
    ensures rest' % p != 0 && rest' <= rest && (rest % 2 == 1 ==> rest' % 2 == 1)
  {
    hide Progress, NoneBelow, Expand;
    rest' := rest;
    while rest' % p == 0
      invariant tally.Valid() && Progress(tally.Found(), p, rest', n) && NoneBelow(rest', p)
      invariant forall q | q in tally.order :: q <= p
      invariant rest' <= rest && (rest % 2 == 1 ==> rest' % 2 == 1)
      decreases rest'
    {
      Divided(tally.Found(), p, rest', n);
      tally.Add(p);
      rest' := rest' / p;
    }
  }

  lemma SquareGuard(p: nat, n: nat)
    requires p > 0
    ensures p <= n / p <==> p * p <= n
  {
    var q, r := n / p, n % p;
    assert n == p * q + r;
    if p <= q { MulMono(p, p, q); } else { MulMono(p, q + 1, p); assert p * (q + 1) == p * q + p; }
  }

  /** The guard keeps the counter and its next value inside 64 bits. */
  lemma GuardBound(p: nat, n: nat)
    requires p >= 3 && p <= n / p && n < U64
    ensures p + 2 <= n && p + 2 < U64
  {
    SquareGuard(p, n);
    MulMono(p, 3, p);
  }

  lemma Wider(found: seq<nat>, p: nat, p': nat, rest: nat, n: nat)
    requires Progress(found, p, rest, n) && p <= p'
    ensures Progress(found, p', rest, n)
  {
  }

  lemma NothingFound(n: nat)
    requires n > 0
    ensures Progress([], 2, n, n) && NoneBelow(n, 2)
  {
    forall d: nat | Divides(d, n) ensures d == 1 || d >= 2 {
      AtMost(d, n);
    }
  }

  lemma AfterTwo(found: seq<nat>, rest: nat, n: nat)
    requires Progress(found, 2, rest, n) && NoneBelow(rest, 2) && rest % 2 != 0
    ensures Progress(found, 3, rest, n) && NoneBelow(rest, 3)
  {
    DividesBy(2, rest);
  }

  /** What is left at the end is 1 or the last prime. */
  lemma LastFactor(found: seq<nat>, p: nat, rest: nat, n: nat)
    requires p > 0 && Progress(found, p, rest, n) && NoneBelow(rest, p) && rest / p < p
    ensures rest == 1 ==> Factors(found, n)
    ensures rest > 1 ==> p <= rest && Factors(found + [rest], n)
  {
    if rest > 1 {
      SquareGuard(p, rest);
      RestIsPrime(rest, p);
      assert rest == rest * 1;
      assert Divides(rest, rest);
      SortedAppend(found, rest);
      assert (found + [rest])[..|found|] == found;
    }
  }

  /** For every n below 2^64 the printed line stands for the factorization of n (nothing
      for 0 and 1), and the loop counter never leaves 64 bits. */
  method WriteUintFactors(n: nat, exponents: bool) returns (terms: seq<Term>)
    requires n < U64
    ensures n < 2 ==> terms == []
    ensures n >= 2 ==> Factors(Meaning(terms), n)
    ensures !exponents ==> forall t | t in terms :: t.One?
    ensures exponents ==> forall i, j | 0 <= i < j < |terms| :: terms[i].p < terms[j].p
    ensures forall t | t in terms && t.Power? :: t.k > 1
  {
    if n < 2 {
      return [];
    }
    hide Progress, NoneBelow, Expand, Factors, Meaning, U64, Tracks;
    var tally := new Tally();
    NothingFound(n);
    var rest: nat := DivideOut(tally, 2, n, n);
    AfterTwo(tally.Found(), rest, n);
    var p: nat := 3;
    while p <= rest / p
      invariant fresh(tally) && tally.Valid() && p >= 3 && p % 2 == 1 && rest % 2 == 1
      invariant Progress(tally.Found(), p, rest, n) && NoneBelow(rest, p)
      invariant (forall q | q in tally.order :: q <= p) && rest <= n
      decreases n + 2 - p
    {
      GuardBound(p, rest);
      rest := DivideOut(tally, p, rest, n);
      NextOdd(rest, p);
      Wider(tally.Found(), p, p + 2, rest, n);
      assert p + 2 < U64;
      p := p + 2;
    }
    LastFactor(tally.Found(), p, rest, n);
    if rest > 1 {
      tally.Add(rest);
    } else {
      assert rest == 1 by { RestIsPositive(tally.Found(), p, rest, n); }
    }
    terms := tally.Print(exponents);
  }

  lemma RestIsPositive(found: seq<nat>, p: nat, rest: nat, n: nat)
    requires Progress(found, p, rest, n)
    ensures rest > 0
  {
  }
}
