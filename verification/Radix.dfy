/** Big-endian digit strings in any base, and the in-place carry loop that multiplies one
    by a constant and adds a digit of another base. */
module Radix {
  import opened Common

  function Pow(base: nat, e: nat): nat {
    if e == 0 then 1 else base * Pow(base, e - 1)
  }

  ghost predicate DigitsOf(base: nat, ds: seq<nat>) {
    forall i | 0 <= i < |ds| :: ds[i] < base
  }

  /** The number a digit string stands for, most significant digit first. */
  ghost function Value(base: nat, ds: seq<nat>): nat {
    if ds == [] then 0 else Value(base, ds[..|ds| - 1]) * base + ds[|ds| - 1]
  }

  /** The digits of a number without leading zeros; none for zero. */
  ghost function Digits(base: nat, n: nat): seq<nat>
    requires base > 1
    decreases n
  {
    if n == 0 then []
    else
      DivShrinks(n, base);
      Digits(base, n / base) + [n % base]
  }

  lemma DivShrinks(n: nat, base: nat)
    requires n > 0 && base > 1
    ensures n / base < n
  {
    var q, r := n / base, n % base;
    assert n == base * q + r;
    if q >= n {
      MulMono(q, 2, base);
      assert false;
    }
  }

  ghost predicate Canonical(ds: seq<nat>) {
    ds != [] && ds[0] != 0
  }

  lemma {:induction false} ValueOfDigits(base: nat, n: nat)
    requires base > 1
    ensures Value(base, Digits(base, n)) == n && DigitsOf(base, Digits(base, n))
    ensures n > 0 ==> Canonical(Digits(base, n))
  {
    DigitsNext(base, n);
    hide Value, Digits;
    if n > 0 {
      DivShrinks(n, base);
      var q, r := n / base, n % base;
      ValueOfDigits(base, q);
      ValueAppend(base, Digits(base, q), r);
      DivModSum(n, base);
    }
  }

  lemma DivModSum(n: nat, base: nat)
    requires base > 0
    ensures (n / base) * base + n % base == n
  {
  }

  lemma DigitsNext(base: nat, n: nat)
    requires base > 1
    ensures Digits(base, 0) == [] && Value(base, []) == 0
    ensures n > 0 ==> Digits(base, n) == Digits(base, n / base) + [n % base]
  {
  }

  lemma ValueAppend(base: nat, ds: seq<nat>, d: nat)
    ensures Value(base, ds + [d]) == Value(base, ds) * base + d
  {
    assert (ds + [d])[..|ds|] == ds;
  }

  /** Digit strings without leading zeros are unique. */
  lemma {:induction false} DigitsOfValue(base: nat, ds: seq<nat>)
    requires base > 1 && DigitsOf(base, ds) && Canonical(ds)
    ensures Value(base, ds) > 0 && Digits(base, Value(base, ds)) == ds
  {
    var init, last := ds[..|ds| - 1], ds[|ds| - 1];
    var v := Value(base, init);
    assert Value(base, ds) == v * base + last;
    DivModOf(v, base, last);
    if init == [] {
      assert v == 0 && ds == [last];
    } else {
      DigitsOfValue(base, init);
      assert ds == init + [last];
    }
  }

  lemma DivModOf(v: nat, base: nat, d: nat)
    requires base > 1 && d < base
    ensures (v * base + d) / base == v && (v * base + d) % base == d
    ensures v > 0 ==> v * base + d > 0
  {
    var n := v * base + d;
    var q, r := n / base, n % base;
    assert n == base * q + r;
    if q < v {
      MulMono(base, q + 1, v);
      assert false;
    } else if q > v {
      MulMono(base, v + 1, q);
      assert false;
    }
  }

  lemma {:induction false} ValueCons(base: nat, d: nat, ds: seq<nat>)
    ensures Value(base, [d] + ds) == d * Pow(base, |ds|) + Value(base, ds)
  {
    if ds == [] {
      assert [d] + ds == [d] && [d][..0] == [];
    } else {
      var init, last := ds[..|ds| - 1], ds[|ds| - 1];
      ValueCons(base, d, init);
      assert ([d] + ds)[..|ds|] == [d] + init;
      ShiftIn(base, d, Pow(base, |init|), Value(base, init), last);
    }
  }

  lemma ShiftIn(base: nat, d: nat, p: nat, v: nat, last: nat)
    ensures (d * p + v) * base + last == d * (base * p) + (v * base + last)
  {
  }

  // ---------------------------------------------------------------------
  // The carry loops

  lemma CarryStep(base: nat, mul: nat, d: nat, p: nat, carry: nat, t: nat)
    requires base > 0 && t == carry + d * mul
    ensures (t % base) * p + (t / base) * (base * p) == carry * p + mul * (d * p)
  {
    var q, r := t / base, t % base;
    assert t == q * base + r;
    assert r * p + q * (base * p) == (q * base + r) * p;
    assert (carry + d * mul) * p == carry * p + mul * (d * p);
  }

  lemma CarryBound(base: nat, mul: nat, d: nat, carry: nat)
    requires base > 0 && d < base && carry < mul
    ensures (carry + d * mul) / base < mul
  {
    assert carry + d * mul < mul + (base - 1) * mul == base * mul;
    DivLess(carry + d * mul, base, mul);
  }

  lemma DivLess(t: nat, base: nat, mul: nat)
    requires base > 0 && t < base * mul
    ensures t / base < mul
  {
    var q, r := t / base, t % base;
    assert t == base * q + r;
    if q >= mul {
      MulMono(base, mul, q);
      assert false;
    }
  }

  /** One digit of the carry loop, in numbers: the digits to its right already hold
      mul times what they held, up to the carry. */
  lemma CarryDigit(base: nat, mul: nat, add: nat, d: nat, carry: nat, rest: seq<nat>, wasRest: seq<nat>)
    requires base > 1 && |rest| == |wasRest| && d < base && carry < mul
    requires Value(base, rest) + carry * Pow(base, |rest|) == mul * Value(base, wasRest) + add
    ensures var t := carry + d * mul;
            && t / base < mul
            && Value(base, [t % base] + rest) + (t / base) * Pow(base, |rest| + 1) == mul * Value(base, [d] + wasRest) + add
            && (d > 0 || carry > 0 ==> t / base > 0 || t % base > 0)
  {
    hide Value;
    var t := carry + d * mul;
    var p := Pow(base, |rest|);
    CarryBound(base, mul, d, carry);
    CarryStep(base, mul, d, p, carry, t);
    ValueCons(base, t % base, rest);
    ValueCons(base, d, wasRest);
    MulSplit(mul, d * p, Value(base, wasRest));
    TopDigit(base, mul, d, carry, t);
  }

  /** A digit times the multiplier, plus the carry; and the two parts it falls into. */
  function Total(carry: nat, d: nat, mul: nat): nat { carry + d * mul }

  function Low(t: nat, base: nat): nat
    requires base > 0
  {
    t % base
  }

  function High(t: nat, base: nat): nat
    requires base > 0
  {
    t / base
  }

  /** The carry loop has done the digits from i on. */
  ghost predicate Carried(base: nat, mul: nat, add: nat, was: seq<nat>, now: seq<nat>, i: nat, carry: nat) {
    && |now| == |was| && i <= |was| && carry < mul
    && DigitsOf(base, was) && DigitsOf(base, now) && now[..i] == was[..i]
    && Value(base, now[i..]) + carry * Pow(base, |was| - i) == mul * Value(base, was[i..]) + add
    && (i == |was| ==> carry == add)
    && (i == 0 && |was| > 0 && (was[0] > 0 || (|was| == 1 && add > 0)) ==> carry > 0 || now[0] > 0)
  }

  lemma CarriedNext(base: nat, mul: nat, add: nat, was: seq<nat>, now: seq<nat>, i: nat, carry: nat, t: nat)
    requires base > 1 && i > 0 && Carried(base, mul, add, was, now, i, carry)
    requires i <= |now| && t == Total(carry, now[i - 1], mul)
    ensures Carried(base, mul, add, was, now[i - 1 := Low(t, base)], i - 1, High(t, base))
  {
    hide Value, Pow;
    var k := i - 1;
    var d := now[k];
    assert now[..i][k] == was[..i][k];
    var now' := now[k := Low(t, base)];
    CarryDigit(base, mul, add, d, carry, now[i..], was[i..]);
    assert was[k..] == [d] + was[i..] && now'[k..] == [t % base] + now[i..];
    assert now'[..k] == now[..i][..k] && was[..k] == was[..i][..k];
  }

  /** Multiply the number in the buffer by `mul` and add `add`, digit by digit from the
      right; what does not fit is the carry. */
  method MulAdd(buf: array<nat>, mul: nat, base: nat, add: nat) returns (carry: nat)
    requires base > 1 && add < mul && DigitsOf(base, buf[..])
    modifies buf
    ensures Carried(base, mul, add, old(buf[..]), buf[..], 0, carry)
  {
    ghost var was := buf[..];
    carry := add;
    var i := buf.Length;
    CarriedNone(base, mul, add, was);
    hide Carried, Total, Low, High;
    while i > 0
      invariant 0 <= i <= buf.Length
      invariant Carried(base, mul, add, was, buf[..], i, carry)
    {
      ghost var now := buf[..];
      var t := Total(carry, buf[i - 1], mul);
      CarriedNext(base, mul, add, was, now, i, carry, t);
      i := i - 1;
      buf[i] := Low(t, base);
      assert buf[..] == now[i := Low(t, base)];
      carry := High(t, base);
    }
  }

  lemma CarriedNone(base: nat, mul: nat, add: nat, was: seq<nat>)
    requires add < mul && DigitsOf(base, was)
    ensures Carried(base, mul, add, was, was, |was|, add)
  {
    assert was[|was|..] == [];
    EmptyValue(base, mul, add);
  }

  lemma CarriedAll(base: nat, mul: nat, add: nat, was: seq<nat>, now: seq<nat>, carry: nat)
    requires Carried(base, mul, add, was, now, 0, carry)
    ensures |now| == |was| && DigitsOf(base, now)
    ensures Value(base, now) + carry * Pow(base, |was|) == mul * Value(base, was) + add
    ensures |was| > 0 && (was[0] > 0 || (|was| == 1 && add > 0)) ==> carry > 0 || now[0] > 0
  {
    assert now[0..] == now && was[0..] == was;
  }

  lemma EmptyValue(base: nat, mul: nat, add: nat)
    ensures Value(base, []) + add * Pow(base, 0) == mul * Value(base, []) + add
  {
  }

  lemma MulSplit(mul: nat, x: nat, y: nat)
    ensures mul * (x + y) == mul * x + mul * y
  {
  }

  lemma TopDigit(base: nat, mul: nat, d: nat, carry: nat, t: nat)
    requires base > 1 && mul > 0 && t == carry + d * mul
    ensures d > 0 || carry > 0 ==> t / base > 0 || t % base > 0
  {
    if d > 0 {
      assert d * mul >= mul;
    }
  }

  lemma CarrySplit(base: nat, carry: nat, p: nat)
    requires base > 1
    ensures (carry % base) * p + (carry / base) * (base * p) == carry * p
  {
    CarryStep(base, 0, 0, p, carry, carry);
  }

  /** Moving one digit of the carry in front of the others. */
  lemma GrowStep(base: nat, carry: nat, ds: seq<nat>)
    requires base > 1 && carry > 0
    ensures Value(base, [carry % base] + ds) + (carry / base) * Pow(base, |ds| + 1)
            == Value(base, ds) + carry * Pow(base, |ds|)
    ensures carry / base < carry && (carry / base > 0 || carry % base > 0)
  {
    hide Value;
    CarrySplit(base, carry, Pow(base, |ds|));
    ValueCons(base, carry % base, ds);
    DivShrinks(carry, base);
  }

  /** One digit of the other base absorbed: the carry loop, then new leading digits for
      what is left of the carry. */
  method Absorb(buf: array<nat>, mul: nat, base: nat, add: nat) returns (out: array<nat>)
    requires base > 1 && add < mul && DigitsOf(base, buf[..]) && buf.Length > 0
    modifies buf
    ensures out.Length > 0 && DigitsOf(base, out[..])
    ensures out == buf || fresh(out)
    ensures Value(base, out[..]) == mul * old(Value(base, buf[..])) + add
    ensures old(buf[0]) > 0 || (buf.Length == 1 && add > 0) ==> Canonical(out[..])
  {
    hide Value, Pow;
    ghost var v := Value(base, buf[..]);
    ghost var leads := buf[0] > 0 || (buf.Length == 1 && add > 0);
    ghost var was := buf[..];
    var carry: nat := MulAdd(buf, mul, base, add);
    CarriedAll(base, mul, add, was, buf[..], carry);
    hide Carried;
    out := buf;
    while carry > 0
      invariant out.Length > 0 && DigitsOf(base, out[..]) && (out == buf || fresh(out))
      invariant Value(base, out[..]) + carry * Pow(base, out.Length) == mul * v + add
      invariant leads ==> carry > 0 || out[0] > 0
      decreases carry
    {
      var d := carry % base;
      GrowStep(base, carry, out[..]);
      var longer := new nat[out.Length + 1](i requires 0 <= i < out.Length + 1 reads out => if i == 0 then d else out[i - 1]);
      assert longer[..] == [d] + out[..];
      out := longer;
      carry := carry / base;
    }
    NoCarry(carry, Pow(base, out.Length));
  }

  lemma NoCarry(carry: nat, p: nat)
    requires carry == 0
    ensures carry * p == 0
  {
  }
}
