/** The LIST of cut written out: what a user means by its items, and that reading the text
    gives it back. */
module CutPrint {
  import opened Common
  import opened Decimal
  import opened Int64
  import opened CutList

  /** The positions N, from N on, up to M, or N to M. */
  datatype Spec = Only(n: nat) | From(n: nat) | UpTo(m: nat) | Both(n: nat, m: nat)

  /** The largest number that cut takes. */
  const LARGEST: nat := 9223372036854775799

  predicate Sound(t: Spec) {
    match t
    case Only(n) => 1 <= n <= LARGEST
    case From(n) => 1 <= n <= LARGEST
    case UpTo(m) => 1 <= m <= LARGEST
    case Both(n, m) => 1 <= n <= m <= LARGEST
  }

  function Written(t: Spec): string {
    match t
    case Only(n) => Numeral(n)
    case From(n) => Numeral(n) + "-"
    case UpTo(m) => "-" + Numeral(m)
    case Both(n, m) => Numeral(n) + "-" + Numeral(m)
  }

  /** Position x is one of those meant. */
  predicate Meant(t: Spec, x: int) {
    match t
    case Only(n) => x == n
    case From(n) => n <= x
    case UpTo(m) => 1 <= x <= m
    case Both(n, m) => n <= x <= m
  }

  /** The items with a separator between any two. */
  function WrittenList(ts: seq<Spec>, seps: seq<char>): string
    requires |ts| > 0 && |seps| == |ts| - 1
  {
    if |ts| == 1 then Written(ts[0]) else Written(ts[0]) + [seps[0]] + WrittenList(ts[1..], seps[1..])
  }

  lemma LimitIs()
    ensures 10 * LIMIT + 9 == LARGEST
  {
  }

  lemma NumberRead(n: nat)
    requires n <= LARGEST
    ensures ReadNumber(Numeral(n)) == Number(n)
  {
    hide *;
    LimitIs();
    NumberIff(Numeral(n));
    ValueOfNumeral(n);
  }

  /** No digit is a dash or a separator. */
  lemma {:induction false} DashAfter(s: string, rest: string)
    requires AllDigits(s) && (rest == [] || rest[0] == '-')
    ensures DashAt(s + rest) == |s|
  {
    if s == [] {
      assert s + rest == rest;
    } else {
      assert (s + rest)[1..] == s[1..] + rest;
      DashAfter(s[1..], rest);
    }
  }

  function RangeOf(t: Spec): Range {
    match t
    case Only(n) => Range(n, n)
    case From(n) => Range(n, MAX_INT)
    case UpTo(m) => Range(1, m)
    case Both(n, m) => Range(n, m)
  }

  lemma ReadOne(n: nat)
    requires 1 <= n <= LARGEST
    ensures ReadItem(Numeral(n)) == Item(Range(n, n))
  {
    hide ReadNumber, Numeral, DashAt;
    var s := Numeral(n);
    DashAfter(s, []);
    NumberRead(n);
    assert s + [] == s && s[..|s|] == s;
  }

  lemma NothingRead()
    ensures ReadNumber("") == Number(0)
  {
    hide ReadNumber, Value, LIMIT;
    EmptyIsZero();
    LimitIs();
    NumberIff("");
  }

  lemma ReadUpperIs(lo: nat, noLower: bool, m: nat)
    requires 1 <= lo <= m <= LARGEST
    ensures ReadUpper(lo, noLower, Numeral(m)) == Item(Range(lo, m))
  {
    hide ReadNumber, Numeral;
    NumberRead(m);
  }

  lemma ReadLower(n: nat, rest: string)
    requires 1 <= n <= LARGEST
    ensures ReadItem(Numeral(n) + "-" + rest) == ReadUpper(n, false, rest)
  {
    hide ReadNumber, Numeral, DashAt, ReadUpper;
    var s := Numeral(n);
    Regroup(s, "-", rest);
    DashAfter(s, "-" + rest);
    var all := s + ("-" + rest);
    assert all[..|s|] == s && all[|s| + 1..] == rest;
    NumberRead(n);
  }

  lemma ReadNoLower(rest: string)
    ensures ReadItem("-" + rest) == ReadUpper(1, true, rest)
  {
    hide ReadNumber, DashAt, ReadUpper;
    DashAfter("", "-" + rest);
    assert "" + ("-" + rest) == "-" + rest;
    assert ("-" + rest)[..0] == "" && ("-" + rest)[1..] == rest;
    NothingRead();
  }

  lemma ReadOpen(n: nat)
    requires 1 <= n <= LARGEST
    ensures ReadUpper(n, false, "") == Item(Range(n, MAX_INT))
  {
    hide ReadNumber;
    NothingRead();
  }

  /** An item that was written reads back as its range. */
  lemma ReadWritten(t: Spec)
    requires Sound(t)
    ensures ReadItem(Written(t)) == Item(RangeOf(t))
  {
    hide ReadItem, ReadUpper, Numeral;
    match t
    case Only(n) => ReadOne(n);
    case From(n) =>
      ReadLower(n, "");
      ReadOpen(n);
      assert Numeral(n) + "-" + "" == Numeral(n) + "-";
    case UpTo(m) =>
      ReadNoLower(Numeral(m));
      ReadUpperIs(1, true, m);
    case Both(n, m) =>
      ReadLower(n, Numeral(m));
      ReadUpperIs(n, false, m);
  }

  lemma NoSeparator(t: Spec)
    ensures forall i | 0 <= i < |Written(t)| :: !IsSeparator(Written(t)[i])
  {
    hide Numeral;
    match t
    case Only(n) => DigitsOnly(n);
    case From(n) => DigitsOnly(n);
    case UpTo(m) => DigitsOnly(m);
    case Both(n, m) => DigitsOnly(n); DigitsOnly(m);
  }

  lemma DigitsOnly(n: nat)
    ensures forall i | 0 <= i < |Numeral(n)| :: !IsSeparator(Numeral(n)[i])
  {
    assert AllDigits(Numeral(n));
  }

  lemma {:induction false} SeparatorAfter(s: string, rest: string)
    requires (forall i | 0 <= i < |s| :: !IsSeparator(s[i])) && (rest == [] || IsSeparator(rest[0]))
    ensures SeparatorAt(s + rest) == |s|
  {
    if s == [] {
      assert s + rest == rest;
    } else {
      assert (s + rest)[1..] == s[1..] + rest;
      SeparatorAfter(s[1..], rest);
    }
  }

  function RangesOf(ts: seq<Spec>): (rs: seq<Range>)
    ensures |rs| == |ts| && forall i | 0 <= i < |ts| :: rs[i] == RangeOf(ts[i])
  {
    seq(|ts|, i requires 0 <= i < |ts| => RangeOf(ts[i]))
  }

  /** A list that was written, with any separators, reads back as its ranges. */
  lemma {:induction false} ReadListWritten(ts: seq<Spec>, seps: seq<char>)
    requires |ts| > 0 && |seps| == |ts| - 1
    requires (forall i | 0 <= i < |ts| :: Sound(ts[i])) && forall i | 0 <= i < |seps| :: IsSeparator(seps[i])
    ensures ReadList(WrittenList(ts, seps)) == Ok(RangesOf(ts))
    decreases |ts|
  {
    hide ReadItem, Written, Sound, IsSeparator, RangeOf, SeparatorAt;
    var s := Written(ts[0]);
    ReadWritten(ts[0]);
    NoSeparator(ts[0]);
    if |ts| == 1 {
      SeparatorAfter(s, []);
      assert s + [] == s && s[..|s|] == s;
    } else {
      var rest := WrittenList(ts[1..], seps[1..]);
      Regroup(s, [seps[0]], rest);
      SeparatorAfter(s, [seps[0]] + rest);
      var all := s + ([seps[0]] + rest);
      assert all[..|s|] == s && all[|s| + 1..] == rest;
      ReadListWritten(ts[1..], seps[1..]);
      assert [RangeOf(ts[0])] + RangesOf(ts[1..]) == RangesOf(ts);
    }
  }

  /** The ranges read from a list select the positions meant by it. */
  lemma ListMeans(ts: seq<Spec>, seps: seq<char>, x: int)
    requires |ts| > 0 && |seps| == |ts| - 1 && 1 <= x <= MAX_INT
    requires (forall i | 0 <= i < |ts| :: Sound(ts[i])) && forall i | 0 <= i < |seps| :: IsSeparator(seps[i])
    ensures ReadList(WrittenList(ts, seps)).Ok?
    ensures Covers(ReadList(WrittenList(ts, seps)).rs, x) <==> exists i :: 0 <= i < |ts| && Meant(ts[i], x)
  {
    hide ReadList, WrittenList;
    ReadListWritten(ts, seps);
    var rs := RangesOf(ts);
    assert forall i | 0 <= i < |ts| :: rs[i].lo <= x <= rs[i].hi <==> Meant(ts[i], x);
  }

  lemma {:induction false} OneItem(s: string)
    requires forall i | 0 <= i < |s| :: !IsSeparator(s[i])
    ensures ReadList(s) == match ReadItem(s) { case Item(r) => Ok([r]) case Wrong(e) => Err(e) }
  {
    hide ReadItem;
    SeparatorAfter(s, []);
    assert s + [] == s && s[..|s|] == s;
  }

  /** What is wrong with an item: positions begin at one, a range needs an end and may not run
      backward, and a number past the largest is reported with its digits. */
  lemma WrongItems(n: nat, m: nat)
    ensures ReadList("0") == Err(FromOne) && ReadList("0-") == Err(FromOne) && ReadList("-") == Err(NoEndpoint)
    ensures 1 <= n <= LARGEST && m < n ==> ReadList(Written(Both(n, m))) == Err(Decreasing)
    ensures n > LARGEST ==> ReadList(Numeral(n)) == Err(TooLarge(Numeral(n)))
  {
    hide ReadItem, ReadList, Numeral, Written;
    ZeroItems();
    OneItem("0");
    OneItem("0-");
    OneItem("-");
    if 1 <= n <= LARGEST && m < n {
      BackwardItem(n, m);
      NoSeparator(Both(n, m));
      OneItem(Written(Both(n, m)));
    }
    if n > LARGEST {
      LargeItem(n);
      DigitsOnly(n);
      OneItem(Numeral(n));
    }
  }

  lemma ZeroItems()
    ensures ReadItem("0") == Wrong(FromOne) && ReadItem("0-") == Wrong(FromOne) && ReadItem("-") == Wrong(NoEndpoint)
  {
    hide ReadNumber, DashAt, ReadUpper;
    NumberRead(0);
    assert Numeral(0) == "0";
    DashAfter("0", "");
    DashAfter("0", "-");
    assert "0" + "" == "0" && "0" + "-" == "0-" && "0"[..1] == "0" && "0-"[..1] == "0";
    ReadNoLower("");
    assert "-" + "" == "-";
    NoUpper();
  }

  lemma NoUpper()
    ensures ReadUpper(1, true, "") == Wrong(NoEndpoint)
  {
    hide ReadNumber;
    NothingRead();
  }

  lemma BackwardItem(n: nat, m: nat)
    requires 1 <= n <= LARGEST && m < n
    ensures ReadItem(Written(Both(n, m))) == Wrong(Decreasing)
  {
    hide ReadNumber, ReadItem, Numeral;
    NumberRead(m);
    ReadLower(n, Numeral(m));
  }

  lemma LargeItem(n: nat)
    requires n > LARGEST
    ensures ReadItem(Numeral(n)) == Wrong(TooLarge(Numeral(n)))
  {
    hide ReadNumber, Numeral, DashAt, LIMIT, Decimal.Value;
    var s := Numeral(n);
    DashAfter(s, []);
    assert s + [] == s && s[..|s|] == s;
    LimitIs();
    ValueOfNumeral(n);
    NumberOfDigits(s);
    LastDigit(s);
  }
}
