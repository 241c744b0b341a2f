/** The LIST of cut: its grammar and the one-pass reader. */
module CutList {
  import opened Common
  import opened Decimal
  import opened Int64

  datatype Range = Range(lo: int, hi: int)

  datatype Error = InvalidRange | FromOne | NoEndpoint | Decreasing | TooLarge(digits: string)

  datatype Item = Item(r: Range) | Wrong(e: Error)

  datatype Result = Ok(rs: seq<Range>) | Err(e: Error)

  /** A range of a list: positive, in order, inside the integers. */
  predicate Proper(r: Range) {
    1 <= r.lo <= r.hi <= MAX_INT
  }

  /** Whether position x is selected. */
  predicate Covers(rs: seq<Range>, x: int) {
    exists i :: 0 <= i < |rs| && rs[i].lo <= x <= rs[i].hi
  }

  // ---------------------------------------------------------------------
  // The grammar

  predicate IsSeparator(c: char) {
    c == ',' || c == ' ' || c == '\t'
  }

  function SeparatorAt(s: string): (n: nat)
    ensures n <= |s| && (n < |s| ==> IsSeparator(s[n])) && forall i | 0 <= i < n :: !IsSeparator(s[i])
  {
    if s == [] || IsSeparator(s[0]) then 0 else 1 + SeparatorAt(s[1..])
  }

  function DashAt(s: string): (n: nat)
    ensures n <= |s| && (n < |s| ==> s[n] == '-') && forall i | 0 <= i < n :: s[i] != '-'
  {
    if s == [] || s[0] == '-' then 0 else 1 + DashAt(s[1..])
  }

  /** The largest number to which a further digit may be appended. */
  const LIMIT: nat := (MAX_INT - 9) / 10

  datatype Number = Number(n: nat) | NotNumber | Large(digits: string)

  /** One end of a range: digits only, and none past the limit. */
  function ReadNumber(s: string): Number {
    var k := LeadingDigits(s);
    if k > 0 && Value(s[..k - 1]) > LIMIT then Large(s[..k])
    else if k < |s| then NotNumber
    else assert s[..k] == s; Number(Value(s))
  }

  /** An item N, N-, -M or N-M. */
  function ReadItem(s: string): Item {
    var d := DashAt(s);
    match ReadNumber(s[..d])
    case Large(digits) => Wrong(TooLarge(digits))
    case NotNumber => Wrong(InvalidRange)
    case Number(a) =>
      if d == |s| then (if a == 0 then Wrong(FromOne) else Item(Range(a, a)))
      else if d > 0 && a == 0 then Wrong(FromOne)
      else ReadUpper(if d == 0 then 1 else a, d == 0, s[d + 1..])
  }

  /** What follows the dash. */
  function ReadUpper(lo: nat, noLower: bool, s: string): Item {
    match ReadNumber(s)
    case Large(digits) => Wrong(TooLarge(digits))
    case NotNumber => Wrong(InvalidRange)
    case Number(b) =>
      if s == [] then (if noLower then Wrong(NoEndpoint) else Item(Range(lo, MAX_INT)))
      else if b < lo then Wrong(Decreasing)
      else Item(Range(lo, b))
  }

  /** A list is items between separators; the first wrong one decides. */
  function ReadList(s: string): Result
    decreases |s|
  {
    var n := SeparatorAt(s);
    match ReadItem(s[..n])
    case Wrong(e) => Err(e)
    case Item(r) =>
      if n == |s| then Ok([r])
      else match ReadList(s[n + 1..])
        case Ok(rs) => Ok([r] + rs)
        case Err(e) => Err(e)
  }

  lemma {:induction false} ValuePrefix(s: string, j: nat, k: nat)
    requires j <= k <= |s| && AllDigits(s)
    ensures AllDigits(s[..j]) && AllDigits(s[..k]) && Value(s[..j]) <= Value(s[..k])
    decreases k
  {
    if j < k {
      ValuePrefix(s, j, k - 1);
      assert s[..k][..k - 1] == s[..k - 1];
    }
  }

  lemma LastDigit(s: string)
    requires AllDigits(s) && s != []
    ensures AllDigits(s[..|s| - 1]) && 10 * Value(s[..|s| - 1]) <= Value(s) <= 10 * Value(s[..|s| - 1]) + 9
  {
  }

  lemma NumberOfDigits(s: string)
    requires AllDigits(s)
    ensures ReadNumber(s) == if s != [] && Value(s[..|s| - 1]) > LIMIT then Large(s) else Number(Value(s))
  {
    hide Value, LIMIT, LeadingDigits;
    assert LeadingDigits(s) == |s|;
    assert s[..|s|] == s;
  }

  /** A number is taken exactly when it is all digits and at most 9223372036854775799. */
  lemma NumberIff(s: string)
    ensures ReadNumber(s).Number? <==> AllDigits(s) && Value(s) <= 10 * LIMIT + 9
    ensures ReadNumber(s).Number? ==> ReadNumber(s).n == Value(s)
  {
    hide *;
    if AllDigits(s) {
      NumberOfDigits(s);
      if s == [] {
        EmptyIsZero();
      } else {
        LastDigit(s);
      }
    } else {
      NotDigits(s);
    }
  }

  lemma NotDigits(s: string)
    requires !AllDigits(s)
    ensures !ReadNumber(s).Number?
  {
    hide Value, LIMIT, LeadingDigits;
  }

  lemma EmptyIsZero()
    ensures Value("") == 0 && LIMIT >= 0
  {
  }

  lemma ReadItemProper(s: string)
    ensures ReadItem(s).Item? ==> Proper(ReadItem(s).r)
  {
    var d := DashAt(s);
    NumberIff(s[..d]);
    if d < |s| {
      NumberIff(s[d + 1..]);
    }
  }

  /** An accepted list gives at least one range, all of them proper. */
  lemma {:induction false} ReadListProper(s: string)
    ensures ReadList(s).Ok? ==> ReadList(s).rs != [] && forall i | 0 <= i < |ReadList(s).rs| :: Proper(ReadList(s).rs[i])
    decreases |s|
  {
    hide Proper, ReadItem;
    var n := SeparatorAt(s);
    ReadItemProper(s[..n]);
    if n < |s| {
      ReadListProper(s[n + 1..]);
    }
  }

  // ---------------------------------------------------------------------
  // The reader: what each event in the middle of an item means for the item

  lemma {:induction false} LeadingIs(s: string, k: nat)
    requires k <= |s| && AllDigits(s[..k]) && (k < |s| ==> !IsDigit(s[k]))
    ensures LeadingDigits(s) == k
  {
    assert s == s[..k] + s[k..];
    LeadingDigitsOf(s[..k], s[k..]);
  }

  lemma SeparatorIs(s: string, n: nat)
    requires n <= |s| && (n < |s| ==> IsSeparator(s[n])) && forall i | 0 <= i < n :: !IsSeparator(s[i])
    ensures SeparatorAt(s) == n
  {
  }

  lemma DashIs(s: string, n: nat)
    requires n <= |s| && (n < |s| ==> s[n] == '-') && forall i | 0 <= i < n :: s[i] != '-'
    ensures DashAt(s) == n
  {
  }

  /** The first m characters of s are a number still within bounds, read so far as value. */
  ghost predicate Reading(s: string, m: nat, value: nat) {
    m <= |s| && AllDigits(s[..m]) && value == Value(s[..m]) && (m > 0 ==> Value(s[..m - 1]) <= LIMIT)
  }

  lemma ReadingNext(s: string, m: nat, value: nat)
    requires Reading(s, m, value) && m < |s| && IsDigit(s[m]) && value <= LIMIT
    ensures Reading(s, m + 1, value * 10 + DigitValue(s[m]))
  {
    assert s[..m + 1][..m] == s[..m];
  }

  lemma NumberEnds(s: string, m: nat, value: nat)
    requires Reading(s, m, value)
    ensures ReadNumber(s[..m]) == Number(value)
  {
    hide Value, LIMIT, LeadingDigits;
    NumberOfDigits(s[..m]);
    assert m > 0 ==> s[..m][..m - 1] == s[..m - 1];
  }

  lemma NumberBad(s: string, m: nat, value: nat, q: nat)
    requires Reading(s, m, value) && m < q <= |s| && !IsDigit(s[m])
    ensures ReadNumber(s[..q]) == NotNumber
  {
    hide Value, LIMIT, LeadingDigits;
    assert s[..q][..m] == s[..m];
    LeadingIs(s[..q], m);
    assert m > 0 ==> s[..q][..m - 1] == s[..m - 1];
  }

  lemma NumberLarge(s: string, m: nat, value: nat, q: nat)
    requires Reading(s, m, value) && m < q <= |s| && IsDigit(s[m]) && value > LIMIT
    requires q < |s| ==> !IsDigit(s[q])
    ensures ReadNumber(s[..q]) == Large(s[..LeadingDigits(s)])
  {
    hide LeadingDigits, Value, LIMIT;
    var k := LeadingDigits(s);
    assert k > m;
    assert k <= q;
    TakeTwice(s, q, k);
    TakeTwice(s, q, k - 1);
    TakeTwice(s, k, m);
    TakeTwice(s, k, k - 1);
    LeadingIs(s[..q], k);
    ValuePrefix(s[..k], m, k - 1);
  }

  lemma DigitsOnly(s: string, m: nat, value: nat)
    requires Reading(s, m, value)
    ensures forall i | 0 <= i < m :: !IsSeparator(s[i]) && s[i] != '-'
  {
    forall i | 0 <= i < m ensures !IsSeparator(s[i]) && s[i] != '-' {
      assert IsDigit(s[..m][i]);
    }
  }

  /** The first item of s. */
  function FirstItem(s: string): string {
    s[..SeparatorAt(s)]
  }

  lemma ItemEnds(s: string, m: nat, value: nat)
    requires Reading(s, m, value) && (m < |s| ==> IsSeparator(s[m]))
    ensures SeparatorAt(s) == m
    ensures ReadItem(FirstItem(s)) == if value == 0 then Wrong(FromOne) else Item(Range(value, value))
  {
    DigitsOnly(s, m, value);
    SeparatorIs(s, m);
    DashIs(s[..m], m);
    assert s[..m][..m] == s[..m];
    hide ReadNumber, Value;
    NumberEnds(s, m, value);
  }

  /** A lower end that fails: at a stray character, at a digit too many, or at the dash
      after a zero. */
  lemma ItemFails(s: string, m: nat, value: nat)
    requires Reading(s, m, value) && m < |s| && !IsSeparator(s[m])
    ensures !IsDigit(s[m]) && s[m] != '-' ==> ReadItem(FirstItem(s)) == Wrong(InvalidRange)
    ensures IsDigit(s[m]) && value > LIMIT ==> ReadItem(FirstItem(s)) == Wrong(TooLarge(s[..LeadingDigits(s)]))
    ensures s[m] == '-' && m > 0 && value == 0 ==> ReadItem(FirstItem(s)) == Wrong(FromOne)
  {
    hide ReadNumber, Value, LIMIT, LeadingDigits, Reading, SeparatorAt, DashAt;
    DigitsOnly(s, m, value);
    var item := FirstItem(s);
    var d := DashAt(item);
    assert item[..d] == s[..d];
    if s[m] == '-' {
      DashIs(item, m);
      NumberEnds(s, m, value);
    } else if IsDigit(s[m]) {
      if value > LIMIT {
        NumberLarge(s, m, value, d);
      }
    } else {
      NumberBad(s, m, value, d);
    }
  }

  /** Past the dash the item is decided by its upper end. */
  lemma ItemDash(s: string, d: nat, a: nat)
    requires Reading(s, d, a) && d < |s| && s[d] == '-' && (d > 0 ==> a > 0)
    ensures SeparatorAt(s) == d + 1 + SeparatorAt(s[d + 1..])
    ensures ReadItem(FirstItem(s)) == ReadUpper(if d == 0 then 1 else a, d == 0, FirstItem(s[d + 1..]))
  {
    hide ReadNumber, Value, LIMIT, ReadUpper, SeparatorAt, DashAt;
    DigitsOnly(s, d, a);
    var t := s[d + 1..];
    var n := SeparatorAt(t);
    SeparatorIs(s, d + 1 + n);
    var item := FirstItem(s);
    DashIs(item, d);
    assert item[..d] == s[..d];
    NumberEnds(s, d, a);
    assert item[d + 1..] == t[..n];
  }

  lemma UpperEnds(t: string, m: nat, value: nat, lo: nat, noLower: bool)
    requires Reading(t, m, value) && (m < |t| ==> IsSeparator(t[m]))
    ensures SeparatorAt(t) == m
    ensures ReadUpper(lo, noLower, FirstItem(t)) ==
            if m == 0 then (if noLower then Wrong(NoEndpoint) else Item(Range(lo, MAX_INT)))
            else if value < lo then Wrong(Decreasing)
            else Item(Range(lo, value))
  {
    DigitsOnly(t, m, value);
    SeparatorIs(t, m);
    hide ReadNumber, Value;
    NumberEnds(t, m, value);
  }

  lemma UpperFails(t: string, m: nat, value: nat, lo: nat, noLower: bool)
    requires Reading(t, m, value) && m < |t| && !IsSeparator(t[m])
    ensures !IsDigit(t[m]) ==> ReadUpper(lo, noLower, FirstItem(t)) == Wrong(InvalidRange)
    ensures IsDigit(t[m]) && value > LIMIT ==> ReadUpper(lo, noLower, FirstItem(t)) == Wrong(TooLarge(t[..LeadingDigits(t)]))
  {
    hide ReadNumber, Value, LIMIT, LeadingDigits, Reading, SeparatorAt, DashAt;
    DigitsOnly(t, m, value);
    var q := SeparatorAt(t);
    if !IsDigit(t[m]) {
      NumberBad(t, m, value, q);
    } else if value > LIMIT {
      NumberLarge(t, m, value, q);
    }
  }

  // ---------------------------------------------------------------------
  // The reader

  /** The ranges already read, then what the rest gives. */
  function Prefixed(rs: seq<Range>, rest: Result): Result {
    match rest
    case Ok(more) => Ok(rs + more)
    case Err(e) => Err(e)
  }

  lemma ReadListStep(s: string, r: Range)
    requires ReadItem(FirstItem(s)) == Item(r)
    ensures ReadList(s) == var n := SeparatorAt(s); if n == |s| then Ok([r]) else Prefixed([r], ReadList(s[n + 1..]))
  {
    hide ReadItem, SeparatorAt;
  }

  lemma PrefixedTwice(rs: seq<Range>, r: Range, rest: Result)
    ensures Prefixed(rs, Prefixed([r], rest)) == Prefixed(rs + [r], rest)
  {
    match rest {
      case Ok(more) => assert rs + ([r] + more) == rs + [r] + more;
      case Err(_) =>
    }
  }

  lemma ItemDone(list: string, st: nat, m: nat, rs: seq<Range>, r: Range)
    requires st + m <= |list| && SeparatorAt(list[st..]) == m && ReadItem(FirstItem(list[st..])) == Item(r)
    requires ReadList(list) == Prefixed(rs, ReadList(list[st..]))
    ensures st + m == |list| ==> ReadList(list) == Ok(rs + [r])
    ensures st + m < |list| ==> ReadList(list) == Prefixed(rs + [r], ReadList(list[st + m + 1..]))
  {
    hide ReadItem, ReadList, SeparatorAt, FirstItem;
    ReadListStep(list[st..], r);
    if st + m < |list| {
      assert list[st..][m + 1..] == list[st + m + 1..];
      PrefixedTwice(rs, r, ReadList(list[st + m + 1..]));
    }
  }

  lemma ItemWrong(list: string, st: nat, rs: seq<Range>, e: Error)
    requires st <= |list| && ReadItem(FirstItem(list[st..])) == Wrong(e)
    requires ReadList(list) == Prefixed(rs, ReadList(list[st..]))
    ensures ReadList(list) == Err(e)
  {
    hide ReadItem;
  }

  method DigitRun(list: string, start: nat) returns (digits: string)
    requires start <= |list|
    ensures digits == list[start..][..LeadingDigits(list[start..])]
  {
    var j := start;
    while j < |list| && IsDigit(list[j])
      invariant start <= j <= |list| && AllDigits(list[start..j])
    {
      assert list[start..j + 1] == list[start..j] + [list[j]];
      j := j + 1;
    }
    assert list[start..][..j - start] == list[start..j];
    LeadingIs(list[start..], j - start);
    digits := list[start..j];
  }

  /** The reader's variables between two characters. */
  datatype Scan = Scan(i: nat, initial: nat, value: nat, lhs: bool, rhs: bool, dash: bool, numStart: int)

  /** They describe the item that starts at st, with its dash at d and a before it. */
  ghost predicate State(list: string, c: Scan, st: nat, d: nat, a: nat) {
    && st <= c.i <= |list|
    && (if c.dash then InUpper(list, c, st, d, a) else InLower(list, c, st))
  }

  ghost predicate InLower(list: string, c: Scan, st: nat)
    requires st <= c.i <= |list|
  {
    && Reading(list[st..], c.i - st, c.value) && (c.lhs <==> c.i > st) && !c.rhs
    && c.numStart == (if c.i > st then st else -1)
  }

  ghost predicate InUpper(list: string, c: Scan, st: nat, d: nat, a: nat)
    requires st <= c.i <= |list|
  {
    && st <= d < c.i && list[d] == '-' && Reading(list[st..], d - st, a) && (d > st ==> a > 0)
    && c.initial == (if d == st then 1 else a) && Reading(list[d + 1..], c.i - d - 1, c.value)
    && (c.lhs <==> d > st) && (c.rhs <==> c.i > d + 1)
    && c.numStart == (if c.i > d + 1 then d + 1 else -1)
  }

  lemma UpperDecides(list: string, c: Scan, st: nat, d: nat, a: nat)
    requires State(list, c, st, d, a) && c.dash
    ensures SeparatorAt(list[st..]) == d + 1 - st + SeparatorAt(list[d + 1..])
    ensures ReadItem(FirstItem(list[st..])) == ReadUpper(c.initial, d == st, FirstItem(list[d + 1..]))
  {
    hide ReadItem, ReadUpper, Reading, SeparatorAt, FirstItem;
    ItemDash(list[st..], d - st, a);
    assert list[st..][d - st + 1..] == list[d + 1..];
  }

  /** A character that can stand nowhere, or a second dash. */
  lemma AtStray(list: string, c: Scan, st: nat, d: nat, a: nat)
    requires State(list, c, st, d, a) && c.i < |list|
    requires !IsSeparator(list[c.i]) && !IsDigit(list[c.i]) && (list[c.i] == '-' ==> c.dash)
    ensures ReadItem(FirstItem(list[st..])) == Wrong(InvalidRange)
  {
    hide ReadItem, ReadUpper, Reading, SeparatorAt, FirstItem;
    if c.dash {
      UpperDecides(list, c, st, d, a);
      UpperFails(list[d + 1..], c.i - d - 1, c.value, c.initial, d == st);
    } else {
      ItemFails(list[st..], c.i - st, c.value);
    }
  }

  lemma AtDash(list: string, c: Scan, st: nat, d: nat, a: nat)
    requires State(list, c, st, d, a) && c.i < |list| && list[c.i] == '-' && !c.dash
    ensures c.lhs && c.value == 0 ==> ReadItem(FirstItem(list[st..])) == Wrong(FromOne)
    ensures !(c.lhs && c.value == 0) ==>
              State(list, Scan(c.i + 1, if c.lhs then c.value else 1, 0, c.lhs, c.rhs, true, -1), st, c.i, c.value)
  {
    hide ReadItem, Reading, SeparatorAt, FirstItem;
    if c.lhs && c.value == 0 {
      ItemFails(list[st..], c.i - st, c.value);
    } else {
      Fresh(list[c.i + 1..]);
    }
  }

  /** The digit that is one too many, and the digits reported with it. */
  lemma AtLarge(list: string, c: Scan, st: nat, d: nat, a: nat, start: nat)
    requires State(list, c, st, d, a) && c.i < |list| && IsDigit(list[c.i]) && c.value > LIMIT
    requires start == if c.numStart < 0 then c.i else c.numStart
    ensures ReadItem(FirstItem(list[st..])) == Wrong(TooLarge(list[start..][..LeadingDigits(list[start..])]))
  {
    hide ReadItem, ReadUpper, Reading, SeparatorAt, FirstItem, LIMIT, LeadingDigits;
    if c.dash {
      UpperDecides(list, c, st, d, a);
      UpperFails(list[d + 1..], c.i - d - 1, c.value, c.initial, d == st);
    } else {
      ItemFails(list[st..], c.i - st, c.value);
    }
  }

  lemma AtDigit(list: string, c: Scan, st: nat, d: nat, a: nat)
    requires State(list, c, st, d, a) && c.i < |list| && IsDigit(list[c.i]) && c.value <= LIMIT
    ensures State(list, Scan(c.i + 1, c.initial, c.value * 10 + DigitValue(list[c.i]), c.lhs || !c.dash, c.rhs || c.dash,
                             c.dash, if c.numStart < 0 then c.i else c.numStart), st, d, a)
  {
    hide Reading, LIMIT;
    if c.dash {
      ReadingNext(list[d + 1..], c.i - d - 1, c.value);
    } else {
      ReadingNext(list[st..], c.i - st, c.value);
    }
  }

  /** What the item comes to at its end, as the reader decides it. */
  function Finish(c: Scan): Item {
    if !c.dash then (if c.value == 0 then Wrong(FromOne) else Item(Range(c.value, c.value)))
    else if !c.lhs && !c.rhs then Wrong(NoEndpoint)
    else if !c.rhs then Item(Range(c.initial, MAX_INT))
    else if c.value < c.initial then Wrong(Decreasing)
    else Item(Range(c.initial, c.value))
  }

  lemma AtEnd(list: string, c: Scan, st: nat, d: nat, a: nat)
    requires State(list, c, st, d, a) && (c.i < |list| ==> IsSeparator(list[c.i]))
    ensures SeparatorAt(list[st..]) == c.i - st && ReadItem(FirstItem(list[st..])) == Finish(c)
    ensures c.i < |list| ==> State(list, Scan(c.i + 1, c.initial, 0, false, false, false, -1), c.i + 1, d, a)
  {
    hide ReadItem, ReadUpper, Reading, SeparatorAt, FirstItem;
    if c.dash {
      UpperDecides(list, c, st, d, a);
      UpperEnds(list[d + 1..], c.i - d - 1, c.value, c.initial, d == st);
    } else {
      ItemEnds(list[st..], c.i - st, c.value);
    }
    if c.i < |list| {
      Fresh(list[c.i + 1..]);
    }
  }

  /** The one-pass reader computes the grammar's result on every list. */
  method ParseList(list: string) returns (r: Result)
    ensures r == ReadList(list)
  {
    hide ReadList, ReadItem, LIMIT, LeadingDigits, FirstItem, InLower, InUpper, SeparatorAt, Prefixed;
    var rs: seq<Range> := [];
    var initial: nat, value: nat := 1, 0;
    var lhs, rhs, dash := false, false, false;
    var numStart: int := -1;
    var i: nat := 0;
    ghost var st: nat, d: nat, a: nat := 0, 0, 0;
    Start(list);
    while true
      invariant State(list, Scan(i, initial, value, lhs, rhs, dash, numStart), st, d, a)
      invariant ReadList(list) == Prefixed(rs, ReadList(list[st..]))
      decreases |list| - i
    {
      ghost var c := Scan(i, initial, value, lhs, rhs, dash, numStart);
      var eos := i >= |list|;
      if !eos && list[i] == '-' {
        if dash {
          AtStray(list, c, st, d, a);
          ItemWrong(list, st, rs, InvalidRange);
          return Err(InvalidRange);
        }
        AtDash(list, c, st, d, a);
        dash := true;
        if lhs && value == 0 {
          ItemWrong(list, st, rs, FromOne);
          return Err(FromOne);
        }
        d, a := i, value;
        initial := if lhs then value else 1;
        value := 0;
        numStart := -1;
        i := i + 1;
      } else if eos || IsSeparator(list[i]) {
        AtEnd(list, c, st, d, a);
        var r: Range;
        if dash {
          dash := false;
          if !lhs && !rhs {
            ItemWrong(list, st, rs, NoEndpoint);
            return Err(NoEndpoint);
          }
          if !rhs {
            r := Range(initial, MAX_INT);
          } else {
            if value < initial {
              ItemWrong(list, st, rs, Decreasing);
              return Err(Decreasing);
            }
            r := Range(initial, value);
          }
        } else {
          if value == 0 {
            ItemWrong(list, st, rs, FromOne);
            return Err(FromOne);
          }
          r := Range(value, value);
        }
        ItemDone(list, st, i - st, rs, r);
        rs := rs + [r];
        value := 0;
        numStart := -1;
        if eos {
          return Ok(rs);
        }
        i := i + 1;
        lhs, rhs := false, false;
        st := i;
      } else if IsDigit(list[i]) {
        if numStart < 0 {
          numStart := i;
        }
        if dash {
          rhs := true;
        } else {
          lhs := true;
        }
        if value > LIMIT {
          StartInside(list, c, st, d, a);
          var digits := DigitRun(list, numStart);
          AtLarge(list, c, st, d, a, numStart);
          ItemWrong(list, st, rs, TooLarge(digits));
          return Err(TooLarge(digits));
        }
        AtDigit(list, c, st, d, a);
        value := value * 10 + DigitValue(list[i]);
        i := i + 1;
      } else {
        AtStray(list, c, st, d, a);
        ItemWrong(list, st, rs, InvalidRange);
        return Err(InvalidRange);
      }
    }
  }

  lemma StartInside(list: string, c: Scan, st: nat, d: nat, a: nat)
    requires State(list, c, st, d, a)
    ensures c.numStart <= |list|
  {
  }

  lemma Fresh(s: string)
    ensures Reading(s, 0, 0)
  {
  }

  lemma Start(list: string)
    ensures State(list, Scan(0, 1, 0, false, false, false, -1), 0, 0, 0)
    ensures ReadList(list) == Prefixed([], ReadList(list[0..]))
  {
    hide ReadList;
    assert list[0..] == list;
    match ReadList(list) {
      case Ok(rs) => assert [] + rs == rs;
      case Err(_) =>
    }
  }
}
