/** The POSIX cksum CRC: a table filled by shifting, one lookup a byte, the length's bytes
    after the message, all against long division by the generator, bit by bit. */
module Crc {
  import opened Common
  import opened Int64

  const POLY: bv32 := 0x04c1_1db7
  const TOP: bv32 := 0x8000_0000

  function Xor(a: bv32, b: bv32): bv32 { a ^ b }
  function Shl(a: bv32): bv32 { a << 1 }
  predicate Top(a: bv32) { a & 0x8000_0000 != 0 }

  // ---------------------------------------------------------------------
  // The references

  /** The k highest bits of a word, the highest first. */
  function HighBits(w: bv32, k: nat): seq<bool>
    decreases k
  {
    if k == 0 then [] else [Top(w)] + HighBits(Shl(w), k - 1)
  }

  function ByteBits(b: Byte): seq<bool> {
    HighBits((b as bv32) << 24, 8)
  }

  function Bits(s: seq<Byte>): seq<bool> {
    if s == [] then [] else ByteBits(s[0]) + Bits(s[1..])
  }

  /** Long division over GF(2): bits enter at the bottom, and the generator is taken off
      whenever a bit leaves at the top. */
  function Divide(r: bv32, bits: seq<bool>): bv32
    decreases |bits|
  {
    if bits == [] then r
    else
      var shifted := Xor(Shl(r), if bits[0] then 1 else 0);
      Divide(if Top(r) then Xor(shifted, POLY) else shifted, bits[1..])
  }

  function Falses(n: nat): (s: seq<bool>)
    ensures |s| == n
  {
    if n == 0 then [] else [false] + Falses(n - 1)
  }

  /** The remainder of the message polynomial times x^32. */
  function Remainder(bits: seq<bool>): bv32 {
    Divide(0, bits + Falses(32))
  }

  /** The shift register: bits enter at the top, as feedback. */
  function Register(r: bv32, bits: seq<bool>): bv32
    decreases |bits|
  {
    if bits == [] then r
    else Register(if Top(r) != bits[0] then Xor(Shl(r), POLY) else Shl(r), bits[1..])
  }

  /** The bytes of a length, the lowest first, none for zero. */
  function LengthBytes(n: nat): seq<Byte> {
    if n == 0 then [] else [n % 256] + LengthBytes(n / 256)
  }

  function Pow256(k: nat): nat {
    if k == 0 then 1 else 256 * Pow256(k - 1)
  }

  /** The number that bytes stand for when byte i weighs 256^i. */
  function LittleEndian(bs: seq<Byte>): nat {
    if bs == [] then 0 else LittleEndian(bs[..|bs| - 1]) + bs[|bs| - 1] * Pow256(|bs| - 1)
  }

  /** The bytes of n, the lowest first and none of them a leading zero. */
  predicate IsLength(bs: seq<Byte>, n: nat) {
    LittleEndian(bs) == n && (bs != [] ==> bs[|bs| - 1] != 0)
  }

  lemma {:induction false} LittleEndianCons(b: Byte, bs: seq<Byte>)
    ensures LittleEndian([b] + bs) == b + 256 * LittleEndian(bs)
    decreases |bs|
  {
    var all := [b] + bs;
    if bs == [] {
      assert all[..0] == [] && Pow256(0) == 1;
    } else {
      var n := |bs| - 1;
      assert all[..|all| - 1] == [b] + bs[..n];
      LittleEndianCons(b, bs[..n]);
      Carry(bs[n], n);
    }
  }

  lemma Carry(x: nat, n: nat)
    ensures x * Pow256(n + 1) == 256 * (x * Pow256(n))
  {
  }

  lemma {:induction false} LengthBytesAre(n: nat)
    ensures IsLength(LengthBytes(n), n)
  {
    if n > 0 {
      LengthBytesAre(n / 256);
      LittleEndianCons(n % 256, LengthBytes(n / 256));
      hide LittleEndian, LengthBytes;
      var rest := LengthBytes(n / 256);
      if rest == [] {
        assert n / 256 == LittleEndian([]);
        NoBytes();
      }
      LengthBytesNext(n);
    }
  }

  lemma NoBytes()
    ensures LittleEndian([]) == 0
  {
  }

  lemma LengthBytesNext(n: nat)
    requires n > 0
    ensures LengthBytes(n) == [n % 256] + LengthBytes(n / 256)
  {
  }

  lemma {:induction false} LengthIsPositive(bs: seq<Byte>, n: nat)
    requires IsLength(bs, n) && bs != []
    ensures n > 0
    decreases |bs|
  {
    assert bs == [bs[0]] + bs[1..];
    LittleEndianCons(bs[0], bs[1..]);
    hide LittleEndian;
    if |bs| > 1 {
      LengthIsPositive(bs[1..], LittleEndian(bs[1..]));
    }
  }

  /** A length has only one such list of bytes. */
  lemma {:induction false} OneLength(bs: seq<Byte>, n: nat)
    requires IsLength(bs, n)
    ensures bs == LengthBytes(n)
    decreases |bs|
  {
    if bs != [] {
      LengthIsPositive(bs, n);
      assert bs == [bs[0]] + bs[1..];
      LittleEndianCons(bs[0], bs[1..]);
      var m := LittleEndian(bs[1..]);
      hide LittleEndian, LengthBytes;
      assert n == bs[0] + 256 * m;
      assert n % 256 == bs[0] && n / 256 == m;
      if |bs| == 1 {
        NoBytes();
      }
      OneLength(bs[1..], m);
      LengthBytesNext(n);
    } else {
      NoBytes();
      NoLength();
    }
  }

  lemma NoLength()
    ensures LengthBytes(0) == []
  {
  }

  /** The generator x^32 + x^26 + x^23 + x^22 + x^16 + x^12 + x^11 + x^10 + x^8 + x^7 + x^5 + x^4 + x^2 + x + 1
      without its highest term. */
  lemma Generator()
    ensures POLY == (1 << 26) | (1 << 23) | (1 << 22) | (1 << 16) | (1 << 12) | (1 << 11) | (1 << 10) | (1 << 8)
                    | (1 << 7) | (1 << 5) | (1 << 4) | (1 << 2) | (1 << 1) | (1 << 0)
  {
  }

  // ---------------------------------------------------------------------
  // Words

  lemma XorAssoc(a: bv32, b: bv32, c: bv32) ensures Xor(Xor(a, b), c) == Xor(a, Xor(b, c)) {}
  lemma XorComm(a: bv32, b: bv32) ensures Xor(a, b) == Xor(b, a) {}
  lemma XorCancel(a: bv32, b: bv32) ensures Xor(Xor(a, b), b) == a {}
  lemma XorZero(a: bv32) ensures Xor(a, 0) == a && Xor(0, a) == a {}
  lemma ShlXor(a: bv32, b: bv32) ensures Shl(Xor(a, b)) == Xor(Shl(a), Shl(b)) {}
  lemma TopXor(a: bv32, b: bv32) ensures Top(Xor(a, b)) <==> Top(a) != Top(b) {}

  /** One shift of a register with no input. */
  function Shift(r: bv32): bv32 {
    if Top(r) then Xor(Shl(r), POLY) else Shl(r)
  }

  function Shifts(k: nat, r: bv32): bv32
    decreases k
  {
    if k == 0 then r else Shifts(k - 1, Shift(r))
  }

  /** w after k left shifts. */
  function Left(w: bv32, k: nat): bv32
    decreases k
  {
    if k == 0 then w else Left(Shl(w), k - 1)
  }

  /** No bit leaves w in k left shifts. */
  predicate Clear(w: bv32, k: nat)
    decreases k
  {
    k == 0 || (!Top(w) && Clear(Shl(w), k - 1))
  }

  lemma {:induction false} ShiftsOfClear(k: nat, w: bv32)
    requires Clear(w, k)
    ensures Shifts(k, w) == Left(w, k)
    decreases k
  {
    hide Shl, Top;
    if k > 0 {
      ShiftsOfClear(k - 1, Shl(w));
    }
  }

  lemma LowIsClear(crc: bv32)
    ensures Clear(crc & 0x00ff_ffff, 8)
  {
  }

  lemma LowLeft(crc: bv32)
    ensures Left(crc & 0x00ff_ffff, 8) == crc << 8
  {
  }

  lemma LowShifts(crc: bv32)
    ensures Shifts(8, crc & 0x00ff_ffff) == crc << 8
  {
    hide Clear, Left;
    LowIsClear(crc);
    LowLeft(crc);
    ShiftsOfClear(8, crc & 0x00ff_ffff);
  }

  lemma {:induction false} ShiftsAdd(j: nat, k: nat, r: bv32)
    ensures Shifts(j + k, r) == Shifts(k, Shifts(j, r))
    decreases j
  {
    hide Shift;
    if j > 0 {
      ShiftsAdd(j - 1, k, Shift(r));
    }
  }

  lemma ShiftXor(a: bv32, b: bv32)
    ensures Shift(Xor(a, b)) == Xor(Shift(a), Shift(b))
  {
    hide Xor, Shl, Top, POLY;
    ShlXor(a, b);
    TopXor(a, b);
    var x, y := Shl(a), Shl(b);
    XorAssoc(x, y, POLY);
    XorComm(y, POLY);
    XorAssoc(x, POLY, y);
    XorAssoc(Xor(x, POLY), y, POLY);
    XorCancel(Xor(x, y), POLY);
  }

  lemma {:induction false} ShiftsXor(k: nat, a: bv32, b: bv32)
    ensures Shifts(k, Xor(a, b)) == Xor(Shifts(k, a), Shifts(k, b))
  {
    hide Xor, Shift;
    if k > 0 {
      ShiftXor(a, b);
      ShiftsXor(k - 1, Shift(a), Shift(b));
    }
  }

  lemma {:induction false} ShiftsLast(k: nat, r: bv32)
    ensures Shifts(k + 1, r) == Shift(Shifts(k, r))
  {
    hide Shift;
    if k > 0 {
      ShiftsLast(k - 1, Shift(r));
    }
  }

  // ---------------------------------------------------------------------
  // The register computes the remainder

  /** The register's step on a bit is a shift with the bit at the top. */
  lemma RegisterStep(r: bv32, bit: bool)
    ensures (if Top(r) != bit then Xor(Shl(r), POLY) else Shl(r)) == Shift(Xor(r, if bit then TOP else 0))
  {
    XorZero(r);
    XorZero(Shl(r));
    TopXor(r, TOP);
    ShlXor(r, TOP);
    assert Top(TOP) && Shl(TOP) == 0;
    hide Xor, Shl, Top, POLY;
  }

  lemma DivideStep(r: bv32, bit: bool)
    ensures (var shifted := Xor(Shl(r), if bit then 1 else 0); if Top(r) then Xor(shifted, POLY) else shifted) ==
            Xor(Shift(r), if bit then 1 else 0)
  {
    hide Xor, Shl, Top, POLY;
    var w: bv32 := if bit then 1 else 0;
    XorAssoc(Shl(r), w, POLY);
    XorComm(w, POLY);
    XorAssoc(Shl(r), POLY, w);
  }

  /** A bit reaches the top in 31 shifts. */
  lemma BitRises()
    ensures Shifts(31, 1) == TOP && Shifts(31, 0) == 0
  {
    assert Clear(0x100_0000, 7) && Left(0x100_0000, 7) == TOP;
    hide Clear, Left, Shifts;
    ShiftsOfClear(7, 0x100_0000);
    LowShifts(1);
    LowShifts(0x100);
    LowShifts(0x1_0000);
    ShiftsAdd(8, 8, 1);
    ShiftsAdd(16, 8, 1);
    ShiftsAdd(24, 7, 1);
    ShiftsZero(31);
  }

  lemma {:induction false} DivideThenShift(r: bv32, bits: seq<bool>)
    ensures Shifts(32, Divide(r, bits)) == Register(Shifts(32, r), bits)
    decreases |bits|
  {
    hide Xor, Shl, Top, POLY, Shift, Shifts;
    if bits != [] {
      var w: bv32 := if bits[0] then 1 else 0;
      var r' := Xor(Shift(r), w);
      DivideStep(r, bits[0]);
      DivideThenShift(r', bits[1..]);
      BitEnters(r, bits[0]);
      RegisterStep(Shifts(32, r), bits[0]);
    }
  }

  lemma BitEnters(r: bv32, bit: bool)
    ensures Shifts(32, Xor(Shift(r), if bit then 1 else 0)) == Shift(Xor(Shifts(32, r), if bit then TOP else 0))
  {
    hide Xor, Shift, Shifts, TOP;
    var w: bv32 := if bit then 1 else 0;
    ShiftsXor(32, Shift(r), w);
    ShiftsLast(32, r);
    ShiftsOnce(32, r);
    ShiftsLast(31, w);
    BitRises();
    ShiftXor(Shifts(32, r), Shifts(31, w));
  }

  lemma ShiftsOnce(k: nat, r: bv32)
    ensures Shifts(k, Shift(r)) == Shifts(k + 1, r)
  {
  }

  lemma {:induction false} DivideFalses(r: bv32, n: nat)
    ensures Divide(r, Falses(n)) == Shifts(n, r)
    decreases n
  {
    hide Xor, Shl, Top, POLY, Shift;
    if n > 0 {
      DivideStep(r, false);
      XorZero(Shift(r));
      assert Falses(n)[1..] == Falses(n - 1);
      DivideFalses(Shift(r), n - 1);
    }
  }

  lemma {:induction false} DivideAppend(r: bv32, a: seq<bool>, b: seq<bool>)
    ensures Divide(r, a + b) == Divide(Divide(r, a), b)
    decreases |a|
  {
    hide Xor, Shl, Top;
    if a == [] {
      assert a + b == b;
    } else {
      assert (a + b)[1..] == a[1..] + b;
      var shifted := Xor(Shl(r), if a[0] then 1 else 0);
      DivideAppend(if Top(r) then Xor(shifted, POLY) else shifted, a[1..], b);
    }
  }

  lemma {:induction false} ShiftsZero(k: nat)
    ensures Shifts(k, 0) == 0
  {
    if k > 0 {
      assert Shift(0) == 0;
      hide Shift;
      ShiftsZero(k - 1);
    }
  }

  /** The register, fed a message, holds the remainder of its division. */
  lemma RegisterIsRemainder(bits: seq<bool>)
    ensures Register(0, bits) == Remainder(bits)
  {
    hide Divide, Register, Shifts, Falses;
    DivideAppend(0, bits, Falses(32));
    DivideFalses(Divide(0, bits), 32);
    DivideThenShift(0, bits);
    ShiftsZero(32);
  }

  // ---------------------------------------------------------------------
  // One lookup is eight bit steps

  lemma {:induction false} RegisterHighBits(s: bv32, w: bv32, k: nat)
    ensures Xor(Register(s, HighBits(w, k)), Left(w, k)) == Shifts(k, Xor(s, w))
    decreases k
  {
    hide Xor, Shl, Top, POLY, Shift;
    if k > 0 {
      var s' := if Top(s) != Top(w) then Xor(Shl(s), POLY) else Shl(s);
      assert HighBits(w, k)[1..] == HighBits(Shl(w), k - 1);
      RegisterHighBits(s', Shl(w), k - 1);
      StepWithRest(s, w);
    }
  }

  lemma StepWithRest(s: bv32, w: bv32)
    ensures Xor(if Top(s) != Top(w) then Xor(Shl(s), POLY) else Shl(s), Shl(w)) == Shift(Xor(s, w))
  {
    hide Xor, Shl, Top, POLY;
    ShlXor(s, w);
    TopXor(s, w);
    XorAssoc(Shl(s), POLY, Shl(w));
    XorComm(POLY, Shl(w));
    XorAssoc(Shl(s), Shl(w), POLY);
  }

  function TableEntry(i: bv32): bv32 {
    Shifts(8, i << 24)
  }

  function Lookup(crc: bv32, w: bv32): bv32 {
    ((crc >> 24) ^ w) & 0xff
  }

  lemma ByteOut(w: bv32)
    ensures Left(w << 24, 8) == 0
  {
  }

  lemma SplitWord(crc: bv32, w: bv32)
    ensures Xor(crc, w << 24) == Xor(Lookup(crc, w) << 24, crc & 0x00ff_ffff)
  {
    var high, low, byte := crc & 0xff00_0000, crc & 0x00ff_ffff, w << 24;
    HighAndLow(crc);
    LookupShifted(crc, w);
    hide Xor, Lookup;
    XorComm(high, low);
    XorAssoc(low, high, byte);
    XorComm(low, Xor(high, byte));
  }

  lemma HighAndLow(crc: bv32)
    ensures crc == Xor(crc & 0xff00_0000, crc & 0x00ff_ffff)
  {
  }

  lemma LookupShifted(crc: bv32, w: bv32)
    ensures Lookup(crc, w) << 24 == Xor(crc & 0xff00_0000, w << 24)
  {
  }

  /** For any state and any byte the table step is the register fed the byte's eight bits. */
  lemma TableStep(crc: bv32, b: Byte)
    ensures Xor(crc << 8, TableEntry(Lookup(crc, b as bv32))) == Register(crc, ByteBits(b))
  {
    var w := b as bv32;
    var low := crc & 0x00ff_ffff;
    var high := Lookup(crc, w) << 24;
    ByteOut(w);
    SplitWord(crc, w);
    LowShifts(crc);
    RegisterHighBits(crc, w << 24, 8);
    XorZero(Register(crc, ByteBits(b)));
    ShiftsXor(8, high, low);
    XorComm(Shifts(8, high), Shifts(8, low));
    hide Xor, Register, Shifts, Lookup, HighBits;
  }

  lemma {:induction false} RegisterAppend(r: bv32, a: seq<bool>, b: seq<bool>)
    ensures Register(r, a + b) == Register(Register(r, a), b)
    decreases |a|
  {
    hide Xor, Shl, Top;
    if a == [] {
      assert a + b == b;
    } else {
      assert (a + b)[1..] == a[1..] + b;
      RegisterAppend(if Top(r) != a[0] then Xor(Shl(r), POLY) else Shl(r), a[1..], b);
    }
  }

  lemma {:induction false} BitsAppend(s: seq<Byte>, b: Byte)
    ensures Bits(s + [b]) == Bits(s) + ByteBits(b)
  {
    hide ByteBits;
    if s == [] {
      assert s + [b] == [b];
      assert Bits([b][1..]) == [];
    } else {
      assert (s + [b])[1..] == s[1..] + [b];
      BitsAppend(s[1..], b);
    }
  }

  // ---------------------------------------------------------------------
  // The program

  /** Filling one entry: eight shifts of the index at the top of a word. */
  method MakeEntry(i: bv32) returns (crc: bv32)
    ensures crc == TableEntry(i)
  {
    hide Shift;
    crc := i << 24;
    for j := 0 to 8
      invariant Shifts(8 - j, crc) == TableEntry(i)
    {
      ghost var before := crc;
      if crc & 0x8000_0000 != 0 {
        crc := (crc << 1) ^ POLY;
      } else {
        crc := crc << 1;
      }
      IsShift(before);
    }
  }

  lemma IsShift(r: bv32)
    ensures Shift(r) == if r & 0x8000_0000 != 0 then (r << 1) ^ POLY else r << 1
  {
  }

  ghost predicate IsTable(tab: array<bv32>)
    reads tab
  {
    tab.Length == 256 && forall i | 0 <= i < 256 :: tab[i] == TableEntry(i as bv32)
  }

  method MakeTable() returns (tab: array<bv32>)
    ensures fresh(tab) && IsTable(tab)
  {
    hide TableEntry;
    tab := new bv32[256](_ => 0);
    for i := 0 to 256
      invariant forall k | 0 <= k < i :: tab[k] == TableEntry(k as bv32)
    {
      tab[i] := MakeEntry(i as bv32);
    }
  }

  lemma LookupIsIndex(crc: bv32, w: bv32)
    ensures (Lookup(crc, w) as int) < 256 && ((Lookup(crc, w) as int) as bv32) == Lookup(crc, w)
  {
  }

  /** The register after the bits of s. */
  function After(s: seq<Byte>): bv32 {
    Register(0, Bits(s))
  }

  lemma AfterByte(s: seq<Byte>, b: Byte)
    ensures After(s + [b]) == Register(After(s), ByteBits(b))
  {
    hide Register, Bits, ByteBits;
    BitsAppend(s, b);
    RegisterAppend(0, Bits(s), ByteBits(b));
  }

  method Step(tab: array<bv32>, crc: bv32, b: Byte, ghost s: seq<Byte>) returns (crc': bv32)
    requires IsTable(tab) && crc == After(s)
    ensures crc' == After(s + [b])
  {
    hide Xor, TableEntry, Register, After, Lookup, ByteBits;
    var i := Lookup(crc, b as bv32);
    LookupIsIndex(crc, b as bv32);
    crc' := Xor(crc << 8, tab[i as int]);
    TableStep(crc, b);
    AfterByte(s, b);
  }

  method Absorb(tab: array<bv32>, crc: bv32, p: seq<Byte>, ghost s: seq<Byte>) returns (crc': bv32)
    requires IsTable(tab) && crc == After(s)
    ensures crc' == After(s + p)
  {
    hide After, TableEntry;
    crc' := crc;
    assert s + p[..0] == s;
    for k := 0 to |p|
      invariant crc' == After(s + p[..k])
    {
      assert s + p[..k] + [p[k]] == s + p[..k + 1];
      crc' := Step(tab, crc', p[k], s + p[..k]);
    }
    assert p[..|p|] == p;
  }

  /** The checksum of a message read in any chunks: the complement of the remainder of the
      message followed by the bytes of its length, the length counted in 64 bits. */
  method Cksum(chunks: seq<seq<Byte>>) returns (crc: bv32, n: nat)
    ensures n == |Concat(chunks)| % U64
    ensures forall len | IsLength(len, n) :: crc == !Remainder(Bits(Concat(chunks) + len))
  {
    var tab := MakeTable();
    hide After, Concat, LengthBytes, IsTable, Bits, Remainder, IsLength;
    crc, n := 0, 0;
    ConcatNothing<Byte>();
    AfterNothing();
    for i := 0 to |chunks|
      invariant fresh(tab) && IsTable(tab)
      invariant crc == After(Concat(chunks[..i])) && n == |Concat(chunks[..i])| % U64
    {
      assert chunks[..i + 1] == chunks[..i] + [chunks[i]];
      ConcatAppend(chunks[..i], chunks[i]);
      crc := Absorb(tab, crc, chunks[i], Concat(chunks[..i]));
      n := (n + |chunks[i]|) % U64;
    }
    assert chunks[..|chunks|] == chunks;
    crc := AbsorbLength(tab, crc, n, Concat(chunks));
    Finished(Concat(chunks) + LengthBytes(n));
    crc := !crc;
    forall len | IsLength(len, n) ensures len == LengthBytes(n) {
      OneLength(len, n);
    }
  }

  lemma AfterNothing()
    ensures After([]) == 0
  {
  }

  lemma Finished(s: seq<Byte>)
    ensures After(s) == Remainder(Bits(s))
  {
    RegisterIsRemainder(Bits(s));
  }

  method AbsorbLength(tab: array<bv32>, crc: bv32, n: nat, ghost s: seq<Byte>) returns (crc': bv32)
    requires IsTable(tab) && crc == After(s)
    ensures crc' == After(s + LengthBytes(n)) && IsLength(LengthBytes(n), n)
  {
    LengthBytesAre(n);
    hide After, TableEntry, IsLength;
    crc' := crc;
    var length := n;
    ghost var t: seq<Byte> := s;
    while length != 0
      invariant crc' == After(t) && t + LengthBytes(length) == s + LengthBytes(n)
    {
      assert t + LengthBytes(length) == t + [length % 256] + LengthBytes(length / 256);
      crc' := Step(tab, crc', length % 256, t);
      t := t + [length % 256];
      length := length / 256;
    }
    assert t + [] == t;
  }

  // ---------------------------------------------------------------------
  // A known value

  lemma StepTo(r: bv32, bit: bool, rest: seq<bool>, r': bv32)
    requires r' == if Top(r) != bit then Xor(Shl(r), POLY) else Shl(r)
    ensures Register(r, [bit] + rest) == Register(r', rest)
  {
    assert ([bit] + rest)[1..] == rest;
  }

  lemma EightSteps(r: bv32, b: seq<bool>, s: seq<bv32>)
    requires |b| == 8 && |s| == 9 && s[0] == r
    requires forall i | 0 <= i < 8 :: s[i + 1] == if Top(s[i]) != b[i] then Xor(Shl(s[i]), POLY) else Shl(s[i])
    ensures Register(r, b) == s[8]
  {
    hide Top, Xor, Shl, POLY;
    StepsFrom(b, s, 0);
    assert b[0..] == b;
  }

  lemma {:induction false} StepsFrom(b: seq<bool>, s: seq<bv32>, i: nat)
    requires i <= |b| && |s| == |b| + 1
    requires forall k | 0 <= k < |b| :: s[k + 1] == if Top(s[k]) != b[k] then Xor(Shl(s[k]), POLY) else Shl(s[k])
    ensures Register(s[i], b[i..]) == s[|b|]
    decreases |b| - i
  {
    hide Top, Xor, Shl, POLY;
    if i < |b| {
      assert b[i..] == [b[i]] + b[i + 1..];
      StepTo(s[i], b[i], b[i + 1..], s[i + 1]);
      StepsFrom(b, s, i + 1);
    }
  }

  lemma {:induction false} BitsOfTwo(a: Byte, b: Byte)
    ensures Bits([a, b]) == ByteBits(a) + ByteBits(b)
  {
    hide ByteBits;
    assert [a, b][1..] == [b] && [b][1..] == [];
    assert Bits([b]) == ByteBits(b) + Bits([]);
  }

  lemma HighBit(w: bv32, k: nat, top: bool, w': bv32)
    requires top == Top(w) && w' == Shl(w)
    ensures HighBits(w, k + 1) == [top] + HighBits(w', k)
  {
  }

  lemma HighBitsOf(w: bv32, b: seq<bool>, s: seq<bv32>)
    requires |s| == |b| + 1 && s[0] == w
    requires forall i | 0 <= i < |b| :: s[i + 1] == Shl(s[i]) && b[i] == Top(s[i])
    ensures HighBits(w, |b|) == b
  {
    hide Shl, Top;
    HighBitsFrom(b, s, 0);
    assert b[0..] == b;
  }

  lemma {:induction false} HighBitsFrom(b: seq<bool>, s: seq<bv32>, i: nat)
    requires i <= |b| && |s| == |b| + 1
    requires forall k | 0 <= k < |b| :: s[k + 1] == Shl(s[k]) && b[k] == Top(s[k])
    ensures HighBits(s[i], |b| - i) == b[i..]
    decreases |b| - i
  {
    hide Shl, Top;
    if i < |b| {
      HighBitsFrom(b, s, i + 1);
      HighBit(s[i], |b| - i - 1, b[i], s[i + 1]);
      assert b[i..] == [b[i]] + b[i + 1..];
    }
  }

  lemma BitsOf97()
    ensures ByteBits(97) == [false, true, true, false, false, false, false, true]
  {
    hide HighBits;
    assert (97 as bv32) << 24 == 0x6100_0000;
    HighBitsOf(0x6100_0000, [false, true, true, false, false, false, false, true],
               [0x6100_0000, 0xc200_0000, 0x8400_0000, 0x0800_0000, 0x1000_0000, 0x2000_0000, 0x4000_0000, 0x8000_0000, 0]);
  }

  lemma BitsOf1()
    ensures ByteBits(1) == [false, false, false, false, false, false, false, true]
  {
    hide HighBits;
    assert (1 as bv32) << 24 == 0x0100_0000;
    HighBitsOf(0x0100_0000, [false, false, false, false, false, false, false, true],
               [0x0100_0000, 0x0200_0000, 0x0400_0000, 0x0800_0000, 0x1000_0000, 0x2000_0000, 0x4000_0000, 0x8000_0000, 0]);
  }

  lemma RegisterOf97()
    ensures Register(0, [false, true, true, false, false, false, false, true]) == 0xa864_db20
  {
    EightSteps(0, [false, true, true, false, false, false, false, true],
               [0, 0, 0x04c1_1db7, 0x0d43_26d9, 0x1a86_4db2, 0x350c_9b64, 0x6a19_36c8, 0xd432_6d90, 0xa864_db20]);
  }

  lemma RegisterOf1()
    ensures Register(0xa864_db20, [false, false, false, false, false, false, false, true]) == 0xb73d_8601
  {
    EightSteps(0xa864_db20, [false, false, false, false, false, false, false, true],
               [0xa864_db20, 0x5408_abf7, 0xa811_57ee, 0x54e3_b26b, 0xa9c7_64d6, 0x574f_d41b, 0xae9f_a836, 0x59fe_4ddb,
                0xb73d_8601]);
  }

  /** The one-byte message "a", whose length is the byte 1, has the checksum 1220704766. */
  lemma ChecksumOfA()
    ensures IsLength([1], 1) && !Remainder(Bits([97, 1])) == 1220704766
  {
    assert LittleEndian([1]) == LittleEndian([1][..0]) + 1 * Pow256(0);
    hide Register, ByteBits;
    RegisterIsRemainder(Bits([97, 1]));
    BitsOfTwo(97, 1);
    BitsOf97();
    BitsOf1();
    RegisterAppend(0, ByteBits(97), ByteBits(1));
    RegisterOf97();
    RegisterOf1();
  }
}
