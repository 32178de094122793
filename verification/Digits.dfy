/** Digit strings: how src/printf.c generates them (least significant first) and what they denote. */
module Digits {
  import opened Words

  // ---------- characters and strings ----------

  /** c repeated n times. */
  function Rep(c: char, n: nat): (s: string)
    ensures |s| == n && forall i :: 0 <= i < n ==> s[i] == c
  {
    seq(n, _ => c)
  }

  function Reversed(s: string): (r: string)
    ensures |r| == |s|
    ensures forall i :: 0 <= i < |s| ==> r[i] == s[|s| - 1 - i]
  {
    seq(|s|, i requires 0 <= i < |s| => s[|s| - 1 - i])
  }

  lemma RepSplit(c: char, m: nat, n: nat)
    ensures Rep(c, m) + Rep(c, n) == Rep(c, m + n)
  {
  }

  lemma ReversedAppend(s: string, t: string)
    ensures Reversed(s + t) == Reversed(t) + Reversed(s)
  {
  }

  lemma ReversedRep(c: char, n: nat)
    ensures Reversed(Rep(c, n)) == Rep(c, n)
  {
  }

  /** `_is_digit`. */
  predicate IsDigit(c: char) {
    '0' <= c <= '9'
  }

  /** The character for one digit. */
  function DigitChar(d: nat, upper: bool): char
    requires d < 16
  {
    if d < 10 then '0' + d as char
    else (if upper then 'A' else 'a') + (d - 10) as char
  }

  /** The value of a digit character in any base up to 16; None if it is not one. */
  function DigitValue(c: char): nat {
    if '0' <= c <= '9' then (c - '0') as nat
    else if 'a' <= c <= 'f' then (c - 'a') as nat + 10
    else if 'A' <= c <= 'F' then (c - 'A') as nat + 10
    else 16
  }

  lemma DigitRoundTrip(d: nat, upper: bool)
    requires d < 16
    ensures DigitValue(DigitChar(d, upper)) == d
    ensures d < 10 ==> IsDigit(DigitChar(d, upper))
    ensures DigitChar(d, upper) == '0' <==> d == 0
  {
  }

  // ---------- numerals ----------

  function Pow(b: nat, e: nat): (r: nat)
    ensures b > 0 ==> r > 0
  {
    if e == 0 then 1 else b * Pow(b, e - 1)
  }

  /** What a string of digits denotes, least significant digit first. */
  function ValueRev(s: string, base: nat): nat {
    if s == "" then 0 else DigitValue(s[0]) + base * ValueRev(s[1..], base)
  }

  /** What a string of digits denotes read in the usual order. */
  function Value(s: string, base: nat): nat {
    if s == "" then 0 else Value(s[..|s| - 1], base) * base + DigitValue(s[|s| - 1])
  }

  lemma {:induction false} ValueOfReversed(s: string, base: nat)
    ensures Value(Reversed(s), base) == ValueRev(s, base)
  {
    if s != "" {
      var r := Reversed(s);
      assert r[..|r| - 1] == Reversed(s[1..]);
      ValueOfReversed(s[1..], base);
      assert base * ValueRev(s[1..], base) == ValueRev(s[1..], base) * base;
    }
  }

  /** Reading a concatenation. */
  lemma {:induction false} ValueAppend(s: string, t: string, base: nat)
    ensures Value(s + t, base) == Value(s, base) * Pow(base, |t|) + Value(t, base)
  {
    if t == "" {
      assert s + t == s;
    } else {
      var u := t[..|t| - 1];
      assert (s + t)[..|s + t| - 1] == s + u;
      ValueAppend(s, u, base);
      Shift(Value(s, base), Pow(base, |u|), Value(u, base), base);
    }
  }

  lemma Shift(a: nat, p: nat, b: nat, base: nat)
    ensures (a * p + b) * base == a * (base * p) + b * base
  {
    assert (a * p) * base == a * (base * p);
  }

  /** Leading zeros do not change the value. */
  lemma {:induction false} ValueOfZeros(n: nat, base: nat)
    ensures Value(Rep('0', n), base) == 0
  {
    if n > 0 {
      assert Rep('0', n)[..n - 1] == Rep('0', n - 1);
      ValueOfZeros(n - 1, base);
    }
  }

  lemma LeadingZeros(n: nat, s: string, base: nat)
    ensures Value(Rep('0', n) + s, base) == Value(s, base)
  {
    ValueAppend(Rep('0', n), s, base);
    ValueOfZeros(n, base);
  }

  // ---------- generation ----------

  function Quot(v: nat, b: nat): (q: nat)
    requires b > 0
    ensures v == b * q + Rem(v, b)
  {
    DivisionLaw(v, b);
    v / b
  }

  function Rem(v: nat, b: nat): (r: nat)
    requires b > 0
    ensures r < b
  {
    v % b
  }

  lemma DivisionLaw(v: nat, b: nat)
    requires b > 0
    ensures v / b >= 0 && v == b * (v / b) + v % b
  {
  }

  /** The do-while loop of `_ntoa_long`: low digit first, at most `room` of them. */
  function DigitsRev(v: nat, base: nat, upper: bool, room: nat): (s: string)
    requires 2 <= base <= 16 && room >= 1
    ensures 1 <= |s| <= room
    decreases room
  {
    [DigitChar(Rem(v, base), upper)]
    + if Quot(v, base) == 0 || room == 1 then "" else DigitsRev(Quot(v, base), base, upper, room - 1)
  }

  lemma ModProduct(v: nat, b: nat, p: nat)
    requires b > 0 && p > 0
    ensures b * p > 0 && Rem(v, b * p) == Rem(v, b) + b * Rem(Quot(v, b), p)
  {
    hide Rem, Quot;
    var q, r := Quot(v, b), Rem(v, b);
    var k, t := Quot(q, p), Rem(q, p);
    MulAtLeast(b, p);
    Regroup(b, p, k, t);
    assert v == (b * p) * k + (r + b * t);
    Below(b, p, r, t);
    RemUnique(v, b * p, k, r + b * t);
  }

  lemma RemUnique(v: nat, m: nat, q: int, r: int)
    requires m > 0 && v == m * q + r && 0 <= r < m
    ensures Quot(v, m) == q && Rem(v, m) == r
  {
    DivUnique(v, m, q, r);
  }

  lemma Regroup(b: int, p: int, k: int, t: int)
    ensures b * (p * k + t) == (b * p) * k + b * t
  {
    assert b * (p * k) == (b * p) * k;
    assert b * (p * k + t) == b * (p * k) + b * t;
  }

  lemma Below(b: int, p: int, r: int, t: int)
    requires 0 <= r < b && 0 <= t < p
    ensures 0 <= r + b * t < b * p
  {
    assert b * p == b * t + b * (p - t);
    MulAtLeast(b, p - t);
    assert b * t >= 0;
  }

  lemma SmallQuotient(v: nat, b: nat, p: nat)
    requires b > 0 && p > 0 && Quot(v, b) == 0
    ensures Rem(v, b) == v && v < b * p && b * p > 0 && Rem(v, b * p) == v
  {
    hide Rem, Quot;
    MulAtLeast(b, p);
    RemUnique(v, b * p, 0, v);
  }

  lemma QuotientAtLeast(v: nat, b: nat, p: nat)
    requires b > 0 && Quot(v, b) >= p
    ensures v >= b * p
  {
    hide Rem, Quot;
    var q := Quot(v, b);
    assert b * q == b * p + b * (q - p);
    assert b * (q - p) >= 0;
  }

  lemma QuotientBelow(v: nat, b: nat, p: nat)
    requires b > 0 && v < b * p
    ensures Quot(v, b) < p
  {
    if Quot(v, b) >= p {
      QuotientAtLeast(v, b, p);
    }
  }

  lemma PowOne(b: nat)
    ensures Pow(b, 1) == b
  {
    assert Pow(b, 1) == b * Pow(b, 0);
  }

  /** The digits denote the value, up to the room in the scratch buffer. */
  lemma {:induction false} DigitsConserveValue(v: nat, base: nat, upper: bool, room: nat)
    requires 2 <= base <= 16 && room >= 1
    ensures Pow(base, room) > 0
    ensures ValueRev(DigitsRev(v, base, upper, room), base) == Rem(v, Pow(base, room))
    decreases room
  {
    hide Rem, Quot, DigitChar, DigitValue;
    var s := DigitsRev(v, base, upper, room);
    DigitRoundTrip(Rem(v, base), upper);
    if Quot(v, base) == 0 {
      SmallQuotient(v, base, Pow(base, room - 1));
      assert s[1..] == "";
    } else if room == 1 {
      assert s[1..] == "";
      PowOne(base);
    } else {
      DigitsConserveValue(Quot(v, base), base, upper, room - 1);
      assert s[1..] == DigitsRev(Quot(v, base), base, upper, room - 1);
      ModProduct(v, base, Pow(base, room - 1));
    }
  }

  predicate AllDigits(s: string, base: nat) {
    forall i :: 0 <= i < |s| ==> DigitValue(s[i]) < base
  }

  /** Every character is a digit of the base, and the top digit is zero only for zero itself or when
  the buffer cut the number off. */
  lemma {:induction false} DigitsAreCanonical(v: nat, base: nat, upper: bool, room: nat)
    requires 2 <= base <= 16 && room >= 1
    ensures var s := DigitsRev(v, base, upper, room);
            && AllDigits(s, base)
            && (v < Pow(base, room) && v != 0 ==> s[|s| - 1] != '0')
            && (v == 0 ==> s == "0")
    decreases room
  {
    hide Rem, Quot, DigitChar, DigitValue;
    DigitRoundTrip(Rem(v, base), upper);
    var s := DigitsRev(v, base, upper, room);
    if Quot(v, base) == 0 {
      SmallQuotient(v, base, 1);
      ZeroDigit(v, base, upper);
    } else if room == 1 {
      PowOne(base);
      if v < base * 1 {
        QuotientBelow(v, base, 1);
      }
    } else {
      var rest := DigitsRev(Quot(v, base), base, upper, room - 1);
      DigitsAreCanonical(Quot(v, base), base, upper, room - 1);
      if v < Pow(base, room) {
        QuotientBelow(v, base, Pow(base, room - 1));
      }
      assert s == [DigitChar(Rem(v, base), upper)] + rest;
    }
  }

  lemma ZeroDigit(v: nat, base: nat, upper: bool)
    requires 2 <= base <= 16 && v < base
    ensures v == 0 ==> [DigitChar(v, upper)] == "0"
  {
  }

  /** Letters among the digits are of the requested case. */
  predicate Cased(s: string, upper: bool) {
    forall i :: 0 <= i < |s| ==> ('A' <= s[i] <= 'F' ==> upper) && ('a' <= s[i] <= 'f' ==> !upper)
  }

  lemma DigitCase(d: nat, upper: bool)
    requires d < 16
    ensures Cased([DigitChar(d, upper)], upper)
  {
  }

  lemma {:induction false} DigitsAreCased(v: nat, base: nat, upper: bool, room: nat)
    requires 2 <= base <= 16 && room >= 1
    ensures Cased(DigitsRev(v, base, upper, room), upper)
    decreases room
  {
    hide Rem, Quot, DigitChar;
    DigitCase(Rem(v, base), upper);
    if Quot(v, base) != 0 && room > 1 {
      DigitsAreCased(Quot(v, base), base, upper, room - 1);
    }
    var s := DigitsRev(v, base, upper, room);
    assert [s[0]] == [DigitChar(Rem(v, base), upper)];
    assert s[0] == [DigitChar(Rem(v, base), upper)][0];
  }

  /** The text of a number in a base, most significant digit first, in at most 32 places. */
  function Numeral(v: nat, base: nat, upper: bool): string
    requires 2 <= base <= 16
  {
    Reversed(DigitsRev(v, base, upper, 32))
  }

  lemma DigitLimit(v: Word, base: nat, upper: bool)
    requires base == 2 || base == 8 || base == 10 || base == 16
    ensures base != 2 ==> |DigitsRev(v, base, upper, 32)| <= 22
  {
    if base != 2 {
      PowFour(base, 0);
      PowFour(base, 4);
      PowFour(base, 8);
      PowFour(base, 12);
      PowFour(base, 16);
      assert Pow(base, 22) == base * (base * Pow(base, 20)) by {
        assert Pow(base, 22) == base * Pow(base, 21);
      }
      DigitCount(v, base, upper, 32, 22);
    }
  }

  /** A numeral is canonical: digits of the base in the requested case, denoting the value (modulo 2^32
  in base 2), without a leading zero unless it is "0" or was cut off. */
  lemma NumeralDenotes(v: Word, base: nat, upper: bool)
    requires base == 2 || base == 8 || base == 10 || base == 16
    ensures var t := Numeral(v, base, upper);
            && 1 <= |t| <= 32 && (base != 2 ==> |t| <= 22)
            && AllDigits(t, base) && Cased(t, upper)
            && Value(t, base) == (if base == 2 then v % TWO32 else v)
            && (v == 0 ==> t == "0") && (v != 0 && (base == 2 ==> v < TWO32) ==> t[0] != '0')
  {
    hide DigitsRev, DigitValue, Pow, Value, ValueRev;
    var r := DigitsRev(v, base, upper, 32);
    ScratchHolds(base);
    DigitsConserveValue(v, base, upper, 32);
    DigitsAreCanonical(v, base, upper, 32);
    DigitsAreCased(v, base, upper, 32);
    DigitLimit(v, base, upper);
    ValueOfReversed(r, base);
    if base != 2 {
      DivUnique(v, Pow(base, 32), 0, v);
    }
  }

  /** Room beyond what the number needs changes nothing. */
  lemma {:induction false} RoomIrrelevant(v: nat, base: nat, upper: bool, room: nat, more: nat)
    requires 2 <= base <= 16 && 1 <= room <= more && v < Pow(base, room)
    ensures DigitsRev(v, base, upper, room) == DigitsRev(v, base, upper, more)
    decreases room
  {
    hide Rem, Quot, DigitChar;
    if room == 1 {
      PowOne(base);
      QuotientBelow(v, base, 1);
    } else if Quot(v, base) != 0 {
      QuotientBelow(v, base, Pow(base, room - 1));
      RoomIrrelevant(Quot(v, base), base, upper, room - 1, more - 1);
    }
  }

  /** A number below the k-th power of the base has at most k digits. */
  lemma {:induction false} DigitCount(v: nat, base: nat, upper: bool, room: nat, k: nat)
    requires 2 <= base <= 16 && 1 <= k <= room && v < Pow(base, k)
    ensures |DigitsRev(v, base, upper, room)| <= k
    decreases room
  {
    hide Rem, Quot, DigitChar;
    if k == 1 {
      PowOne(base);
      QuotientBelow(v, base, 1);
    } else if Quot(v, base) != 0 {
      QuotientBelow(v, base, Pow(base, k - 1));
      DigitCount(Quot(v, base), base, upper, room - 1, k - 1);
    }
  }

  /** 32 digits hold any 64-bit number in base 8, 10 and 16; in base 2 they hold 32 bits. */
  lemma ScratchHolds(base: nat)
    requires base == 2 || base == 8 || base == 10 || base == 16
    ensures Pow(base, 32) >= if base == 2 then TWO32 else TWO64
    ensures base == 2 ==> Pow(2, 32) == TWO32
  {
    PowFour(base, 0);
    PowFour(base, 4);
    PowFour(base, 8);
    PowFour(base, 12);
    PowFour(base, 16);
    PowFour(base, 20);
    PowFour(base, 24);
    PowFour(base, 28);
  }

  lemma PowFour(base: nat, e: nat)
    requires base == 2 || base == 8 || base == 10 || base == 16
    ensures Pow(base, e + 4) == (if base == 2 then 16 else if base == 8 then 4096 else if base == 10 then 10000 else 65536) * Pow(base, e)
  {
    assert Pow(base, e + 4) == base * Pow(base, e + 3);
    assert Pow(base, e + 3) == base * Pow(base, e + 2);
    assert Pow(base, e + 2) == base * Pow(base, e + 1);
    assert Pow(base, e + 1) == base * Pow(base, e);
  }

  /** Decimal text. */
  function Dec(v: nat): string
  {
    Numeral(v, 10, false)
  }

  lemma DecDenotes(v: Word)
    ensures Value(Dec(v), 10) == v && |Dec(v)| >= 1
    ensures forall i :: 0 <= i < |Dec(v)| ==> IsDigit(Dec(v)[i])
    ensures v != 0 ==> Dec(v)[0] != '0'
  {
    var r := DigitsRev(v, 10, false, 32);
    ScratchHolds(10);
    DigitsConserveValue(v, 10, false, 32);
    DigitsAreCanonical(v, 10, false, 32);
    DivUnique(v, Pow(10, 32), 0, v);
    ValueOfReversed(r, 10);
    assert forall i :: 0 <= i < |r| ==> Dec(v)[i] == r[|r| - 1 - i] && DigitValue(r[|r| - 1 - i]) < 10;
  }
}
