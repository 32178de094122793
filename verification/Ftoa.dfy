/** The digit emission of `_ftoa` in src/printf.c: a whole part and a decimal fraction, already
rounded, become text in a 32-byte scratch buffer that holds it backwards. */
module Ftoa {
  import opened Words
  import opened Digits
  import opened Sinks
  import opened Ntoa
  import opened FieldTheorems

  // ---------- what fits the scratch buffer ----------

  /** As much of s as the scratch buffer takes. */
  function Cut(s: string): (r: string)
    ensures |r| <= ROOM && (|s| <= ROOM ==> r == s)
  {
    if |s| <= ROOM then s else s[..ROOM]
  }

  lemma CutAppend(a: string, b: string)
    ensures Cut(Cut(a) + b) == Cut(a + b)
    ensures |a| == ROOM ==> Cut(a + b) == a
  {
    if |a| > ROOM {
      assert (Cut(a) + b)[..ROOM] == Cut(a) == (a + b)[..ROOM];
    }
    if |a| == ROOM {
      assert (a + b)[..ROOM] == a;
    }
  }

  // ---------- the text of a fixed-point number ----------

  /** Fraction digits actually computed; the rest of the precision is zeros. */
  function Computed(prec: nat): nat {
    if prec > 9 then 9 else prec
  }

  function Fraction(frac: nat, prec: nat): string
    requires |Dec(frac)| <= Computed(prec)
  {
    Rep('0', Computed(prec) - |Dec(frac)|) + Dec(frac) + Rep('0', prec - Computed(prec))
  }

  function Fixed(whole: nat, frac: nat, prec: nat): string
    requires prec > 0 ==> |Dec(frac)| <= Computed(prec)
  {
    Dec(whole) + if prec == 0 then "" else "." + Fraction(frac, prec)
  }

  lemma FractionFits(frac: nat, prec: nat)
    requires prec > 0 && frac < Pow(10, Computed(prec))
    ensures |Dec(frac)| <= Computed(prec)
  {
    DigitCount(frac, 10, false, ROOM, Computed(prec));
  }

  lemma WholeFits(whole: nat)
    requires whole < 0x8000_0000
    ensures |Dec(whole)| <= 10
  {
    PowFour(10, 0);
    PowFour(10, 4);
    assert Pow(10, 10) == 10 * Pow(10, 9) == 100 * Pow(10, 8);
    DigitCount(whole, 10, false, ROOM, 10);
  }

  /** The fraction has exactly the requested number of digits and, read as a numeral over that power
  of ten, is the computed one. */
  lemma FractionDenotes(frac: Word, prec: nat)
    requires prec > 0 && frac < Pow(10, Computed(prec))
    ensures |Dec(frac)| <= Computed(prec) && |Fraction(frac, prec)| == prec
    ensures Value(Fraction(frac, prec), 10) * Pow(10, Computed(prec)) == frac * Pow(10, prec)
  {
    hide Value, Dec, Pow, Rep;
    FractionFits(frac, prec);
    DecDenotes(frac);
    var p := Computed(prec);
    var head, zeros := Rep('0', p - |Dec(frac)|) + Dec(frac), Rep('0', prec - p);
    LeadingZeros(p - |Dec(frac)|, Dec(frac), 10);
    ValueAppend(head, zeros, 10);
    ValueOfZeros(prec - p, 10);
    PowAdd(10, p, prec - p);
    Commute(frac, Pow(10, prec - p), Pow(10, p));
  }

  lemma Commute(a: nat, b: nat, c: nat)
    ensures (a * b) * c == a * (c * b)
  {
    assert (a * b) * c == a * (b * c);
  }

  /** The text of a fixed-point number reads back: the whole part, a point, and as many fraction digits
  as requested, of which the first nine at most are computed and the rest are zeros. */
  lemma FixedDenotes(whole: Word, frac: Word, prec: nat)
    requires prec > 0 ==> frac < Pow(10, if prec < 9 then prec else 9)
    ensures prec > 0 ==> |Dec(frac)| <= Computed(prec)
    ensures var t := Fixed(whole, frac, prec);
            var n := if prec == 0 then |t| else |t| - prec - 1;
            && 0 <= n <= |t| && Value(t[..n], 10) == whole
            && (prec > 0 ==>
                  t[n] == '.' && Value(t[n + 1..], 10) * Pow(10, if prec < 9 then prec else 9) == frac * Pow(10, prec))
  {
    hide Value, Dec, Pow, Fraction;
    DecDenotes(whole);
    if prec > 0 {
      FractionFits(frac, prec);
    }
    var t := Fixed(whole, frac, prec);
    if prec == 0 {
      assert t[..|t|] == t == Dec(whole);
    } else {
      FractionDenotes(frac, prec);
      var n := |Dec(whole)|;
      assert t[..n] == Dec(whole) && t[n + 1..] == Fraction(frac, prec);
    }
  }

  lemma {:induction false} PowAdd(b: nat, m: nat, n: nat)
    ensures Pow(b, m + n) == Pow(b, m) * Pow(b, n)
  {
    if m > 0 {
      PowAdd(b, m - 1, n);
      Commute(b, Pow(b, m - 1), Pow(b, n));
    }
  }

  /** Up to 20 fraction digits nothing is cut off. */
  lemma NothingIsCut(whole: nat, frac: nat, prec: nat)
    requires whole < 0x8000_0000 && prec <= 20 && (prec > 0 ==> frac < Pow(10, Computed(prec)))
    ensures prec > 0 ==> |Dec(frac)| <= Computed(prec)
    ensures Cut(Reversed(Fixed(whole, frac, prec))) == Reversed(Fixed(whole, frac, prec))
  {
    hide Dec, Pow;
    WholeFits(whole);
    if prec > 0 {
      FractionFits(frac, prec);
    }
  }

  // ---------- the program ----------

  /** The text backwards, in the order it is produced. */
  lemma BackwardsInOrder(whole: nat, frac: nat, prec: nat)
    requires prec > 0 && |Dec(frac)| <= Computed(prec)
    ensures Reversed(Fixed(whole, frac, prec)) ==
            Rep('0', prec - Computed(prec)) + DigitsRev(frac, 10, false, ROOM)
            + Rep('0', Computed(prec) - |Dec(frac)|) + "." + DigitsRev(whole, 10, false, ROOM)
  {
    hide DigitsRev, Reversed, Rep, Fixed;
    FixedParts(whole, frac, prec);
    var b, e := DigitsRev(frac, 10, false, ROOM), DigitsRev(whole, 10, false, ROOM);
    var c, a := Rep('0', Computed(prec) - |b|), Rep('0', prec - Computed(prec));
    ReversedFive(Reversed(e), ".", c, Reversed(b), a);
    ReversedRep('0', |c|);
    ReversedRep('0', |a|);
    ReversedTwice(b);
    ReversedTwice(e);
    OneCharacter('.');
  }

  lemma FixedParts(whole: nat, frac: nat, prec: nat)
    requires prec > 0 && |Dec(frac)| <= Computed(prec)
    ensures |DigitsRev(frac, 10, false, ROOM)| == |Dec(frac)|
    ensures Fixed(whole, frac, prec) ==
            Reversed(DigitsRev(whole, 10, false, ROOM))
            + ("." + (Rep('0', Computed(prec) - |Dec(frac)|) + Reversed(DigitsRev(frac, 10, false, ROOM))
                      + Rep('0', prec - Computed(prec))))
  {
    hide DigitsRev, Reversed, Rep;
  }

  lemma ReversedTwice(s: string)
    ensures Reversed(Reversed(s)) == s
  {
  }

  lemma OneCharacter(c: char)
    ensures Reversed([c]) == [c]
  {
  }

  lemma ReversedFive(e: string, d: string, c: string, b: string, a: string)
    ensures Reversed(e + (d + (c + b + a))) == Reversed(a) + Reversed(b) + Reversed(c) + Reversed(d) + Reversed(e)
  {
    hide Reversed;
    ReversedAppend(e, d + (c + b + a));
    ReversedAppend(d, c + b + a);
    ReversedAppend(c + b, a);
    ReversedAppend(c, b);
    assert Reversed(a) + (Reversed(b) + Reversed(c)) == Reversed(a) + Reversed(b) + Reversed(c);
  }

  /** `while (len < PRINTF_FTOA_BUFFER_SIZE && n-- > 0) buf[len++] = '0'`. */
  method AppendZeros(buf: array<char>, len0: nat, n: nat) returns (len: nat)
    requires buf.Length == ROOM && len0 <= ROOM
    modifies buf
    ensures len0 <= len <= ROOM && buf[..len] == Cut(old(buf[..len0]) + Rep('0', n))
  {
    var i := n;
    len := len0;
    while len < ROOM && i > 0
      invariant len0 <= len <= ROOM && 0 <= i <= n && len - len0 == n - i
      invariant buf[..len] == old(buf[..len0]) + Rep('0', n - i)
    {
      buf[len] := '0';
      len, i := len + 1, i - 1;
      assert buf[..len] == buf[..len - 1] + ['0'];
    }
    RepSplit('0', n - i, i);
    assert old(buf[..len0]) + Rep('0', n) == buf[..len] + Rep('0', i);
    CutAppend(buf[..len], Rep('0', i));
  }

  /** The digit loops: low digits first until the value is used up or the buffer is full. */
  method AppendDigits(buf: array<char>, len0: nat, value0: nat) returns (len: nat)
    requires buf.Length == ROOM && len0 <= ROOM
    modifies buf
    ensures len0 <= len <= ROOM
    ensures buf[..len] == Cut(old(buf[..len0]) + DigitsRev(value0, 10, false, ROOM))
  {
    hide Rem, Quot, DigitChar, DigitsRev, Cut;
    var value, more := value0, true;
    len := len0;
    while len < ROOM && more
      invariant len0 <= len <= ROOM && (more && len < ROOM ==> len - len0 < ROOM)
      invariant len - len0 < ROOM || !more
      invariant old(buf[..len0]) + DigitsRev(value0, 10, false, ROOM) ==
                buf[..len] + if more then DigitsRev(value, 10, false, ROOM - (len - len0)) else ""
      decreases ROOM - len
    {
      var room := ROOM - (len - len0);
      DigitsStep(value, 10, false, room);
      ghost var before, c := buf[..len], DigitChar(Rem(value, 10), false);
      buf[len] := DigitChar(Rem(value, 10), false);
      value := Quot(value, 10);
      more := value != 0 && room > 1;
      MoveOne(before, c, if more then DigitsRev(value, 10, false, room - 1) else "");
      len := len + 1;
      assert buf[..len] == before + [c];
    }
    ghost var left := if more then DigitsRev(value, 10, false, ROOM - (len - len0)) else "";
    assert more ==> len == ROOM;
    assert buf[..len] + "" == buf[..len];
    CutAppend(buf[..len], left);
    CutShort(buf[..len]);
  }

  lemma CutShort(s: string)
    requires |s| <= ROOM
    ensures Cut(s) == s
  {
  }

  /** From the reduced precision to the end of the whole part. The powers of ten are a table of ten
  entries, so the precision left after `_ftoa` took off its zeros must be at most 9. */
  method EmitFixed(buf: array<char>, whole: nat, frac: nat, prec0: nat) returns (len: nat)
    requires buf.Length == ROOM && prec0 <= ROOM + 9
    requires prec0 > 0 ==> frac < Pow(10, Computed(prec0))
    modifies buf
    ensures prec0 > 0 ==> |Dec(frac)| <= Computed(prec0)
    ensures len <= ROOM && buf[..len] == Cut(Reversed(Fixed(whole, frac, prec0)))
  {
    hide Pow, Cut, DigitsRev, Reversed, Rep;
    // limit precision to 9
    var prec: nat := prec0;
    len := AppendZeros(buf, 0, if prec0 > 9 then prec0 - 9 else 0);
    prec := Computed(prec0);
    ghost var text := Rep('0', prec0 - prec);
    assert "" + text == text;
    if prec > 0 {
      FractionFits(frac, prec0);
      BackwardsInOrder(whole, frac, prec0);
      // now do fractional part, as an unsigned number
      ghost var digits := DigitsRev(frac, 10, false, ROOM);
      var start := len;
      len := AppendDigits(buf, len, frac);
      CutAppend(text, digits);
      // add extra 0s
      var count := prec - (len - start);
      len := AppendZeros(buf, len, count);
      CutAppend(text + digits, Rep('0', prec - |Dec(frac)|));
      ExtraZeros(text + digits, count, prec - |Dec(frac)|);
      // add decimal
      len := PushChar(buf, len, '.');
      text := text + digits + Rep('0', prec - |Dec(frac)|);
      PushIsCut(text, '.');
      text := text + ".";
    }
    // do whole part, number is reversed
    len := AppendDigits(buf, len, whole);
    CutAppend(text, DigitsRev(whole, 10, false, ROOM));
    NoFraction(whole);
  }

  /** Zeros counted from digits that were cut off do not matter. */
  lemma ExtraZeros(s: string, m: nat, n: nat)
    requires |s| < ROOM ==> m == n
    ensures Cut(Cut(s) + Rep('0', m)) == Cut(s + Rep('0', n))
  {
    CutAppend(s, Rep('0', n));
    CutAppend(Cut(s), Rep('0', m));
    CutAppend(Cut(s), Rep('0', n));
  }

  lemma PushIsCut(a: string, c: char)
    ensures Push(Cut(a), c) == Cut(a + [c])
  {
    CutAppend(a, [c]);
    if |Cut(a)| == ROOM {
      CutAppend(Cut(a), [c]);
    }
  }

  lemma NoFraction(whole: nat)
    ensures Reversed(Fixed(whole, 0, 0)) == DigitsRev(whole, 10, false, ROOM)
    ensures Rep('0', 0) + DigitsRev(whole, 10, false, ROOM) == DigitsRev(whole, 10, false, ROOM)
  {
    assert Dec(whole) + "" == Dec(whole);
  }

  /** `_ftoa` from the digits on: zero padding, the sign and the output are those of an integer field
  without precision or alternate form. */
  method Ftoa(sink: Sink, idx0: nat, whole: nat, frac: nat, negative: bool, prec: nat, width0: nat, f: Flags)
    returns (idx: nat)
    requires sink.Valid() && idx0 == |sink.sent|
    requires prec <= ROOM + 9 && (prec > 0 ==> frac < Pow(10, Computed(prec)))
    modifies sink, sink.buffer
    ensures prec > 0 ==> |Dec(frac)| <= Computed(prec)
    ensures sink.Valid() && idx == |sink.sent|
    ensures sink.sent == old(sink.sent) +
                         Field(Cut(Reversed(Fixed(whole, frac, prec))), negative, 10, 0, width0, f - {Hash})
  {
    hide Visible, Overlay, PadTo, Signed, Emitted, Rep, Fixed, Cut, Pow;
    var buf := new char[ROOM];
    var width := width0;
    var len := EmitFixed(buf, whole, frac, prec);
    ghost var r := buf[..len];
    // pad leading zeros
    if Left !in f && ZeroPad in f {
      if width > 0 && (negative || Plus in f || Space in f) {
        width := width - 1;
      }
      len := PadZeros(buf, len, width);
    }
    len := AppendSign(buf, len, negative, f);
    idx := OutRev(sink, idx0, buf, len, width, f);
    SameField(r, negative, width0, f);
  }

  /** The field without `#` and precision, step by step. */
  lemma SameField(r: string, negative: bool, width: nat, f: Flags)
    requires |r| <= ROOM
    ensures var w := EffWidth(f, negative, width);
            Field(r, negative, 10, 0, width, f - {Hash}) ==
            Emitted(Signed(if Left !in f && ZeroPad in f then PadTo(r, w) else r, f, negative), w, f)
  {
    hide PadTo, Rep, Reversed;
    NoPadding(r);
  }

  lemma NoPadding(r: string)
    requires |r| <= ROOM
    ensures PadTo(r, 0) == r
  {
    assert Rep('0', 0) == "" && r + "" == r;
  }

  /** Up to 20 fraction digits, the field is the decimal text of the number, laid out as the C standard
  asks, exactly when zero padding stays within the scratch buffer. */
  lemma FixedIsStandardExactlyWhen(whole: nat, frac: nat, negative: bool, prec: nat, width: nat, f: Flags)
    requires whole < 0x8000_0000 && prec <= 20 && (prec > 0 ==> frac < Pow(10, Computed(prec)))
    ensures prec > 0 ==> |Dec(frac)| <= Computed(prec)
    ensures Field(Cut(Reversed(Fixed(whole, frac, prec))), negative, 10, 0, width, f - {Hash}) ==
            Standard(Fixed(whole, frac, prec), Sign(f, negative), width, Left in f, ZeroPad in f)
            <==> (Left in f || ZeroPad !in f || width <= ROOM)
  {
    hide Field, Standard, Dec, Cut, Pow, Reversed;
    NothingIsCut(whole, frac, prec);
    WholeFits(whole);
    var text := Fixed(whole, frac, prec);
    ReversedTwice(text);
    assert |text| <= 31;
    StandardExactlyWhen(Reversed(text), negative, 10, width, f - {Hash});
  }
}
