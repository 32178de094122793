/** What an integer field printed by src/printf.c looks like: its closed form, when the requested
width and precision are honoured, and when the alternate form still denotes the number. */
module FieldTheorems {
  import opened Words
  import opened Digits
  import opened Sinks
  import opened Ntoa

  function Max(a: nat, b: nat): nat {
    if a < b then b else a
  }

  function Cap(n: nat): nat {
    if n < ROOM then n else ROOM
  }

  // ---------- the closed form ----------

  /** How many zeros precede the digits: up to the precision, and up to the width if zero-padding;
  never when left-justified; never beyond the scratch buffer. */
  function Zeros(n: nat, f: Flags, prec: nat, w: nat): nat {
    if Left in f then 0 else Less(n, Cap(Max(prec, if ZeroPad in f then w else 0)))
  }

  lemma PaddedWithZeros(r: string, f: Flags, prec: nat, w: nat)
    requires |r| <= ROOM
    ensures Padded(r, f, prec, w) == r + Rep('0', Zeros(|r|, f, prec, w))
  {
    if Left !in f && ZeroPad in f {
      var a := Less(|r|, Cap(prec));
      RepSplit('0', a, Less(|r| + a, Cap(w)));
    }
  }

  lemma EmittedShape(body: string, zeros: nat, sign: string, width: nat, f: Flags)
    requires |sign| <= 1
    ensures var n := |body| + zeros + |sign|;
            Emitted(body + Rep('0', zeros) + sign, width, f) ==
            Rep(' ', if Left !in f && ZeroPad !in f then Less(n, width) else 0)
            + sign + Rep('0', zeros) + Reversed(body)
            + Rep(' ', if Left in f then Less(n, width) else 0)
  {
    hide Reversed, Rep;
    BackToFront(body, zeros, sign);
  }

  lemma BackToFront(body: string, zeros: nat, sign: string)
    requires |sign| <= 1
    ensures Reversed(body + Rep('0', zeros) + sign) == sign + Rep('0', zeros) + Reversed(body)
  {
    ReversedAppend(body + Rep('0', zeros), sign);
    ReversedAppend(body, Rep('0', zeros));
    ReversedRep('0', zeros);
    assert Reversed(sign) == sign;
  }

  /** Without `#` a field is spaces, a sign, zeros, the digits, spaces; each count in closed form. The
  sign is dropped exactly when the zeros and digits fill the scratch buffer. */
  lemma FieldShape(r: string, negative: bool, base: nat, prec: nat, width: nat, f: Flags)
    requires |r| <= ROOM && Hash !in f
    ensures var w := EffWidth(f, negative, width);
            var z := Zeros(|r|, f, prec, w);
            var sign := if |r| + z < ROOM then Sign(f, negative) else "";
            var n := |r| + z + |sign|;
            Field(r, negative, base, prec, width, f) ==
            Rep(' ', if Left !in f && ZeroPad !in f then Less(n, w) else 0)
            + sign + Rep('0', z) + Reversed(r)
            + Rep(' ', if Left in f then Less(n, w) else 0)
  {
    hide Padded, Emitted;
    var w := EffWidth(f, negative, width);
    var z := Zeros(|r|, f, prec, w);
    var sign := if |r| + z < ROOM then Sign(f, negative) else "";
    PaddedWithZeros(r, f, prec, w);
    assert r + Rep('0', z) + "" == r + Rep('0', z);
    EmittedShape(r, z, sign, w, f);
  }

  /** What the C standard asks of a signed decimal or an unsigned conversion without precision. */
  function Standard(digits: string, sign: string, width: nat, left: bool, zeropad: bool): string {
    var fill := Less(|sign| + |digits|, width);
    if left then sign + digits + Rep(' ', fill)
    else if zeropad then sign + Rep('0', fill) + digits
    else Rep(' ', fill) + sign + digits
  }

  /** The field is the standard one exactly when zero padding is not asked to go beyond the 32
  characters of scratch space. */
  lemma StandardExactlyWhen(r: string, negative: bool, base: nat, width: nat, f: Flags)
    requires Hash !in f && |r| + |Sign(f, negative)| <= ROOM
    ensures Field(r, negative, base, 0, width, f) ==
            Standard(Reversed(r), Sign(f, negative), width, Left in f, ZeroPad in f)
            <==> (Left in f || ZeroPad !in f || width <= ROOM)
  {
    hide Field, Reversed, Rep;
    FieldShape(r, negative, base, 0, width, f);
    var sign := Sign(f, negative);
    if Left in f || ZeroPad !in f {
      var fill := Less(|sign| + |r|, width);
      NothingBetween(Rep(' ', fill), sign, Reversed(r), "");
      NothingBetween("", sign, Reversed(r), Rep(' ', fill));
      assert Rep('0', 0) == "" == Rep(' ', 0);
    } else {
      var z := Zeros(|r|, f, 0, EffWidth(f, negative, width));
      var kept := if |r| + z < ROOM then sign else "";
      NothingAround(kept, Rep('0', z), Reversed(r));
      assert Rep(' ', 0) == "";
      if width <= ROOM {
        assert z == Less(|sign| + |r|, width);
        assert |sign| == 1 ==> |r| + z < ROOM;
      } else {
        assert |r| + z == ROOM;
        assert |Standard(Reversed(r), sign, width, Left in f, ZeroPad in f)| == width;
      }
    }
  }

  lemma NothingBetween(a: string, b: string, c: string, d: string)
    ensures a + b + "" + c + d == a + b + c + d
    ensures a + b + c + "" == a + b + c && "" + b + c == b + c
  {
  }

  lemma NothingAround(a: string, b: string, c: string)
    ensures "" + a + b + c + "" == a + b + c
  {
  }

  // ---------- width and precision ----------

  lemma HashedGrows(r: string, f: Flags, base: nat, prec: nat, width: nat)
    requires |r| <= ROOM
    ensures |r| <= |Hashed(r, f, base, prec, width)|
  {
  }

  /** For every flag combination, the field has at least `width` characters exactly when the width
  is not to be reached by zeros beyond the scratch buffer. */
  lemma WidthHonouredExactlyWhen(r: string, negative: bool, base: nat, prec: nat, width: nat, f: Flags)
    requires |r| <= ROOM
    ensures |Field(r, negative, base, prec, width, f)| >= width
            <==> (Left in f || ZeroPad !in f || width <= ROOM)
    ensures |Field(r, negative, base, prec, width, f)| <= Max(ROOM, width)
  {
    hide Hashed, Padded, Reversed, Rep;
    var w := EffWidth(f, negative, width);
    var p := Padded(r, f, prec, w);
    PaddedWithZeros(r, f, prec, w);
    HashedGrows(p, f, base, prec, w);
  }

  /** At least `prec` digits are printed exactly when there are that many anyway, or zeros may be
  added (not left-justified) and fit the scratch buffer. */
  lemma PrecisionHonouredExactlyWhen(r: string, f: Flags, prec: nat, w: nat)
    requires |r| <= ROOM && ZeroPad !in f
    ensures |Padded(r, f, prec, w)| >= prec <==> |r| >= prec || (Left !in f && prec <= ROOM)
  {
    PaddedWithZeros(r, f, prec, w);
  }

  // ---------- the alternate form ----------

  /** The characters `#` puts in front of the digits. */
  function Prefix(base: nat, upper: bool): string {
    if base == 16 then (if upper then "0X" else "0x") else if base == 2 then "0b" else "0"
  }

  lemma {:induction false} ValueOfPrefix(s: string, k: nat, base: nat)
    requires 2 <= base && k <= |s| && AllDigits(s, base)
    ensures ValueRev(s, base) == ValueRev(s[..k], base) + Pow(base, k) * ValueRev(s[k..], base)
    ensures ValueRev(s[..k], base) < Pow(base, k)
  {
    hide DigitValue;
    if k == 0 {
      assert s[k..] == s;
    } else {
      var t := s[1..];
      ValueOfPrefix(t, k - 1, base);
      assert s[..k][1..] == t[..k - 1] && t[k - 1..] == s[k..];
      var a, p, b := ValueRev(t[..k - 1], base), Pow(base, k - 1), ValueRev(s[k..], base);
      assert s[..k][0] == s[0] && s[..k] != "";
      PrefixArithmetic(DigitValue(s[0]), base, a, p, b);
    }
  }

  lemma PrefixArithmetic(d: nat, base: nat, a: nat, p: nat, b: nat)
    requires d < base && a < p
    ensures d + base * (a + p * b) == d + base * a + (base * p) * b
    ensures d + base * a < base * p
  {
    Regroup(base, p, b, a);
    Below(base, p, d, a);
  }

  lemma {:induction false} ZeroExactlyWhen(s: string, base: nat)
    requires 2 <= base && AllDigits(s, base)
    ensures ValueRev(s, base) == 0 <==> forall i :: 0 <= i < |s| ==> DigitValue(s[i]) == 0
  {
    if s != "" {
      ZeroExactlyWhen(s[1..], base);
      assert base * ValueRev(s[1..], base) == 0 <==> ValueRev(s[1..], base) == 0;
      assert forall i :: 1 <= i < |s| ==> s[i] == s[1..][i - 1];
      if ValueRev(s, base) == 0 {
        forall i | 0 <= i < |s| ensures DigitValue(s[i]) == 0 {
          if i > 0 { assert s[i] == s[1..][i - 1]; }
        }
      }
    }
  }

  lemma {:induction false} ZerosOnTop(r: string, z: nat, base: nat)
    ensures ValueRev(r + Rep('0', z), base) == ValueRev(r, base)
  {
    if r == "" {
      assert r + Rep('0', z) == Rep('0', z);
      ValueOfReversed(Rep('0', z), base);
      ReversedRep('0', z);
      ValueOfZeros(z, base);
    } else {
      assert (r + Rep('0', z))[1..] == r[1..] + Rep('0', z);
      ZerosOnTop(r[1..], z, base);
    }
  }

  /** Dropping t characters from the top of zero-padded digits keeps the value exactly when all of
  them are padding. */
  lemma TrimKeepsValueExactlyWhen(r: string, z: nat, t: nat, base: nat)
    requires 2 <= base && r != "" && AllDigits(r, base) && DigitValue(r[|r| - 1]) != 0 && t <= |r| + z
    ensures ValueRev((r + Rep('0', z))[..|r| + z - t], base) == ValueRev(r, base) <==> t <= z
  {
    var p := r + Rep('0', z);
    var k := |r| + z - t;
    assert AllDigits(p, base);
    ValueOfPrefix(p, k, base);
    ZerosOnTop(r, z, base);
    ZeroExactlyWhen(p[k..], base);
    var top := ValueRev(p[k..], base);
    assert Pow(base, k) * top == 0 <==> top == 0;
    if t > z {
      assert p[k..][|r| - 1 - k] == r[|r| - 1];
    } else {
      assert forall i :: 0 <= i < |p[k..]| ==> p[k..][i] == '0';
    }
  }

  lemma HashedShape(p: string, f: Flags, base: nat, prec: nat, w: nat)
    requires Hash in f && |p| <= ROOM
    requires |p| - Trimmed(|p|, f, base, prec, w) + |Prefix(base, Upper in f)| <= ROOM
    ensures Hashed(p, f, base, prec, w) ==
            p[..|p| - Trimmed(|p|, f, base, prec, w)] + Reversed(Prefix(base, Upper in f))
  {
    var k := |p| - Trimmed(|p|, f, base, prec, w);
    var q := p[..k];
    var x := Prefix(base, Upper in f);
    if base == 16 {
      assert Reversed(x) == [x[1], '0'];
      assert q + [x[1]] + ['0'] == q + [x[1], '0'];
    } else if base == 2 {
      assert Reversed(x) == "b0";
      assert q + ['b'] + ['0'] == q + "b0";
    } else {
      assert Reversed(x) == "0";
    }
  }

  /** The digits that follow the prefix, in reading order. */
  function AlternateDigits(value: nat, negative: bool, base: nat, width: nat, f: Flags): string
    requires 2 <= base <= 16
  {
    var w := EffWidth(f, negative, width);
    var p := Padded(Scratch(value, base, f), f, 0, w);
    Reversed(p[..|p| - Trimmed(|p|, f, base, 0, w)])
  }

  /** With `#`, a non-zero value, no precision and room for the prefix, the field is the prefix, with
  any sign before it, in front of `AlternateDigits`, padded with spaces. */
  lemma AlternateShape(value: Word, negative: bool, base: nat, width: nat, f: Flags)
    requires 2 <= base <= 16 && value != 0 && Hash in f && Precision !in f
    requires var n := |AlternateDigits(value, negative, base, width, f)| + |Prefix(base, Upper in f)|;
             n + |Sign(f, negative)| <= ROOM
    ensures var w := EffWidth(f, negative, width);
            var body := Sign(f, negative) + Prefix(base, Upper in f) + AlternateDigits(value, negative, base, width, f);
            Integer(value, negative, base, 0, width, f) ==
            Rep(' ', if Left !in f && ZeroPad !in f then Less(|body|, w) else 0)
            + body + Rep(' ', if Left in f then Less(|body|, w) else 0)
  {
    hide Padded, Scratch, Hashed, DigitsRev;
    var w := EffWidth(f, negative, width);
    var p := Padded(Scratch(value, base, f), f, 0, w);
    var q := p[..|p| - Trimmed(|p|, f, base, 0, w)];
    var x, sign := Prefix(base, Upper in f), Sign(f, negative);
    HashedShape(p, f, base, 0, w);
    var h := q + Reversed(x);
    assert Hashed(p, f, base, 0, w) == h;
    assert |sign| > 0 ==> |h| < ROOM;
    assert Signed(h, f, negative) == h + sign;
    ReversedAppend(h, sign);
    ReversedAppend(q, Reversed(x));
    assert Reversed(sign) == sign && Reversed(Reversed(x)) == x;
    assert Reversed(h + sign) == sign + x + Reversed(q);
  }

  /** In the alternate form the digits after the prefix denote the value exactly when nothing is
  trimmed, because the padded length differs from the width, or the trimmed places hold padding
  zeros. */
  lemma AlternateKeepsValueExactlyWhen(value: Word, negative: bool, base: nat, width: nat, f: Flags)
    requires base == 2 || base == 8 || base == 16
    requires value != 0 && Precision !in f && (base == 2 ==> value < TWO32)
    ensures var w := EffWidth(f, negative, width);
            var digits := |Scratch(value, base, f)|;
            var zeros := Zeros(digits, f, 0, w);
            var trim := if base == 16 && digits + zeros > 1 then 2 else 1;
            Value(AlternateDigits(value, negative, base, width, f), base) == value
            <==> digits + zeros != w || trim <= zeros
  {
    hide DigitsRev, DigitChar, DigitValue, Padded, Pow, Value, ValueRev;
    var w := EffWidth(f, negative, width);
    var r := Scratch(value, base, f);
    var z := Zeros(|r|, f, 0, w);
    ScratchHolds(base);
    DigitsConserveValue(value, base, Upper in f, ROOM);
    DivUnique(value, Pow(base, 32), 0, value);
    DigitsAreCanonical(value, base, Upper in f, ROOM);
    TopDigit(r[|r| - 1]);
    PaddedWithZeros(r, f, 0, w);
    var p := r + Rep('0', z);
    var t := Trimmed(|p|, f, base, 0, w);
    TrimKeepsValueExactlyWhen(r, z, t, base);
    ValueOfReversed(p[..|p| - t], base);
  }

  lemma TopDigit(c: char)
    ensures c != '0' ==> DigitValue(c) != 0
  {
  }

  /** It does lose digits: `%#2x` of 0x12 prints just the prefix. */
  lemma AlternateCanLoseDigits()
    ensures Integer(0x12, false, 16, 0, 2, {Hash}) == "0x"
  {
    var f := {Hash};
    DigitsStep(0x12, 16, false, 32);
    DigitsStep(1, 16, false, 31);
    assert DigitsRev(0x12, 16, false, 32) == "21";
  }
}
