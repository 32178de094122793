/** Laws of the formatting language of src/printf.c: formats compose, directives read their arguments
as their text says, and what is printed reads back as the number printed. */
module FormatTheorems {
  import opened Options
  import opened Words
  import opened Digits
  import opened Sinks
  import opened Ntoa
  import opened FieldTheorems
  import opened Rendering

  // ---------- composition ----------

  /** More format and more arguments behind a directive. */
  function More(p: Spec, g: string, b: seq<Arg>): Spec {
    p.(rest := p.rest + g, args := p.args + b)
  }

  lemma {:induction false} FlagsStopInside(s: string, f: Flags, g: string)
    requires ParseFlags(s, f).1 != ""
    ensures ParseFlags(s + g, f) == (ParseFlags(s, f).0, ParseFlags(s, f).1 + g)
  {
    hide WithFlag, ParseFlags;
    FlagsUnfold(s, f);
    FlagsUnfold(s + g, f);
    if s != "" && WithFlag(f, s[0]).Some? {
      FlagsStopInside(s[1..], WithFlag(f, s[0]).value, g);
      assert (s + g)[1..] == s[1..] + g;
    }
  }

  lemma {:induction false} NumberStopsInside(s: string, acc: nat, g: string)
    requires ParseNumber(s, acc).1 != ""
    ensures ParseNumber(s + g, acc) == (ParseNumber(s, acc).0, ParseNumber(s, acc).1 + g)
  {
    hide Wrap32, DigitValue, ParseNumber;
    NumberUnfolds(s, acc);
    NumberUnfolds(s + g, acc);
    if !EndsNumber(s) {
      NumberStopsInside(s[1..], Wrap32(acc * 10 + DigitValue(s[0])), g);
      assert (s + g)[1..] == s[1..] + g;
    }
  }

  lemma Tails(s: string, g: string, a: seq<Arg>, b: seq<Arg>)
    ensures s != "" ==> (s + g)[0] == s[0] && (s + g)[1..] == s[1..] + g
    ensures |s| > 1 ==> (s + g)[2..] == s[2..] + g
    ensures a != [] ==> (a + b)[0] == a[0] && (a + b)[1..] == a[1..] + b
  {
  }

  lemma WidthStopsInside(p: Spec, g: string, b: seq<Arg>)
    requires ParseWidth(p).Some? && ParseWidth(p).value.rest != ""
    ensures ParseWidth(More(p, g, b)) == Some(More(ParseWidth(p).value, g, b))
  {
    hide ParseNumber, Signed32;
    Tails(p.rest, g, p.args, b);
    if IsDigit(p.rest[0]) {
      NumberStopsInside(p.rest, 0, g);
    }
  }

  lemma PrecisionStopsInside(p: Spec, g: string, b: seq<Arg>)
    requires ParsePrecision(p).Some? && ParsePrecision(p).value.rest != ""
    ensures ParsePrecision(More(p, g, b)) == Some(More(ParsePrecision(p).value, g, b))
  {
    hide ParseNumber, Signed32;
    Tails(p.rest, g, p.args, b);
    if Starts(p.rest, '.') {
      Tails(p.rest[1..], g, p.args, b);
      if IsDigit(p.rest[1..][0]) {
        NumberStopsInside(p.rest[1..], 0, g);
      }
    }
  }

  lemma LengthStopsInside(f: Flags, s: string, g: string)
    requires ParseLength(f, s).1 != ""
    ensures ParseLength(f, s + g) == (ParseLength(f, s).0, ParseLength(f, s).1 + g)
  {
    hide WithLength;
    Tails(s, g, [], []);
    Tails(s[1..], g, [], []);
  }

  lemma SpecStopsInside(s: string, a: seq<Arg>, g: string, b: seq<Arg>)
    requires ParseSpec(s, a).Some? && ParseSpec(s, a).value.rest != ""
    ensures ParseSpec(s + g, a + b) == Some(More(ParseSpec(s, a).value, g, b))
  {
    hide ParseFlags, ParseWidth, ParsePrecision, ParseLength;
    var (f, rest) := ParseFlags(s, {});
    FlagsStopInside(s, {}, g);
    var p := Spec(f, 0, 0, rest, a);
    WidthStopsInside(p, g, b);
    var q := ParseWidth(p).value;
    PrecisionStopsInside(q, g, b);
    var r := ParsePrecision(q).value;
    LengthStopsInside(r.f, r.rest, g);
  }

  lemma ConversionIgnoresTheRest(c: char, p: Spec, g: string, b: seq<Arg>)
    requires Convert(c, p).Some?
    ensures var r := Convert(c, p).value; Convert(c, More(p, g, b)) == Some((r.0, r.1 + b))
  {
    hide IntegerField, CharField, TextField, PointerField;
    Tails("", "", p.args, b);
  }

  lemma DirectiveStopsInside(s: string, a: seq<Arg>, g: string, b: seq<Arg>)
    requires Directive(s, a).Some?
    ensures var d := Directive(s, a).value; Directive(s + g, a + b) == Some((d.0, d.1 + g, d.2 + b))
  {
    hide ParseSpec, Convert;
    SpecStopsInside(s, a, g, b);
    var p := ParseSpec(s, a).value;
    Tails(p.rest, g, [], []);
    ConversionIgnoresTheRest(p.rest[0], p, g, b);
  }

  /** A format made of complete directives prints the same whatever follows it, and leaves to what
  follows exactly the arguments it did not use. */
  lemma {:induction false} RenderAppend(f: string, a: seq<Arg>, g: string, b: seq<Arg>)
    requires Render(f, a).Some?
    ensures var r := Render(f, a).value; Render(f + g, a + b) == Prepend(r.0, Render(g, r.1 + b))
    decreases |f|
  {
    hide Directive;
    if f == "" {
      assert f + g == g;
      Associate("", "", Render(g, a + b));
    } else {
      Tails(f, g, [], []);
      if f[0] != '%' {
        RenderAppend(f[1..], a, g, b);
        var r := Render(f[1..], a).value;
        Associate([f[0]], r.0, Render(g, r.1 + b));
      } else {
        var d := Directive(f[1..], a).value;
        DirectiveStopsInside(f[1..], a, g, b);
        RenderAppend(d.1, d.2, g, b);
        var r := Render(d.1, d.2).value;
        Associate(d.0, r.0, Render(g, r.1 + b));
      }
    }
  }

  /** Rendering f followed by g is rendering f then g, each with its own arguments. */
  lemma Compositional(f: string, a: seq<Arg>, g: string, b: seq<Arg>)
    requires Render(f, a).Some? && Render(f, a).value.1 == []
    ensures Render(f + g, a + b) == Prepend(Render(f, a).value.0, Render(g, b))
  {
    RenderAppend(f, a, g, b);
    assert [] + b == b;
  }

  // ---------- plain text ----------

  function Doubled(s: string): string {
    if s == "" then "" else (if s[0] == '%' then "%%" else [s[0]]) + Doubled(s[1..])
  }

  lemma PercentDirective(rest: string, args: seq<Arg>)
    ensures Directive("%" + rest, args) == Some(("%", rest, args))
  {
    assert ("%" + rest)[1..] == rest;
    BareSpec("%" + rest, args);
  }

  /** A directive without flags, width and precision. */
  lemma BareSpec(s: string, args: seq<Arg>)
    requires s != "" && WithFlag({}, s[0]).None? && !IsDigit(s[0]) && s[0] != '*' && s[0] != '.'
    ensures var (f, rest) := ParseLength({}, s); ParseSpec(s, args) == Some(Spec(f, 0, 0, rest, args))
    ensures !IsLength(s[0]) ==> ParseSpec(s, args) == Some(Spec({}, 0, 0, s, args))
  {
    hide ParseFlags, ParseNumber, WithFlag, WithLength, IsDigit;
    FlagsUnfold(s, {});
  }

  /** A string with every percent sign doubled prints as itself. */
  lemma {:induction false} DoubledRendersAsItself(s: string, args: seq<Arg>)
    ensures Render(Doubled(s), args) == Some((s, args))
  {
    hide Render, Directive;
    var d := Doubled(s);
    RenderStep(d, args);
    if s != "" {
      DoubledRendersAsItself(s[1..], args);
      if s[0] == '%' {
        assert d == "%" + ("%" + Doubled(s[1..]));
        PercentDirective(Doubled(s[1..]), args);
        RenderOfDirective("%" + Doubled(s[1..]), args);
      } else {
        assert d[0] == s[0] && d[1..] == Doubled(s[1..]);
      }
      assert [s[0]] + s[1..] == s && "%" == ['%'];
    }
  }

  // ---------- numbers read back ----------

  predicate IsDecimal(d: string) {
    forall i :: 0 <= i < |d| ==> IsDigit(d[i])
  }

  lemma WrapProduct(x: nat, p: nat, v: nat)
    ensures Wrap32(Wrap32(x) * p + v) == Wrap32(x * p + v)
  {
    var q := x / TWO32;
    var y := Wrap32(x) * p + v;
    assert x * p == (q * p) * TWO32 + Wrap32(x) * p by {
      assert x == q * TWO32 + Wrap32(x);
      assert (q * TWO32) * p == (q * p) * TWO32;
    }
    Unwrap(x * p + v, q * p, y);
  }

  lemma Unwrap(x: int, k: int, y: int)
    requires x == k * TWO32 + y
    ensures Wrap32(x) == Wrap32(y)
  {
    DivUnique(x, TWO32, k + y / TWO32, y % TWO32);
  }

  lemma Horner(acc: nat, d: nat, p: nat, v: nat)
    ensures (acc * 10 + d) * p + v == acc * (10 * p) + (d * p + v)
  {
    assert (acc * 10) * p == acc * (10 * p);
  }

  /** `_atoi` reads a run of digits as the number they denote, modulo 2^32, and stops behind it. */
  lemma {:induction false} AtoiReadsValue(d: string, acc: nat, tail: string)
    requires IsDecimal(d) && EndsNumber(tail) && acc < TWO32
    ensures ParseNumber(d + tail, acc) == (Wrap32(acc * Pow(10, |d|) + Value(d, 10)), tail)
  {
    hide Wrap32, DigitValue, Value, Pow, ParseNumber, IsDigit;
    if d == "" {
      NumberEnds(acc, tail);
    } else {
      var u := d[1..];
      NumberPeels(d, tail, acc);
      AtoiReadsValue(u, Wrap32(acc * 10 + DigitValue(d[0])), tail);
      ValueFromFront(d);
      ReadOne(acc, DigitValue(d[0]), Pow(10, |u|), Value(u, 10), Pow(10, |d|), Value(d, 10));
    }
  }

  lemma NumberEnds(acc: nat, tail: string)
    requires EndsNumber(tail) && acc < TWO32
    ensures ParseNumber("" + tail, acc) == (acc, tail)
    ensures Wrap32(acc * Pow(10, 0) + Value("", 10)) == acc
  {
    assert "" + tail == tail;
    assert Pow(10, 0) == 1;
  }

  lemma NumberPeels(d: string, tail: string, acc: nat)
    requires IsDecimal(d) && d != ""
    ensures IsDecimal(d[1..])
    ensures ParseNumber(d + tail, acc) == ParseNumber(d[1..] + tail, Wrap32(acc * 10 + DigitValue(d[0])))
  {
    hide Wrap32, DigitValue, ParseNumber;
    assert (d + tail)[0] == d[0] && (d + tail)[1..] == d[1..] + tail;
    NumberUnfolds(d + tail, acc);
  }

  lemma ReadOne(acc: nat, d: nat, p: nat, v: nat, p': nat, v': nat)
    requires p' == 10 * p && v' == d * p + v
    ensures Wrap32(Wrap32(acc * 10 + d) * p + v) == Wrap32(acc * p' + v')
  {
    hide Wrap32;
    WrapProduct(acc * 10 + d, p, v);
    Horner(acc, d, p, v);
  }

  lemma ValueFromFront(d: string)
    requires d != ""
    ensures Value(d, 10) == DigitValue(d[0]) * Pow(10, |d| - 1) + Value(d[1..], 10)
    ensures Pow(10, |d|) == 10 * Pow(10, |d| - 1)
  {
    hide Value, DigitValue;
    assert d == [d[0]] + d[1..];
    ValueAppend([d[0]], d[1..], 10);
    OneDigit(d[0]);
  }

  lemma OneDigit(c: char)
    ensures Value([c], 10) == DigitValue(c)
  {
    assert [c][..0] == "";
    assert Value([c], 10) == Value("", 10) * 10 + DigitValue(c);
  }

  /** `_atoi` inverts decimal text. */
  lemma AtoiInvertsDecimal(v: nat, tail: string)
    requires v < TWO32 && EndsNumber(tail)
    ensures ParseNumber(Dec(v) + tail, 0) == (v, tail)
  {
    hide Dec, Pow, Value, ParseNumber;
    DecDenotes(v);
    AtoiReadsValue(Dec(v), 0, tail);
    assert 0 * Pow(10, |Dec(v)|) == 0;
  }

  // ---------- star widths ----------

  predicate AllFlags(s: string) {
    forall i :: 0 <= i < |s| ==> s[i] in "0-+ #"
  }

  lemma FlagChars(c: char, f: Flags)
    ensures WithFlag(f, c).Some? <==> c in "0-+ #"
  {
  }

  lemma {:induction false} FlagsThen(s: string, t: string, f: Flags)
    requires AllFlags(s)
    ensures ParseFlags(s + t, f) == ParseFlags(t, ParseFlags(s, f).0)
  {
    hide WithFlag, ParseFlags;
    FlagsUnfold(s, f);
    FlagsUnfold(s + t, f);
    if s == "" {
      assert s + t == t;
    } else {
      FlagChars(s[0], f);
      assert (s + t)[1..] == s[1..] + t;
      FlagsThen(s[1..], t, WithFlag(f, s[0]).value);
    }
  }

  lemma DirectiveFromWidth(s: string, a: seq<Arg>, t: string, b: seq<Arg>)
    requires var (f, rest) := ParseFlags(s, {});
             var (g, more) := ParseFlags(t, {});
             ParseWidth(Spec(f, 0, 0, rest, a)) == ParseWidth(Spec(g, 0, 0, more, b))
    ensures Directive(s, a) == Directive(t, b)
  {
    hide ParseFlags, ParseWidth, ParsePrecision, ParseLength, Convert;
  }

  /** The flags and the width parsed from a star. */
  lemma StarParses(flags: string, w: Word, tail: string, args: seq<Arg>)
    requires AllFlags(flags)
    ensures var f := ParseFlags(flags, {}).0;
            var n := Signed32(w);
            var r := ParseFlags(flags + ("*" + tail), {});
            ParseWidth(Spec(r.0, 0, 0, r.1, [Slot(w)] + args)) ==
            Some(Spec(if n < 0 then f + {Left} else f, Magnitude(n), 0, tail, args))
  {
    hide Signed32, ParseWidth, ParseFlags;
    var star := "*" + tail;
    var f := ParseFlags(flags, {}).0;
    FlagsThen(flags, star, {});
    FlagChars('*', f);
    FlagsUnfold(star, f);
    WidthFromStar(f, w, tail, args);
  }

  lemma WidthFromStar(f: Flags, w: Word, tail: string, args: seq<Arg>)
    ensures var n := Signed32(w);
            ParseWidth(Spec(f, 0, 0, "*" + tail, [Slot(w)] + args)) ==
            Some(Spec(if n < 0 then f + {Left} else f, Magnitude(n), 0, tail, args))
  {
    hide Signed32, ParseNumber;
    assert ("*" + tail)[1..] == tail && ([Slot(w)] + args)[1..] == args;
  }

  /** The same from a minus sign and decimal text. */
  lemma LiteralParses(flags: string, n: int, tail: string, args: seq<Arg>)
    requires AllFlags(flags) && EndsNumber(tail) && n != 0 && Magnitude(n) < TWO32
    ensures var f := ParseFlags(flags, {}).0;
            var r := ParseFlags(flags + ((if n < 0 then "-" else "") + (Dec(Magnitude(n)) + tail)), {});
            ParseWidth(Spec(r.0, 0, 0, r.1, args)) ==
            Some(Spec(if n < 0 then f + {Left} else f, Magnitude(n), 0, tail, args))
  {
    hide Dec, ParseNumber, ParseFlags, Value;
    var literal := Dec(Magnitude(n)) + tail;
    var f := ParseFlags(flags, {}).0;
    DecDenotes(Magnitude(n));
    assert literal[0] == Dec(Magnitude(n))[0];
    FlagsThen(flags, (if n < 0 then "-" else "") + literal, {});
    MinusThen(n < 0, literal, f);
    AtoiInvertsDecimal(Magnitude(n), tail);
  }

  /** `*` means the same as the decimal text of its argument; a negative argument also means `-`. */
  lemma StarMeansLiteral(flags: string, w: Word, tail: string, args: seq<Arg>)
    requires AllFlags(flags) && EndsNumber(tail) && Signed32(w) != 0
    ensures var n := Signed32(w);
            Render("%" + flags + "*" + tail, [Slot(w)] + args) ==
            Render("%" + flags + (if n < 0 then "-" else "") + Dec(Magnitude(n)) + tail, args)
  {
    hide Dec, Signed32, ParseFlags, ParseWidth, Directive, Render, Magnitude;
    var n := Signed32(w);
    var minus, digits := if n < 0 then "-" else "", Dec(Magnitude(n));
    MagnitudeBound(w);
    StarParses(flags, w, tail, args);
    LiteralParses(flags, n, tail, args);
    var star, literal := flags + ("*" + tail), flags + (minus + (digits + tail));
    DirectiveFromWidth(star, [Slot(w)] + args, literal, args);
    RenderOfDirective(star, [Slot(w)] + args);
    RenderOfDirective(literal, args);
    assert "%" + flags + "*" + tail == "%" + star;
    assert "%" + flags + minus + digits + tail == "%" + literal;
  }

  lemma MagnitudeBound(w: Word)
    ensures Magnitude(Signed32(w)) < TWO32
  {
  }

  lemma MinusThen(minus: bool, literal: string, f: Flags)
    requires literal != "" && IsDigit(literal[0]) && literal[0] != '0'
    ensures ParseFlags((if minus then "-" else "") + literal, f) == (if minus then f + {Left} else f, literal)
  {
    FlagChars(literal[0], f);
    FlagChars(literal[0], f + {Left});
    assert "" + literal == literal && ("-" + literal)[1..] == literal;
  }

  lemma RenderOfDirective(s: string, args: seq<Arg>)
    ensures Render("%" + s, args) ==
            match Directive(s, args)
            case None => None
            case Some((text, rest, args')) => Prepend(text, Render(rest, args'))
  {
    hide Directive;
    assert ("%" + s)[1..] == s;
  }

  // ---------- arguments ----------

  /** How many values the type selected by the length modifiers has. */
  function ArgRange(f: Flags): nat {
    if LongLong in f || Long in f then TWO64 else if Char in f then 256 else if Short in f then 65536 else TWO32
  }

  /** Each conversion reads the argument cut to the selected width: the value is congruent to the slot
  and lies in the range of that width, two's complement for signed conversions except for `hh`. */
  lemma ArgumentsAreCut(f: Flags, w: Word)
    ensures var m := ArgRange(f);
            && 0 <= UnsignedArg(f, w) < m && (w - UnsignedArg(f, w)) % m == 0
            && (w - SignedArg(f, w)) % m == 0
            && (m != 256 ==> 0 <= 2 * SignedArg(f, w) + m < 2 * m)
            && (m == 256 ==> 0 <= SignedArg(f, w) < m)
  {
    var m := ArgRange(f);
    var q, r := w / m, w % m;
    assert w == m * q + r;
    DivUnique(w - r, m, q, 0);
    assert w - (r - m) == m * (q + 1) + 0;
    DivUnique(w - (r - m), m, q + 1, 0);
  }

  // ---------- printed numbers ----------

  const LENGTHS: Flags := {Long, LongLong, Short, Char}

  /** Without flags, width and precision an integer prints as its sign and its digits. */
  lemma PlainInteger(v: Word, negative: bool, base: nat, f: Flags)
    requires 2 <= base <= 16 && f <= LENGTHS + {Upper}
    requires negative ==> |DigitsRev(v, base, Upper in f, ROOM)| < ROOM
    ensures Integer(v, negative, base, 0, 0, f) ==
            (if negative then "-" else "") + Reversed(DigitsRev(v, base, Upper in f, ROOM))
  {
    hide Field, DigitsRev, Reversed;
    var r := DigitsRev(v, base, Upper in f, ROOM);
    assert f - {Hash} == f;
    assert Scratch(v, base, f) == r;
    FieldShape(r, negative, base, 0, 0, f);
    var sign := Sign(f, negative);
    NothingAround(sign, "", Reversed(r));
    assert sign + "" + Reversed(r) == sign + Reversed(r);
    assert Rep(' ', 0) == "" == Rep('0', 0);
  }

  lemma PlainDecimal(v: Word, negative: bool, f: Flags)
    requires f <= LENGTHS
    ensures Integer(v, negative, 10, 0, 0, f) == (if negative then "-" else "") + Dec(v)
  {
    hide Integer, DigitsRev, Reversed;
    DecimalLength(v);
    PlainInteger(v, negative, 10, f);
  }

  /** Every unsigned conversion prints digits of its base that denote the argument; binary ones as
  far as 32 places go. */
  lemma UnsignedDenotes(c: char, f: Flags, w: Word)
    requires IsInteger(c) && !IsSigned(c) && f <= LENGTHS
    ensures var t, v := IntegerField(c, f, 0, 0, w), UnsignedArg(f, w);
            && AllDigits(t, BaseOf(c))
            && Value(t, BaseOf(c)) == if c == 'b' then v % TWO32 else v
  {
    hide Integer, DigitsRev, Reversed, Value, DigitValue, UnsignedArg;
    var base, g, v := BaseOf(c), IntegerFlags(c, f), UnsignedArg(f, w);
    var r := DigitsRev(v, base, Upper in g, ROOM);
    PlainInteger(v, false, base, g);
    assert "" + Reversed(r) == Reversed(r);
    ScratchHolds(base);
    DigitsConserveValue(v, base, Upper in g, ROOM);
    DigitsAreCanonical(v, base, Upper in g, ROOM);
    ValueOfReversed(r, base);
    if c != 'b' {
      DivUnique(v, Pow(base, 32), 0, v);
    }
  }

  lemma DecimalLength(v: Word)
    ensures |DigitsRev(v, 10, false, ROOM)| <= 20
  {
    TenToTwenty();
    DigitCount(v, 10, false, ROOM, 20);
  }

  lemma TenToTwenty()
    ensures Pow(10, 20) > TWO64
  {
    PowFour(10, 0);
    PowFour(10, 4);
    PowFour(10, 8);
    PowFour(10, 12);
    PowFour(10, 16);
  }

  /** `%u` and `_atoi` undo each other, for every 32-bit value and whatever non-digit follows. */
  lemma UnsignedRoundTrip(v: Word, tail: string)
    requires v < TWO32 && EndsNumber(tail)
    ensures Render("%u", [Slot(v)]) == Some((Dec(v), []))
    ensures ParseNumber(Dec(v) + tail, 0) == (v, tail)
  {
    hide Dec, ParseNumber, Render, IntegerField, Convert, ParseSpec;
    AtoiInvertsDecimal(v, tail);
    var args: seq<Arg> := [Slot(v)];
    var p := Spec({}, 0, 0, "u", args);
    BareSpec("u", args);
    UnsignedDecimalField(v);
    IntegerConversion('u', p, v);
    OneDirective("u", args, p, Dec(v));
    assert "%u" == "%" + "u";
  }

  lemma UnsignedDecimalField(v: Word)
    requires v < TWO32
    ensures IntegerField('u', {}, 0, 0, v) == Dec(v)
  {
    hide Integer, Dec;
    assert IntegerFlags('u', {}) == {};
    PlainDecimal(v, false, {});
    assert "" + Dec(v) == Dec(v);
  }

  lemma IntegerConversion(c: char, p: Spec, w: Word)
    requires IsInteger(c) && p.args == [Slot(w)]
    ensures Convert(c, p) == Some((IntegerField(c, p.f, p.width, p.prec, w), []))
  {
    hide IntegerField;
    assert p.args[1..] == [];
  }

  /** A format that is a single directive with a single argument. */
  lemma OneDirective(s: string, args: seq<Arg>, p: Spec, text: string)
    requires ParseSpec(s, args) == Some(p) && |p.rest| == 1 && Convert(p.rest[0], p) == Some((text, []))
    ensures Render("%" + s, args) == Some((text, []))
  {
    hide ParseSpec, Convert;
    assert p.rest[1..] == "";
    RenderOfDirective(s, args);
    assert text + "" == text;
  }

  /** The number a decimal text with an optional minus sign denotes. */
  function SignedValue(s: string): int {
    if s != "" && s[0] == '-' then 0 - Value(s[1..], 10) else Value(s, 10)
  }

  /** `%ld` prints text that denotes its argument, for every 64-bit value. */
  lemma SignedRoundTrip(w: Word)
    ensures Render("%ld", [Slot(w)]).Some?
    ensures SignedValue(Render("%ld", [Slot(w)]).value.0) == Signed64(w)
  {
    hide Dec, Render, Signed64, Value, IntegerField, Convert, ParseSpec;
    var args: seq<Arg> := [Slot(w)];
    var n := Signed64(w);
    var p := Spec({Long}, 0, 0, "d", args);
    LongDecimalSpec(args);
    SignedDecimalField(w);
    IntegerConversion('d', p, w);
    var text := (if n < 0 then "-" else "") + Dec(Magnitude(n));
    OneDirective("ld", args, p, text);
    assert "%ld" == "%" + "ld";
    DecDenotes(Magnitude(n));
    SignedTextDenotes(n, Dec(Magnitude(n)));
  }

  lemma LongDecimalSpec(args: seq<Arg>)
    ensures ParseSpec("ld", args) == Some(Spec({Long}, 0, 0, "d", args))
  {
    hide ParseSpec;
    BareSpec("ld", args);
    assert "ld"[1..] == "d" && WithLength({}, 'l', false) == {Long};
  }

  lemma SignedDecimalField(w: Word)
    ensures var n := Signed64(w);
            IntegerField('d', {Long}, 0, 0, w) == (if n < 0 then "-" else "") + Dec(Magnitude(n))
  {
    hide Integer, Dec, Signed64;
    assert IntegerFlags('d', {Long}) == {Long};
    PlainDecimal(Magnitude(Signed64(w)), Signed64(w) < 0, {Long});
  }

  lemma SignedTextDenotes(n: int, d: string)
    requires d != "" && IsDigit(d[0]) && Value(d, 10) == Magnitude(n)
    ensures SignedValue((if n < 0 then "-" else "") + d) == n
  {
    hide Value;
    assert ("-" + d)[1..] == d && "" + d == d;
  }

  /** Zero-padded to 16 places, base 16 always prints exactly 16 digits, and they denote the value. */
  lemma SixteenDigits(v: Word, f: Flags)
    requires ZeroPad in f && f * {Left, Plus, Space, Hash, Precision} == {}
    ensures var t := Integer(v, false, 16, 0, 16, f);
            |t| == 16 && AllDigits(t, 16) && Value(t, 16) == v
  {
    hide Field, DigitsRev, DigitValue, Reversed, Value, Pow;
    NotIn(f);
    var r := DigitsRev(v, 16, Upper in f, ROOM);
    assert f - {Hash} == f;
    SixteenToSixteen();
    ScratchHolds(16);
    DigitCount(v, 16, Upper in f, ROOM, 16);
    DigitsConserveValue(v, 16, Upper in f, ROOM);
    DivUnique(v, Pow(16, 32), 0, v);
    DigitsAreCanonical(v, 16, Upper in f, ROOM);
    ValueOfReversed(r, 16);
    FieldShape(r, false, 16, 0, 16, f);
    var z := 16 - |r|;
    NothingAround("", Rep('0', z), Reversed(r));
    assert Rep(' ', 0) == "" && "" + Rep('0', z) == Rep('0', z);
    LeadingZeros(z, Reversed(r), 16);
    ZerosAreDigits(z);
  }

  lemma NotIn(f: Flags)
    requires f * {Left, Plus, Space, Hash, Precision} == {}
    ensures Left !in f && Plus !in f && Space !in f && Hash !in f && Precision !in f
  {
    assert forall x :: x in f && x in {Left, Plus, Space, Hash, Precision} ==> x in f * {Left, Plus, Space, Hash, Precision};
  }

  lemma ZerosAreDigits(z: nat)
    ensures AllDigits(Rep('0', z), 16)
  {
  }

  lemma SixteenToSixteen()
    ensures Pow(16, 16) == TWO64
  {
    PowFour(16, 0);
    PowFour(16, 4);
    PowFour(16, 8);
    PowFour(16, 12);
  }

  /** `%016lx` prints exactly 16 hexadecimal digits that denote its argument. */
  lemma HexRoundTrip(w: Word)
    ensures Render("%016lx", [Slot(w)]).Some?
    ensures var t := Render("%016lx", [Slot(w)]).value.0;
            |t| == 16 && AllDigits(t, 16) && Value(t, 16) == w
  {
    hide Render, Value, IntegerField, Convert, ParseSpec;
    var args: seq<Arg> := [Slot(w)];
    var p := Spec({ZeroPad, Long}, 16, 0, "x", args);
    HexSpec(args);
    HexFieldDenotes(w);
    IntegerConversion('x', p, w);
    OneDirective("016lx", args, p, IntegerField('x', {ZeroPad, Long}, 16, 0, w));
    assert "%016lx" == "%" + "016lx";
  }

  lemma HexFieldDenotes(w: Word)
    ensures var t := IntegerField('x', {ZeroPad, Long}, 16, 0, w);
            |t| == 16 && AllDigits(t, 16) && Value(t, 16) == w
  {
    hide Integer, Value;
    assert IntegerFlags('x', {ZeroPad, Long}) == {ZeroPad, Long};
    SixteenDigits(w, {ZeroPad, Long});
  }

  lemma HexSpec(args: seq<Arg>)
    ensures ParseSpec("016lx", args) == Some(Spec({ZeroPad, Long}, 16, 0, "x", args))
  {
    hide ParseNumber, ParseFlags, ParseLength;
    HexFlags();
    SixteenParses();
    LongHex();
  }

  lemma HexFlags()
    ensures ParseFlags("016lx", {}) == ({ZeroPad}, "16lx")
  {
    hide ParseFlags, WithFlag;
    assert "016lx"[1..] == "16lx";
    ZeroIsAFlag();
    FlagsUnfold("016lx", {});
    FlagsUnfold("16lx", {ZeroPad});
  }

  lemma ZeroIsAFlag()
    ensures WithFlag({}, '0') == Some({ZeroPad}) && WithFlag({ZeroPad}, '1') == None
  {
    assert {} + {ZeroPad} == {ZeroPad};
  }

  lemma LongHex()
    ensures ParseLength({ZeroPad}, "lx") == ({ZeroPad, Long}, "x")
  {
    assert "lx"[1..] == "x" && {ZeroPad} + {Long} == {ZeroPad, Long};
    assert WithLength({ZeroPad}, 'l', false) == {ZeroPad, Long};
  }

  lemma SixteenParses()
    ensures ParseNumber("16lx", 0) == (16, "lx")
  {
    hide ParseNumber, Wrap32, DigitValue, IsDigit;
    DigitsOfSixteen();
    assert "16lx"[1..] == "6lx" && "6lx"[1..] == "lx";
    NumberUnfolds("16lx", 0);
    NumberUnfolds("6lx", 1);
    NumberUnfolds("lx", 16);
  }

  lemma DigitsOfSixteen()
    ensures DigitValue('1') == 1 && DigitValue('6') == 6 && Wrap32(1) == 1 && Wrap32(16) == 16
    ensures IsDigit('1') && IsDigit('6') && !IsDigit('l')
  {
  }

  /** `%p` prints exactly 16 hexadecimal digits that denote the pointer. */
  lemma PointerRoundTrip(w: Word)
    ensures var t := PointerField({}, 0, w);
            |t| == 16 && AllDigits(t, 16) && Value(t, 16) == w
  {
    SixteenDigits(w, {} + {ZeroPad, Upper});
  }
}
