/** What a whole directive prints, from its text and its argument: each part of the directive is read
as it is written, and the output is laid out from the number, character or string itself. */
module ConversionTheorems {
  import opened Options
  import opened Words
  import opened Digits
  import opened Sinks
  import opened Ntoa
  import opened FieldTheorems
  import opened Rendering
  import opened FormatTheorems

  // ---------- the text of a directive ----------

  /** A number in a directive: none, a lone point, or decimal digits. */
  datatype Written = Absent | Bare | Literal(n: nat)

  function WidthText(w: Written): string {
    if w.Literal? then Dec(w.n) else ""
  }

  function PrecisionText(p: Written): string {
    match p
    case Absent => ""
    case Bare => "."
    case Literal(n) => "." + Dec(n)
  }

  function Number(w: Written): nat {
    if w.Literal? then w.n else 0
  }

  /** `%`, flags, width, precision, length modifier, conversion character; then the rest of the format. */
  function Format(flags: string, w: Written, p: Written, mods: string, c: char, tail: string): string {
    "%" + (flags + (WidthText(w) + (PrecisionText(p) + (mods + ([c] + tail)))))
  }

  /** The length modifiers. */
  predicate IsModifier(mods: string) {
    mods == "" || mods == "h" || mods == "hh" || mods == "l" || mods == "ll" || mods == "t" || mods == "j" || mods == "z"
  }

  /** A directive that can be read back: flag characters, a width without leading zero, numbers of 32
  bits, a length modifier, and a conversion character that belongs to none of these parts. */
  predicate WellFormed(flags: string, w: Written, p: Written, mods: string, c: char) {
    && AllFlags(flags) && IsModifier(mods) && Converts(c)
    && !w.Bare? && (w.Literal? ==> 0 < w.n < TWO32) && (p.Literal? ==> p.n < TWO32)
  }

  predicate Converts(c: char) {
    Ordinary(c) && !IsLength(c)
  }

  /** Neither a flag nor part of a width or precision. */
  predicate Ordinary(c: char) {
    c !in "0-+ #" && !IsDigit(c) && c != '*' && c != '.'
  }

  // ---------- what the parts mean ----------

  function FlagSet(flags: string): Flags {
    (if '0' in flags then {ZeroPad} else {}) + (if '-' in flags then {Left} else {})
    + (if '+' in flags then {Plus} else {}) + (if ' ' in flags then {Space} else {})
    + (if '#' in flags then {Hash} else {})
  }

  function ModifierSet(mods: string): Flags {
    match mods
    case "h" => {Short}
    case "hh" => {Short, Char}
    case "ll" => {Long, LongLong}
    case "" => {}
    case _ => {Long}
  }

  /** How many values the argument's type has. */
  function Modulus(mods: string): nat {
    if mods == "hh" then 0x100 else if mods == "h" then 0x1_0000 else if mods == "" then TWO32 else TWO64
  }

  function ReadUnsigned(mods: string, w: Word): Word {
    w % Modulus(mods)
  }

  /** Two's complement, except that a plain char is unsigned. */
  function ReadSigned(mods: string, w: Word): (v: int)
    ensures -0x8000_0000_0000_0000 <= v < 0x8000_0000_0000_0000
  {
    var m, u := Modulus(mods), w % Modulus(mods);
    if m == 0x100 || 2 * u < m then u else u - m
  }

  // ---------- reading the parts ----------

  lemma {:induction false} FlagsAreASet(flags: string, f: Flags)
    requires AllFlags(flags)
    ensures ParseFlags(flags, f).0 == f + FlagSet(flags)
  {
    hide ParseFlags;
    FlagsUnfold(flags, f);
    if flags == "" {
      assert f + FlagSet("") == f;
    } else {
      FlagChars(flags[0], f);
      FlagsAreASet(flags[1..], WithFlag(f, flags[0]).value);
      FirstFlag(flags, f);
    }
  }

  lemma FirstFlag(flags: string, f: Flags)
    requires flags != "" && WithFlag(f, flags[0]).Some?
    ensures WithFlag(f, flags[0]).value + FlagSet(flags[1..]) == f + FlagSet(flags)
  {
    assert forall c :: c in flags <==> c == flags[0] || c in flags[1..];
  }

  lemma FlagStage(flags: string, rest: string)
    requires AllFlags(flags) && rest != "" && rest[0] !in "0-+ #"
    ensures ParseFlags(flags + rest, {}) == (FlagSet(flags), rest)
  {
    hide ParseFlags, WithFlag, FlagSet;
    FlagsThen(flags, rest, {});
    FlagsAreASet(flags, {});
    assert {} + FlagSet(flags) == FlagSet(flags);
    FlagChars(rest[0], FlagSet(flags));
    FlagsUnfold(rest, FlagSet(flags));
  }

  lemma WidthStage(f: Flags, w: Written, rest: string, args: seq<Arg>)
    requires !w.Bare? && (w.Literal? ==> 0 < w.n < TWO32) && rest != "" && !IsDigit(rest[0]) && rest[0] != '*'
    ensures ParseWidth(Spec(f, 0, 0, WidthText(w) + rest, args)) == Some(Spec(f, Number(w), 0, rest, args))
    ensures (WidthText(w) + rest) != "" && (Ordinary(rest[0]) || rest[0] == '.' ==> (WidthText(w) + rest)[0] !in "0-+ #")
  {
    hide Dec, ParseNumber, Value;
    if w.Literal? {
      DecDenotes(w.n);
      AtoiInvertsDecimal(w.n, rest);
      assert (Dec(w.n) + rest)[0] == Dec(w.n)[0];
    } else {
      assert "" + rest == rest;
    }
  }

  lemma PrecisionStage(f: Flags, width: nat, p: Written, rest: string, args: seq<Arg>)
    requires (p.Literal? ==> p.n < TWO32) && rest != "" && Ordinary(rest[0])
    ensures ParsePrecision(Spec(f, width, 0, PrecisionText(p) + rest, args)) ==
            Some(Spec(if p.Absent? then f else f + {Precision}, width, Number(p), rest, args))
    ensures (PrecisionText(p) + rest) != "" && ((PrecisionText(p) + rest)[0] == '.' || Ordinary((PrecisionText(p) + rest)[0]))
  {
    hide Dec, ParseNumber, Value;
    match p
    case Absent =>
      assert "" + rest == rest;
    case Bare =>
      assert ("." + rest)[1..] == rest;
    case Literal(n) =>
      DecDenotes(n);
      AtoiInvertsDecimal(n, rest);
      assert ("." + Dec(n) + rest)[1..] == Dec(n) + rest;
      assert (Dec(n) + rest)[0] == Dec(n)[0];
  }

  lemma LengthStage(f: Flags, mods: string, rest: string)
    requires IsModifier(mods) && rest != "" && Converts(rest[0])
    ensures ParseLength(f, mods + rest) == (f + ModifierSet(mods), rest)
    ensures mods + rest != "" && Ordinary((mods + rest)[0])
  {
    Tails(mods, rest, [], []);
    assert mods == "" ==> mods + rest == rest && f + {} == f;
    assert |mods| == 1 ==> mods[1..] == "" && (mods + rest)[1..] == rest;
    assert |mods| == 2 ==> mods[2..] == "" && (mods + rest)[2..] == rest && (mods + rest)[1] == mods[1];
  }

  function WrittenFlags(flags: string, p: Written, mods: string): Flags {
    (if p.Absent? then FlagSet(flags) else FlagSet(flags) + {Precision}) + ModifierSet(mods)
  }

  /** A well-formed directive parses as it is written, whatever follows it. */
  lemma ParsesAsWritten(flags: string, w: Written, p: Written, mods: string, c: char, tail: string, args: seq<Arg>)
    requires WellFormed(flags, w, p, mods, c)
    ensures ParseSpec(Format(flags, w, p, mods, c, tail)[1..], args) ==
            Some(Spec(WrittenFlags(flags, p, mods), Number(w), Number(p), [c] + tail, args))
  {
    hide ParseFlags, ParseWidth, ParsePrecision, ParseLength, FlagSet, ModifierSet, Dec, IsDigit, WidthText, PrecisionText, IsLength;
    var rest3 := mods + ([c] + tail);
    var rest2 := PrecisionText(p) + rest3;
    var rest1 := WidthText(w) + rest2;
    var f := FlagSet(flags);
    var g := if p.Absent? then f else f + {Precision};
    LengthStage(g, mods, [c] + tail);
    PrecisionStage(f, Number(w), p, rest3, args);
    PointIsNoDigit();
    WidthStage(f, w, rest2, args);
    FlagStage(flags, rest1);
    assert Format(flags, w, p, mods, c, tail)[1..] == flags + rest1;
  }

  lemma PointIsNoDigit()
    ensures !IsDigit('.') && '.' != '*'
  {
  }

  /** So a well-formed format renders as its conversion, then its tail. */
  lemma RendersAsWritten(flags: string, w: Written, p: Written, mods: string, c: char, tail: string, args: seq<Arg>)
    requires WellFormed(flags, w, p, mods, c)
    ensures Render(Format(flags, w, p, mods, c, tail), args) ==
            match Convert(c, Spec(WrittenFlags(flags, p, mods), Number(w), Number(p), [c] + tail, args))
            case None => None
            case Some((text, args')) => Prepend(text, Render(tail, args'))
  {
    hide ParseSpec, Convert, Render, WrittenFlags;
    ParsesAsWritten(flags, w, p, mods, c, tail, args);
    var s := Format(flags, w, p, mods, c, tail)[1..];
    assert Format(flags, w, p, mods, c, tail) == "%" + s;
    assert ([c] + tail)[0] == c && ([c] + tail)[1..] == tail;
    RenderOfDirective(s, args);
  }

  // ---------- flags of a directive ----------

  lemma FlagMembers(flags: string, p: Written, mods: string)
    requires IsModifier(mods)
    ensures var f := WrittenFlags(flags, p, mods);
            && (ZeroPad in f <==> '0' in flags) && (Left in f <==> '-' in flags) && (Plus in f <==> '+' in flags)
            && (Space in f <==> ' ' in flags) && (Hash in f <==> '#' in flags)
            && (Precision in f <==> !p.Absent?) && Upper !in f
            && (Long in f || LongLong in f <==> Modulus(mods) == TWO64)
            && (Char in f <==> mods == "hh") && (Short in f <==> mods == "h" || mods == "hh")
  {
    hide FlagSet, ModifierSet;
    FlagSetMembers(flags);
    ModifierMembers(mods);
  }

  lemma FlagSetMembers(flags: string)
    ensures var f := FlagSet(flags);
            && f <= {ZeroPad, Left, Plus, Space, Hash}
            && (ZeroPad in f <==> '0' in flags) && (Left in f <==> '-' in flags) && (Plus in f <==> '+' in flags)
            && (Space in f <==> ' ' in flags) && (Hash in f <==> '#' in flags)
  {
  }

  lemma ModifierMembers(mods: string)
    requires IsModifier(mods)
    ensures var f := ModifierSet(mods);
            && f <= {Char, Short, Long, LongLong}
            && (Long in f || LongLong in f <==> Modulus(mods) == TWO64)
            && (Char in f <==> mods == "hh") && (Short in f <==> mods == "h" || mods == "hh")
  {
  }

  lemma ReadsAsWritten(flags: string, p: Written, mods: string, w: Word)
    requires IsModifier(mods)
    ensures var f := WrittenFlags(flags, p, mods);
            UnsignedArg(f, w) == ReadUnsigned(mods, w) && SignedArg(f, w) == ReadSigned(mods, w)
  {
    hide WrittenFlags;
    FlagMembers(flags, p, mods);
  }

  // ---------- integers ----------

  /** An integer field in closed form: spaces, sign, zeros, digits, spaces. The zeros reach the precision
  or, when zero-padding, the width less the place of a sign; neither when left-justified, and never
  past 32 characters, which also drop the sign. */
  function Layout(sign: string, digits: string, width: nat, prec: nat, left: bool, zeropad: bool): string {
    var w := if !left && zeropad && sign != "" && width > 0 then width - 1 else width;
    var z := if left then 0 else Less(|digits|, Cap(Max(prec, if zeropad then w else 0)));
    var kept := if |digits| + z < ROOM then sign else "";
    var n := |digits| + z + |kept|;
    Rep(' ', if !left && !zeropad then Less(n, w) else 0)
    + kept + Rep('0', z) + digits
    + Rep(' ', if left then Less(n, w) else 0)
  }

  /** Whenever it fits, that is what the C standard asks for, with the digits filled up to the
  precision unless left-justified. */
  lemma LayoutIsStandard(sign: string, digits: string, width: nat, prec: nat, left: bool, zeropad: bool)
    requires |sign| <= 1 && |sign| + |digits| <= ROOM && (!left ==> |sign| + prec <= ROOM)
    requires zeropad ==> prec == 0
    requires !left && zeropad ==> width <= ROOM
    ensures Layout(sign, digits, width, prec, left, zeropad) ==
            Standard(Rep('0', if left then 0 else Less(|digits|, prec)) + digits, sign, width, left, zeropad)
  {
    hide Rep, Layout, Standard;
    if left {
      LeftLayout(sign, digits, width, prec, zeropad);
    } else if zeropad {
      ZeroLayout(sign, digits, width);
    } else {
      RightLayout(sign, digits, width, prec);
    }
  }

  lemma LeftLayout(sign: string, digits: string, width: nat, prec: nat, zeropad: bool)
    requires |sign| <= 1 && |sign| + |digits| <= ROOM
    ensures Layout(sign, digits, width, prec, true, zeropad) == Standard(Rep('0', 0) + digits, sign, width, true, zeropad)
  {
    hide Rep;
    assert Rep(' ', 0) == "" == Rep('0', 0) && "" + digits == digits && "" + sign == sign && sign + "" == sign;
  }

  lemma ZeroLayout(sign: string, digits: string, width: nat)
    requires |sign| <= 1 && |sign| + |digits| <= ROOM && width <= ROOM
    ensures Layout(sign, digits, width, 0, false, true) ==
            Standard(Rep('0', Less(|digits|, 0)) + digits, sign, width, false, true)
  {
    hide Rep;
    var z := Less(|sign| + |digits|, width);
    var body := sign + Rep('0', z) + digits;
    assert Rep(' ', 0) == "" == Rep('0', 0) && "" + digits == digits && "" + sign == sign && body + "" == body;
  }

  lemma RightLayout(sign: string, digits: string, width: nat, prec: nat)
    requires |sign| <= 1 && |sign| + |digits| <= ROOM && |sign| + prec <= ROOM
    ensures Layout(sign, digits, width, prec, false, false) ==
            Standard(Rep('0', Less(|digits|, prec)) + digits, sign, width, false, false)
  {
    hide Rep;
    var z := Less(|digits|, prec);
    var pad := Rep(' ', Less(|digits| + z + |sign|, width));
    assert Rep(' ', 0) == "";
    assert pad + sign + Rep('0', z) + digits + "" == pad + sign + (Rep('0', z) + digits);
  }

  function SignOf(c: char, v: int, plus: bool, space: bool): string {
    if v < 0 then "-" else if !IsSigned(c) then "" else if plus then "+" else if space then " " else ""
  }

  /** The digits of a conversion: none for a zero with an explicit precision. */
  function DigitsOf(c: char, v: int, precision: bool): string {
    if precision && v == 0 then "" else Numeral(Magnitude(v), BaseOf(c), c == 'X')
  }

  lemma IntegerFlagsMembers(c: char, f: Flags)
    ensures var g := IntegerFlags(c, f);
            && (Left in g <==> Left in f) && (Precision in g <==> Precision in f)
            && (Plus in g <==> Plus in f && IsSigned(c)) && (Space in g <==> Space in f && IsSigned(c))
            && (ZeroPad in g <==> ZeroPad in f && Precision !in f)
            && (Hash in g <==> Hash in f && BaseOf(c) != 10) && (Upper in g <==> Upper in f || c == 'X')
  {
  }

  /** Without the alternate form, an integer field of any flags, width and precision is laid out from
  the number itself. */
  lemma IntegerLayout(v: int, c: char, g: Flags, width: nat, prec: nat)
    requires Magnitude(v) < TWO64 && Hash !in g && (!IsSigned(c) ==> v >= 0 && Plus !in g && Space !in g)
    requires Upper in g <==> c == 'X'
    requires Precision in g ==> ZeroPad !in g
    ensures Integer(Magnitude(v), v < 0, BaseOf(c), prec, width, g) ==
            Layout(SignOf(c, v, Plus in g, Space in g), DigitsOf(c, v, Precision in g), width, prec, Left in g, ZeroPad in g)
  {
    hide Field, DigitsRev, Reversed, Layout;
    assert g - {Hash} == g;
    var r := Scratch(Magnitude(v), BaseOf(c), g);
    FieldLayout(r, v < 0, BaseOf(c), prec, width, g);
    NothingReversed();
  }

  lemma FieldLayout(r: string, negative: bool, base: nat, prec: nat, width: nat, g: Flags)
    requires |r| <= ROOM && Hash !in g
    ensures Field(r, negative, base, prec, width, g) ==
            Layout(Sign(g, negative), Reversed(r), width, prec, Left in g, ZeroPad in g)
  {
    hide Field, Reversed, Rep, Cap, Max;
    FieldShape(r, negative, base, prec, width, g);
  }

  lemma NothingReversed()
    ensures Reversed("") == ""
  {
  }

  lemma IntegerFieldLayout(c: char, f: Flags, width: nat, prec: nat, w: Word)
    requires IsInteger(c) && (Hash in f ==> BaseOf(c) == 10) && Upper !in f
    ensures var v := if IsSigned(c) then SignedArg(f, w) else UnsignedArg(f, w);
            IntegerField(c, f, width, prec, w) ==
            Layout(SignOf(c, v, Plus in f, Space in f), DigitsOf(c, v, Precision in f), width, prec,
                   Left in f, ZeroPad in f && Precision !in f)
  {
    hide Integer, Layout, DigitsOf, SignedArg, UnsignedArg, IntegerFlags;
    IntegerFlagsMembers(c, f);
    var v := if IsSigned(c) then SignedArg(f, w) else UnsignedArg(f, w);
    IntegerLayout(v, c, IntegerFlags(c, f), width, prec);
  }

  /** An integer directive prints its argument: cut to the type of the length modifier, in the base and
  case of the conversion, with the sign, zeros and spaces its flags, width and precision ask for. */
  lemma IntegerDirective(flags: string, wd: Written, p: Written, mods: string, c: char, tail: string, w: Word, args: seq<Arg>)
    requires WellFormed(flags, wd, p, mods, c) && IsInteger(c) && ('#' in flags ==> BaseOf(c) == 10)
    ensures var v := if IsSigned(c) then ReadSigned(mods, w) else ReadUnsigned(mods, w);
            Render(Format(flags, wd, p, mods, c, tail), [Slot(w)] + args) ==
            Prepend(
              Layout(SignOf(c, v, '+' in flags, ' ' in flags), DigitsOf(c, v, !p.Absent?), Number(wd), Number(p),
                     '-' in flags, '0' in flags && p.Absent?),
              Render(tail, args))
  {
    hide Format, IntegerField, Layout, DigitsOf, SignOf, Render, WrittenFlags, SignedArg, UnsignedArg, ReadSigned, ReadUnsigned;
    var f, all := WrittenFlags(flags, p, mods), [Slot(w)] + args;
    RendersAsWritten(flags, wd, p, mods, c, tail, all);
    FlagMembers(flags, p, mods);
    ReadsAsWritten(flags, p, mods, w);
    IntegerFieldLayout(c, f, Number(wd), Number(p), w);
    assert all[0] == Slot(w) && all[1..] == args;
  }

  /** `%` with any length modifier and `d` or `i`: the text denotes the argument as its type reads it, and
  starts with a minus sign exactly if it is negative. */
  lemma SignedConversionDenotes(mods: string, c: char, w: Word)
    requires IsModifier(mods) && IsSigned(c)
    ensures var r := Render("%" + mods + [c], [Slot(w)]);
            && r.Some? && r.value.1 == [] && r.value.0 != ""
            && SignedValue(r.value.0) == ReadSigned(mods, w)
            && (r.value.0[0] == '-' <==> ReadSigned(mods, w) < 0)
  {
    hide Render, Format, Layout, Numeral, Value, SignedValue, ReadSigned;
    var v := ReadSigned(mods, w);
    IntegerDirective("", Absent, Absent, mods, c, "", w, []);
    PlainFormat(mods, c);
    assert [Slot(w)] + [] == [Slot(w)];
    NumeralDenotes(Magnitude(v), 10, false);
    DecDenotes(Magnitude(v));
    PlainLayout(if v < 0 then "-" else "", Dec(Magnitude(v)));
    RenderOfNothing((if v < 0 then "-" else "") + Dec(Magnitude(v)));
    SignedTextDenotes(v, Dec(Magnitude(v)));
  }

  lemma PlainFormat(mods: string, c: char)
    ensures Format("", Absent, Absent, mods, c, "") == "%" + mods + [c]
  {
    assert "" + ("" + ("" + (mods + ([c] + "")))) == mods + [c];
    assert "%" + (mods + [c]) == "%" + mods + [c];
  }

  lemma PlainLayout(sign: string, digits: string)
    requires |sign| <= 1 && |sign| + |digits| <= ROOM
    ensures Layout(sign, digits, 0, 0, false, false) == sign + digits
  {
    hide Rep;
    assert Rep(' ', 0) == "" == Rep('0', 0);
    assert "" + sign + "" + digits + "" == sign + digits;
  }

  lemma RenderOfNothing(text: string)
    ensures Prepend(text, Render("", [])) == Some((text, []))
  {
    assert text + "" == text;
  }

  /** In particular `%d` and `%i` print a 32-bit signed integer: its value, with a minus sign exactly if
  it is negative. */
  lemma DecimalRoundTrip(w: Word)
    ensures var d := Render("%d", [Slot(w)]);
            && d.Some? && d.value.1 == [] && d.value.0 != ""
            && SignedValue(d.value.0) == Signed32(w) && (d.value.0[0] == '-' <==> Signed32(w) < 0)
    ensures var i := Render("%i", [Slot(w)]);
            && i.Some? && i.value.1 == [] && i.value.0 != ""
            && SignedValue(i.value.0) == Signed32(w) && (i.value.0[0] == '-' <==> Signed32(w) < 0)
  {
    hide Render, SignedValue, Signed32, ReadSigned;
    SignedConversionDenotes("", 'd', w);
    SignedConversionDenotes("", 'i', w);
    assert "%" + "" + ['d'] == "%d" && "%" + "" + ['i'] == "%i";
    IntIsSigned32(w);
  }

  lemma IntIsSigned32(w: Word)
    ensures ReadSigned("", w) == Signed32(w)
  {
  }

  /** `%` with any length modifier and an unsigned conversion: canonical digits of the base, in the case
  of the conversion, denoting the argument as its type reads it, `%b` as far as 32 places go. */
  lemma UnsignedConversionDenotes(mods: string, c: char, w: Word)
    requires IsModifier(mods) && IsInteger(c) && !IsSigned(c)
    ensures var r, v := Render("%" + mods + [c], [Slot(w)]), ReadUnsigned(mods, w);
            && r.Some? && r.value.1 == []
            && AllDigits(r.value.0, BaseOf(c)) && Cased(r.value.0, c == 'X')
            && Value(r.value.0, BaseOf(c)) == (if c == 'b' then v % TWO32 else v)
            && (v == 0 ==> r.value.0 == "0")
            && (v != 0 && (c == 'b' ==> v < TWO32) ==> r.value.0 != "" && r.value.0[0] != '0')
  {
    hide Render, Format, Layout, Numeral, Value, ReadUnsigned, DigitValue;
    var v := ReadUnsigned(mods, w);
    IntegerDirective("", Absent, Absent, mods, c, "", w, []);
    PlainFormat(mods, c);
    assert [Slot(w)] + [] == [Slot(w)];
    var t := Numeral(v, BaseOf(c), c == 'X');
    NumeralDenotes(v, BaseOf(c), c == 'X');
    PlainLayout("", t);
    assert "" + t == t;
    RenderOfNothing(t);
  }

  // ---------- the alternate form ----------

  /** With `#` and no width, hexadecimal, octal and binary conversions print the prefix in the case of the
  conversion before the digits, and no prefix for zero; binary ones as far as both fit 32 places. */
  lemma AlternateDirective(mods: string, c: char, tail: string, w: Word, args: seq<Arg>)
    requires IsModifier(mods) && (c == 'x' || c == 'X' || c == 'o' || c == 'b')
    requires c == 'b' ==> ReadUnsigned(mods, w) < 0x4000_0000
    ensures var v := ReadUnsigned(mods, w);
            Render(Format("#", Absent, Absent, mods, c, tail), [Slot(w)] + args) ==
            Prepend((if v == 0 then "" else Prefix(BaseOf(c), c == 'X')) + Numeral(v, BaseOf(c), c == 'X'), Render(tail, args))
  {
    hide Render, Format, IntegerField, Numeral, WrittenFlags, UnsignedArg, ReadUnsigned, Prefix;
    var f, all := WrittenFlags("#", Absent, mods), [Slot(w)] + args;
    RendersAsWritten("#", Absent, Absent, mods, c, tail, all);
    FlagMembers("#", Absent, mods);
    ReadsAsWritten("#", Absent, mods, w);
    AlternateField(c, f, w);
    assert all[0] == Slot(w) && all[1..] == args;
  }

  lemma AlternateField(c: char, f: Flags, w: Word)
    requires c == 'x' || c == 'X' || c == 'o' || c == 'b'
    requires Hash in f && Precision !in f && Left !in f && ZeroPad !in f && Upper !in f
    requires c == 'b' ==> UnsignedArg(f, w) < 0x4000_0000
    ensures var v := UnsignedArg(f, w);
            IntegerField(c, f, 0, 0, w) ==
            (if v == 0 then "" else Prefix(BaseOf(c), c == 'X')) + Numeral(v, BaseOf(c), c == 'X')
  {
    hide Field, DigitsRev, Reversed, IntegerFlags, UnsignedArg, Layout, Prefix, Integer;
    var g, v, base := IntegerFlags(c, f), UnsignedArg(f, w), BaseOf(c);
    IntegerFlagsMembers(c, f);
    if v == 0 {
      ZeroLosesHash(base, g);
      IntegerLayout(0, c, g - {Hash}, 0, 0);
      NumeralDenotes(0, base, c == 'X');
      PlainLayout("", Numeral(0, base, c == 'X'));
    } else {
      PlainAlternate(v, base, g);
    }
  }

  lemma ZeroLosesHash(base: nat, g: Flags)
    requires 2 <= base <= 16
    ensures Integer(0, false, base, 0, 0, g) == Integer(0, false, base, 0, 0, g - {Hash})
  {
    assert g - {Hash} - {Hash} == g - {Hash};
  }

  lemma PlainAlternate(v: Word, base: nat, g: Flags)
    requires base == 2 || base == 8 || base == 16
    requires v != 0 && (base == 2 ==> v < 0x4000_0000)
    requires Hash in g && Precision !in g && Left !in g && ZeroPad !in g && Plus !in g && Space !in g
    ensures Integer(v, false, base, 0, 0, g) == Prefix(base, Upper in g) + Numeral(v, base, Upper in g)
  {
    hide Integer, DigitsRev, Reversed, Rep, AlternateDigits, Prefix, DigitValue, Value;
    PrefixLength(base, Upper in g);
    var r := DigitsRev(v, base, Upper in g, ROOM);
    NumeralDenotes(v, base, Upper in g);
    if base == 2 {
      ThirtyBits(v, Upper in g);
    }
    PlainAlternateDigits(v, base, g);
    AlternateShape(v, false, base, 0, g);
    NothingAround("", Prefix(base, Upper in g), Reversed(r));
    assert Rep(' ', 0) == "";
  }

  lemma PrefixLength(base: nat, upper: bool)
    ensures |Prefix(base, upper)| <= 2
  {
  }

  lemma PlainAlternateDigits(v: Word, base: nat, g: Flags)
    requires 2 <= base <= 16 && v != 0 && Precision !in g && Left !in g && ZeroPad !in g
    ensures AlternateDigits(v, false, base, 0, g) == Reversed(DigitsRev(v, base, Upper in g, ROOM))
  {
    hide DigitsRev, Reversed;
    var r := DigitsRev(v, base, Upper in g, ROOM);
    assert Rep('0', 0) == "" && r + "" == r && r[..|r|] == r;
  }

  lemma ThirtyBits(v: Word, upper: bool)
    requires v < 0x4000_0000
    ensures |DigitsRev(v, 2, upper, 32)| <= 30
  {
    assert Pow(2, 30) == 2 * (2 * Pow(2, 28)) by {
      assert Pow(2, 30) == 2 * Pow(2, 29);
    }
    PowFour(2, 0);
    PowFour(2, 4);
    PowFour(2, 8);
    PowFour(2, 12);
    PowFour(2, 16);
    PowFour(2, 20);
    PowFour(2, 24);
    DigitCount(v, 2, upper, 32, 30);
  }

  // ---------- pointers ----------

  /** `%p` prints upper-case hexadecimal digits, zero-padded to 16 places whatever its width and even
  with a precision; a sign flag takes one of the places. */
  lemma PointerDirective(flags: string, wd: Written, p: Written, mods: string, tail: string, w: Word, args: seq<Arg>)
    requires WellFormed(flags, wd, p, mods, 'p') && '#' !in flags
    ensures Render(Format(flags, wd, p, mods, 'p', tail), [Slot(w)] + args) ==
            Prepend(
              Layout(if '+' in flags then "+" else if ' ' in flags then " " else "",
                     if !p.Absent? && w == 0 then "" else Numeral(w, 16, true), 16, Number(p), '-' in flags, true),
              Render(tail, args))
  {
    hide Render, Format, Numeral, WrittenFlags, Layout, Integer;
    var f, all := WrittenFlags(flags, p, mods), [Slot(w)] + args;
    RendersAsWritten(flags, wd, p, mods, 'p', tail, all);
    FlagMembers(flags, p, mods);
    PointerLayout(f, Number(p), w);
    assert all[0] == Slot(w) && all[1..] == args;
  }

  lemma PointerLayout(f: Flags, prec: nat, w: Word)
    requires Hash !in f
    ensures PointerField(f, prec, w) ==
            Layout(if Plus in f then "+" else if Space in f then " " else "",
                   if Precision in f && w == 0 then "" else Numeral(w, 16, true), 16, prec, Left in f, true)
  {
    hide Field, DigitsRev, Reversed, Layout;
    var g := f + {ZeroPad, Upper};
    assert g - {Hash} == g;
    NothingReversed();
    FieldLayout(Scratch(w, 16, g), false, 16, prec, 16, g);
  }

  // ---------- strings and characters ----------

  /** Text in a field: spaces up to the width, before it or, when left-justified, behind it. */
  function Spaced(text: string, width: nat, left: bool): string {
    var spaces := Rep(' ', if |text| < width then width - |text| else 0);
    if left then text + spaces else spaces + text
  }

  /** The first `p` characters, or all of them if there is no precision. */
  function Limited(s: string, p: Written): string {
    if p.Absent? || |s| <= Number(p) then s else s[..Number(p)]
  }

  /** `%s` prints the string up to its precision, spaced to its width, exactly if the length it counts in
  an `unsigned int` is the real one or makes no difference. */
  lemma TextFieldExactlyWhen(f: Flags, width: nat, p: Written, s: CString)
    requires width < TWO32 && (Precision in f <==> !p.Absent?)
    ensures TextField(f, width, Number(p), s) == Spaced(Limited(s, p), width, Left in f)
            <==> (!p.Absent? || |s| < TWO32 || width <= |s| % TWO32)
  {
    hide Rep;
  }

  lemma TextDirective(flags: string, wd: Written, p: Written, mods: string, tail: string, s: CString, args: seq<Arg>)
    requires WellFormed(flags, wd, p, mods, 's')
    requires !p.Absent? || |s| < TWO32 || Number(wd) <= |s| % TWO32
    ensures Render(Format(flags, wd, p, mods, 's', tail), [Text(s)] + args) ==
            Prepend(Spaced(Limited(s, p), Number(wd), '-' in flags), Render(tail, args))
  {
    hide Render, Format, WrittenFlags, Spaced, TextField, Limited;
    var f, all := WrittenFlags(flags, p, mods), [Text(s)] + args;
    RendersAsWritten(flags, wd, p, mods, 's', tail, all);
    FlagMembers(flags, p, mods);
    TextFieldExactlyWhen(f, Number(wd), p, s);
    assert all[0] == Text(s) && all[1..] == args;
  }

  /** `%s` prints every string as it is. */
  lemma StringRendersAsItself(s: CString)
    ensures Render("%s", [Text(s)]) == Some((s, []))
  {
    hide Render, Format;
    TextDirective("", Absent, Absent, "", "", s, []);
    PlainFormat("", 's');
    assert "%" + "" + ['s'] == "%s" && [Text(s)] + [] == [Text(s)];
    assert Rep(' ', 0) + s == s;
    RenderOfNothing(s);
  }

  /** `%c` prints the low byte of its argument as one character, spaced to the width. */
  lemma CharDirective(flags: string, wd: Written, p: Written, mods: string, tail: string, w: Word, args: seq<Arg>)
    requires WellFormed(flags, wd, p, mods, 'c')
    ensures Render(Format(flags, wd, p, mods, 'c', tail), [Slot(w)] + args) ==
            Prepend(Spaced([(w % 0x100) as char], Number(wd), '-' in flags), Render(tail, args))
  {
    hide Render, Format, WrittenFlags, Rep;
    var f, all := WrittenFlags(flags, p, mods), [Slot(w)] + args;
    RendersAsWritten(flags, wd, p, mods, 'c', tail, all);
    FlagMembers(flags, p, mods);
    assert all[0] == Slot(w) && all[1..] == args;
  }

  /** A percent sign, or a character that is no conversion, prints itself and takes no argument. */
  lemma OtherDirective(flags: string, wd: Written, p: Written, mods: string, c: char, tail: string, args: seq<Arg>)
    requires WellFormed(flags, wd, p, mods, c)
    requires !IsInteger(c) && !IsFloating(c) && c != 'c' && c != 's' && c != 'p'
    ensures Render(Format(flags, wd, p, mods, c, tail), args) == Prepend([c], Render(tail, args))
  {
    hide Render, Format, WrittenFlags;
    RendersAsWritten(flags, wd, p, mods, c, tail, args);
  }

  // ---------- star width and precision ----------

  /** A star width of zero means no width. */
  lemma StarZeroMeansAbsent(flags: string, p: Written, mods: string, c: char, tail: string, w: Word, args: seq<Arg>)
    requires WellFormed(flags, Absent, p, mods, c) && Signed32(w) == 0
    ensures var rest := PrecisionText(p) + (mods + ([c] + tail));
            Render("%" + (flags + ("*" + rest)), [Slot(w)] + args) ==
            Render(Format(flags, Absent, p, mods, c, tail), args)
  {
    hide Render, Format, Signed32, FlagSet, ParseFlags, ParseWidth, ParsePrecision, ParseLength, Dec, ModifierSet, IsDigit, IsLength, PrecisionText;
    var rest3 := mods + ([c] + tail);
    var rest := PrecisionText(p) + rest3;
    var f, all := FlagSet(flags), [Slot(w)] + args;
    LengthStage(f, mods, [c] + tail);
    PrecisionStage(f, 0, p, rest3, args);
    PointIsNoDigit();
    WidthStage(f, Absent, rest, args);
    FlagStage(flags, "" + rest);
    StarParses(flags, w, rest, args);
    FlagsAreASet(flags, {});
    assert {} + f == f && "" + rest == rest;
    DirectiveFromWidth(flags + ("*" + rest), all, flags + rest, args);
    RenderOfDirective(flags + ("*" + rest), all);
    RenderOfDirective(flags + rest, args);
    FormatWithoutWidth(flags, p, mods, c, tail);
  }

  lemma FormatWithoutWidth(flags: string, p: Written, mods: string, c: char, tail: string)
    ensures Format(flags, Absent, p, mods, c, tail) == "%" + (flags + (PrecisionText(p) + (mods + ([c] + tail))))
  {
    hide PrecisionText;
    var rest := PrecisionText(p) + (mods + ([c] + tail));
    assert "" + rest == rest;
  }

  /** `.*` means the same as the decimal text of its argument, or as a lone point if that is not positive. */
  lemma StarPrecisionMeansLiteral(flags: string, wd: Written, mods: string, c: char, tail: string, w: Word, args: seq<Arg>)
    requires WellFormed(flags, wd, Absent, mods, c)
    ensures var n := Signed32(w);
            var rest := mods + ([c] + tail);
            Render("%" + (flags + (WidthText(wd) + (".*" + rest))), [Slot(w)] + args) ==
            Render(Format(flags, wd, if n > 0 then Literal(n) else Bare, mods, c, tail), args)
  {
    hide Render, Format, Signed32, FlagSet, ParseFlags, ParseWidth, ParsePrecision, ParseLength, WidthText, Dec, ModifierSet, IsDigit, IsLength;
    var n := Signed32(w);
    var p := if n > 0 then Literal(n) else Bare;
    SignedBelow(w);
    var rest := mods + ([c] + tail);
    var all, rest2 := [Slot(w)] + args, ".*" + rest;
    var f := FlagSet(flags);
    LengthStage(f + {Precision}, mods, [c] + tail);
    StarPrecision(f, Number(wd), w, rest, args);
    PointIsNoDigit();
    WidthStage(f, wd, rest2, all);
    FlagStage(flags, WidthText(wd) + rest2);
    var s := flags + (WidthText(wd) + rest2);
    ParsesAsWritten(flags, wd, p, mods, c, tail, args);
    FormatStarts(flags, wd, p, mods, c, tail);
    var t := Format(flags, wd, p, mods, c, tail)[1..];
    assert ParseSpec(s, all) == ParseSpec(t, args);
    SameSpecSameDirective(s, all, t, args);
    RenderOfDirective(s, all);
    RenderOfDirective(t, args);
  }

  lemma FormatStarts(flags: string, wd: Written, p: Written, mods: string, c: char, tail: string)
    ensures var s := Format(flags, wd, p, mods, c, tail); s != "" && s == "%" + s[1..]
  {
  }

  lemma SignedBelow(w: Word)
    ensures Signed32(w) < TWO32
  {
  }

  lemma SameSpecSameDirective(s: string, a: seq<Arg>, t: string, b: seq<Arg>)
    requires ParseSpec(s, a) == ParseSpec(t, b)
    ensures Directive(s, a) == Directive(t, b)
  {
    hide ParseSpec, Convert;
  }

  lemma StarPrecision(f: Flags, width: nat, w: Word, rest: string, args: seq<Arg>)
    ensures var n := Signed32(w);
            ParsePrecision(Spec(f, width, 0, ".*" + rest, [Slot(w)] + args)) ==
            Some(Spec(f + {Precision}, width, if n > 0 then n else 0, rest, args))
  {
    hide Signed32, ParseNumber;
    assert (".*" + rest)[1..] == "*" + rest && ("*" + rest)[1..] == rest && ([Slot(w)] + args)[1..] == args;
  }
}
