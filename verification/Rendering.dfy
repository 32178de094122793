/** What a format and its arguments print, as a function: the meaning of `_vsnprintf` in
src/printf.c. A format is read from the front; the end of the string stands for its NUL.

Rendering has no value where the program has no defined or modelled behaviour: a format that ends
inside a directive, an argument that is missing or of the wrong kind, and floating-point
conversions. */
module Rendering {
  import opened Options
  import opened Words
  import opened Digits
  import opened Sinks
  import opened Ntoa

  /** The characters of a C string before its NUL; it fits a 64-bit address space. */
  type CString = s: string | |s| < TWO64 && forall i :: 0 <= i < |s| ==> s[i] != NUL witness ""

  /** A variadic argument: a 64-bit slot, or a pointer to a string. */
  datatype Arg = Slot(w: Word) | Text(s: CString)

  /** A directive while it is parsed: its flags, width and precision so far, and what is left of the
  format and of the arguments. */
  datatype Spec = Spec(f: Flags, width: nat, prec: nat, rest: string, args: seq<Arg>)

  // ---------- parsing a directive ----------

  function WithFlag(f: Flags, c: char): Option<Flags> {
    match c
    case '0' => Some(f + {ZeroPad})
    case '-' => Some(f + {Left})
    case '+' => Some(f + {Plus})
    case ' ' => Some(f + {Space})
    case '#' => Some(f + {Hash})
    case _ => None
  }

  function ParseFlags(s: string, f: Flags): (r: (Flags, string))
    ensures |r.1| <= |s| && r.1 == s[|s| - |r.1|..]
  {
    if s == "" || WithFlag(f, s[0]).None? then (f, s) else ParseFlags(s[1..], WithFlag(f, s[0]).value)
  }

  lemma FlagsUnfold(s: string, f: Flags)
    ensures s == "" || WithFlag(f, s[0]).None? ==> ParseFlags(s, f) == (f, s)
    ensures s != "" && WithFlag(f, s[0]).Some? ==> ParseFlags(s, f) == ParseFlags(s[1..], WithFlag(f, s[0]).value)
  {
    hide WithFlag;
  }

  /** What follows a number in a format does not continue it. */
  predicate EndsNumber(s: string) {
    s == "" || !IsDigit(s[0])
  }

  /** `_atoi`, continuing from `acc`: decimal digits, modulo 2^32. */
  function ParseNumber(s: string, acc: nat): (r: (nat, string))
    ensures |r.1| <= |s| && r.1 == s[|s| - |r.1|..]
  {
    if EndsNumber(s) then (acc, s)
    else ParseNumber(s[1..], Wrap32(acc * 10 + DigitValue(s[0])))
  }

  lemma NumberUnfolds(s: string, acc: nat)
    ensures EndsNumber(s) ==> ParseNumber(s, acc) == (acc, s)
    ensures !EndsNumber(s) ==>
            ParseNumber(s, acc) == ParseNumber(s[1..], Wrap32(acc * 10 + DigitValue(s[0])))
  {
    hide Wrap32, DigitValue;
  }

  /** The next argument read as an `int`, or a pointer-sized integer. */
  function NextSlot(args: seq<Arg>): Option<Word> {
    if args == [] || args[0].Text? then None else Some(args[0].w)
  }

  function Starts(s: string, c: char): bool {
    s != "" && s[0] == c
  }

  /** A width from `*`: negative means left-justified. */
  function StarWidth(p: Spec, w: int): Spec {
    if w < 0 then p.(f := p.f + {Left}, width := -w) else p.(width := w)
  }

  function ParseWidth(p: Spec): (r: Option<Spec>)
    ensures r.Some? ==> |r.value.rest| <= |p.rest|
  {
    if p.rest != "" && IsDigit(p.rest[0]) then
      var (n, rest) := ParseNumber(p.rest, 0);
      Some(p.(width := n, rest := rest))
    else if Starts(p.rest, '*') then
      match NextSlot(p.args)
      case None => None
      case Some(w) => Some(StarWidth(p, Signed32(w)).(rest := p.rest[1..], args := p.args[1..]))
    else Some(p)
  }

  function ParsePrecision(p: Spec): (r: Option<Spec>)
    ensures r.Some? ==> |r.value.rest| <= |p.rest|
  {
    if !Starts(p.rest, '.') then Some(p) else
      var q := p.(f := p.f + {Precision}, rest := p.rest[1..]);
      if q.rest != "" && IsDigit(q.rest[0]) then
        var (n, rest) := ParseNumber(q.rest, 0);
        Some(q.(prec := n, rest := rest))
      else if Starts(q.rest, '*') then
        match NextSlot(q.args)
        case None => None
        case Some(w) =>
          Some(q.(prec := if Signed32(w) > 0 then Signed32(w) else 0, rest := q.rest[1..], args := q.args[1..]))
      else Some(q)
  }

  /** Length modifiers; `t`, `j` and `z` are the size of a long on a 64-bit target. */
  predicate IsLength(c: char) {
    c == 'l' || c == 'h' || c == 't' || c == 'j' || c == 'z'
  }

  function WithLength(f: Flags, c: char, twice: bool): Flags {
    if c == 'h' then f + (if twice then {Short, Char} else {Short})
    else f + if twice then {Long, LongLong} else {Long}
  }

  function ParseLength(f: Flags, s: string): (r: (Flags, string))
    ensures |r.1| <= |s|
  {
    if s == "" || !IsLength(s[0]) then (f, s) else
      var twice := (s[0] == 'l' || s[0] == 'h') && Starts(s[1..], s[0]);
      (WithLength(f, s[0], twice), if twice then s[2..] else s[1..])
  }

  // ---------- conversions ----------

  predicate IsInteger(c: char) {
    c == 'd' || c == 'i' || c == 'u' || c == 'x' || c == 'X' || c == 'o' || c == 'b'
  }

  predicate IsFloating(c: char) {
    c == 'f' || c == 'F' || c == 'e' || c == 'E' || c == 'g' || c == 'G'
  }

  predicate IsSigned(c: char) {
    c == 'd' || c == 'i'
  }

  function BaseOf(c: char): (b: nat)
    ensures 2 <= b <= 16
  {
    if c == 'x' || c == 'X' then 16 else if c == 'o' then 8 else if c == 'b' then 2 else 10
  }

  /** No `#` for decimals, upper case for `X`, no sign flags for unsigned conversions, no zero padding
  with a precision. */
  function IntegerFlags(c: char, f: Flags): Flags {
    var f1 := if BaseOf(c) == 10 then f - {Hash} else f;
    var f2 := if c == 'X' then f1 + {Upper} else f1;
    var f3 := if IsSigned(c) then f2 else f2 - {Plus, Space};
    if Precision in f3 then f3 - {ZeroPad} else f3
  }

  /** The argument as the length modifier says to read it; a plain `char` is unsigned on RISC-V. */
  function SignedArg(f: Flags, w: Word): (v: int)
    ensures -0x8000_0000_0000_0000 <= v < 0x8000_0000_0000_0000
  {
    if LongLong in f || Long in f then Signed64(w)
    else if Char in f then w % 256
    else if Short in f then (if w % 65536 < 32768 then w % 65536 else w % 65536 - 65536)
    else Signed32(w)
  }

  function UnsignedArg(f: Flags, w: Word): Word {
    if LongLong in f || Long in f then w
    else if Char in f then w % 256
    else if Short in f then w % 65536
    else Wrap32(w)
  }

  function Magnitude(v: int): nat {
    if v > 0 then v else 0 - v
  }

  function IntegerField(c: char, f: Flags, width: nat, prec: nat, w: Word): string {
    var g := IntegerFlags(c, f);
    if IsSigned(c) then
      Integer(Magnitude(SignedArg(f, w)), SignedArg(f, w) < 0, 10, prec, width, g)
    else
      Integer(UnsignedArg(f, w), false, BaseOf(c), prec, width, g)
  }

  /** `width` less the n characters already counted, before or after. */
  function Justified(s: string, n: nat, width: nat, left: bool): string {
    if left then s + Rep(' ', Less(n, width)) else Rep(' ', Less(n, width)) + s
  }

  function CharField(f: Flags, width: nat, w: Word): string {
    Justified([(w % 256) as char], 1, width, Left in f)
  }

  function Shown(f: Flags, prec: nat, s: string): string {
    if Precision in f && prec < |s| then s[..prec] else s
  }

  /** The string's length is counted in an `unsigned int`. */
  function TextField(f: Flags, width: nat, prec: nat, s: string): string {
    Justified(Shown(f, prec, s), if Precision in f then |Shown(f, prec, s)| else Wrap32(|s|), width, Left in f)
  }

  function PointerField(f: Flags, prec: nat, w: Word): string {
    Integer(w, false, 16, prec, 16, f + {ZeroPad, Upper})
  }

  /** What the conversion character prints and the arguments it leaves. */
  function Convert(c: char, p: Spec): Option<(string, seq<Arg>)> {
    if c == '%' || (!IsInteger(c) && !IsFloating(c) && c != 'c' && c != 's' && c != 'p') then Some(([c], p.args))
    else if IsFloating(c) || p.args == [] then None
    else match p.args[0]
      case Text(s) => if c == 's' then Some((TextField(p.f, p.width, p.prec, s), p.args[1..])) else None
      case Slot(w) =>
        if c == 's' then None
        else if c == 'c' then Some((CharField(p.f, p.width, w), p.args[1..]))
        else if c == 'p' then Some((PointerField(p.f, p.prec, w), p.args[1..]))
        else Some((IntegerField(c, p.f, p.width, p.prec, w), p.args[1..]))
  }

  // ---------- formats ----------

  /** Flags, width, precision and length modifier, after the `%`. */
  function ParseSpec(s: string, args: seq<Arg>): (r: Option<Spec>)
    ensures r.Some? ==> |r.value.rest| <= |s|
  {
    var (f, rest) := ParseFlags(s, {});
    match ParseWidth(Spec(f, 0, 0, rest, args))
    case None => None
    case Some(p) =>
      match ParsePrecision(p)
      case None => None
      case Some(q) =>
        var (g, rest) := ParseLength(q.f, q.rest);
        Some(q.(f := g, rest := rest))
  }

  /** A whole directive: what it prints, the rest of the format and of the arguments. */
  function Directive(s: string, args: seq<Arg>): (r: Option<(string, string, seq<Arg>)>)
    ensures r.Some? ==> |r.value.1| < |s|
  {
    match ParseSpec(s, args)
    case None => None
    case Some(p) =>
      if p.rest == "" then None
      else match Convert(p.rest[0], p)
        case None => None
        case Some((text, args')) => Some((text, p.rest[1..], args'))
  }

  /** `text` in front of a rendering. */
  function Prepend(text: string, r: Option<(string, seq<Arg>)>): Option<(string, seq<Arg>)> {
    match r
    case None => None
    case Some((t, args)) => Some((text + t, args))
  }

  /** The text a format prints and the arguments it leaves. */
  function Render(s: string, args: seq<Arg>): Option<(string, seq<Arg>)>
    decreases |s|
  {
    if s == "" then Some(("", args))
    else if s[0] != '%' then Prepend([s[0]], Render(s[1..], args))
    else match Directive(s[1..], args)
      case None => None
      case Some((text, rest, args')) => Prepend(text, Render(rest, args'))
  }

  lemma Associate(a: string, b: string, r: Option<(string, seq<Arg>)>)
    ensures Prepend(a, Prepend(b, r)) == Prepend(a + b, r)
    ensures Prepend("", r) == r
  {
    if r.Some? {
      assert a + (b + r.value.0) == (a + b) + r.value.0;
      assert "" + r.value.0 == r.value.0;
    }
  }

  lemma RenderStep(s: string, args: seq<Arg>)
    ensures s == "" ==> Render(s, args) == Some(("", args))
    ensures s != "" && s[0] != '%' ==> Render(s, args) == Prepend([s[0]], Render(s[1..], args))
    ensures s != "" && s[0] == '%' && Render(s, args).Some? ==>
            Directive(s[1..], args).Some? &&
            var d := Directive(s[1..], args).value; Render(s, args) == Prepend(d.0, Render(d.1, d.2))
  {
  }
}
