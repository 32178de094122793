/** `_vsnprintf` of src/printf.c and its callers, as the program runs: an index moves over the format
while characters go to a sink. Every step is proved against the renderer. */
module Printf {
  import opened Options
  import opened Words
  import opened Digits
  import opened Sinks
  import opened Ntoa
  import opened Rendering

  /** `*format`. */
  function At(format: CString, i: nat): char
    requires i <= |format|
  {
    if i < |format| then format[i] else NUL
  }

  // ---------- parsing ----------

  lemma Suffix(s: string, i: nat)
    requires i < |s|
    ensures s[i..] != "" && s[i..][0] == s[i] && s[i..][1..] == s[i + 1..]
    ensures i + 1 < |s| ==> s[i..][2..] == s[i + 2..]
  {
  }

  /** What the flag parser does at one position. */
  lemma FlagAt(s: CString, i: nat, f: Flags)
    requires i <= |s|
    ensures At(s, i) in "0-+ #" <==> i < |s| && WithFlag(f, s[i]).Some?
    ensures i < |s| && WithFlag(f, s[i]).Some? ==>
            ParseFlags(s[i..], f) == ParseFlags(s[i + 1..], WithFlag(f, s[i]).value)
  {
    if i < |s| {
      Suffix(s, i);
    }
  }

  method EvaluateFlags(format: CString, i0: nat) returns (i: nat, f: Flags)
    requires i0 <= |format|
    ensures i0 <= i <= |format| && (f, format[i..]) == ParseFlags(format[i0..], {})
  {
    hide ParseFlags;
    i, f := i0, {};
    var n := true;
    while n
      invariant i0 <= i <= |format|
      invariant ParseFlags(format[i..], f) == ParseFlags(format[i0..], {})
      invariant !n ==> i == |format| || WithFlag(f, format[i]).None?
      decreases |format| - i, n
    {
      FlagAt(format, i, f);
      match At(format, i)
      case '0' => f, i := f + {ZeroPad}, i + 1;
      case '-' => f, i := f + {Left}, i + 1;
      case '+' => f, i := f + {Plus}, i + 1;
      case ' ' => f, i := f + {Space}, i + 1;
      case '#' => f, i := f + {Hash}, i + 1;
      case _ => n := false;
    }
    FlagsUnfold(format[i..], f);
  }

  /** `_atoi`: advances the index over the digits it reads. */
  method Atoi(format: CString, i0: nat) returns (v: nat, i: nat)
    requires i0 <= |format|
    ensures i0 <= i <= |format| && (v, format[i..]) == ParseNumber(format[i0..], 0)
  {
    hide ParseNumber, Wrap32, DigitValue;
    v, i := 0, i0;
    while IsDigit(At(format, i))
      invariant i0 <= i <= |format|
      invariant ParseNumber(format[i..], v) == ParseNumber(format[i0..], 0)
      decreases |format| - i
    {
      NumberStep(format, i, v);
      v := Wrap32(v * 10 + DigitValue(format[i]));
      i := i + 1;
    }
    NumberStep(format, i, v);
  }

  lemma NumberStep(s: CString, i: nat, acc: nat)
    requires i <= |s|
    ensures !IsDigit(At(s, i)) ==> ParseNumber(s[i..], acc) == (acc, s[i..])
    ensures IsDigit(At(s, i)) ==>
            i < |s| && ParseNumber(s[i..], acc) == ParseNumber(s[i + 1..], Wrap32(acc * 10 + DigitValue(s[i])))
  {
    hide Wrap32, DigitValue;
    if i < |s| {
      Suffix(s, i);
    }
  }

  method EvaluateWidth(format: CString, i0: nat, f0: Flags, args0: seq<Arg>)
    returns (i: nat, f: Flags, width: nat, args: seq<Arg>)
    requires i0 <= |format| && ParseWidth(Spec(f0, 0, 0, format[i0..], args0)).Some?
    ensures i0 <= i <= |format|
    ensures ParseWidth(Spec(f0, 0, 0, format[i0..], args0)) == Some(Spec(f, width, 0, format[i..], args))
  {
    hide ParseNumber, Signed32;
    i, f, width, args := i0, f0, 0, args0;
    if i < |format| {
      Suffix(format, i);
    }
    if IsDigit(At(format, i)) {
      width, i := Atoi(format, i);
    } else if At(format, i) == '*' {
      var w := Signed32(args[0].w);
      args := args[1..];
      if w < 0 {
        f := f + {Left}; // reverse padding
        width := -w;
      } else {
        width := w;
      }
      i := i + 1;
    }
  }

  method EvaluatePrecision(format: CString, i0: nat, f0: Flags, width: nat, args0: seq<Arg>)
    returns (i: nat, f: Flags, prec: nat, args: seq<Arg>)
    requires i0 <= |format| && ParsePrecision(Spec(f0, width, 0, format[i0..], args0)).Some?
    ensures i0 <= i <= |format|
    ensures ParsePrecision(Spec(f0, width, 0, format[i0..], args0)) == Some(Spec(f, width, prec, format[i..], args))
  {
    hide ParseNumber, Signed32;
    i, f, prec, args := i0, f0, 0, args0;
    if At(format, i) == '.' {
      f := f + {Precision};
      i := i + 1;
      if IsDigit(At(format, i)) {
        prec, i := Atoi(format, i);
      } else if At(format, i) == '*' {
        var p := Signed32(args[0].w);
        args := args[1..];
        prec := if p > 0 then p else 0;
        i := i + 1;
      }
    }
  }

  lemma LengthAt(s: CString, i: nat, f: Flags)
    requires i <= |s|
    ensures !IsLength(At(s, i)) ==> ParseLength(f, s[i..]) == (f, s[i..])
    ensures IsLength(At(s, i)) ==>
            var twice := (s[i] == 'l' || s[i] == 'h') && At(s, i + 1) == s[i];
            ParseLength(f, s[i..]) == (WithLength(f, s[i], twice), s[if twice then i + 2 else i + 1..])
  {
    if i < |s| {
      Suffix(s, i);
    }
  }

  method EvaluateLength(format: CString, i0: nat, f0: Flags) returns (i: nat, f: Flags)
    requires i0 <= |format|
    ensures i0 <= i <= |format| && (f, format[i..]) == ParseLength(f0, format[i0..])
  {
    hide ParseLength;
    i, f := i0, f0;
    LengthAt(format, i, f);
    match At(format, i)
    case 'l' =>
      i := i + 1;
      if At(format, i) == 'l' {
        f := f + {Long, LongLong};
        i := i + 1;
      } else {
        f := f + {Long};
      }
    case 'h' =>
      i := i + 1;
      if At(format, i) == 'h' {
        f := f + {Short, Char};
        i := i + 1;
      } else {
        f := f + {Short};
      }
    case 't' =>
      f := f + {Long};
      i := i + 1;
    case 'j' =>
      f := f + {Long};
      i := i + 1;
    case 'z' =>
      f := f + {Long};
      i := i + 1;
    case _ =>
  }

  // ---------- conversions ----------

  method FormatInteger(sink: Sink, idx0: nat, c: char, f0: Flags, width: nat, prec: nat, w: Word)
    returns (idx: nat)
    requires sink.Valid() && idx0 == |sink.sent| && IsInteger(c)
    modifies sink, sink.buffer
    ensures sink.Valid() && idx == |sink.sent|
    ensures sink.sent == old(sink.sent) + IntegerField(c, f0, width, prec, w)
  {
    hide Integer, SignedArg, UnsignedArg;
    var f := f0;
    // set the base
    var base: nat;
    if c == 'x' || c == 'X' {
      base := 16;
    } else if c == 'o' {
      base := 8;
    } else if c == 'b' {
      base := 2;
    } else {
      base := 10;
      f := f - {Hash}; // no hash for dec format
    }
    // uppercase
    if c == 'X' {
      f := f + {Upper};
    }
    // no plus or space flag for u, x, X, o, b
    if c != 'i' && c != 'd' {
      f := f - {Plus, Space};
    }
    // ignore '0' flag when precision is given
    if Precision in f {
      f := f - {ZeroPad};
    }
    SameLength(c, f0, w);
    // convert the integer
    if c == 'i' || c == 'd' {
      var value := SignedArg(f, w);
      idx := NtoaLong(sink, idx0, Magnitude(value), value < 0, base, prec, width, f);
    } else {
      idx := NtoaLong(sink, idx0, UnsignedArg(f, w), false, base, prec, width, f);
    }
  }

  lemma SameLength(c: char, f: Flags, w: Word)
    ensures SignedArg(IntegerFlags(c, f), w) == SignedArg(f, w)
    ensures UnsignedArg(IntegerFlags(c, f), w) == UnsignedArg(f, w)
  {
  }

  method FormatChar(sink: Sink, idx0: nat, f: Flags, width: nat, w: Word) returns (idx: nat)
    requires sink.Valid() && idx0 == |sink.sent|
    modifies sink, sink.buffer
    ensures sink.Valid() && idx == |sink.sent|
    ensures sink.sent == old(sink.sent) + CharField(f, width, w)
  {
    idx := idx0;
    // pre padding
    if Left !in f {
      idx := sink.Repeat(' ', 1, width, idx);
    }
    // char output
    idx := sink.Emit((w % 256) as char, idx);
    // post padding
    if Left in f {
      idx := sink.Repeat(' ', 1, width, idx);
    }
  }

  /** `_strnlen_s`. */
  method Strnlen(s: CString, max: Word) returns (n: nat)
    ensures n == Wrap32(if |s| < max then |s| else max)
  {
    var p, left := 0, max;
    while p < |s| && left > 0
      invariant 0 <= p <= |s| && p <= max && left == max - p
    {
      p, left := p + 1, left - 1;
    }
    n := Wrap32(p);
  }

  /** `while ((*p != 0) && (!(flags & FLAGS_PRECISION) || precision--)) out(*(p++), ...)`. */
  method EmitText(sink: Sink, idx0: nat, f: Flags, prec0: nat, s: CString) returns (idx: nat)
    requires sink.Valid() && idx0 == |sink.sent|
    modifies sink, sink.buffer
    ensures sink.Valid() && idx == |sink.sent| && sink.sent == old(sink.sent) + Shown(f, prec0, s)
  {
    hide Visible, Overlay;
    var p, prec: nat := 0, prec0;
    idx := idx0;
    while p < |s| && (Precision !in f || prec > 0)
      invariant 0 <= p <= |s| && sink.Valid() && idx == |sink.sent|
      invariant Precision in f ==> prec + p == prec0
      invariant sink.sent == old(sink.sent) + s[..p]
    {
      idx := sink.Emit(s[p], idx);
      assert s[..p + 1] == s[..p] + [s[p]];
      p, prec := p + 1, if Precision in f then prec - 1 else prec;
    }
    assert s[..|s|] == s;
  }

  method FormatText(sink: Sink, idx0: nat, f: Flags, width: nat, prec: nat, s: CString) returns (idx: nat)
    requires sink.Valid() && idx0 == |sink.sent| && prec < TWO32 && (prec > 0 ==> Precision in f)
    modifies sink, sink.buffer
    ensures sink.Valid() && idx == |sink.sent|
    ensures sink.sent == old(sink.sent) + TextField(f, width, prec, s)
  {
    hide Visible, Overlay, Shown, Rep;
    var l := Strnlen(s, if prec > 0 then prec else TWO64 - 1);
    if Precision in f {
      l := if l < prec then l else prec;
    }
    CountedLength(f, prec, s);
    idx := idx0;
    // pre padding
    if Left !in f {
      idx := sink.Repeat(' ', l, width, idx);
    }
    // string output
    idx := EmitText(sink, idx, f, prec, s);
    // post padding
    if Left in f {
      idx := sink.Repeat(' ', l, width, idx);
    }
  }

  /** The length counted by `_strnlen_s`, cut to the precision, is that of the text shown. */
  lemma CountedLength(f: Flags, prec: nat, s: CString)
    requires prec < TWO32 && (prec > 0 ==> Precision in f)
    ensures var max := if prec > 0 then prec else TWO64 - 1;
            var l := Wrap32(if |s| < max then |s| else max);
            (if Precision !in f then l else if l < prec then l else prec) ==
            if Precision in f then |Shown(f, prec, s)| else Wrap32(|s|)
  {
  }

  method FormatPointer(sink: Sink, idx0: nat, f: Flags, prec: nat, w: Word) returns (idx: nat)
    requires sink.Valid() && idx0 == |sink.sent|
    modifies sink, sink.buffer
    ensures sink.Valid() && idx == |sink.sent|
    ensures sink.sent == old(sink.sent) + PointerField(f, prec, w)
  {
    idx := NtoaLong(sink, idx0, w, false, 16, prec, 16, f + {ZeroPad, Upper});
  }

  lemma {:induction false} NumberBound(s: string, acc: nat)
    requires acc < TWO32
    ensures ParseNumber(s, acc).0 < TWO32
  {
    if s != "" && IsDigit(s[0]) {
      NumberBound(s[1..], Wrap32(acc * 10 + DigitValue(s[0])));
    }
  }

  /** A precision fits an `unsigned int`, and is positive only if one was given. */
  lemma PrecisionBound(p: Spec)
    requires ParsePrecision(p).Some? && p.prec == 0
    ensures var q := ParsePrecision(p).value; q.prec < TWO32 && (q.prec > 0 ==> Precision in q.f)
  {
    if Starts(p.rest, '.') && p.rest[1..] != "" && IsDigit(p.rest[1..][0]) {
      NumberBound(p.rest[1..], 0);
    }
  }

  lemma LengthKeepsPrecision(f: Flags, s: string)
    ensures Precision in ParseLength(f, s).0 <==> Precision in f
  {
  }

  /** One directive, from the character after the `%`. */
  method FormatDirective(sink: Sink, idx0: nat, format: CString, i0: nat, args0: seq<Arg>)
    returns (idx: nat, i: nat, args: seq<Arg>)
    requires sink.Valid() && idx0 == |sink.sent|
    requires i0 <= |format| && Directive(format[i0..], args0).Some?
    modifies sink, sink.buffer
    ensures sink.Valid() && idx == |sink.sent| && i0 < i <= |format|
    ensures var d := Directive(format[i0..], args0).value;
            d.1 == format[i..] && d.2 == args && sink.sent == old(sink.sent) + d.0
  {
    hide ParseFlags, ParseWidth, ParsePrecision, ParseLength, IntegerField, CharField, TextField, PointerField;
    var f, width, prec;
    i, f := EvaluateFlags(format, i0);
    i, f, width, args := EvaluateWidth(format, i, f, args0);
    PrecisionBound(Spec(f, width, 0, format[i..], args));
    i, f, prec, args := EvaluatePrecision(format, i, f, width, args);
    LengthKeepsPrecision(f, format[i..]);
    i, f := EvaluateLength(format, i, f);
    ghost var p := Spec(f, width, prec, format[i..], args);
    assert ParseSpec(format[i0..], args0) == Some(p);
    var c := format[i];
    idx := idx0;
    if IsInteger(c) {
      idx := FormatInteger(sink, idx, c, f, width, prec, args[0].w);
      args := args[1..];
    } else if c == 'c' {
      idx := FormatChar(sink, idx, f, width, args[0].w);
      args := args[1..];
    } else if c == 's' {
      idx := FormatText(sink, idx, f, width, prec, args[0].s);
      args := args[1..];
    } else if c == 'p' {
      idx := FormatPointer(sink, idx, f, prec, args[0].w);
      args := args[1..];
    } else {
      idx := sink.Emit(c, idx);
    }
    i := i + 1;
  }

  // ---------- _vsnprintf ----------

  /** The buffer after `text` was printed into it under a limit: as much as fits before the last
  place, then a NUL. */
  function Terminated(initial: seq<char>, text: string, maxlen: nat): (r: seq<char>)
    ensures |r| == |initial|
  {
    if maxlen == 0 then initial
    else Overlay(initial, (if |text| < maxlen then text else text[..maxlen - 1]) + [NUL], maxlen)
  }

  /** The sink after the terminating NUL. */
  lemma TerminatedOverlay(initial: seq<char>, text: string, maxlen: nat)
    requires maxlen <= |initial|
    ensures maxlen == 0 ==> Terminated(initial, text, maxlen) == Overlay(initial, text, maxlen)
    ensures maxlen > 0 ==>
            Terminated(initial, text, maxlen) ==
            Overlay(initial, text, maxlen)[if |text| < maxlen then |text| else maxlen - 1 := NUL]
  {
  }

  /** The loop over the format. */
  method FormatAll(sink: Sink, format: CString, args0: seq<Arg>) returns (idx: nat)
    requires sink.Valid() && sink.sent == "" && Render(format, args0).Some?
    modifies sink, sink.buffer
    ensures sink.Valid() && idx == |sink.sent| && sink.sent == Render(format, args0).value.0
  {
    hide Render, Directive, Visible, Overlay;
    var i, args := 0, args0;
    idx := 0;
    assert format[0..] == format;
    Associate("", "", Render(format, args));
    while i < |format|
      invariant 0 <= i <= |format| && sink.Valid() && idx == |sink.sent|
      invariant Prepend(sink.sent, Render(format[i..], args)) == Render(format, args0)
      decreases |format| - i
    {
      ghost var sent := sink.sent;
      RenderStep(format[i..], args);
      Suffix(format, i);
      if format[i] != '%' {
        Associate(sent, [format[i]], Render(format[i + 1..], args));
        idx := sink.Emit(format[i], idx);
        i := i + 1;
      } else {
        ghost var d := Directive(format[i + 1..], args).value;
        Associate(sent, d.0, Render(d.1, d.2));
        idx, i, args := FormatDirective(sink, idx, format, i + 1, args);
      }
    }
    RenderStep(format[i..], args);
    assert sink.sent + "" == sink.sent;
  }

  /** `_vsnprintf`: prints the text the format stands for and its NUL; returns the text's length as an
  `int`, whatever the limit. */
  method Core(sink: Sink, format: CString, args: seq<Arg>) returns (ret: int)
    requires sink.Valid() && sink.sent == "" && sink.maxlen < TWO64
    requires Render(format, args).Some?
    modifies sink, sink.buffer
    ensures var text := Render(format, args).value.0;
            && ret == Signed32(|text|)
            && (sink.kind == ToBuffer ==> sink.buffer[..] == Terminated(sink.initial, text, sink.maxlen))
            && (sink.kind != ToBuffer ==> sink.buffer[..] == sink.initial)
            && sink.console == if sink.kind == ToConsole then sink.shown + Visible(text) else sink.shown
  {
    hide Render, Visible, Overlay, Terminated;
    var idx := FormatAll(sink, format, args);
    if sink.kind == ToBuffer {
      TerminatedOverlay(sink.initial, sink.sent, sink.maxlen);
    }
    // termination
    sink.Out(NUL, if idx < sink.maxlen then idx else Wrap64(sink.maxlen - 1));
    ret := Signed32(idx);
  }

  // ---------- the entry points ----------

  function Min(a: nat, b: nat): nat {
    if a < b then a else b
  }

  /** `vsnprintf_` (and `snprintf_`, its variadic form): the return value is the length of the text
  regardless of `count`; the buffer gets the longest prefix that fits before position `count - 1`,
  then a NUL, and nothing else in it changes. A null buffer only measures. */
  method Vsnprintf(buffer: array?<char>, count: Word, format: CString, args: seq<Arg>) returns (ret: int)
    requires buffer != null ==> count <= buffer.Length
    requires Render(format, args).Some?
    modifies if buffer != null then {buffer} else {}
    ensures ret == Signed32(|Render(format, args).value.0|)
    ensures buffer != null && count == 0 ==> buffer[..] == old(buffer[..])
    ensures buffer != null && count > 0 ==>
            var text := Render(format, args).value.0;
            var n := Min(|text|, count - 1);
            && buffer[..n] == text[..n]
            && buffer[n] == NUL
            && buffer[n + 1..] == old(buffer[n + 1..])
  {
    hide Render, Visible;
    if buffer == null {
      // use null output function
      var unused := new char[0];
      var sink := new Sink(ToNull, unused, count, "");
      ret := Core(sink, format, args);
    } else {
      var sink := new Sink(ToBuffer, buffer, count, "");
      ret := Core(sink, format, args);
    }
  }

  /** `vprintf_` (and `printf_`): the console shows the text, less any NUL characters in it. */
  method Vprintf(console: string, format: CString, args: seq<Arg>) returns (ret: int, shown: string)
    requires Render(format, args).Some?
    ensures ret == Signed32(|Render(format, args).value.0|)
    ensures shown == console + Visible(Render(format, args).value.0)
    ensures (forall i :: 0 <= i < |Render(format, args).value.0| ==> Render(format, args).value.0[i] != NUL) ==>
              shown == console + Render(format, args).value.0
  {
    hide Render, Visible;
    VisibleDropsNuls(Render(format, args).value.0);
    var buffer := new char[1];
    var sink := new Sink(ToConsole, buffer, TWO64 - 1, console);
    ret := Core(sink, format, args);
    shown := sink.console;
  }
}
