/** Integer conversion of src/printf.c: `_ntoa_long` (and `_ntoa_long_long`, which is the same on a
64-bit target), `_ntoa_format` and `_out_rev`, over a 32-byte scratch buffer that holds the field
backwards; against a renderer on strings. */
module Ntoa {
  import opened Words
  import opened Digits
  import opened Sinks

  /** The `FLAGS_` bits. */
  datatype Flag = ZeroPad | Left | Plus | Space | Hash | Upper | Char | Short | Long | LongLong | Precision

  type Flags = set<Flag>

  /** `PRINTF_NTOA_BUFFER_SIZE`. */
  const ROOM: nat := 32

  // ---------- the renderer, on scratch contents (last character first) ----------

  function Less(a: nat, b: nat): nat {
    if a < b then b - a else 0
  }

  /** Zero padding for a sign that is still to come leaves one place for it. */
  function EffWidth(f: Flags, negative: bool, width: nat): nat {
    if Left !in f && width > 0 && ZeroPad in f && (negative || Plus in f || Space in f) then width - 1 else width
  }

  function PadTo(r: string, n: nat): (p: string)
    requires |r| <= ROOM
    ensures |p| <= ROOM
  {
    r + Rep('0', Less(|r|, if n < ROOM then n else ROOM))
  }

  function Padded(r: string, f: Flags, prec: nat, width: nat): (p: string)
    requires |r| <= ROOM
    ensures |p| <= ROOM
  {
    if Left in f then r
    else if ZeroPad in f then PadTo(PadTo(r, prec), width)
    else PadTo(r, prec)
  }

  /** How many characters the alternate form drops before its prefix. */
  function Trimmed(len: nat, f: Flags, base: nat, prec: nat, width: nat): (t: nat)
    ensures t <= len
  {
    if Precision in f || len == 0 || (len != prec && len != width) then 0
    else if base == 16 && len > 1 then 2 else 1
  }

  function Push(r: string, c: char): (p: string)
    requires |r| <= ROOM
    ensures |p| <= ROOM
  {
    if |r| < ROOM then r + [c] else r
  }

  function Marked(r: string, f: Flags, base: nat): (p: string)
    requires |r| <= ROOM
    ensures |p| <= ROOM
  {
    if base == 16 then Push(r, if Upper in f then 'X' else 'x')
    else if base == 2 then Push(r, 'b')
    else r
  }

  function Hashed(r: string, f: Flags, base: nat, prec: nat, width: nat): (p: string)
    requires |r| <= ROOM
    ensures |p| <= ROOM
  {
    if Hash !in f then r
    else Push(Marked(r[..|r| - Trimmed(|r|, f, base, prec, width)], f, base), '0')
  }

  function Sign(f: Flags, negative: bool): string {
    if negative then "-" else if Plus in f then "+" else if Space in f then " " else ""
  }

  function Signed(r: string, f: Flags, negative: bool): (p: string)
    requires |r| <= ROOM
    ensures |p| <= ROOM
  {
    if |r| < ROOM then r + Sign(f, negative) else r
  }

  /** `_out_rev`. */
  function Emitted(r: string, width: nat, f: Flags): string {
    (if Left !in f && ZeroPad !in f then Rep(' ', Less(|r|, width)) else "")
    + Reversed(r)
    + (if Left in f then Rep(' ', Less(|r|, width)) else "")
  }

  /** `_ntoa_format`. */
  function Field(r: string, negative: bool, base: nat, prec: nat, width: nat, f: Flags): string
    requires |r| <= ROOM
  {
    var w := EffWidth(f, negative, width);
    Emitted(Signed(Hashed(Padded(r, f, prec, w), f, base, prec, w), f, negative), w, f)
  }

  /** The digits written to the scratch buffer: none for a zero with an explicit precision. */
  function Scratch(value: nat, base: nat, f: Flags): (r: string)
    requires 2 <= base <= 16
    ensures |r| <= ROOM
  {
    if Precision in f && value == 0 then "" else DigitsRev(value, base, Upper in f, ROOM)
  }

  /** `_ntoa_long`. */
  function Integer(value: nat, negative: bool, base: nat, prec: nat, width: nat, f: Flags): string
    requires 2 <= base <= 16
  {
    var g := if value == 0 then f - {Hash} else f;
    Field(Scratch(value, base, g), negative, base, prec, width, g)
  }

  // ---------- the imperative code ----------

  method OutRev(sink: Sink, idx0: nat, buf: array<char>, len0: nat, width: nat, f: Flags) returns (idx: nat)
    requires sink.Valid() && idx0 == |sink.sent| && len0 <= buf.Length && buf != sink.buffer
    modifies sink, sink.buffer
    ensures sink.Valid() && idx == |sink.sent|
    ensures sink.sent == old(sink.sent) + Emitted(buf[..len0], width, f)
  {
    hide Visible, Overlay, Rep;
    idx := idx0;
    ghost var pre := if Left !in f && ZeroPad !in f then Rep(' ', Less(len0, width)) else "";
    // pad spaces up to given width
    if Left !in f && ZeroPad !in f {
      idx := sink.Repeat(' ', len0, width, idx);
    }
    assert sink.sent == old(sink.sent) + pre;
    // reverse string
    var len := len0;
    ghost var text := buf[..len0];
    while len > 0
      invariant 0 <= len <= len0 && sink.Valid() && idx == |sink.sent| && buf[..len0] == text
      invariant sink.sent == old(sink.sent) + pre + Reversed(text)[..len0 - len]
    {
      len := len - 1;
      assert Reversed(text)[..len0 - len] == Reversed(text)[..len0 - len - 1] + [buf[len]];
      idx := sink.Emit(buf[len], idx);
    }
    assert Reversed(text)[..len0] == Reversed(text);
    // append pad spaces up to given width
    if Left in f {
      idx := sink.Repeat(' ', idx - idx0, width, idx);
    }
  }

  /** `while (len < limit && len < PRINTF_NTOA_BUFFER_SIZE) buf[len++] = '0'`. */
  method PadZeros(buf: array<char>, len0: nat, limit: nat) returns (len: nat)
    requires buf.Length == ROOM && len0 <= ROOM
    modifies buf
    ensures len <= ROOM && buf[..len] == PadTo(old(buf[..len0]), limit)
  {
    len := len0;
    while len < limit && len < ROOM
      invariant len0 <= len <= ROOM
      invariant buf[..len] == old(buf[..len0]) + Rep('0', len - len0)
      invariant len > len0 ==> len <= limit
    {
      buf[len] := '0';
      len := len + 1;
      assert buf[..len] == buf[..len - 1] + ['0'];
    }
  }

  /** `buf[len++] = c` if there is room. */
  method PushChar(buf: array<char>, len0: nat, c: char) returns (len: nat)
    requires buf.Length == ROOM && len0 <= ROOM
    modifies buf
    ensures len <= ROOM && buf[..len] == Push(old(buf[..len0]), c)
  {
    len := len0;
    if len < ROOM {
      buf[len] := c;
      len := len + 1;
      assert buf[..len] == buf[..len0] + [c];
    }
  }

  method HandleHash(buf: array<char>, len0: nat, base: nat, prec: nat, width: nat, f: Flags) returns (len: nat)
    requires buf.Length == ROOM && len0 <= ROOM
    modifies buf
    ensures len <= ROOM && buf[..len] == Hashed(old(buf[..len0]), f, base, prec, width)
  {
    len := len0;
    if Hash in f {
      if Precision !in f && len > 0 && (len == prec || len == width) {
        len := len - 1;
        if len > 0 && base == 16 {
          len := len - 1;
        }
      }
      assert buf[..len] == buf[..len0][..len0 - Trimmed(len0, f, base, prec, width)];
      if base == 16 && Upper !in f && len < ROOM {
        len := PushChar(buf, len, 'x');
      } else if base == 16 && Upper in f && len < ROOM {
        len := PushChar(buf, len, 'X');
      } else if base == 2 && len < ROOM {
        len := PushChar(buf, len, 'b');
      }
      len := PushChar(buf, len, '0');
    }
  }

  method AppendSign(buf: array<char>, len0: nat, negative: bool, f: Flags) returns (len: nat)
    requires buf.Length == ROOM && len0 <= ROOM
    modifies buf
    ensures len <= ROOM && buf[..len] == Signed(old(buf[..len0]), f, negative)
  {
    len := len0;
    if len < ROOM {
      if negative {
        len := PushChar(buf, len, '-');
      } else if Plus in f {
        len := PushChar(buf, len, '+'); // ignore the space if the '+' exists
      } else if Space in f {
        len := PushChar(buf, len, ' ');
      }
    }
  }

  method NtoaFormat(sink: Sink, idx0: nat, buf: array<char>, len0: nat, negative: bool, base: nat, prec: nat,
                    width0: nat, f: Flags) returns (idx: nat)
    requires sink.Valid() && idx0 == |sink.sent| && buf.Length == ROOM && len0 <= ROOM && buf != sink.buffer
    modifies sink, sink.buffer, buf
    ensures sink.Valid() && idx == |sink.sent|
    ensures sink.sent == old(sink.sent) + Field(old(buf[..len0]), negative, base, prec, width0, f)
  {
    hide Visible, Overlay, PadTo, Hashed, Signed, Emitted, Rep;
    var width, len := width0, len0;
    // pad leading zeros
    if Left !in f {
      if width > 0 && ZeroPad in f && (negative || Plus in f || Space in f) {
        width := width - 1;
      }
      len := PadZeros(buf, len, prec);
      if ZeroPad in f {
        len := PadZeros(buf, len, width);
      }
    }
    // handle hash
    len := HandleHash(buf, len, base, prec, width, f);
    len := AppendSign(buf, len, negative, f);
    idx := OutRev(sink, idx0, buf, len, width, f);
  }

  lemma DigitsStep(v: nat, base: nat, upper: bool, room: nat)
    requires 2 <= base <= 16 && room >= 1
    ensures DigitsRev(v, base, upper, room) ==
            [DigitChar(Rem(v, base), upper)]
            + if Quot(v, base) != 0 && room > 1 then DigitsRev(Quot(v, base), base, upper, room - 1) else ""
  {
  }

  lemma MoveOne(a: string, c: char, b: string)
    ensures a + ([c] + b) == (a + [c]) + b
  {
  }

  /** The do-while loop: peels off low digits until the value or the scratch buffer is exhausted. */
  method GenerateDigits(buf: array<char>, value0: nat, base: nat, upper: bool) returns (len: nat)
    requires buf.Length == ROOM && 2 <= base <= 16
    modifies buf
    ensures len <= ROOM && buf[..len] == DigitsRev(value0, base, upper, ROOM)
  {
    hide Rem, Quot, DigitChar, DigitsRev;
    var value, more := value0, true;
    len := 0;
    while more
      invariant 0 <= len <= ROOM && (more ==> len < ROOM)
      invariant DigitsRev(value0, base, upper, ROOM) ==
                buf[..len] + if more then DigitsRev(value, base, upper, ROOM - len) else ""
      decreases ROOM - len, more
    {
      DigitsStep(value, base, upper, ROOM - len);
      ghost var before, c := buf[..len], DigitChar(Rem(value, base), upper);
      buf[len] := DigitChar(Rem(value, base), upper);
      value := Quot(value, base);
      more := value != 0 && len + 1 < ROOM;
      MoveOne(before, c, if more then DigitsRev(value, base, upper, ROOM - len - 1) else "");
      len := len + 1;
      assert buf[..len] == before + [c];
    }
  }

  method NtoaLong(sink: Sink, idx0: nat, value: Word, negative: bool, base: nat, prec: nat, width: nat, f0: Flags)
    returns (idx: nat)
    requires sink.Valid() && idx0 == |sink.sent| && 2 <= base <= 16
    modifies sink, sink.buffer
    ensures sink.Valid() && idx == |sink.sent|
    ensures sink.sent == old(sink.sent) + Integer(value, negative, base, prec, width, f0)
  {
    hide DigitsRev, Field, Visible, Overlay;
    var buf := new char[ROOM];
    var len, f := 0, f0;
    // no hash for 0 values
    if value == 0 {
      f := f - {Hash};
    }
    // write if precision != 0 and value is != 0
    if Precision !in f || value != 0 {
      len := GenerateDigits(buf, value, base, Upper in f);
    }
    assert buf[..len] == Scratch(value, base, f);
    idx := NtoaFormat(sink, idx0, buf, len, negative, base, prec, width, f);
  }
}
