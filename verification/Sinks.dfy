/** The output functions of src/printf.c behind one interface: `_out_buffer`, `_out_null` and
`_out_char`. Every formatting routine passes the character and its running index. */
module Sinks {
  import opened Words
  import opened Digits

  const NUL: char := '\0'

  datatype Kind = ToBuffer | ToNull | ToConsole

  /** The characters `_out_char` forwards: all but NUL. */
  function Visible(s: string): string {
    if s == "" then ""
    else Visible(s[..|s| - 1]) + if s[|s| - 1] == NUL then "" else [s[|s| - 1]]
  }

  /** Forwarding goes character by character; text without NUL is forwarded as it is, and nothing
  forwarded is a NUL. */
  lemma {:induction false} VisibleAppend(s: string, t: string)
    ensures Visible(s + t) == Visible(s) + Visible(t)
  {
    if t == "" {
      assert s + t == s;
    } else {
      assert (s + t)[..|s + t| - 1] == s + t[..|t| - 1];
      VisibleAppend(s, t[..|t| - 1]);
    }
  }

  lemma {:induction false} VisibleDropsNuls(s: string)
    ensures forall i :: 0 <= i < |Visible(s)| ==> Visible(s)[i] != NUL
    ensures (forall i :: 0 <= i < |s| ==> s[i] != NUL) ==> Visible(s) == s
  {
    if s != "" {
      var t := s[..|s| - 1];
      VisibleDropsNuls(t);
      assert t + [s[|s| - 1]] == s;
      assert forall i :: 0 <= i < |t| ==> t[i] == s[i];
    }
  }

  /** A buffer of the given contents after `text` was written from index 0 under the limit `maxlen`. */
  function Overlay(initial: seq<char>, text: string, maxlen: nat): (r: seq<char>)
    ensures |r| == |initial|
    ensures forall i :: 0 <= i < |initial| ==> r[i] == if i < |text| && i < maxlen then text[i] else initial[i]
  {
    seq(|initial|, i requires 0 <= i < |initial| => if i < |text| && i < maxlen then text[i] else initial[i])
  }

  class Sink {
    const kind: Kind
    const buffer: array<char>
    const maxlen: nat
    var console: string
    ghost const initial: seq<char>
    ghost const shown: string
    ghost var sent: string

    /** `sent` is everything passed so far, at consecutive indexes; the buffer or console shows it. */
    ghost predicate Valid()
      reads this, buffer
    {
      && |initial| == buffer.Length
      && (kind == ToBuffer ==> maxlen <= buffer.Length && buffer[..] == Overlay(initial, sent, maxlen))
      && (kind != ToBuffer ==> buffer[..] == initial)
      && console == if kind == ToConsole then shown + Visible(sent) else shown
    }

    constructor (kind: Kind, buffer: array<char>, maxlen: nat, console: string)
      requires kind == ToBuffer ==> maxlen <= buffer.Length
      ensures Valid() && sent == "" && initial == buffer[..] && shown == console
      ensures this.kind == kind && this.buffer == buffer && this.maxlen == maxlen
    {
      this.kind, this.buffer, this.maxlen, this.console := kind, buffer, maxlen, console;
      initial, shown, sent := buffer[..], console, "";
    }

    /** The C-level call: store below the limit, drop, or forward unless NUL. */
    method Out(c: char, idx: nat)
      requires kind == ToBuffer ==> maxlen <= buffer.Length
      modifies this`console, buffer
      ensures buffer[..] == if kind == ToBuffer && idx < maxlen then old(buffer[..])[idx := c] else old(buffer[..])
      ensures console == if kind == ToConsole && c != NUL then old(console) + [c] else old(console)
    {
      if kind == ToBuffer && idx < maxlen {
        buffer[idx] := c;
      } else if kind == ToConsole && c != NUL {
        console := console + [c];
      }
    }

    /** `out(c, buffer, idx++, maxlen)`. */
    method Emit(c: char, idx: nat) returns (next: nat)
      requires Valid() && idx == |sent|
      modifies this, buffer
      ensures Valid() && sent == old(sent) + [c] && next == idx + 1
    {
      Out(c, idx);
      sent := sent + [c];
      next := idx + 1;
      assert sent[..|sent| - 1] == old(sent);
    }

    /** `while (i < n) out(c, buffer, idx++, maxlen)`, starting from i. */
    method Repeat(c: char, from: nat, to: nat, idx: nat) returns (next: nat)
      requires Valid() && idx == |sent|
      modifies this, buffer
      ensures Valid() && next == |sent|
      ensures sent == old(sent) + Rep(c, if from < to then to - from else 0)
    {
      next := idx;
      var i := from;
      while i < to
        invariant Valid() && next == |sent|
        invariant from <= i && (from < to ==> i <= to) && (to <= from ==> i == from)
        invariant sent == old(sent) + Rep(c, i - from)
      {
        next := Emit(c, next);
        i := i + 1;
      }
    }
  }
}
