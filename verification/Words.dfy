/** Machine words and the bit operations the restorer uses on them.

A 64-bit word is a natural number below 2^64; every operation that wraps in the
program wraps explicitly here. Bitwise `&` and `|` are defined bit by bit on
naturals, so that facts about a field of a word are proved by induction. */
module Words {
  const TWO32: int := 0x1_0000_0000
  const TWO64: int := 0x1_0000_0000_0000_0000

  type Word = w: int | 0 <= w < 0x1_0000_0000_0000_0000 witness 0

  function Wrap32(i: int): (r: int)
    ensures 0 <= r < TWO32
  {
    i % TWO32
  }

  function Wrap64(i: int): (r: Word)
  {
    i % TWO64
  }

  /** The two's complement reading of the low 32 bits. */
  function Signed32(i: int): (r: int)
    ensures -0x8000_0000 <= r < 0x8000_0000
  {
    var u := Wrap32(i);
    if u < 0x8000_0000 then u else u - TWO32
  }

  /** The two's complement reading of the low 64 bits. */
  function Signed64(i: int): (r: int)
    ensures -0x8000_0000_0000_0000 <= r < 0x8000_0000_0000_0000
  {
    var u := Wrap64(i);
    if u < 0x8000_0000_0000_0000 then u else u - TWO64
  }

  lemma Signed64Congruent(i: int)
    ensures Wrap64(Signed64(i)) == Wrap64(i)
  {
  }

  lemma WrapAdd(a: int, b: int)
    ensures Wrap64(Wrap64(a) + b) == Wrap64(a + b)
  {
    var q := a / TWO64;
    assert a == q * TWO64 + a % TWO64;
    WrapShift(a % TWO64 + b, q);
  }

  lemma WrapShift(a: int, q: int)
    ensures Wrap64(a + q * TWO64) == Wrap64(a)
  {
    var k := a / TWO64;
    assert a == k * TWO64 + a % TWO64;
    assert a + q * TWO64 == (k + q) * TWO64 + a % TWO64;
  }

  // ---------- division by a positive number ----------

  lemma MulAtLeast(m: int, k: int)
    requires m > 0 && k >= 1
    ensures m * k >= m
  {
    assert m * k == m * (k - 1) + m;
    assert m * (k - 1) >= 0;
  }

  lemma DivUnique(x: int, m: int, q: int, r: int)
    requires m > 0 && x == m * q + r && 0 <= r < m
    ensures x / m == q && x % m == r
  {
    var q', r' := x / m, x % m;
    assert x == m * q' + r' && 0 <= r' < m;
    if q > q' {
      assert m * (q - q') == m * q - m * q';
      MulAtLeast(m, q - q');
    } else if q < q' {
      assert m * (q' - q) == m * q' - m * q;
      MulAtLeast(m, q' - q);
    }
  }

  /** A field of n values sitting above a low part of m values. */
  lemma FieldOf(x: int, m: int, n: int, low: int, mid: int, high: int)
    requires m > 0 && n > 0 && 0 <= low < m && 0 <= mid < n
    requires x == m * (n * high + mid) + low
    ensures (x / m) % n == mid
  {
    DivUnique(x, m, n * high + mid, low);
    DivUnique(n * high + mid, n, high, mid);
  }

  // ---------- shifts and bitwise operations ----------

  function Shr(w: nat, k: nat): nat
    decreases k, w
  {
    if k == 0 then w else Shr(w / 2, k - 1)
  }

  function Shl(w: nat, k: nat): (r: nat)
    ensures r >= w
    decreases k, w
  {
    if k == 0 then w else 2 * Shl(w, k - 1)
  }

  function Or(a: nat, b: nat): nat
    decreases a + b
  {
    if a == 0 && b == 0 then 0
    else 2 * Or(a / 2, b / 2) + (if a % 2 == 1 || b % 2 == 1 then 1 else 0)
  }

  function And(a: nat, b: nat): nat
    decreases a + b
  {
    if a == 0 && b == 0 then 0
    else 2 * And(a / 2, b / 2) + (if a % 2 == 1 && b % 2 == 1 then 1 else 0)
  }

  lemma {:induction false} OrBound(a: nat, b: nat, k: nat)
    requires a < Shl(1, k) && b < Shl(1, k)
    ensures Or(a, b) < Shl(1, k)
  {
    if k > 0 {
      OrBound(a / 2, b / 2, k - 1);
    }
  }

  lemma ShlSmall(w: nat)
    ensures Shl(w, 3) == 8 * w && Shl(w, 4) == 16 * w
  {
    assert Shl(w, 1) == 2 * Shl(w, 0);
    assert Shl(w, 2) == 2 * Shl(w, 1);
    assert Shl(w, 3) == 2 * Shl(w, 2);
  }

  lemma ShlByte(w: nat, j: nat)
    ensures Shl(w, j + 8) == 256 * Shl(w, j)
  {
    assert Shl(w, j + 2) == 2 * Shl(w, j + 1) == 4 * Shl(w, j);
    assert Shl(w, j + 4) == 2 * Shl(w, j + 3) == 4 * Shl(w, j + 2);
    assert Shl(w, j + 6) == 2 * Shl(w, j + 5) == 4 * Shl(w, j + 4);
    assert Shl(w, j + 8) == 2 * Shl(w, j + 7) == 4 * Shl(w, j + 6);
  }

  lemma ShlWord()
    ensures Shl(1, 64) == TWO64
  {
    ShlByte(1, 0);
    ShlByte(1, 8);
    ShlByte(1, 16);
    ShlByte(1, 24);
    ShlByte(1, 32);
    ShlByte(1, 40);
    ShlByte(1, 48);
    ShlByte(1, 56);
  }

  lemma OrWord(a: Word, b: Word)
    ensures Or(a, b) < TWO64
  {
    ShlWord();
    OrBound(a, b, 64);
  }

  /** Shifting right distributes over `|`. */
  lemma {:induction false} OrShift(a: nat, b: nat, k: nat)
    ensures Shr(Or(a, b), k) == Or(Shr(a, k), Shr(b, k))
    decreases k
  {
    if k > 0 {
      OrShift(a / 2, b / 2, k - 1);
    }
  }

  lemma {:induction false} AndZero(w: nat)
    ensures And(w, 0) == 0
  {
    if w > 0 {
      AndZero(w / 2);
    }
  }

  /** Low zeros of the mask are low zeros of the result: masking commutes with shifting. */
  lemma {:induction false} AndScaled(w: nat, m: nat, k: nat)
    ensures And(w, Shl(m, k)) == Shl(And(Shr(w, k), m), k)
    decreases k
  {
    if k > 0 {
      AndScaled(w / 2, m, k - 1);
      if w == 0 && Shl(m, k) == 0 {
        AndZero(Shr(w, k));
        ShlZero(k - 1);
      }
    }
  }

  lemma {:induction false} ShlZero(k: nat)
    ensures Shl(0, k) == 0
  {
    if k > 0 {
      ShlZero(k - 1);
    }
  }

  // ---------- the bytes of a word ----------

  /** Storing a zero byte at little-endian position k of a word. */
  function ClearByte(w: nat, k: nat): (r: nat)
    ensures r <= w
    decreases k
  {
    if k == 0 then w - w % 256 else w % 256 + 256 * ClearByte(w / 256, k - 1)
  }

  /** The k low bytes are zero. */
  predicate LowBytesZero(w: nat, k: nat)
    decreases k
  {
    k == 0 || (w % 256 == 0 && LowBytesZero(w / 256, k - 1))
  }

  lemma {:induction false} ClearNextByte(w: nat, k: nat)
    requires LowBytesZero(w, k)
    ensures LowBytesZero(ClearByte(w, k), k + 1)
    decreases k
  {
    if k > 0 {
      ClearNextByte(w / 256, k - 1);
      assert ClearByte(w, k) / 256 == ClearByte(w / 256, k - 1);
    } else {
      assert LowBytesZero(ClearByte(w, 0) / 256, 0);
    }
  }

  function BytesRange(k: nat): nat {
    if k == 0 then 1 else 256 * BytesRange(k - 1)
  }

  lemma {:induction false} AllBytesZero(w: nat, k: nat)
    requires LowBytesZero(w, k) && w < BytesRange(k)
    ensures w == 0
    decreases k
  {
    if k > 0 {
      AllBytesZero(w / 256, k - 1);
    }
  }

  lemma ClearedWord(w: Word)
    requires LowBytesZero(w, 8)
    ensures w == 0
  {
    assert BytesRange(8) == TWO64;
    AllBytesZero(w, 8);
  }
}
