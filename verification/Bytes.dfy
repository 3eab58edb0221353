/** The integer widths the 6502 side of the system works in, and values that may be missing. */
module Bytes {
  type Byte = b: int | 0 <= b < 0x100
  type Word = w: int | 0 <= w < 0x1_0000
  type Nibble = n: int | 0 <= n < 0x10

  datatype Option<T> = Nothing | Just(value: T)

  function Lo(w: Word): Byte { w % 0x100 }

  function Hi(w: Word): Byte { w / 0x100 }

  function Pair(lo: Byte, hi: Byte): Word { 0x100 * hi + lo }

  /** A C assignment to uint8_t. */
  function ToByte(x: int): Byte { x % 0x100 }

  /** A C assignment to uint16_t. */
  function ToWord(x: int): Word { x % 0x1_0000 }

  /** The value of a byte read as int8_t. */
  function Signed8(b: Byte): int { if b < 0x80 then b else b - 0x100 }

  /** The value of a word read as a 16-bit int. */
  function Signed16(w: Word): int { if w < 0x8000 then w else w - 0x1_0000 }

  /** `adc #1` or `inc`, without the carry. */
  function Inc(b: Byte): (r: Byte)
    ensures r == ToByte(b as int + 1)
  {
    if b == 0xff then 0 else b + 1
  }

  /** `adc`: the eight-bit sum and the carry out. */
  function Adc(a: Byte, b: Byte, carry: bool): (r: (Byte, bool))
    ensures r.0 + (if r.1 then 0x100 else 0) == a + b + (if carry then 1 else 0)
  {
    var sum := a + b + if carry then 1 else 0;
    (sum % 0x100, sum >= 0x100)
  }

  lemma ToByteAdd(a: int, b: int)
    ensures ToByte(ToByte(a) + b) == ToByte(a + b)
  {
  }

  lemma ToWordAdd(a: int, b: int)
    ensures ToWord(ToWord(a) + b) == ToWord(a + b)
    ensures ToWord(a + ToWord(b)) == ToWord(a + b)
  {
  }

  lemma RestIs(r: int, q: int, m: int)
    requires 0 <= m < r
    ensures (r * q + m) % r == m
  {
    var x := r * q + m;
    var k, rest := x / r - q, x % r;
    WholeAndRest(x, r);
    assert r * k == m - rest by {
      assert r * (x / r - q) == r * (x / r) - r * q;
    }
    Multiple(r, k);
  }

  lemma WholeAndRest(x: int, r: int)
    requires r > 0
    ensures x == r * (x / r) + x % r && 0 <= x % r < r
  {
  }

  lemma Multiple(r: int, k: int)
    requires r > 0
    ensures k >= 1 ==> r * k >= r
    ensures k <= -1 ==> r * k <= -r
  {
  }
}
