/** Text primitives shared by the tokenizer and the edit builder: UTF-8 byte
    widths and encoding, and concatenation of a sequence of strings. Strings are sequences of Unicode scalar values, as a
    Rust `&str` is when read with `chars()`. */
module Text {

  datatype Option<+T> = None | Some(value: T)

  /** Number of bytes the UTF-8 encoding of `c` occupies (Rust's `char::len_utf8`). */
  function Width(c: char): (w: nat)
    ensures 1 <= w <= 4
    ensures w == 1 <==> (c as int) < 0x80
    ensures w == 4 <==> 0x10000 <= (c as int)
  {
    if (c as int) < 0x80 then 1
    else if (c as int) < 0x800 then 2
    else if (c as int) < 0x10000 then 3
    else 4
  }

  /** Length in bytes of the UTF-8 encoding of `s` (Rust's `str::len`). */
  function Bytes(s: string): (n: nat)
    ensures |s| <= n <= 4 * |s|
    ensures n == 0 <==> |s| == 0
  {
    if |s| == 0 then 0 else Width(s[0]) + Bytes(s[1..])
  }

  lemma {:induction false} BytesConcat(a: string, b: string)
    ensures Bytes(a + b) == Bytes(a) + Bytes(b)
  {
    if |a| == 0 {
      assert a + b == b;
    } else {
      assert (a + b)[1..] == a[1..] + b;
      BytesConcat(a[1..], b);
    }
  }

  newtype uint8 = x: int | 0 <= x < 256

  /** The UTF-8 encoding of one character (section 3 of RFC 3629). */
  function EncodeChar(c: char): (bs: seq<uint8>)
    ensures |bs| == Width(c)
  {
    var n := c as int;
    if n < 0x80 then [n as uint8]
    else if n < 0x800 then [(0xC0 + n / 0x40) as uint8, (0x80 + n % 0x40) as uint8]
    else if n < 0x10000 then
      [(0xE0 + n / 0x1000) as uint8, (0x80 + (n / 0x40) % 0x40) as uint8, (0x80 + n % 0x40) as uint8]
    else
      [(0xF0 + n / 0x40000) as uint8, (0x80 + (n / 0x1000) % 0x40) as uint8,
       (0x80 + (n / 0x40) % 0x40) as uint8, (0x80 + n % 0x40) as uint8]
  }

  /** The UTF-8 encoding of a string: the bytes a Rust `String` holds. */
  function Utf8(s: string): (bs: seq<uint8>)
    ensures |bs| == Bytes(s)
  {
    if |s| == 0 then [] else EncodeChar(s[0]) + Utf8(s[1..])
  }

  lemma {:induction false} Utf8Concat(a: string, b: string)
    ensures Utf8(a + b) == Utf8(a) + Utf8(b)
  {
    if |a| == 0 {
      assert a + b == b;
    } else {
      assert (a + b)[0] == a[0];
      assert (a + b)[1..] == a[1..] + b;
      Utf8Concat(a[1..], b);
    }
  }

  /** Concatenation of a sequence of strings, in order. */
  function Concat(parts: seq<string>): string
  {
    if |parts| == 0 then [] else Concat(parts[..|parts| - 1]) + parts[|parts| - 1]
  }
}
