/** Shared vocabulary of the firmware model: bytes, C strings, decimal text
    and the fixed-width integers of the 32-bit target. */
module Bytes {

  /** An unsigned 8-bit value (a C `byte`, `uint8_t` or `char` cell). */
  newtype byte = x: int | 0 <= x < 256

  /** An unsigned 32-bit value, such as the millisecond clock `millis()`. */
  type uint32 = x: int | 0 <= x < 0x1_0000_0000

  datatype Option<T> = None | Some(value: T)

  const NUL: byte := 0
  const LF: byte := 10
  const CR: byte := 13
  const SPACE: byte := 32
  const COMMA: byte := 44
  const ZERO: byte := 48

  /** The bytes of an ASCII string literal. */
  function Ascii(s: string): (r: seq<byte>)
    ensures |r| == |s|
    ensures forall i :: 0 <= i < |s| && s[i] as int < 256 ==> r[i] as int == s[i] as int
  {
    seq(|s|, i requires 0 <= i < |s| => (s[i] as int % 256) as byte)
  }

  /** What a C string function sees of a buffer: the bytes before the first NUL. */
  function CStr(s: seq<byte>): (r: seq<byte>)
    ensures r <= s
    ensures NUL !in r
    ensures |r| < |s| ==> s[|r|] == NUL
  {
    if s == [] || s[0] == NUL then [] else [s[0]] + CStr(s[1..])
  }

  /** A buffer without NUL is its own C string. */
  lemma {:induction false} CStrNoNul(s: seq<byte>)
    requires NUL !in s
    ensures CStr(s) == s
  {
    if s != [] {
      assert NUL !in s[1..] by {
        forall k | 0 <= k < |s[1..]| ensures s[1..][k] != NUL {
          assert s[1..][k] == s[k + 1];
        }
      }
      CStrNoNul(s[1..]);
    }
  }

  /** A buffer holding `t` and then a NUL reads as the C string `t`. */
  lemma {:induction false} CStrOf(s: seq<byte>, t: seq<byte>)
    requires NUL !in t && |t| < |s| && s[..|t|] == t && s[|t|] == NUL
    ensures CStr(s) == t
  {
    if t != [] {
      assert s[0] == t[0];
      assert s[1..][..|t| - 1] == t[1..];
      assert NUL !in t[1..] by {
        forall k | 0 <= k < |t| - 1 ensures t[1..][k] != NUL {
          assert t[1..][k] == t[k + 1];
        }
      }
      CStrOf(s[1..], t[1..]);
    }
  }

  /** A C string ends at its first NUL: a NUL at `n` cuts the buffer there. */
  lemma {:induction false} CStrCut(s: seq<byte>, n: nat)
    requires n < |s| && s[n] == NUL
    ensures CStr(s) == CStr(s[..n])
    decreases n
  {
    if n > 0 && s[0] != NUL {
      CStrCut(s[1..], n - 1);
      assert s[1..][..n - 1] == s[..n][1..];
    }
  }

  predicate IsDigit(b: byte) {
    ZERO <= b <= ZERO + 9
  }

  function Digit(d: nat): (b: byte)
    requires d < 10
    ensures IsDigit(b) && b as int - 48 == d
  {
    (48 + d) as byte
  }

  /** Decimal text of a non-negative number, as Arduino's `print(n, DEC)`
      writes it: no sign, no leading zeros. */
  function Decimal(n: nat): (r: seq<byte>)
    ensures 1 <= |r|
    ensures forall i :: 0 <= i < |r| ==> IsDigit(r[i])
    decreases n
  {
    if n < 10 then [Digit(n)] else Decimal(n / 10) + [Digit(n % 10)]
  }

  /** The value of a string of decimal digits, most significant first. */
  function DigitsValue(s: seq<byte>): nat
    requires forall i :: 0 <= i < |s| ==> IsDigit(s[i])
  {
    if s == [] then 0
    else
      var last := s[|s| - 1];
      assert IsDigit(last);
      DigitsValue(s[..|s| - 1]) * 10 + (last as int - 48)
  }

  lemma {:induction false} DecimalRoundTrip(n: nat)
    ensures DigitsValue(Decimal(n)) == n
    decreases n
  {
    if n >= 10 {
      var d := Decimal(n / 10);
      DecimalRoundTrip(n / 10);
      assert (d + [Digit(n % 10)])[..|d|] == d;
    }
  }

  lemma MulAtLeast(a: int, d: int)
    requires a >= 1 && d > 0
    ensures a * d >= d
  {
    assert a * d == (a - 1) * d + d;
  }

  lemma MulSub(k: int, q: int, d: int)
    ensures (k - q) * d == k * d - q * d
  {
  }

  /** Euclidean division undoes `q * d + r` for a remainder in range. */
  lemma DivMod(q: int, r: int, d: int)
    requires d > 0 && 0 <= r < d
    ensures (q * d + r) / d == q && (q * d + r) % d == r
  {
    var v := q * d + r;
    var k, m := v / d, v % d;
    assert k * d + m == v;
    MulSub(k, q, d);
    if k > q {
      MulAtLeast(k - q, d);
    } else if k < q {
      MulAtLeast(q - k, d);
      MulSub(q, k, d);
    }
  }

  /** Byte `k` of `u`, counting from the least significant. */
  function ByteAt(u: nat, k: nat): byte {
    if k == 0 then (u % 256) as byte else ByteAt(u / 256, k - 1)
  }

  /** How `formatDecimal` is asked to lay a number out: implied decimal
      places and whether a sign is always written (`FMT_SIGN`). */
  datatype Style = Style(prec: nat, sign: bool)

  /** The decimal formatter of FixNum.h, which is not part of this model:
      any function from value, width and style to text. */
  type Formatter = (int, nat, Style) -> seq<byte>

  /** What the firmware gets from `formatDecimal(v, s, width, style)`: the
      formatter's text, never more than `width` characters. */
  function Format(fmt: Formatter, v: int, width: nat, style: Style): (r: seq<byte>)
    ensures |r| <= width
    ensures |fmt(v, width, style)| <= width ==> r == fmt(v, width, style)
  {
    var t := fmt(v, width, style);
    if |t| <= width then t else t[..width]
  }

  /** A mathematical integer reduced to the two's-complement 32-bit range,
      as a C `long`/`int32_t` holds it on the 32-bit target. */
  function ToInt32(x: int): (r: int)
    ensures -0x8000_0000 <= r < 0x8000_0000
    ensures (r - x) % 0x1_0000_0000 == 0
  {
    var m := x % 0x1_0000_0000;
    if m >= 0x8000_0000 then m - 0x1_0000_0000 else m
  }

  /** Wrapping an intermediate result does not change the final one, so two
      wrapping steps (`x *= 10; x += d`) give the wrap of the exact sum. */
  lemma ToInt32Add(a: int, d: int)
    ensures ToInt32(ToInt32(a) + d) == ToInt32(a + d)
  {
    var r := ToInt32(a);
    var k := (r - a) / 0x1_0000_0000;
    assert r - a == k * 0x1_0000_0000;
    assert (r + d) % 0x1_0000_0000 == (a + d) % 0x1_0000_0000;
  }

  /** A value already in the signed 32-bit range is what `ToInt32` makes of
      its unsigned 32-bit pattern. */
  lemma ToInt32Signed(v: int)
    requires -0x8000_0000 <= v < 0x8000_0000
    ensures ToInt32(v % 0x1_0000_0000) == v
  {
    var u := v % 0x1_0000_0000;
    if v >= 0 {
      DivMod(0, v, 0x1_0000_0000);
    } else {
      DivMod(-1, v + 0x1_0000_0000, 0x1_0000_0000);
    }
    DivMod(0, u, 0x1_0000_0000);
  }
}
