/** Option and Result, used for the NULL buffers and the error exits of the modelled code. */
module Wrappers {

  datatype Option<+T> = None | Some(value: T)

  datatype Result<+T, +E> = Ok(value: T) | Err(error: E)
}

/** Octets, unsigned words and the big-endian reads the dissectors perform. */
module Octets {

  type Byte = x: int | 0 <= x < 0x100
  type U16 = x: int | 0 <= x < 0x1_0000
  type U32 = x: int | 0 <= x < 0x1_0000_0000
  type U64 = x: int | 0 <= x < 0x1_0000_0000_0000_0000
  type I64 = x: int | -0x8000_0000_0000_0000 <= x < 0x8000_0000_0000_0000


  /** tvb_get_ntohs: the big-endian 16-bit word at `offset`. */
  function GetNtohs(s: seq<Byte>, offset: nat): (v: U16)
    requires offset + 2 <= |s|
  {
    (s[offset] as int) * 0x100 + s[offset + 1]
  }

  /** The two octets a big-endian 16-bit word is sent as. */
  function PutNtohs(v: U16): (s: seq<Byte>)
    ensures |s| == 2
  {
    [v / 0x100, v % 0x100]
  }

  /** Reading back a written word gives the word; the octets determine the word. */
  lemma {:induction false} NtohsRoundTrip(v: U16, s: seq<Byte>)
    ensures GetNtohs(PutNtohs(v), 0) == v
    ensures |s| == 2 ==> PutNtohs(GetNtohs(s, 0)) == s
  {
  }

  /** Conversion of a C integer value to an unsigned 64-bit word (two's complement wrap). */
  function ToU64(x: int): (r: U64)
    ensures 0 <= x < 0x1_0000_0000_0000_0000 ==> r == x
    ensures (r - x) % 0x1_0000_0000_0000_0000 == 0
  {
    x % 0x1_0000_0000_0000_0000
  }

  /** Addition on guint64, which wraps. */
  function AddU64(a: int, b: int): (r: U64)
    ensures 0 <= a && 0 <= b && a + b < 0x1_0000_0000_0000_0000 ==> r == a + b
  {
    (a + b) % 0x1_0000_0000_0000_0000
  }

  /** The low 32 bits of a word read as a gint32, as the `(gint32)` casts do. */
  function AsInt32(x: int): (r: int)
    ensures -0x8000_0000 <= r < 0x8000_0000
    ensures (r - x) % 0x1_0000_0000 == 0
  {
    var w := x % 0x1_0000_0000;
    if w < 0x8000_0000 then w else w - 0x1_0000_0000
  }

  /** A 64-bit word read as a gint64, as the `(gint64)` casts do. */
  function AsInt64(x: int): (r: int)
    ensures -0x8000_0000_0000_0000 <= r < 0x8000_0000_0000_0000
    ensures (r - x) % 0x1_0000_0000_0000_0000 == 0
  {
    var w := x % 0x1_0000_0000_0000_0000;
    if w < 0x8000_0000_0000_0000 then w else w - 0x1_0000_0000_0000_0000
  }

  /** A signed 32-bit value survives the trip through a guint64 and back through `(gint32)`. */
  lemma {:induction false} Int32ThroughU64(v: int)
    requires -0x8000_0000 <= v < 0x8000_0000
    ensures AsInt32(ToU64(v)) == v
  {
  }

  /** A signed 64-bit value survives the trip through a guint64 and back through `(gint64)`. */
  lemma {:induction false} Int64ThroughU64(v: int)
    requires -0x8000_0000_0000_0000 <= v < 0x8000_0000_0000_0000
    ensures AsInt64(ToU64(v)) == v
  {
  }

  lemma {:induction false} MulAtLeast(x: int, d: int)
    requires x >= 1 && d > 0
    ensures x * d >= d
  {
  }

  /** Euclidean division is unique: a quotient and remainder that rebuild `x` are `x / d` and `x % d`. */
  lemma {:induction false} DivModUnique(x: int, d: int, q: int, r: int)
    requires d > 0 && 0 <= r < d && x == q * d + r
    ensures x / d == q && x % d == r
  {
    var q', r' := x / d, x % d;
    assert (q - q') * d == r' - r;
    if q > q' {
      MulAtLeast(q - q', d);
    } else if q < q' {
      MulAtLeast(q' - q, d);
    }
  }
}
