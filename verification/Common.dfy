/** Types the models of the separate components share. */
module Common {

  /** An unsigned byte, kept inside the integers so that sums of bytes do not wrap silently. */
  type Byte = b: int | 0 <= b < 256

  datatype Option<+T> = None | Some(value: T)

  datatype Result<+T, +E> = Ok(value: T) | Err(error: E)

  /** The number of values of a 32-bit word; unsigned 32-bit sums are written modulo it. */
  const WORD: nat := 0x1_0000_0000

  const I32_MAX: int := 0x7FFF_FFFF
  const I32_MIN: int := -0x8000_0000
  const U32_MAX: nat := 0xFFFF_FFFF
  const U64_MAX: nat := 0xFFFF_FFFF_FFFF_FFFF

  /** Counting up in an unsigned 64-bit counter that stops at its top. */
  function SaturatingCount(n: nat): nat { if n < U64_MAX then n else U64_MAX }

  /** A product grows with either factor. */
  lemma {:induction false} ProductGrows(a: nat, b: nat, c: nat)
    requires a <= b
    ensures a * c <= b * c && c * a <= c * b
    decreases b
  {
    if a < b { ProductGrows(a, b - 1, c); }
  }

  /** How a quotient lies to what it divides. */
  lemma DividesTo(n: nat, d: nat)
    requires d > 0
    ensures d * (n / d) <= n < d * (n / d) + d
  {
  }

  lemma QuotientIs(n: nat, d: nat, q: nat)
    requires d * q <= n < d * q + d
    ensures n / d == q
  {
    DividesTo(n, d);
    if n / d < q { ProductGrows(n / d + 1, q, d); }
    if n / d > q { ProductGrows(q + 1, n / d, d); }
  }

  type U32 = v: int | 0 <= v < 0x1_0000_0000

  datatype Order = Little | Big

  /** A word's four bytes, in a byte order. */
  function Word(order: Order, v: U32): (b: seq<Byte>)
    ensures |b| == 4
  {
    var little := [v % 256, v / 256 % 256, v / 65536 % 256, v / 16777216];
    if order.Little? then little else [little[3], little[2], little[1], little[0]]
  }

  function WordOf(order: Order, b: seq<Byte>): U32
    requires |b| == 4
  {
    var c: seq<int> := if order.Little? then b else [b[3], b[2], b[1], b[0]];
    c[0] + 256 * c[1] + 65536 * c[2] + 16777216 * c[3]
  }

  lemma WordBack(order: Order, v: U32)
    ensures WordOf(order, Word(order, v)) == v
  {
    assert v == v % 256 + 256 * (v / 256);
    assert v / 256 == v / 256 % 256 + 256 * (v / 65536) by { assert v / 256 / 256 == v / 65536; }
    assert v / 65536 == v / 65536 % 256 + 256 * (v / 16777216) by { assert v / 65536 / 256 == v / 16777216; }
  }

  function Concat(parts: seq<seq<Byte>>): seq<Byte> {
    if parts == [] then [] else parts[0] + Concat(parts[1..])
  }

  lemma {:induction false} ConcatAppend(parts: seq<seq<Byte>>, last: seq<Byte>)
    ensures Concat(parts + [last]) == Concat(parts) + last
    decreases |parts|
  {
    if parts == [] {
      assert [last][1..] == [];
    } else {
      assert (parts + [last])[1..] == parts[1..] + [last];
      ConcatAppend(parts[1..], last);
    }
  }

  /** Which way round a word's bytes go. */
  lemma WordBytes(v: U32)
    ensures var b: seq<int> := Word(Little, v); v == b[0] + 0x100 * b[1] + 0x1_0000 * b[2] + 0x100_0000 * b[3]
    ensures var b: seq<int> := Word(Big, v); v == b[3] + 0x100 * b[2] + 0x1_0000 * b[1] + 0x100_0000 * b[0]
  {
    WordBack(Little, v);
    WordBack(Big, v);
  }
}
