/**
 Bytes, and little-endian fields of a few bytes.

 A field is written by taking base-256 digits from the low end, which drops what does not fit.
 Reading a field adds the digits up again. The two invert each other up to the range of the
 field, wherever the field lies and whatever stands around it; the archive writer and the
 binary sidecars both rest on that.
 */
module Bytes {

  newtype Byte = b: int | 0 <= b < 256

  /** The low `width` bytes of a number, least significant first: writing truncates. */
  function Le(width: nat, v: nat): (b: seq<Byte>)
    ensures |b| == width
    decreases width, v
  {
    if width == 0 then [] else [(v % 256) as Byte] + Le(width - 1, v / 256)
  }

  /** The number in the field of `width` bytes at `at`. */
  function Get(b: seq<Byte>, at: nat, width: nat): (v: nat)
    requires at + width <= |b|
    decreases |b| - at
  {
    if width == 0 then 0 else b[at] as int + Get(b, at + 1, width - 1) * 256
  }

  /** One more than the largest number a field can hold. */
  function Range(width: nat): (r: nat)
    ensures r > 0
  {
    if width == 0 then 1 else Range(width - 1) * 256
  }

  lemma Ranges()
    ensures Range(2) == 0x1_0000 && Range(4) == 0x1_0000_0000
  {
    assert Range(0) == 1 && Range(1) == 256 && Range(3) == 0x100_0000;
  }

  /** A field is read from its low byte on, every following byte counting 256 times as much. */
  lemma LowByteReads(b: seq<Byte>, at: nat)
    ensures at + 2 <= |b| ==> Get(b, at, 2) == b[at] as int + 256 * b[at + 1] as int
    ensures at + 4 <= |b| ==>
              Get(b, at, 4) == b[at] as int + 0x100 * b[at + 1] as int + 0x1_0000 * b[at + 2] as int + 0x100_0000 * b[at + 3] as int
  {
    if at + 2 <= |b| {
      GetNext(b, at, 2);
      GetNext(b, at + 1, 1);
      GetNext(b, at + 2, 0);
    }
    if at + 4 <= |b| {
      GetNext(b, at, 4);
      GetNext(b, at + 1, 3);
      GetNext(b, at + 2, 2);
      GetNext(b, at + 3, 1);
      GetNext(b, at + 4, 0);
    }
  }

  lemma GetNext(b: seq<Byte>, at: nat, width: nat)
    requires at + width <= |b|
    ensures width == 0 ==> Get(b, at, width) == 0
    ensures width > 0 ==> Get(b, at, width) == b[at] as int + Get(b, at + 1, width - 1) * 256
  {
  }

  /** Reading back a written field gives the number modulo the range of the field. */
  lemma {:induction false} ReadsBack(head: seq<Byte>, width: nat, v: nat, tail: seq<Byte>)
    ensures Get(head + Le(width, v) + tail, |head|, width) == v % Range(width)
    decreases width
  {
    if width > 0 {
      var b := [(v % 256) as Byte];
      ReadsBack(head + b, width - 1, v / 256, tail);
      assert head + Le(width, v) + tail == (head + b) + Le(width - 1, v / 256) + tail;
      LowDigit(v, Range(width - 1));
    }
  }

  lemma FieldReads(b: seq<Byte>, at: nat, width: nat, v: nat)
    requires at + width <= |b| && forall k | 0 <= k < width :: b[at + k] == Le(width, v)[k]
    ensures Get(b, at, width) == v % Range(width)
  {
    assert b == b[..at] + Le(width, v) + b[at + width..];
    ReadsBack(b[..at], width, v, b[at + width..]);
  }

  lemma LowDigit(v: nat, m: nat)
    requires m > 0
    ensures v % (m * 256) == v % 256 + v / 256 % m * 256
  {
    var q, r := v / 256, v % 256;
    assert q == q / m * m + q % m;
    var rest := r + q % m * 256;
    assert v == (q / m) * (m * 256) + rest by {
      assert (q / m * m) * 256 == (q / m) * (m * 256);
    }
    assert 0 <= rest < m * 256;
    Remainder(v, m * 256, q / m, rest);
  }

  lemma Remainder(v: nat, d: nat, q: nat, r: nat)
    requires r < d && v == q * d + r
    ensures v % d == r
    decreases q
  {
    if q > 0 {
      assert v - d == (q - 1) * d + r;
      Remainder(v - d, d, q - 1, r);
      OneLess(v, d);
    }
  }

  lemma OneLess(v: nat, d: nat)
    requires 0 < d <= v
    ensures v % d == (v - d) % d
  {
    var q, p := v / d, (v - d) / d;
    assert v == q * d + v % d && v - d == p * d + (v - d) % d;
    assert (q - p - 1) * d == (v - d) % d - v % d;
    Multiple(q - p - 1, d);
  }

  lemma Multiple(x: int, d: int)
    requires d > 0
    ensures x >= 1 ==> x * d >= d
    ensures x <= -1 ==> x * d <= -d
  {
    if x >= 1 {
      assert x * d == d + (x - 1) * d;
    } else if x <= -1 {
      assert x * d == -d + (x + 1) * d;
    }
  }

  lemma Quotient(v: nat, d: nat, q: nat, r: nat)
    requires r < d && v == q * d + r
    ensures v / d == q
  {
    Remainder(v, d, q, r);
    assert v == v / d * d + v % d;
    assert (v / d - q) * d == 0;
    Multiple(v / d - q, d);
  }

  lemma DivideTwice(v: nat, m: nat)
    requires m > 0
    ensures v / 256 / m == v / (m * 256)
  {
    var q, r := v / 256, v % 256;
    assert q == q / m * m + q % m;
    assert (q / m * m) * 256 == q / m * (m * 256);
    Quotient(v, m * 256, q / m, q % m * 256 + r);
  }

  /** The low byte is written first, and every following byte counts 256 times as much. */
  lemma {:induction false} LowByteFirst(width: nat, v: nat, k: nat)
    requires k < width
    ensures Le(width, v)[k] as int == v / Range(k) % 256
    decreases k
  {
    if k > 0 {
      LowByteFirst(width - 1, v / 256, k - 1);
      DivideTwice(v, Range(k - 1));
    }
  }

  lemma {:induction false} GetBound(b: seq<Byte>, at: nat, width: nat)
    requires at + width <= |b|
    ensures Get(b, at, width) < Range(width)
    decreases width
  {
    if width > 0 {
      GetBound(b, at + 1, width - 1);
    }
  }

  /** A field inside a part is the same field inside the whole. */
  lemma {:induction false} Within(head: seq<Byte>, part: seq<Byte>, tail: seq<Byte>, at: nat, width: nat)
    requires at + width <= |part|
    ensures Get(head + part + tail, |head| + at, width) == Get(part, at, width)
    decreases width
  {
    if width > 0 {
      Within(head, part, tail, at + 1, width - 1);
    }
  }
}
