/**
 The unpadded base64url text of a byte string, against the decoder of section 5 of RFC 4648.

 The decoder works on groups of two to four characters and is strict: a character outside the
 alphabet, a group of one, or a spare bit that is set is refused. So encoder and decoder are
 inverse to each other both ways, and every byte string has exactly one text. The alphabet is
 written out in its three runs, of which the decoder only needs the ends.
 */
module Base64 {
  import opened Bytes
  import opened Wrappers

  const UPPER := "ABCDEFGHIJKLMNOPQRSTUVWXYZ"
  const LOWER := "abcdefghijklmnopqrstuvwxyz"
  const DIGITS := "0123456789"
  const TABLE := UPPER + LOWER + DIGITS + "-_"

  // ---- The encoder ---------------------------------------------------------

  function At(data: seq<Byte>, i: nat): (b: int)
    ensures 0 <= b < 256
  {
    if i < |data| then data[i] as int else 0
  }

  method Base64Url(data: seq<Byte>) returns (out: string)
    ensures out == Encoded(data)
    ensures Decode(out) == Some(data)
  {
    out := EncodeAll(data);
    DecodesBack(data);
  }

  method EncodeAll(data: seq<Byte>) returns (out: string)
    ensures out == Encoded(data)
  {
    out := "";
    ghost var whole := Encoded(data);
    var p := 0;
    assert data[p..] == data;
    while p < |data|
      invariant p <= |data|
      invariant whole == out + Encoded(data[p..])
    {
      var q := Least(p + 3, |data|);
      EncodedStep(data, p, out, whole);
      out := PushChunk(out, data[p..q]);
      p := q;
    }
  }

  lemma EncodedStep(data: seq<Byte>, p: nat, out: string, whole: string)
    requires p < |data| && whole == out + Encoded(data[p..])
    ensures var q := Least(p + 3, |data|);
      whole == out + EncodeChunk(data[p..q]) + Encoded(data[q..])
  {
    var rest, n := data[p..], Least(3, |data| - p);
    var q := p + n;
    assert rest[..n] == data[p..q] && rest[n..] == data[q..];
    Associative(out, EncodeChunk(rest[..n]), Encoded(rest[n..]));
  }

  lemma Associative(a: string, b: string, c: string)
    ensures a + (b + c) == a + b + c
  {
  }

  /** Two characters always, a third for a second byte, a fourth for a third byte. */
  method PushChunk(out: string, chunk: seq<Byte>) returns (out': string)
    requires 1 <= |chunk| <= 3
    ensures out' == out + EncodeChunk(chunk)
  {
    var value: int := At(chunk, 0) * 65536 + At(chunk, 1) * 256 + At(chunk, 2);
    TableLayout(0);
    out' := out + [TABLE[value / 262144 % 64]];
    out' := out' + [TABLE[value / 4096 % 64]];
    if |chunk| > 1 {
      out' := out' + [TABLE[value / 64 % 64]];
    }
    if |chunk| > 2 {
      out' := out' + [TABLE[value % 64]];
    }
  }

  function Least(a: nat, b: nat): nat {
    if a <= b then a else b
  }

  /** The text of one chunk of one to three bytes. */
  function EncodeChunk(chunk: seq<Byte>): (text: string)
    requires 1 <= |chunk| <= 3
    ensures |text| == |chunk| + 1
  {
    var ds := Sextets(chunk);
    seq(|ds|, i requires 0 <= i < |ds| => TABLE[ds[i]])
  }

  function Encoded(data: seq<Byte>): (text: string) {
    if data == [] then ""
    else
      var n := Least(3, |data|);
      EncodeChunk(data[..n]) + Encoded(data[n..])
  }

  // ---- The decoder ---------------------------------------------------------

  /** The value of a character of the URL-safe alphabet. */
  function Digit(c: char): (v: Option<nat>)
    ensures v.Some? ==> v.value < 64
  {
    if 'A' <= c <= 'Z' then Some(c as int - 'A' as int)
    else if 'a' <= c <= 'z' then Some(c as int - 'a' as int + 26)
    else if '0' <= c <= '9' then Some(c as int - '0' as int + 52)
    else if c == '-' then Some(62)
    else if c == '_' then Some(63)
    else None
  }

  function Digits(text: string): (v: Option<seq<nat>>)
    ensures v.Some? ==> |v.value| == |text| && forall i | 0 <= i < |text| :: Digit(text[i]) == Some(v.value[i])
  {
    if text == "" then Some([])
    else match (Digit(text[0]), Digits(text[1..]))
      case (Some(d), Some(rest)) => Some([d] + rest)
      case _ => None
  }

  /** One group: two to four digits stand for one to three bytes; spare bits must be zero. */
  function DecodeGroup(d: seq<nat>): (v: Option<seq<Byte>>)
    requires forall i | 0 <= i < |d| :: d[i] < 64
  {
    if |d| == 4 then
      Some([Byte0(d), Byte1(d), (d[2] % 4 * 64 + d[3]) as Byte])
    else if |d| == 3 && d[2] % 4 == 0 then
      Some([Byte0(d), Byte1(d)])
    else if |d| == 2 && d[1] % 16 == 0 then
      Some([Byte0(d)])
    else None
  }

  function Byte0(d: seq<nat>): Byte
    requires |d| >= 2 && d[0] < 64 && d[1] < 64
  {
    (d[0] * 4 + d[1] / 16) as Byte
  }

  function Byte1(d: seq<nat>): Byte
    requires |d| >= 3 && d[1] < 64 && d[2] < 64
  {
    (d[1] % 16 * 16 + d[2] / 4) as Byte
  }

  function Decode(text: string): (v: Option<seq<Byte>>) {
    if text == "" then Some([])
    else
      var n := Least(4, |text|);
      match Digits(text[..n])
      case None => None
      case Some(d) =>
        match (DecodeGroup(d), Decode(text[n..]))
        case (Some(bytes), Some(rest)) => Some(bytes + rest)
        case _ => None
  }

  // ---- Each inverts the other ----------------------------------------------

  lemma TableLayout(i: nat)
    requires i < 64
    ensures |TABLE| == 64
    ensures TABLE[i] == if i < 26 then UPPER[i] else if i < 52 then LOWER[i - 26] else if i < 62 then DIGITS[i - 52]
                        else if i == 62 then '-' else '_'
  {
  }

  lemma Upper(i: nat)
    requires i < 26
    ensures UPPER[i] as int == 'A' as int + i
  {
  }

  lemma Lower(i: nat)
    requires i < 26
    ensures LOWER[i] as int == 'a' as int + i
  {
  }

  lemma Figure(i: nat)
    requires i < 10
    ensures DIGITS[i] as int == '0' as int + i
  {
  }

  lemma TableDigit(i: nat)
    requires i < 64
    ensures |TABLE| == 64 && Digit(TABLE[i]) == Some(i)
  {
    TableLayout(i);
    if i < 26 {
      Upper(i);
    } else if i < 52 {
      Lower(i - 26);
    } else if i < 62 {
      Figure(i - 52);
    }
  }

  lemma DigitTable(c: char)
    requires Digit(c).Some?
    ensures |TABLE| == 64 && TABLE[Digit(c).value] == c
  {
    var i := Digit(c).value;
    TableLayout(i);
    if i < 26 {
      Upper(i);
    } else if i < 52 {
      Lower(i - 26);
    } else if i < 62 {
      Figure(i - 52);
    }
  }

  lemma DigitsOfTable(ds: seq<nat>, text: string)
    requires |text| == |ds| && forall i | 0 <= i < |ds| :: Digit(text[i]) == Some(ds[i])
    ensures Digits(text) == Some(ds)
  {
    if ds == [] {
      assert text == "";
    } else {
      var rest: seq<nat> := ds[1..];
      DigitsOfTable(rest, text[1..]);
      assert [ds[0]] + rest == ds;
    }
  }

  /** The sextets of one chunk. */
  function Sextets(chunk: seq<Byte>): (ds: seq<nat>)
    requires 1 <= |chunk| <= 3
    ensures |ds| == |chunk| + 1 && forall i | 0 <= i < |ds| :: ds[i] < 64
  {
    var value: int := At(chunk, 0) * 65536 + At(chunk, 1) * 256 + At(chunk, 2);
    [value / 262144 % 64, value / 4096 % 64, value / 64 % 64, value % 64][..|chunk| + 1]
  }

  lemma SextetsDecode(chunk: seq<Byte>)
    requires 1 <= |chunk| <= 3
    ensures DecodeGroup(Sextets(chunk)) == Some(chunk)
  {
    var a, b, c := At(chunk, 0), At(chunk, 1), At(chunk, 2);
    var ds: seq<nat> := Sextets(chunk);
    SextetArithmetic(a, b, c);
    Rejoin(a, b, c, ds[0], ds[1], b % 16 * 4 + c / 64, c % 64);
    if |chunk| == 1 {
      assert chunk == [a as Byte];
    } else if |chunk| == 2 {
      assert chunk == [a as Byte, b as Byte];
    } else {
      assert chunk == [a as Byte, b as Byte, c as Byte];
    }
  }

  lemma Rejoin(a: int, b: int, c: int, d0: int, d1: int, d2: int, d3: int)
    requires 0 <= a < 256 && 0 <= b < 256 && 0 <= c < 256
    requires d0 == a / 4 && d1 == a % 4 * 16 + b / 16 && d2 == b % 16 * 4 + c / 64 && d3 == c % 64
    ensures d0 * 4 + d1 / 16 == a && d1 % 16 * 16 + d2 / 4 == b && d2 % 4 * 64 + d3 == c
    ensures b == 0 ==> d1 % 16 == 0
    ensures c == 0 ==> d2 % 4 == 0
  {
  }

  lemma SextetArithmetic(a: int, b: int, c: int)
    requires 0 <= a < 256 && 0 <= b < 256 && 0 <= c < 256
    ensures var value := a * 65536 + b * 256 + c;
      && value / 262144 % 64 == a / 4
      && value / 4096 % 64 == a % 4 * 16 + b / 16
      && value / 64 % 64 == b % 16 * 4 + c / 64
      && value % 64 == c % 64
  {
    Split262144(a / 4, a % 4 * 65536 + b * 256 + c);
    Split4096(a * 16 + b / 16, b % 16 * 256 + c);
    Split64(a / 4, a % 4 * 16 + b / 16);
    Split64(a * 1024 + b * 4 + c / 64, c % 64);
    Split64(a * 16 + b / 16, b % 16 * 4 + c / 64);
    Split64(0, a / 4);
  }

  lemma Split64(hi: int, lo: int)
    requires 0 <= lo < 64
    ensures (hi * 64 + lo) / 64 == hi && (hi * 64 + lo) % 64 == lo
  {
  }

  lemma Split4096(hi: int, lo: int)
    requires 0 <= lo < 4096
    ensures (hi * 4096 + lo) / 4096 == hi
  {
  }

  lemma Split262144(hi: int, lo: int)
    requires 0 <= lo < 262144
    ensures (hi * 262144 + lo) / 262144 == hi
  {
  }

  lemma ChunkDecodes(chunk: seq<Byte>)
    requires 1 <= |chunk| <= 3
    ensures Digits(EncodeChunk(chunk)) == Some(Sextets(chunk))
  {
    var ds: seq<nat>, text := Sextets(chunk), EncodeChunk(chunk);
    forall i | 0 <= i < |ds| ensures Digit(text[i]) == Some(ds[i]) {
      TableDigit(ds[i]);
    }
    DigitsOfTable(ds, text);
  }

  /** Decoding what was encoded gives the bytes back, for every length. */
  lemma {:induction false} DecodesBack(data: seq<Byte>)
    ensures Decode(Encoded(data)) == Some(data)
  {
    if data != [] {
      var n := Least(3, |data|);
      ChunkDecodes(data[..n]);
      SextetsDecode(data[..n]);
      DecodesBack(data[n..]);
      var text, head := Encoded(data), EncodeChunk(data[..n]);
      assert text == head + Encoded(data[n..]);
      if n < 3 {
        assert data[n..] == [];
      }
      assert text[..Least(4, |text|)] == head && text[Least(4, |text|)..] == Encoded(data[n..]);
      assert data[..n] + data[n..] == data;
    }
  }

  lemma GroupSextets(d: seq<nat>)
    requires 2 <= |d| <= 4 && forall i | 0 <= i < |d| :: d[i] < 64
    requires DecodeGroup(d).Some?
    ensures |DecodeGroup(d).value| == |d| - 1
    ensures Sextets(DecodeGroup(d).value) == d
  {
    var bytes := DecodeGroup(d).value;
    var d2: int := if |d| > 2 then d[2] else 0;
    var d3: int := if |d| > 3 then d[3] else 0;
    Resplit(d[0], d[1], d2, d3);
    SextetArithmetic(At(bytes, 0), At(bytes, 1), At(bytes, 2));
    var ds: seq<nat> := Sextets(bytes);
    if |d| == 2 {
      assert ds == [d[0], d[1]];
    } else if |d| == 3 {
      assert ds == [d[0], d[1], d[2]];
    } else {
      assert ds == [d[0], d[1], d[2], d[3]];
    }
  }

  lemma Resplit(d0: int, d1: int, d2: int, d3: int)
    requires 0 <= d0 < 64 && 0 <= d1 < 64 && 0 <= d2 < 64 && 0 <= d3 < 64
    ensures var a, b, c := d0 * 4 + d1 / 16, d1 % 16 * 16 + d2 / 4, d2 % 4 * 64 + d3;
      && a / 4 == d0 && a % 4 * 16 + b / 16 == d1 && b % 16 * 4 + c / 64 == d2 && c % 64 == d3
    ensures d1 % 16 == 0 ==> var a := d0 * 4 + d1 / 16; a % 4 * 16 == d1
    ensures d2 % 4 == 0 ==> var b := d1 % 16 * 16 + d2 / 4; b % 16 * 4 == d2
  {
  }

  /** The decoder accepts nothing but encodings: a text that decodes is the text of the bytes it decodes to. */
  lemma {:induction false} EncodesBack(text: string)
    requires Decode(text).Some?
    ensures Encoded(Decode(text).value) == text
  {
    if text != "" {
      var n := Least(4, |text|);
      var ds: seq<nat> := Digits(text[..n]).value;
      var bytes, rest := DecodeGroup(ds).value, Decode(text[n..]).value;
      GroupSextets(ds);
      var chunk := EncodeChunk(bytes);
      forall i | 0 <= i < n ensures chunk[i] == text[i] {
        DigitTable(text[i]);
      }
      assert chunk == text[..n];
      EncodesBack(text[n..]);
      if n < 4 {
        assert text[n..] == "";
      }
      var data := bytes + rest;
      assert data[..Least(3, |data|)] == bytes && data[Least(3, |data|)..] == rest;
      assert text[..n] + text[n..] == text;
    }
  }

  lemma DecodesGroup(text: string, d: seq<nat>, bytes: seq<Byte>)
    requires 2 <= |text| <= 4 && |d| == |text| && (forall i | 0 <= i < |d| :: d[i] < 64 && Digit(text[i]) == Some(d[i]))
    requires DecodeGroup(d) == Some(bytes)
    ensures Encoded(bytes) == text
  {
    DigitsOfTable(d, text);
    assert text[..|text|] == text && text[|text|..] == "";
    assert Decode(text[|text|..]) == Some([]);
    assert bytes + [] == bytes;
    EncodesBack(text);
  }

  /** Section 10 of RFC 4648: "f", "fo" and "foo"; and two bytes that show both characters of the URL-safe alphabet. */
  lemma TestVectors()
    ensures Encoded([0x66]) == "Zg" && Encoded([0x66, 0x6f]) == "Zm8" && Encoded([0x66, 0x6f, 0x6f]) == "Zm9v"
    ensures Encoded([0xfb, 0xff]) == "-_8"
  {
    hide Encoded;
    DecodesGroup("Zg", [25, 32], [0x66]);
    DecodesGroup("Zm8", [25, 38, 60], [0x66, 0x6f]);
    DecodesGroup("Zm9v", [25, 38, 61, 47], [0x66, 0x6f, 0x6f]);
    DecodesGroup("-_8", [62, 63, 60], [0xfb, 0xff]);
  }
}
