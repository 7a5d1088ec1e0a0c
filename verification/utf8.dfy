/** UTF-8, the encoding behind Rust's `String::as_bytes`. Dafny characters are
    Unicode scalar values, so every string has exactly one UTF-8 encoding. */
module Utf8 {
  import opened Bytes
  import opened Options

  predicate IsContinuation(b: byte) {
    0x80 <= b < 0xC0
  }

  /** The bytes of one scalar value, 1 to 4 of them (section 3 of RFC 3629). */
  function EncodeChar(c: char): (r: seq<byte>)
    ensures 1 <= |r| <= 4
    ensures |r| == 1 <==> c as int < 0x80
    ensures |r| == 1 ==> r[0] == c as int
    ensures |r| > 1 ==> 0xC2 <= r[0] < 0xF5 && forall i :: 1 <= i < |r| ==> IsContinuation(r[i])
  {
    var v := c as int;
    if v < 0x80 then [v]
    else if v < 0x800 then [0xC0 + v / 0x40, 0x80 + v % 0x40]
    else if v < 0x1_0000 then [0xE0 + v / 0x1000, 0x80 + (v / 0x40) % 0x40, 0x80 + v % 0x40]
    else [0xF0 + v / 0x4_0000, 0x80 + (v / 0x1000) % 0x40, 0x80 + (v / 0x40) % 0x40, 0x80 + v % 0x40]
  }

  /** `String::as_bytes`: the characters' encodings, in order. */
  function Encode(s: string): seq<byte>
  {
    if |s| == 0 then [] else EncodeChar(s[0]) + Encode(s[1..])
  }

  /** Reads one scalar value from the front of `bs`, with the number of bytes it
      occupies; rejects overlong forms, surrogates and values above U+10FFFF. */
  function DecodeFirst(bs: seq<byte>): (r: Option<(char, nat)>)
    ensures r.Some? ==> 1 <= r.value.1 <= |bs|
  {
    if |bs| == 0 then None
    else if bs[0] < 0x80 then Some((bs[0] as char, 1))
    else if 0xC2 <= bs[0] < 0xE0 then
      if |bs| < 2 || !IsContinuation(bs[1]) then None
      else
        var v := (bs[0] as int - 0xC0) * 0x40 + (bs[1] as int - 0x80);
        Some((v as char, 2))
    else if 0xE0 <= bs[0] < 0xF0 then
      if |bs| < 3 || !IsContinuation(bs[1]) || !IsContinuation(bs[2]) then None
      else
        var v := (bs[0] as int - 0xE0) * 0x1000 + (bs[1] as int - 0x80) * 0x40 + (bs[2] as int - 0x80);
        if v < 0x800 || (0xD800 <= v < 0xE000) then None else Some((v as char, 3))
    else if 0xF0 <= bs[0] < 0xF5 then
      if |bs| < 4 || !IsContinuation(bs[1]) || !IsContinuation(bs[2]) || !IsContinuation(bs[3]) then None
      else
        var v := (bs[0] as int - 0xF0) * 0x4_0000 + (bs[1] as int - 0x80) * 0x1000 + (bs[2] as int - 0x80) * 0x40 + (bs[3] as int - 0x80);
        if v < 0x1_0000 || v >= 0x11_0000 then None else Some((v as char, 4))
    else None
  }

  function Decode(bs: seq<byte>): Option<string>
    decreases |bs|
  {
    if |bs| == 0 then Some("")
    else match DecodeFirst(bs)
      case None => None
      case Some((c, n)) =>
        match Decode(bs[n..])
        case None => None
        case Some(s) => Some([c] + s)
  }

  /** Encoding distributes over concatenation. */
  lemma {:induction false} EncodeAppend(a: string, b: string)
    ensures Encode(a + b) == Encode(a) + Encode(b)
    decreases |a|
  {
    if |a| == 0 {
      assert a + b == b;
    } else {
      assert (a + b)[1..] == a[1..] + b;
      EncodeAppend(a[1..], b);
    }
  }

  /** Each character takes one to four bytes. */
  lemma {:induction false} EncodeLength(s: string)
    ensures |s| <= |Encode(s)| <= 4 * |s|
    decreases |s|
  {
    if |s| > 0 {
      EncodeLength(s[1..]);
    }
  }

  /** An ASCII byte occurs in the encoding exactly when its character occurs in the
      string: the bytes of non-ASCII characters are all 0x80 or above. */
  lemma {:induction false} AsciiByteIn(s: string, a: char)
    requires a as int < 0x80
    ensures (a as int in Encode(s)) <==> a in s
    decreases |s|
  {
    if |s| > 0 {
      AsciiByteIn(s[1..], a);
      assert s == [s[0]] + s[1..];
      assert Encode(s) == EncodeChar(s[0]) + Encode(s[1..]);
      if s[0] != a {
        assert a as int !in EncodeChar(s[0]);
      }
    }
  }

  lemma DecodeEncodeTwo(c: char, rest: seq<byte>)
    requires 0x80 <= c as int < 0x800
    ensures DecodeFirst(EncodeChar(c) + rest) == Some((c, 2))
  {
    var v := c as int;
    var q, r := v / 0x40, v % 0x40;
    assert v == q * 0x40 + r;
    assert 2 <= q < 0x20;
    var bs := EncodeChar(c) + rest;
    assert bs[0] == 0xC0 + q && bs[1] == 0x80 + r;
    assert (bs[0] as int - 0xC0) * 0x40 + (bs[1] as int - 0x80) == v;
  }

  /** Base-64 digits of a value below 0x4_0000, most significant first. */
  lemma Digits64(m: int) returns (d2: int, d1: int, d0: int)
    requires 0 <= m < 0x4_0000
    ensures 0 <= d2 < 0x40 && 0 <= d1 < 0x40 && 0 <= d0 < 0x40
    ensures m == d2 * 0x1000 + d1 * 0x40 + d0
    ensures d2 == m / 0x1000 && d1 == (m / 0x40) % 0x40 && d0 == m % 0x40
  {
    d2 := m / 0x1000;
    var n := m % 0x1000;
    d1, d0 := n / 0x40, n % 0x40;
    assert m == d2 * 0x1000 + n;
    assert n == d1 * 0x40 + d0;
  }

  lemma DecodeEncodeThree(c: char, rest: seq<byte>)
    requires 0x800 <= c as int < 0x1_0000
    ensures DecodeFirst(EncodeChar(c) + rest) == Some((c, 3))
  {
    var v := c as int;
    var d2, d1, d0 := Digits64(v);
    var bs := EncodeChar(c) + rest;
    assert bs[0] == 0xE0 + d2 && bs[1] == 0x80 + d1 && bs[2] == 0x80 + d0;
  }

  lemma DivMod64(a: int, b: int)
    requires 0 <= b < 0x40
    ensures (a * 0x40 + b) / 0x40 == a && (a * 0x40 + b) % 0x40 == b
  {
  }

  lemma DivMod4096(a: int, b: int)
    requires 0 <= b < 0x1000
    ensures (a * 0x1000 + b) / 0x1000 == a
  {
  }

  lemma DecodeEncodeFour(c: char, rest: seq<byte>)
    requires 0x1_0000 <= c as int
    ensures DecodeFirst(EncodeChar(c) + rest) == Some((c, 4))
  {
    var v := c as int;
    assert v < 0x11_0000;
    var q, m := v / 0x4_0000, v % 0x4_0000;
    assert v == q * 0x4_0000 + m;
    var d2, d1, d0 := Digits64(m);
    DivMod4096(q * 0x40 + d2, d1 * 0x40 + d0);
    assert v == (q * 0x40 + d2) * 0x1000 + (d1 * 0x40 + d0);
    DivMod64(q, d2);
    DivMod64(q * 0x1000 + d2 * 0x40 + d1, d0);
    assert v == (q * 0x1000 + d2 * 0x40 + d1) * 0x40 + d0;
    DivMod64(q * 0x40 + d2, d1);
    assert q * 0x1000 + d2 * 0x40 + d1 == (q * 0x40 + d2) * 0x40 + d1;
    var bs := EncodeChar(c) + rest;
    assert bs[0] == 0xF0 + q && bs[1] == 0x80 + d2 && bs[2] == 0x80 + d1 && bs[3] == 0x80 + d0;
  }

  lemma DecodeEncodeChar(c: char, rest: seq<byte>)
    ensures DecodeFirst(EncodeChar(c) + rest) == Some((c, |EncodeChar(c)|))
  {
    var v := c as int;
    if v < 0x80 {
    } else if v < 0x800 {
      DecodeEncodeTwo(c, rest);
    } else if v < 0x1_0000 {
      DecodeEncodeThree(c, rest);
    } else {
      DecodeEncodeFour(c, rest);
    }
  }

  /** Decoding inverts encoding, so the encoding loses nothing of the string. */
  lemma {:induction false} DecodeEncode(s: string)
    ensures Decode(Encode(s)) == Some(s)
    decreases |s|
  {
    if |s| > 0 {
      var e := EncodeChar(s[0]);
      DecodeEncodeChar(s[0], Encode(s[1..]));
      assert Encode(s)[|e|..] == Encode(s[1..]);
      DecodeEncode(s[1..]);
      assert s == [s[0]] + s[1..];
    }
  }

  /** Two strings with the same encoding are the same string. */
  lemma EncodeInjective(a: string, b: string)
    requires Encode(a) == Encode(b)
    ensures a == b
  {
    DecodeEncode(a);
    DecodeEncode(b);
  }

  lemma EncodeDecodeTwo(bs: seq<byte>)
    requires DecodeFirst(bs).Some? && DecodeFirst(bs).value.1 == 2
    ensures EncodeChar(DecodeFirst(bs).value.0) == bs[..2]
  {
    var v := DecodeFirst(bs).value.0 as int;
    var x, y := bs[0] as int - 0xC0, bs[1] as int - 0x80;
    assert v == x * 0x40 + y;
    DivMod64(x, y);
  }

  lemma EncodeDecodeThree(bs: seq<byte>)
    requires DecodeFirst(bs).Some? && DecodeFirst(bs).value.1 == 3
    ensures EncodeChar(DecodeFirst(bs).value.0) == bs[..3]
  {
    var v := DecodeFirst(bs).value.0 as int;
    var x, y, z := bs[0] as int - 0xE0, bs[1] as int - 0x80, bs[2] as int - 0x80;
    assert v == x * 0x1000 + y * 0x40 + z;
    DivMod4096(x, y * 0x40 + z);
    assert v == (x * 0x40 + y) * 0x40 + z;
    DivMod64(x * 0x40 + y, z);
    DivMod64(x, y);
  }

  lemma EncodeDecodeFour(bs: seq<byte>)
    requires DecodeFirst(bs).Some? && DecodeFirst(bs).value.1 == 4
    ensures EncodeChar(DecodeFirst(bs).value.0) == bs[..4]
  {
    var v := DecodeFirst(bs).value.0 as int;
    var w, x := bs[0] as int - 0xF0, bs[1] as int - 0x80;
    var y, z := bs[2] as int - 0x80, bs[3] as int - 0x80;
    assert v == w * 0x4_0000 + x * 0x1000 + y * 0x40 + z;
    assert v == (w * 0x40 + x) * 0x1000 + (y * 0x40 + z);
    DivMod4096(w * 0x40 + x, y * 0x40 + z);
    DivMod64(w, x);
    assert v == ((w * 0x40 + x) * 0x40 + y) * 0x40 + z;
    DivMod64((w * 0x40 + x) * 0x40 + y, z);
    DivMod64(w * 0x40 + x, y);
    assert v / 0x4_0000 == w;
  }

  lemma EncodeDecodeFirst(bs: seq<byte>)
    requires DecodeFirst(bs).Some?
    ensures EncodeChar(DecodeFirst(bs).value.0) == bs[..DecodeFirst(bs).value.1]
  {
    var n := DecodeFirst(bs).value.1;
    if n == 2 {
      EncodeDecodeTwo(bs);
    } else if n == 3 {
      EncodeDecodeThree(bs);
    } else if n == 4 {
      EncodeDecodeFour(bs);
    }
  }

  /** Whatever decodes, re-encodes to the very same bytes: no two byte strings
      decode to the same text. */
  lemma {:induction false} EncodeDecode(bs: seq<byte>)
    requires Decode(bs).Some?
    ensures Encode(Decode(bs).value) == bs
    decreases |bs|
  {
    if |bs| > 0 {
      var (c, n) := DecodeFirst(bs).value;
      var tail := Decode(bs[n..]).value;
      assert Decode(bs).value == [c] + tail;
      EncodeDecodeFirst(bs);
      EncodeDecode(bs[n..]);
      assert ([c] + tail)[1..] == tail;
      assert Encode([c] + tail) == bs[..n] + bs[n..];
      assert bs == bs[..n] + bs[n..];
    }
  }
}
