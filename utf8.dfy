/**
 * UTF-8 encoding of Unicode scalar values (section 3 of RFC 3629): what
 * `Buffer.from(string)` does to the rendered script before it is base64
 * encoded.  A Dafny `char` is a scalar value, so no surrogate can occur.
 */
module Utf8 {
  import opened Wrappers
  import opened Bytes

  predicate IsContinuation(b: byte) {
    0x80 <= b < 0xC0
  }

  /** The one to four bytes that encode one scalar value. */
  function EncodeChar(c: char): (r: seq<byte>)
    ensures 1 <= |r| <= 4
    ensures |r| == 1 <==> c as int < 0x80
    ensures forall i :: 1 <= i < |r| ==> IsContinuation(r[i])
  {
    var v := c as int;
    if v < 0x80 then [v]
    else if v < 0x800 then [0xC0 + v / 64, 0x80 + v % 64]
    else if v < 0x1_0000 then [0xE0 + v / 4096, 0x80 + (v / 64) % 64, 0x80 + v % 64]
    else [0xF0 + v / 262144, 0x80 + (v / 4096) % 64, 0x80 + (v / 64) % 64, 0x80 + v % 64]
  }

  function Encode(s: string): (r: seq<byte>)
    ensures |s| <= |r| <= 4 * |s|
    decreases |s|
  {
    if s == [] then [] else EncodeChar(s[0]) + Encode(s[1..])
  }

  /** The number of bytes a sequence starting with leading byte `b` takes. */
  function SequenceLength(b: byte): nat {
    if b < 0x80 then 1
    else if 0xC2 <= b < 0xE0 then 2
    else if 0xE0 <= b < 0xF0 then 3
    else if 0xF0 <= b < 0xF5 then 4
    else 0
  }

  predicate IsScalarValue(v: int) {
    0 <= v < 0xD800 || 0xE000 <= v < 0x11_0000
  }

  /**
   * Decodes the one sequence at the start of `b`, if it is well formed:
   * a valid leading byte, enough continuation bytes, no overlong form and
   * no surrogate.
   */
  function DecodeChar(b: seq<byte>): (r: Option<(char, nat)>)
    requires |b| > 0
    ensures r.Some? ==> 1 <= r.value.1 <= |b|
  {
    var n := SequenceLength(b[0]);
    if n == 0 || |b| < n then None
    else if exists i :: 1 <= i < n && !IsContinuation(b[i]) then None
    else
      var v: int :=
        if n == 1 then b[0] as int
        else if n == 2 then (b[0] as int - 0xC0) * 64 + (b[1] as int - 0x80)
        else if n == 3 then (b[0] as int - 0xE0) * 4096 + (b[1] as int - 0x80) * 64 + (b[2] as int - 0x80)
        else (b[0] as int - 0xF0) * 262144 + (b[1] as int - 0x80) * 4096 + (b[2] as int - 0x80) * 64 + (b[3] as int - 0x80);
      if IsScalarValue(v) && (n == 3 ==> v >= 0x800) && (n == 4 ==> v >= 0x1_0000) then Some((v as char, n))
      else None
  }

  function Decode(b: seq<byte>): (r: Option<string>)
    decreases |b|
  {
    if b == [] then Some([])
    else
      match DecodeChar(b)
      case None => None
      case Some((c, n)) =>
        match Decode(b[n..])
        case None => None
        case Some(rest) => Some([c] + rest)
  }

  /** Base-64 digits of a value below 64^3 and 64^4, the payload bits of a multi-byte sequence. */
  lemma Digits3(x0: int, x1: int, x2: int)
    requires 0 <= x0 < 16 && 0 <= x1 < 64 && 0 <= x2 < 64
    ensures var v := x0 * 4096 + x1 * 64 + x2;
      v / 4096 == x0 && (v / 64) % 64 == x1 && v % 64 == x2
  {
    var v := x0 * 4096 + x1 * 64 + x2;
    assert v / 64 == x0 * 64 + x1;
    assert v / 4096 == x0;
  }

  lemma Digits4(x0: int, x1: int, x2: int, x3: int)
    requires 0 <= x0 < 8 && 0 <= x1 < 64 && 0 <= x2 < 64 && 0 <= x3 < 64
    ensures var v := x0 * 262144 + x1 * 4096 + x2 * 64 + x3;
      v / 262144 == x0 && (v / 4096) % 64 == x1 && (v / 64) % 64 == x2 && v % 64 == x3
  {
    var v := x0 * 262144 + x1 * 4096 + x2 * 64 + x3;
    assert v / 64 == x0 * 4096 + x1 * 64 + x2;
    assert v / 4096 == x0 * 64 + x1;
    assert v / 262144 == x0;
  }

  lemma Split3(v: int)
    requires 0 <= v < 0x1_0000
    ensures v == (v / 4096) * 4096 + ((v / 64) % 64) * 64 + v % 64
  {
    Digits3(v / 4096, (v / 64) % 64, v % 64);
    var q := v / 64;
    assert q == (q / 64) * 64 + q % 64;
    assert v / 4096 == q / 64;
  }

  lemma Split4(v: int)
    requires 0 <= v < 0x20_0000
    ensures v == (v / 262144) * 262144 + ((v / 4096) % 64) * 4096 + ((v / 64) % 64) * 64 + v % 64
  {
    var q := v / 64;
    assert v == q * 64 + v % 64;
    Split3(q);
    assert q / 4096 == v / 262144;
    assert q / 64 == v / 4096;
  }

  lemma DecodeEncodeChar(c: char, tail: seq<byte>)
    ensures DecodeChar(EncodeChar(c) + tail) == Some((c, |EncodeChar(c)|))
  {
    var v := c as int;
    var e := EncodeChar(c);
    var b := e + tail;
    assert b[..|e|] == e;
    if v < 0x80 {
    } else if v < 0x800 {
      assert v == (v / 64) * 64 + v % 64;
    } else if v < 0x1_0000 {
      Split3(v);
    } else {
      Split4(v);
    }
  }

  /** Decoding the UTF-8 form of a string gives the string back. */
  lemma {:induction false} DecodeEncode(s: string)
    ensures Decode(Encode(s)) == Some(s)
    decreases |s|
  {
    if s != [] {
      var e, rest := EncodeChar(s[0]), Encode(s[1..]);
      assert Encode(s) == e + rest;
      DecodeEncodeChar(s[0], rest);
      assert (e + rest)[|e|..] == rest;
      DecodeEncode(s[1..]);
      assert s == [s[0]] + s[1..];
    }
  }

  /** On ASCII text, UTF-8 is the identity on code points. */
  lemma {:induction false} EncodeAscii(s: string)
    requires forall i :: 0 <= i < |s| ==> s[i] as int < 0x80
    ensures |Encode(s)| == |s|
    ensures forall i :: 0 <= i < |s| ==> Encode(s)[i] == s[i] as int
    decreases |s|
  {
    if s != [] {
      EncodeAscii(s[1..]);
    }
  }

  lemma EncodeDecodeChar(b: seq<byte>)
    requires |b| > 0 && DecodeChar(b).Some?
    ensures var (c, n) := DecodeChar(b).value; EncodeChar(c) == b[..n]
  {
    var (c, n) := DecodeChar(b).value;
    var v := c as int;
    assert forall i :: 1 <= i < n ==> IsContinuation(b[i]);
    if n == 1 {
      assert v < 0x80 && b[..1] == [b[0]];
    } else if n == 2 {
      assert IsContinuation(b[1]);
      assert v == (b[0] as int - 0xC0) * 64 + (b[1] as int - 0x80);
      assert 0x80 <= v < 0x800;
      assert b[..2] == [b[0], b[1]];
    } else if n == 3 {
      assert IsContinuation(b[1]) && IsContinuation(b[2]);
      assert v == (b[0] as int - 0xE0) * 4096 + (b[1] as int - 0x80) * 64 + (b[2] as int - 0x80);
      Digits3(b[0] as int - 0xE0, b[1] as int - 0x80, b[2] as int - 0x80);
      assert 0x800 <= v < 0x1_0000;
      assert b[..3] == [b[0], b[1], b[2]];
    } else {
      assert IsContinuation(b[1]) && IsContinuation(b[2]) && IsContinuation(b[3]);
      assert v == (b[0] as int - 0xF0) * 262144 + (b[1] as int - 0x80) * 4096 + (b[2] as int - 0x80) * 64
                 + (b[3] as int - 0x80);
      Digits4(b[0] as int - 0xF0, b[1] as int - 0x80, b[2] as int - 0x80, b[3] as int - 0x80);
      assert 0x1_0000 <= v;
      assert b[..4] == [b[0], b[1], b[2], b[3]];
    }
  }

  /** Every byte string the decoder accepts is the UTF-8 form of its result. */
  lemma {:induction false} EncodeDecode(b: seq<byte>)
    requires Decode(b).Some?
    ensures Encode(Decode(b).value) == b
    decreases |b|
  {
    if b != [] {
      var (c, n) := DecodeChar(b).value;
      var rest := Decode(b[n..]).value;
      var s := [c] + rest;
      assert Decode(b).value == s;
      assert EncodeChar(c) == b[..n] by {
        EncodeDecodeChar(b);
      }
      assert Encode(rest) == b[n..] by {
        EncodeDecode(b[n..]);
      }
      assert s[0] == c && s[1..] == rest;
      assert Encode(s) == EncodeChar(c) + Encode(rest);
      assert b == b[..n] + b[n..];
    }
  }
}
