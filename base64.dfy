/**
 * Base 64 encoding with the standard alphabet and `=` padding, as in
 * section 4 of RFC 4648.  This is what Node's `Buffer.toString('base64')`
 * produces for the `UserData` field of the launch request.
 */
module Base64 {
  import opened Wrappers
  import opened Bytes

  type sextet = x: int | 0 <= x < 64

  const Pad: char := '='

  /** The character that stands for a 6-bit value (Table 1 of RFC 4648). */
  function CharOf(v: sextet): (c: char)
    ensures c != Pad
  {
    if v < 26 then ('A' as int + v) as char
    else if v < 52 then ('a' as int + (v - 26)) as char
    else if v < 62 then ('0' as int + (v - 52)) as char
    else if v == 62 then '+'
    else '/'
  }

  /** The 6-bit value a character stands for, if it is in the alphabet. */
  function ValueOf(c: char): (r: Option<sextet>)
    ensures r.Some? ==> CharOf(r.value) == c
  {
    if 'A' <= c <= 'Z' then Some(c as int - 'A' as int)
    else if 'a' <= c <= 'z' then Some(c as int - 'a' as int + 26)
    else if '0' <= c <= '9' then Some(c as int - '0' as int + 52)
    else if c == '+' then Some(62)
    else if c == '/' then Some(63)
    else None
  }

  lemma ValueOfCharOf(v: sextet)
    ensures ValueOf(CharOf(v)) == Some(v)
  {
  }

  predicate IsAlphabetChar(c: char) {
    ValueOf(c).Some?
  }

  /** Three bytes make four characters. */
  function EncodeBlock(b0: byte, b1: byte, b2: byte): (s: string)
    ensures |s| == 4
  {
    [CharOf(b0 / 4), CharOf((b0 % 4) * 16 + b1 / 16), CharOf((b1 % 16) * 4 + b2 / 64), CharOf(b2 % 64)]
  }

  /** A final group of one byte: two characters and two pad characters. */
  function EncodeFinal1(b0: byte): (s: string)
    ensures |s| == 4
  {
    [CharOf(b0 / 4), CharOf((b0 % 4) * 16), Pad, Pad]
  }

  /** A final group of two bytes: three characters and one pad character. */
  function EncodeFinal2(b0: byte, b1: byte): (s: string)
    ensures |s| == 4
  {
    [CharOf(b0 / 4), CharOf((b0 % 4) * 16 + b1 / 16), CharOf((b1 % 16) * 4), Pad]
  }

  /**
   * The encoding of a byte string.  Its length is 4 * ceil(n / 3), and
   * padding appears only at the end.
   */
  function Encode(b: seq<byte>): (s: string)
    ensures |s| == 4 * ((|b| + 2) / 3)
    ensures forall i :: 0 <= i < |s| ==> IsAlphabetChar(s[i]) || (s[i] == Pad && |s| - 2 <= i)
    decreases |b|
  {
    if |b| == 0 then []
    else if |b| == 1 then EncodeFinal1(b[0])
    else if |b| == 2 then EncodeFinal2(b[0], b[1])
    else EncodeBlock(b[0], b[1], b[2]) + Encode(b[3..])
  }

  /** The three bytes that four alphabet values carry. */
  function DecodeBlock(c0: sextet, c1: sextet, c2: sextet, c3: sextet): (r: seq<byte>)
    ensures |r| == 3
  {
    [c0 * 4 + c1 / 16, (c1 % 16) * 16 + c2 / 4, (c2 % 4) * 64 + c3]
  }

  /**
   * Decodes one group of four characters; `last` says whether it is the
   * final group, the only one where padding may appear.  The leftover bits
   * that a padded group cannot carry must be zero, so that every string the
   * decoder accepts is the encoding of what it returns.
   */
  function DecodeGroup(g: string, last: bool): (r: Option<seq<byte>>)
    requires |g| == 4
    ensures r.Some? ==> 1 <= |r.value| <= 3
    ensures r.Some? && |r.value| < 3 ==> last
  {
    var v0, v1, v2, v3 := ValueOf(g[0]), ValueOf(g[1]), ValueOf(g[2]), ValueOf(g[3]);
    if v0.None? || v1.None? then None
    else if v2.Some? && v3.Some? then Some(DecodeBlock(v0.value, v1.value, v2.value, v3.value))
    else if last && v2.Some? && g[3] == Pad && v2.value % 4 == 0 then
      Some([v0.value * 4 + v1.value / 16, (v1.value % 16) * 16 + v2.value / 4])
    else if last && g[2] == Pad && g[3] == Pad && v1.value % 16 == 0 then
      Some([v0.value * 4 + v1.value / 16])
    else None
  }

  /** Strict decoding: `None` for anything that is not an encoding. */
  function Decode(s: string): (r: Option<seq<byte>>)
    decreases |s|
  {
    if |s| == 0 then Some([])
    else if |s| < 4 then None
    else
      match DecodeGroup(s[..4], |s| == 4)
      case None => None
      case Some(g) =>
        if |g| < 3 then Some(g)
        else
          match Decode(s[4..])
          case None => None
          case Some(rest) => Some(g + rest)
  }

  /** Splitting a value built from a high and a low part at a power of two. */
  lemma SplitAt(hi: int, lo: int, k: int)
    requires k == 4 || k == 16 || k == 64
    requires 0 <= lo < k
    ensures (hi * k + lo) / k == hi && (hi * k + lo) % k == lo
  {
    if k == 4 {
      assert (hi * 4 + lo) / 4 == hi;
    } else if k == 16 {
      assert (hi * 16 + lo) / 16 == hi;
    } else {
      assert (hi * 64 + lo) / 64 == hi;
    }
  }

  /** The four values of an encoded block carry back the three bytes. */
  lemma BlockArith(b0: byte, b1: byte, b2: byte)
    ensures DecodeBlock(b0 / 4, (b0 % 4) * 16 + b1 / 16, (b1 % 16) * 4 + b2 / 64, b2 % 64) == [b0, b1, b2]
  {
    SplitAt(b0 % 4, b1 / 16, 16);
    SplitAt(b1 % 16, b2 / 64, 4);
  }

  lemma BlockRoundTrip(b0: byte, b1: byte, b2: byte, last: bool)
    ensures DecodeGroup(EncodeBlock(b0, b1, b2), last) == Some([b0, b1, b2])
  {
    var c0, c1, c2, c3 := b0 / 4, (b0 % 4) * 16 + b1 / 16, (b1 % 16) * 4 + b2 / 64, b2 % 64;
    var s := EncodeBlock(b0, b1, b2);
    assert s == [CharOf(c0), CharOf(c1), CharOf(c2), CharOf(c3)];
    ValueOfCharOf(c0);
    ValueOfCharOf(c1);
    ValueOfCharOf(c2);
    ValueOfCharOf(c3);
    assert DecodeGroup(s, last) == Some(DecodeBlock(c0, c1, c2, c3));
    BlockArith(b0, b1, b2);
  }

  lemma Final1RoundTrip(b0: byte)
    ensures DecodeGroup(EncodeFinal1(b0), true) == Some([b0])
  {
    ValueOfCharOf(b0 / 4);
    ValueOfCharOf((b0 % 4) * 16);
  }

  lemma Final2RoundTrip(b0: byte, b1: byte)
    ensures DecodeGroup(EncodeFinal2(b0, b1), true) == Some([b0, b1])
  {
    ValueOfCharOf(b0 / 4);
    ValueOfCharOf((b0 % 4) * 16 + b1 / 16);
    ValueOfCharOf((b1 % 16) * 4);
  }

  /** Decoding a full group followed by more text. */
  lemma DecodeFullGroup(g: string, rest: string, bs: seq<byte>, r: seq<byte>)
    requires |g| == 4 && DecodeGroup(g, rest == []) == Some(bs) && |bs| == 3
    requires Decode(rest) == Some(r)
    ensures Decode(g + rest) == Some(bs + r)
  {
    var s := g + rest;
    assert s[..4] == g;
    assert s[4..] == rest;
    assert (|s| == 4) == (rest == []);
    if rest == [] {
      assert r == [];
      assert bs + r == bs;
    }
  }

  /** Decoding the encoding of fewer than three bytes. */
  lemma DecodeEncodeShort(b: seq<byte>)
    requires |b| < 3
    ensures Decode(Encode(b)) == Some(b)
  {
    if |b| == 1 {
      Final1RoundTrip(b[0]);
      assert Encode(b)[..4] == EncodeFinal1(b[0]);
      assert b == [b[0]];
    } else if |b| == 2 {
      Final2RoundTrip(b[0], b[1]);
      assert Encode(b)[..4] == EncodeFinal2(b[0], b[1]);
      assert b == [b[0], b[1]];
    }
  }

  /** A block's encoding in front of any decodable text decodes to the block in front. */
  lemma DecodeBlockThen(b0: byte, b1: byte, b2: byte, tail: string, rest: seq<byte>)
    requires Decode(tail) == Some(rest)
    ensures Decode(EncodeBlock(b0, b1, b2) + tail) == Some([b0, b1, b2] + rest)
  {
    BlockRoundTrip(b0, b1, b2, tail == []);
    DecodeFullGroup(EncodeBlock(b0, b1, b2), tail, [b0, b1, b2], rest);
  }

  /** A byte string of three or more bytes is a block and the rest. */
  lemma SplitBlock(b: seq<byte>)
    requires |b| >= 3
    ensures b == [b[0], b[1], b[2]] + b[3..]
  {
    assert b[..3] == [b[0], b[1], b[2]];
  }

  lemma EncodeLong(b: seq<byte>)
    requires |b| >= 3
    ensures Encode(b) == EncodeBlock(b[0], b[1], b[2]) + Encode(b[3..])
  {
  }

  /** Decoding an encoding gives back the bytes. */
  lemma {:induction false} DecodeEncode(b: seq<byte>)
    ensures Decode(Encode(b)) == Some(b)
    decreases |b|
  {
    if |b| < 3 {
      DecodeEncodeShort(b);
    } else {
      SplitBlock(b);
      EncodeLong(b);
      DecodeEncode(b[3..]);
      DecodeBlockThen(b[0], b[1], b[2], Encode(b[3..]), b[3..]);
    }
  }

  lemma GroupCanonical(g: string, last: bool)
    requires |g| == 4 && DecodeGroup(g, last).Some?
    ensures var bs := DecodeGroup(g, last).value;
      g == if |bs| == 3 then EncodeBlock(bs[0], bs[1], bs[2])
           else if |bs| == 2 then EncodeFinal2(bs[0], bs[1])
           else EncodeFinal1(bs[0])
  {
    var bs := DecodeGroup(g, last).value;
    var c0, c1 := ValueOf(g[0]).value, ValueOf(g[1]).value;
    assert bs[0] / 4 == c0 && bs[0] % 4 == c1 / 16;
    if |bs| >= 2 {
      assert ValueOf(g[2]).Some?;
      var c2 := ValueOf(g[2]).value;
      assert bs[1] / 16 == c1 % 16 && bs[1] % 16 == c2 / 4;
      if |bs| == 3 {
        var c3 := ValueOf(g[3]).value;
        assert bs[2] / 64 == c2 % 4 && bs[2] % 64 == c3;
      }
    }
  }

  /** Every string the decoder accepts is the encoding of what it returns. */
  lemma {:induction false} EncodeDecode(s: string)
    requires Decode(s).Some?
    ensures Encode(Decode(s).value) == s
    decreases |s|
  {
    if |s| > 0 {
      var g := s[..4];
      var bs := DecodeGroup(g, |s| == 4).value;
      GroupCanonical(g, |s| == 4);
      if |bs| < 3 {
        assert |s| == 4;
        assert Decode(s).value == bs;
      } else {
        var rest := Decode(s[4..]).value;
        EncodeDecode(s[4..]);
        assert Decode(s).value == bs + rest;
        if |s| == 4 {
          assert rest == [];
        } else {
          assert |rest| > 0;
        }
        assert (bs + rest)[3..] == rest;
        assert s == g + s[4..];
      }
    }
  }

  /** Decoding succeeds exactly on encodings, and then inverts them. */
  lemma DecodeIff(s: string, b: seq<byte>)
    ensures Decode(s) == Some(b) <==> Encode(b) == s
  {
    if Decode(s) == Some(b) {
      EncodeDecode(s);
    }
    if Encode(b) == s {
      DecodeEncode(b);
    }
  }
}
