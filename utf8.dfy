/** UTF-8 as defined by RFC 3629: the encoding of Python's `str.encode('utf-8')` and the strict
    decoding of `bytes.decode('utf-8')`, which rejects overlong forms, surrogates and code points
    above U+10FFFF. */
module Utf8 {
  import opened Wrappers

  type byte = b: int | 0 <= b < 256

  predicate IsContinuation(b: byte)
  {
    0x80 <= b < 0xC0
  }

  /** The one to four bytes that encode `c`. */
  function EncodeChar(c: char): (r: seq<byte>)
    ensures 1 <= |r| <= 4
  {
    var n := c as int;
    if n < 0x80 then [n]
    else if n < 0x800 then [0xC0 + n / 64, 0x80 + n % 64]
    else if n < 0x10000 then [0xE0 + n / 64 / 64, 0x80 + n / 64 % 64, 0x80 + n % 64]
    else [0xF0 + n / 64 / 64 / 64, 0x80 + n / 64 / 64 % 64, 0x80 + n / 64 % 64, 0x80 + n % 64]
  }

  function Encode(s: string): (r: seq<byte>)
    ensures |s| <= |r| <= 4 * |s|
  {
    if s == [] then [] else EncodeChar(s[0]) + Encode(s[1..])
  }

  /** The character at the front of `bs` and the number of bytes it takes, or `None` when the
      front of `bs` is not a well-formed UTF-8 sequence. */
  function DecodeFirst(bs: seq<byte>): (r: Option<(char, nat)>)
    requires |bs| > 0
    ensures r.Some? ==> 1 <= r.value.1 <= |bs|
  {
    var b0: int := bs[0];
    if b0 < 0x80 then Some((b0 as char, 1))
    else if 0xC0 <= b0 < 0xE0 then
      if |bs| < 2 || !IsContinuation(bs[1]) then None
      else
        var n := (b0 - 0xC0) * 64 + (bs[1] as int - 0x80);
        if n < 0x80 then None else Some((n as char, 2))
    else if 0xE0 <= b0 < 0xF0 then
      if |bs| < 3 || !IsContinuation(bs[1]) || !IsContinuation(bs[2]) then None
      else
        var n := ((b0 - 0xE0) * 64 + (bs[1] as int - 0x80)) * 64 + (bs[2] as int - 0x80);
        if n < 0x800 || 0xD800 <= n < 0xE000 then None else Some((n as char, 3))
    else if 0xF0 <= b0 < 0xF8 then
      if |bs| < 4 || !IsContinuation(bs[1]) || !IsContinuation(bs[2]) || !IsContinuation(bs[3]) then None
      else
        var n := (((b0 - 0xF0) * 64 + (bs[1] as int - 0x80)) * 64 + (bs[2] as int - 0x80)) * 64 + (bs[3] as int - 0x80);
        if n < 0x10000 || n >= 0x110000 then None else Some((n as char, 4))
    else None
  }

  /** `bytes.decode('utf-8')`: the decoded text, or `None` where Python raises `UnicodeDecodeError`. */
  function Decode(bs: seq<byte>): (r: Option<string>)
    ensures r.Some? ==> |r.value| <= |bs|
    ensures r.Some? ==> Encode(r.value) == bs
    decreases |bs|
  {
    if bs == [] then Some([])
    else match DecodeFirst(bs)
      case None => None
      case Some((c, k)) =>
        match Decode(bs[k..])
        case None => None
        case Some(rest) =>
          EncodeDecodedFront(bs, rest);
          Some([c] + rest)
  }

  lemma DivMod64(hi: int, lo: int)
    requires 0 <= lo < 64
    ensures (hi * 64 + lo) / 64 == hi && (hi * 64 + lo) % 64 == lo
  {
  }

  /** The character decoded from the front of `bs` encodes to exactly the bytes it took: the
      decoder accepts no overlong form, surrogate or code point above U+10FFFF. */
  lemma EncodeDecodedChar(bs: seq<byte>)
    requires |bs| > 0 && DecodeFirst(bs).Some?
    ensures EncodeChar(DecodeFirst(bs).value.0) == bs[..DecodeFirst(bs).value.1]
  {
    var b0: int := bs[0];
    if b0 < 0x80 {
      assert bs[..1] == [bs[0]];
    } else if b0 < 0xE0 {
      EncodeDecodedPair(bs);
    } else if b0 < 0xF0 {
      EncodeDecodedTriple(bs);
    } else {
      EncodeDecodedQuad(bs);
    }
  }

  lemma EncodeDecodedPair(bs: seq<byte>)
    requires |bs| > 0 && DecodeFirst(bs).Some? && 0xC0 <= bs[0] < 0xE0
    ensures EncodeChar(DecodeFirst(bs).value.0) == bs[..DecodeFirst(bs).value.1]
  {
    var b0: int := bs[0];
    var x1 := bs[1] as int - 0x80;
    var n := DecodeFirst(bs).value.0 as int;
    assert n == (b0 - 0xC0) * 64 + x1;
    DivMod64(b0 - 0xC0, x1);
    assert bs[..2] == [bs[0], bs[1]];
  }

  lemma EncodeDecodedTriple(bs: seq<byte>)
    requires |bs| > 0 && DecodeFirst(bs).Some? && 0xE0 <= bs[0] < 0xF0
    ensures EncodeChar(DecodeFirst(bs).value.0) == bs[..DecodeFirst(bs).value.1]
  {
    var b0: int := bs[0];
    var x1, x2 := bs[1] as int - 0x80, bs[2] as int - 0x80;
    var m := (b0 - 0xE0) * 64 + x1;
    var n := DecodeFirst(bs).value.0 as int;
    assert n == m * 64 + x2;
    DivMod64(m, x2);
    DivMod64(b0 - 0xE0, x1);
    assert bs[..3] == [bs[0], bs[1], bs[2]];
  }

  lemma EncodeDecodedQuad(bs: seq<byte>)
    requires |bs| > 0 && DecodeFirst(bs).Some? && 0xF0 <= bs[0]
    ensures EncodeChar(DecodeFirst(bs).value.0) == bs[..DecodeFirst(bs).value.1]
  {
    var b0: int := bs[0];
    var x1, x2, x3 := bs[1] as int - 0x80, bs[2] as int - 0x80, bs[3] as int - 0x80;
    var m1 := (b0 - 0xF0) * 64 + x1;
    var m2 := m1 * 64 + x2;
    var n := DecodeFirst(bs).value.0 as int;
    assert n == m2 * 64 + x3;
    DivMod64(m2, x3);
    DivMod64(m1, x2);
    DivMod64(b0 - 0xF0, x1);
    assert bs[..4] == [bs[0], bs[1], bs[2], bs[3]];
  }

  /** One decoding step, encoded back: the decoded front character followed by text that
      encodes to the rest of the bytes encodes to all of them. */
  lemma EncodeDecodedFront(bs: seq<byte>, rest: string)
    requires |bs| > 0 && DecodeFirst(bs).Some?
    requires Encode(rest) == bs[DecodeFirst(bs).value.1..]
    ensures Encode([DecodeFirst(bs).value.0] + rest) == bs
  {
    var (c, k) := DecodeFirst(bs).value;
    EncodeDecodedChar(bs);
    assert ([c] + rest)[0] == c && ([c] + rest)[1..] == rest;
    assert bs == bs[..k] + bs[k..];
  }

  /** Byte sequences strict decoding refuses: an overlong `/`, an encoded surrogate, a code point
      above U+10FFFF, a stray continuation byte and a truncated sequence. */
  lemma RejectedExamples()
    ensures Decode([0xC0, 0xAF]) == None
    ensures Decode([0xED, 0xA0, 0x80]) == None
    ensures Decode([0xF4, 0x90, 0x80, 0x80]) == None
    ensures Decode([0x80]) == None
    ensures Decode([0xE2, 0x82]) == None
  {
  }

  /** Decoding the front of an encoded character gives the character back and consumes exactly its bytes. */
  lemma DecodeEncodedChar(c: char, rest: seq<byte>)
    ensures DecodeFirst(EncodeChar(c) + rest) == Some((c, |EncodeChar(c)|))
  {
    var n := c as int;
    var bs := EncodeChar(c) + rest;
    if n < 0x80 {
    } else if n < 0x800 {
      assert bs[0] == 0xC0 + n / 64 && bs[1] == 0x80 + n % 64;
      assert (bs[0] as int - 0xC0) * 64 + (bs[1] as int - 0x80) == n;
    } else if n < 0x10000 {
      var q1 := n / 64;
      var q2 := q1 / 64;
      assert n == q1 * 64 + n % 64 && q1 == q2 * 64 + q1 % 64;
      assert bs[0] == 0xE0 + q2 && bs[1] == 0x80 + q1 % 64 && bs[2] == 0x80 + n % 64;
      assert ((bs[0] as int - 0xE0) * 64 + (bs[1] as int - 0x80)) * 64 + (bs[2] as int - 0x80) == n;
    } else {
      var q1 := n / 64;
      var q2 := q1 / 64;
      var q3 := q2 / 64;
      assert n == q1 * 64 + n % 64 && q1 == q2 * 64 + q1 % 64 && q2 == q3 * 64 + q2 % 64;
      assert bs[0] == 0xF0 + q3 && bs[1] == 0x80 + q2 % 64 && bs[2] == 0x80 + q1 % 64 && bs[3] == 0x80 + n % 64;
      assert (((bs[0] as int - 0xF0) * 64 + (bs[1] as int - 0x80)) * 64 + (bs[2] as int - 0x80)) * 64 + (bs[3] as int - 0x80) == n;
    }
  }

  /** Round trip: decoding the UTF-8 encoding of any text gives the text back. */
  lemma {:induction false} DecodeEncode(s: string)
    ensures Decode(Encode(s)) == Some(s)
  {
    if s != [] {
      var e := EncodeChar(s[0]);
      var bs := Encode(s);
      assert bs == e + Encode(s[1..]);
      DecodeEncodedChar(s[0], Encode(s[1..]));
      assert bs[|e|..] == Encode(s[1..]);
      DecodeEncode(s[1..]);
      assert [s[0]] + s[1..] == s;
    }
  }

  /** Distinct texts have distinct encodings. */
  lemma EncodeInjective(s: string, t: string)
    requires Encode(s) == Encode(t)
    ensures s == t
  {
    DecodeEncode(s);
    DecodeEncode(t);
  }

  /** Encoding is character by character: the encoding of a concatenation is the concatenation
      of the encodings. */
  lemma {:induction false} EncodeAppend(s: string, t: string)
    ensures Encode(s + t) == Encode(s) + Encode(t)
  {
    if s != [] {
      assert (s + t)[0] == s[0];
      assert (s + t)[1..] == s[1..] + t;
      EncodeAppend(s[1..], t);
    } else {
      assert s + t == t;
    }
  }
}
