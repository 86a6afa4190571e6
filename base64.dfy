/** Base64 with the alphabet of section 4 of RFC 4648, and the decoding Python's
    `base64.b64decode(s, validate=True)` performs: only alphabet characters, the text a whole
    number of four-character groups, and `=` padding only at the end of the last group. */
module Base64 {
  import opened Wrappers
  import opened Utf8

  const Pad: char := '='

  /** The six-bit value an alphabet character stands for; `None` for every other character. */
  function DigitValue(c: char): (r: Option<int>)
    ensures r.Some? ==> 0 <= r.value < 64
  {
    if 'A' <= c <= 'Z' then Some(c as int - 'A' as int)
    else if 'a' <= c <= 'z' then Some(c as int - 'a' as int + 26)
    else if '0' <= c <= '9' then Some(c as int - '0' as int + 52)
    else if c == '+' then Some(62)
    else if c == '/' then Some(63)
    else None
  }

  predicate IsDigit(c: char)
  {
    DigitValue(c).Some?
  }

  /** The alphabet character for a six-bit value. */
  function DigitChar(v: int): (c: char)
    requires 0 <= v < 64
    ensures DigitValue(c) == Some(v)
  {
    if v < 26 then ('A' as int + v) as char
    else if v < 52 then ('a' as int + (v - 26)) as char
    else if v < 62 then ('0' as int + (v - 52)) as char
    else if v == 62 then '+'
    else '/'
  }

  /** The four characters for one, two or three bytes, padded with `=` to a full group. */
  function EncodeGroup(g: seq<byte>): (q: string)
    requires 1 <= |g| <= 3
    ensures |q| == 4
    ensures forall i :: 0 <= i < 4 ==> IsDigit(q[i]) || q[i] == Pad
  {
    var b0 := g[0] as int;
    var b1 := if |g| > 1 then g[1] as int else 0;
    var b2 := if |g| > 2 then g[2] as int else 0;
    var c0 := DigitChar(b0 / 4);
    var c1 := DigitChar(b0 % 4 * 16 + b1 / 16);
    var c2 := if |g| > 1 then DigitChar(b1 % 16 * 4 + b2 / 64) else Pad;
    var c3 := if |g| > 2 then DigitChar(b2 % 64) else Pad;
    [c0, c1, c2, c3]
  }

  /** `base64.b64encode`: the padded encoding of `bs`. */
  function Encode(bs: seq<byte>): (s: string)
    ensures |s| == (|bs| + 2) / 3 * 4
    ensures forall i :: 0 <= i < |s| ==> IsDigit(s[i]) || s[i] == Pad
    decreases |bs|
  {
    if bs == [] then []
    else if |bs| <= 3 then
      assert (|bs| + 2) / 3 == 1;
      EncodeGroup(bs)
    else
      var q := EncodeGroup(bs[..3]);
      var rest := Encode(bs[3..]);
      assert (|bs| + 2) / 3 == (|bs| - 3 + 2) / 3 + 1;
      assert forall i :: 0 <= i < 4 ==> (q + rest)[i] == q[i];
      assert forall i :: 4 <= i < 4 + |rest| ==> (q + rest)[i] == rest[i - 4];
      q + rest
  }

  /** The bytes of one group of four characters. Only the last group of a text may end in one or
      two `=`; bits the padding leaves over are dropped, as Python does. */
  function DecodeGroup(q: string, last: bool): (r: Option<seq<byte>>)
    requires |q| == 4
    ensures r.Some? ==> 1 <= |r.value| <= 3
    ensures r.Some? && !last ==> |r.value| == 3
    ensures r.Some? ==> forall i :: 0 <= i < 4 && q[i] == Pad ==> last && 2 <= i && q[3] == Pad
  {
    var v0, v1, v2, v3 := DigitValue(q[0]), DigitValue(q[1]), DigitValue(q[2]), DigitValue(q[3]);
    if v0.None? || v1.None? then None
    else
      var b0: byte := v0.value * 4 + v1.value / 16;
      if v2.Some? && v3.Some? then
        Some([b0, v1.value % 16 * 16 + v2.value / 4, v2.value % 4 * 64 + v3.value])
      else if !last || q[3] != Pad then None
      else if v2.Some? then Some([b0, v1.value % 16 * 16 + v2.value / 4])
      else if q[2] == Pad then Some([b0])
      else None
  }

  /** Strict decoding: the bytes `s` encodes, or `None` where Python raises `binascii.Error`. */
  function Decode(s: string): (r: Option<seq<byte>>)
    ensures r.Some? ==> |s| % 4 == 0
    ensures r.Some? ==> forall i :: 0 <= i < |s| ==> IsDigit(s[i]) || s[i] == Pad
    ensures r.Some? ==> forall i :: 0 <= i < |s| && s[i] == Pad ==> |s| - 2 <= i && s[|s| - 1] == Pad
    decreases |s|
  {
    if s == [] then Some([])
    else if |s| < 4 then None
    else
      match DecodeGroup(s[..4], |s| == 4)
      case None => None
      case Some(g) =>
        match Decode(s[4..])
        case None => None
        case Some(rest) =>
          assert forall i :: 4 <= i < |s| ==> s[i] == s[4..][i - 4];
          assert forall i :: 0 <= i < 4 ==> s[i] == s[..4][i];
          Some(g + rest)
  }

  /** The texts strict decoding accepts: whole groups of alphabet characters, with `=` only as
      the last one or two characters. */
  predicate WellFormed(s: string)
  {
    && |s| % 4 == 0
    && (forall i :: 0 <= i < |s| ==> IsDigit(s[i]) || s[i] == Pad)
    && (forall i :: 0 <= i < |s| && s[i] == Pad ==> |s| - 2 <= i && s[|s| - 1] == Pad)
  }

  /** Decoding succeeds exactly on well-formed texts, so misplaced or excess padding, a partial
      group and a character outside the alphabet are each refused. */
  lemma {:induction false} DecodeDefined(s: string)
    ensures Decode(s).Some? <==> WellFormed(s)
    decreases |s|
  {
    if |s| >= 4 && WellFormed(s) {
      var q := s[..4];
      assert forall i :: 0 <= i < 4 ==> q[i] == s[i];
      assert DecodeGroup(q, |s| == 4).Some? by {
        if |s| > 4 {
          assert forall i :: 0 <= i < 4 ==> q[i] != Pad;
        }
        assert IsDigit(q[0]) && IsDigit(q[1]);
        assert DigitValue(Pad).None?;
      }
      var t := s[4..];
      assert forall i :: 0 <= i < |t| ==> t[i] == s[i + 4];
      assert WellFormed(t);
      DecodeDefined(t);
    }
  }

  /** Examples of padding strict decoding refuses. */
  lemma MisplacedPaddingExamples()
    ensures Decode("YQ=a") == None
    ensures Decode("Y===") == None
    ensures Decode("YQ==YQ==") == None
    ensures Decode("YQ==") == Some([0x61])
  {
    DecodeDefined("YQ=a");
    DecodeDefined("Y===");
    DecodeDefined("YQ==YQ==");
    assert "YQ==YQ=="[2] == Pad;
    assert "YQ==YQ==" [..4] == "YQ==";
    assert "YQ=="[..4] == "YQ==" && "YQ=="[4..] == [];
    assert DigitValue('Y') == Some(24) && DigitValue('Q') == Some(16);
    var g: seq<byte> := [0x61];
    assert DecodeGroup("YQ==", true) == Some(g);
    assert Decode([]) == Some([]) && g + [] == g;
  }

  /** Decoding the group for one, two or three bytes gives those bytes back. */
  lemma DecodeEncodedGroup(g: seq<byte>, last: bool)
    requires 1 <= |g| <= 3
    requires |g| < 3 ==> last
    ensures DecodeGroup(EncodeGroup(g), last) == Some(g)
  {
    var q := EncodeGroup(g);
    var b0 := g[0] as int;
    var b1 := if |g| > 1 then g[1] as int else 0;
    var b2 := if |g| > 2 then g[2] as int else 0;
    var v1 := b0 % 4 * 16 + b1 / 16;
    assert b0 == b0 / 4 * 4 + b0 % 4;
    assert v1 / 16 == b0 % 4 && v1 % 16 == b1 / 16;
    if |g| > 1 {
      var v2 := b1 % 16 * 4 + b2 / 64;
      assert b1 == b1 / 16 * 16 + b1 % 16;
      assert v2 / 4 == b1 % 16 && v2 % 4 == b2 / 64;
      if |g| > 2 {
        assert b2 == b2 / 64 * 64 + b2 % 64;
        assert DecodeGroup(q, last) == Some([g[0], g[1], g[2]]);
        assert [g[0], g[1], g[2]] == g;
      } else {
        assert DecodeGroup(q, last) == Some([g[0], g[1]]);
        assert [g[0], g[1]] == g;
      }
    } else {
      assert q[2] == Pad && q[3] == Pad && DigitValue(Pad).None?;
      assert DecodeGroup(q, last) == Some([g[0]]);
      assert [g[0]] == g;
    }
  }

  /** Round trip: decoding the encoding of any bytes gives the bytes back. */
  lemma {:induction false} DecodeEncode(bs: seq<byte>)
    ensures Decode(Encode(bs)) == Some(bs)
    decreases |bs|
  {
    if bs == [] {
    } else if |bs| <= 3 {
      DecodeEncodedGroup(bs, true);
      assert Encode(bs)[..4] == Encode(bs);
      assert Encode(bs)[4..] == [];
      assert bs + [] == bs;
    } else {
      var q := EncodeGroup(bs[..3]);
      var rest := Encode(bs[3..]);
      assert Encode(bs) == q + rest;
      assert (q + rest)[..4] == q && (q + rest)[4..] == rest;
      DecodeEncodedGroup(bs[..3], |rest| == 0);
      DecodeEncode(bs[3..]);
      assert bs[..3] + bs[3..] == bs;
    }
  }
}
