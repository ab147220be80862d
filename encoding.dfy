/**
 * The best-effort repair that `EmailTemplate.render` applies to every value:
 * `value.encode('latin1').decode('utf-8')`, falling back to the value itself when
 * either step raises. It undoes the usual mojibake, in which the UTF-8 bytes of a
 * text were read one byte per character.
 */
module Encoding {
  import opened Wrappers

  type byte = b: int | 0 <= b < 256

  /** Python's `s.encode('latin1')`: one byte per character; fails on a character above U+00FF. */
  function Latin1Encode(s: string): (r: Option<seq<byte>>)
    ensures r.Some? <==> forall k :: 0 <= k < |s| ==> s[k] as int < 256
    ensures r.Some? ==> |r.value| == |s| && forall k :: 0 <= k < |s| ==> r.value[k] == s[k] as int
  {
    if s == [] then Some([])
    else if s[0] as int >= 256 then None
    else match Latin1Encode(s[1..])
      case None => None
      case Some(rest) => Some([s[0] as int as byte] + rest)
  }

  /** Python's `bs.decode('latin1')`: each byte read as the character with that code. */
  function Latin1Decode(bs: seq<byte>): (s: string)
    ensures |s| == |bs| && forall k :: 0 <= k < |bs| ==> s[k] as int == bs[k]
  {
    if bs == [] then [] else [bs[0] as char] + Latin1Decode(bs[1..])
  }

  predicate IsContinuation(b: byte) {
    0x80 <= b <= 0xBF
  }

  /** The allowed second byte of a three-byte sequence (no overlong forms, no surrogates). */
  predicate SecondOfThree(b0: byte, b1: byte) {
    if b0 == 0xE0 then 0xA0 <= b1 <= 0xBF
    else if b0 == 0xED then 0x80 <= b1 <= 0x9F
    else IsContinuation(b1)
  }

  /** The allowed second byte of a four-byte sequence (no overlong forms, nothing above U+10FFFF). */
  predicate SecondOfFour(b0: byte, b1: byte) {
    if b0 == 0xF0 then 0x90 <= b1 <= 0xBF
    else if b0 == 0xF4 then 0x80 <= b1 <= 0x8F
    else IsContinuation(b1)
  }

  /**
   * The first character of a strict UTF-8 byte string (as Python's `utf-8` codec
   * accepts it) and the number of bytes it takes, or `None` for an invalid sequence.
   */
  function DecodeFirst(bs: seq<byte>): (r: Option<(char, nat)>)
    requires |bs| > 0
    ensures r.Some? ==> 1 <= r.value.1 <= |bs|
  {
    var b0 := bs[0] as int;
    if b0 < 0x80 then Some((b0 as char, 1))
    else if 0xC2 <= b0 <= 0xDF then
      if |bs| >= 2 && IsContinuation(bs[1])
      then Some((((b0 - 0xC0) * 64 + (bs[1] as int - 0x80)) as char, 2))
      else None
    else if 0xE0 <= b0 <= 0xEF then
      if |bs| >= 3 && SecondOfThree(b0, bs[1]) && IsContinuation(bs[2])
      then Some((((b0 - 0xE0) * 4096 + (bs[1] as int - 0x80) * 64 + (bs[2] as int - 0x80)) as char, 3))
      else None
    else if 0xF0 <= b0 <= 0xF4 then
      if |bs| >= 4 && SecondOfFour(b0, bs[1]) && IsContinuation(bs[2]) && IsContinuation(bs[3])
      then Some((((b0 - 0xF0) * 262144 + (bs[1] as int - 0x80) * 4096 + (bs[2] as int - 0x80) * 64 + (bs[3] as int - 0x80)) as char, 4))
      else None
    else None
  }

  /** Python's `bs.decode('utf-8')` in strict mode; `None` where it raises. */
  function Utf8Decode(bs: seq<byte>): Option<string>
    decreases |bs|
  {
    if bs == [] then Some([])
    else match DecodeFirst(bs)
      case None => None
      case Some((c, n)) =>
        match Utf8Decode(bs[n..])
        case None => None
        case Some(rest) => Some([c] + rest)
  }

  /** The UTF-8 bytes of one character. */
  function EncodeChar(c: char): (bs: seq<byte>)
    ensures 1 <= |bs| <= 4
  {
    var n := c as int;
    if n < 0x80 then [n]
    else if n < 0x800 then [0xC0 + n / 64, 0x80 + n % 64]
    else if n < 0x10000 then [0xE0 + n / 4096, 0x80 + (n / 64) % 64, 0x80 + n % 64]
    else [0xF0 + n / 262144, 0x80 + (n / 4096) % 64, 0x80 + (n / 64) % 64, 0x80 + n % 64]
  }

  /** The UTF-8 bytes of a string, which the repair expects to have been misread as Latin-1. */
  function Utf8Encode(s: string): seq<byte> {
    if s == [] then [] else EncodeChar(s[0]) + Utf8Encode(s[1..])
  }

  /**
   * The repair step of `render`: reinterpret the value's characters as bytes and
   * decode them as UTF-8; if the value has a character above U+00FF, or the bytes
   * are not valid UTF-8, the value is returned unchanged.
   */
  function FixEncoding(s: string): (r: string)
    ensures (exists k :: 0 <= k < |s| && s[k] as int >= 256) ==> r == s
  {
    match Latin1Encode(s)
    case None => s
    case Some(bs) =>
      match Utf8Decode(bs)
      case None => s
      case Some(t) => t
  }

  /** Decoding the bytes of one character, followed by anything, yields that character first. */
  lemma DecodeFirstEncodeChar(c: char, rest: seq<byte>)
    ensures DecodeFirst(EncodeChar(c) + rest) == Some((c, |EncodeChar(c)|))
  {
    var n := c as int;
    if n < 0x80 {
    } else if n < 0x800 {
      DecodeTwo(c, rest);
    } else if n < 0x10000 {
      DecodeThree(c, rest);
    } else {
      DecodeFour(c, rest);
    }
  }

  lemma DecodeTwo(c: char, rest: seq<byte>)
    requires 0x80 <= c as int < 0x800
    ensures DecodeFirst(EncodeChar(c) + rest) == Some((c, 2))
  {
    var n := c as int;
    var bs := EncodeChar(c) + rest;
    var q, r := n / 64, n % 64;
    assert n == q * 64 + r;
    assert bs[0] == 0xC0 + q && bs[1] == 0x80 + r;
  }

  lemma DecodeThree(c: char, rest: seq<byte>)
    requires 0x800 <= c as int < 0x10000
    ensures DecodeFirst(EncodeChar(c) + rest) == Some((c, 3))
  {
    var n := c as int;
    var bs := EncodeChar(c) + rest;
    var q, m, r := n / 4096, (n / 64) % 64, n % 64;
    SplitDigits64(n);
    assert bs[0] == 0xE0 + q && bs[1] == 0x80 + m && bs[2] == 0x80 + r;
    assert n == q * 4096 + m * 64 + r;
  }

  lemma DecodeFour(c: char, rest: seq<byte>)
    requires 0x10000 <= c as int
    ensures DecodeFirst(EncodeChar(c) + rest) == Some((c, 4))
  {
    var n := c as int;
    var bs := EncodeChar(c) + rest;
    var q, m1, m2, r := n / 262144, (n / 4096) % 64, (n / 64) % 64, n % 64;
    SplitDigits64(n);
    SplitDigits64(n / 64);
    assert n / 64 / 64 == n / 4096;
    assert n / 4096 / 64 == n / 262144;
    assert bs[0] == 0xF0 + q && bs[1] == 0x80 + m1 && bs[2] == 0x80 + m2 && bs[3] == 0x80 + r;
    assert n == q * 262144 + m1 * 4096 + m2 * 64 + r;
  }

  /** Base-64 digits of a number: `n` in terms of `n / 4096`, the middle digit and the last one. */
  lemma SplitDigits64(n: nat)
    ensures n / 64 / 64 == n / 4096
    ensures n == (n / 4096) * 4096 + ((n / 64) % 64) * 64 + n % 64
  {
    var a := n / 64;
    assert n == a * 64 + n % 64;
    assert a == (a / 64) * 64 + a % 64;
    assert n == (a / 64) * 4096 + (a % 64) * 64 + n % 64;
  }

  /** UTF-8 decoding inverts UTF-8 encoding. */
  lemma {:induction false} Utf8RoundTrip(s: string)
    ensures Utf8Decode(Utf8Encode(s)) == Some(s)
  {
    if s != [] {
      var head := EncodeChar(s[0]);
      var tail := Utf8Encode(s[1..]);
      DecodeFirstEncodeChar(s[0], tail);
      assert (head + tail)[|head|..] == tail;
      Utf8RoundTrip(s[1..]);
      assert s == [s[0]] + s[1..];
    }
  }

  /** Latin-1 encoding inverts Latin-1 decoding. */
  lemma Latin1RoundTrip(bs: seq<byte>)
    ensures Latin1Encode(Latin1Decode(bs)) == Some(bs)
  {
    var r := Latin1Encode(Latin1Decode(bs));
    assert r.value == bs;
  }

  /** Text whose UTF-8 bytes were misread as Latin-1 is repaired exactly. */
  lemma FixEncodingRepairsMojibake(s: string)
    ensures FixEncoding(Latin1Decode(Utf8Encode(s))) == s
  {
    Latin1RoundTrip(Utf8Encode(s));
    Utf8RoundTrip(s);
  }

  predicate IsAscii(s: string) {
    forall k :: 0 <= k < |s| ==> s[k] as int < 0x80
  }

  /** Plain ASCII text passes through the repair unchanged. */
  lemma {:induction false} FixEncodingKeepsAscii(s: string)
    requires IsAscii(s)
    ensures FixEncoding(s) == s
  {
    AsciiIsOwnMojibake(s);
    FixEncodingRepairsMojibake(s);
  }

  lemma {:induction false} AsciiIsOwnMojibake(s: string)
    requires IsAscii(s)
    ensures Latin1Decode(Utf8Encode(s)) == s
  {
    if s != [] {
      AsciiIsOwnMojibake(s[1..]);
      assert Utf8Encode(s) == [s[0] as int] + Utf8Encode(s[1..]);
    }
  }

  /** Encoding two texts one after the other is encoding them together. */
  lemma {:induction false} Utf8EncodeAppend(a: string, b: string)
    ensures Utf8Encode(a + b) == Utf8Encode(a) + Utf8Encode(b)
    decreases |a|
  {
    if a != [] {
      assert (a + b)[1..] == a[1..] + b;
      Utf8EncodeAppend(a[1..], b);
    } else {
      assert a + b == b;
    }
  }

  lemma Latin1DecodeAppend(a: seq<byte>, b: seq<byte>)
    ensures Latin1Decode(a + b) == Latin1Decode(a) + Latin1Decode(b)
  {
  }

  /**
   * `voil\U{E0}` misread: the ASCII part is unchanged and U+00E0, whose UTF-8 bytes
   * are C3 A0, becomes the two characters U+00C3 U+00A0.
   */
  lemma MisreadVoila()
    ensures Latin1Decode(Utf8Encode("voil\U{E0}")) == "voil\U{C3}" + "\U{A0}"
  {
    var ascii, accent := "voil", "\U{E0}";
    assert "voil\U{E0}" == ascii + accent;
    Utf8EncodeAppend(ascii, accent);
    AsciiIsOwnMojibake(ascii);
    assert EncodeChar('\U{E0}') == [0xC3, 0xA0];
    assert Utf8Encode(accent) == [0xC3, 0xA0];
    Latin1DecodeAppend(Utf8Encode(ascii), [0xC3, 0xA0]);
    assert Latin1Decode([0xC3, 0xA0]) == "\U{C3}\U{A0}";
  }

  /** Every byte after the first that `DecodeFirst` consumes is a continuation byte. */
  lemma DecodeFirstTail(bs: seq<byte>, k: nat)
    requires |bs| > 0 && DecodeFirst(bs).Some? && 1 <= k < DecodeFirst(bs).value.1
    ensures IsContinuation(bs[k])
  {
  }

  /** Bytes ending in the lead byte of a multi-byte sequence are not valid UTF-8: the sequence is cut short. */
  lemma {:induction false} TrailingLeadByteFails(bs: seq<byte>)
    requires |bs| > 0 && bs[|bs| - 1] >= 0xC0
    ensures Utf8Decode(bs) == None
    decreases |bs|
  {
    match DecodeFirst(bs)
    case None =>
    case Some((c, n)) =>
      if n == |bs| {
        if n > 1 {
          DecodeFirstTail(bs, n - 1);
        }
      } else {
        assert bs[n..][|bs[n..]| - 1] == bs[|bs| - 1];
        TrailingLeadByteFails(bs[n..]);
      }
  }

  /** The repair fails, and returns its input, on a Latin-1 text ending in a lead byte such as `Ã` (U+00C3). */
  lemma RepairFailsOnTrailingLead(s: string)
    requires |s| > 0 && 0xC0 <= s[|s| - 1] as int < 0x100
    ensures FixEncoding(s) == s
  {
    match Latin1Encode(s)
    case None =>
    case Some(bs) =>
      TrailingLeadByteFails(bs);
  }
}
