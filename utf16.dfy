/** UTF-16 as defined in section 2.1 of RFC 2781: what Rust's `str::encode_utf16`
    produces, and what `String::from_utf16_lossy` makes of a buffer of code
    units. A Dafny `char` is a Unicode scalar value, exactly like a Rust `char`. */
module Utf16 {

  /** A UTF-16 code unit (`u16`). */
  type U16 = x: int | 0 <= x < 0x1_0000

  const HighSurrogateStart := 0xD800
  const LowSurrogateStart := 0xDC00
  const SurrogateEnd := 0xE000
  const SupplementaryStart := 0x1_0000
  /** U+FFFD, which `from_utf16_lossy` puts in place of an unpaired surrogate. */
  const ReplacementCharacter: char := '�'

  predicate IsHighSurrogate(u: U16) { HighSurrogateStart <= u < LowSurrogateStart }
  predicate IsLowSurrogate(u: U16) { LowSurrogateStart <= u < SurrogateEnd }
  predicate IsSurrogate(u: U16) { HighSurrogateStart <= u < SurrogateEnd }

  /** Number of code units a character takes: one inside the Basic Multilingual
      Plane, a surrogate pair outside it. */
  function UnitCount(c: char): nat {
    if c as int < SupplementaryStart then 1 else 2
  }

  /** Length of `s` in UTF-16 code units (`s.encode_utf16().count()`). */
  function Utf16Length(s: string): nat {
    if s == [] then 0 else UnitCount(s[0]) + Utf16Length(s[1..])
  }

  /** Encoding of one character (RFC 2781, section 2.1): a BMP character is its
      own code unit; any other is split into a high and a low surrogate carrying
      the top and bottom ten bits of `c - 0x10000`. */
  function EncodeChar(c: char): (units: seq<U16>)
    ensures |units| == UnitCount(c)
    ensures c as int < SupplementaryStart ==> units[0] == c as int && !IsSurrogate(units[0])
    ensures c as int >= SupplementaryStart ==>
              IsHighSurrogate(units[0]) && IsLowSurrogate(units[1])
              && SupplementaryStart + (units[0] - HighSurrogateStart) * 0x400
                 + (units[1] - LowSurrogateStart) == c as int
    ensures c != '\0' ==> forall i :: 0 <= i < |units| ==> units[i] != 0
  {
    var v := c as int;
    if v < SupplementaryStart then [v]
    else
      var u := v - SupplementaryStart;
      [HighSurrogateStart + u / 0x400, LowSurrogateStart + u % 0x400]
  }

  /** `s.encode_utf16().collect()`. */
  function Encode(s: string): (units: seq<U16>)
    ensures |units| == Utf16Length(s)
  {
    if s == [] then [] else EncodeChar(s[0]) + Encode(s[1..])
  }

  /** The character a valid surrogate pair stands for. */
  function PairValue(high: U16, low: U16): char
    requires IsHighSurrogate(high) && IsLowSurrogate(low)
  {
    (SupplementaryStart + (high - HighSurrogateStart) * 0x400 + (low - LowSurrogateStart)) as char
  }

  /** `String::from_utf16_lossy`: a high surrogate followed by a low one is
      combined; any other surrogate becomes U+FFFD and decoding resumes at the
      next unit; every other unit is its own character. */
  function DecodeLossy(units: seq<U16>): (s: string)
    ensures |s| <= |units|
    decreases |units|
  {
    if units == [] then []
    else if |units| >= 2 && IsHighSurrogate(units[0]) && IsLowSurrogate(units[1]) then
      [PairValue(units[0], units[1])] + DecodeLossy(units[2..])
    else if IsSurrogate(units[0]) then
      [ReplacementCharacter] + DecodeLossy(units[1..])
    else
      [units[0] as char] + DecodeLossy(units[1..])
  }

  /** Decoding the encoding of one character and then the rest. */
  lemma DecodeEncodedChar(c: char, rest: seq<U16>)
    ensures DecodeLossy(EncodeChar(c) + rest) == [c] + DecodeLossy(rest)
  {
    var e := EncodeChar(c);
    if c as int < SupplementaryStart {
      assert (e + rest)[1..] == rest;
    } else {
      assert (e + rest)[2..] == rest;
      assert PairValue(e[0], e[1]) as int == c as int;
    }
  }

  /** Round trip: the lossy decoder loses nothing on a well-formed encoding. */
  lemma {:induction false} DecodeEncode(s: string)
    ensures DecodeLossy(Encode(s)) == s
  {
    if s != [] {
      DecodeEncodedChar(s[0], Encode(s[1..]));
      DecodeEncode(s[1..]);
      assert [s[0]] + s[1..] == s;
    }
  }

  /** Encoding is injective, as a consequence of the round trip. */
  lemma EncodeInjective(s: string, t: string)
    requires Encode(s) == Encode(t)
    ensures s == t
  {
    DecodeEncode(s);
    DecodeEncode(t);
  }

  /** A zero code unit appears in the encoding exactly where `s` holds U+0000. */
  lemma {:induction false} EncodeHasNul(s: string)
    ensures 0 in Encode(s) <==> '\0' in s
  {
    if s != [] {
      EncodeHasNul(s[1..]);
      var e := EncodeChar(s[0]);
      assert Encode(s) == e + Encode(s[1..]);
      assert 0 in e <==> s[0] == '\0';
      assert '\0' in s <==> s[0] == '\0' || '\0' in s[1..] by {
        assert s == [s[0]] + s[1..];
      }
    }
  }

  /** The units a C-style wide-string reader sees: everything before the first 0. */
  function UntilNul(units: seq<U16>): (r: seq<U16>)
    ensures 0 !in r
    ensures r <= units
    ensures |r| < |units| ==> units[|r|] == 0
  {
    if units == [] || units[0] == 0 then [] else [units[0]] + UntilNul(units[1..])
  }

  /** A terminated buffer is read back whole exactly when its body holds no 0. */
  lemma {:induction false} UntilNulOfTerminated(body: seq<U16>)
    ensures UntilNul(body + [0]) == body <==> 0 !in body
  {
    if 0 !in body {
      UntilNulWithoutNul(body);
    }
  }

  lemma {:induction false} UntilNulWithoutNul(body: seq<U16>)
    requires 0 !in body
    ensures UntilNul(body + [0]) == body
  {
    if body != [] {
      assert (body + [0])[1..] == body[1..] + [0];
      UntilNulWithoutNul(body[1..]);
      assert [body[0]] + body[1..] == body;
    }
  }
}
