/**
 * Go's unicode/utf16 decoder (RFC 2781, section 2.2) and, as its partner, the
 * encoder of section 2.1. Runes are Dafny characters, which are Unicode
 * scalar values, so a decoded rune is never a surrogate.
 */
module Utf16 {
  import opened Ints

  const Surr1: int := 0xD800   // first high surrogate
  const Surr2: int := 0xDC00   // first low surrogate
  const Surr3: int := 0xE000   // first code unit after the surrogates
  const SurrSelf: int := 0x1_0000

  /** U+FFFD, what an unpaired surrogate decodes to. */
  const Replacement: char := 0xFFFD as char

  predicate IsHighSurrogate(u: uint16) { Surr1 <= u < Surr2 }
  predicate IsLowSurrogate(u: uint16) { Surr2 <= u < Surr3 }

  /** Go's utf16.DecodeRune on a high/low surrogate pair. */
  function DecodePair(hi: uint16, lo: uint16): (c: char)
    requires IsHighSurrogate(hi) && IsLowSurrogate(lo)
    ensures SurrSelf <= c as int < 0x11_0000
  {
    ((hi - Surr1) * 0x400 + (lo - Surr2) + SurrSelf) as char
  }

  /**
   * Go's utf16.Decode: a unit outside the surrogate range is its own rune, a
   * high surrogate followed by a low one is a pair, and any other surrogate
   * becomes U+FFFD. Every rune takes one or two units.
   */
  function Decode(us: seq<uint16>): (s: string)
    ensures (|us| + 1) / 2 <= |s| <= |us|
    decreases |us|
  {
    if us == [] then ""
    else if us[0] < Surr1 || Surr3 <= us[0] then [us[0] as char] + Decode(us[1..])
    else if IsHighSurrogate(us[0]) && |us| >= 2 && IsLowSurrogate(us[1]) then
      [DecodePair(us[0], us[1])] + Decode(us[2..])
    else [Replacement] + Decode(us[1..])
  }

  /** The code units of one rune: itself below U+10000, a surrogate pair above. */
  function EncodeRune(c: char): (us: seq<uint16>)
    ensures 1 <= |us| <= 2
  {
    if c as int < SurrSelf then [c as int]
    else
      var v := c as int - SurrSelf;
      [Surr1 + v / 0x400, Surr2 + v % 0x400]
  }

  /** Go's utf16.Encode, which for scalar values never needs U+FFFD. */
  function Encode(s: string): (us: seq<uint16>)
    ensures |s| <= |us| <= 2 * |s|
  {
    if s == [] then [] else EncodeRune(s[0]) + Encode(s[1..])
  }

  lemma DecodeEncodeRune(c: char, rest: seq<uint16>)
    ensures Decode(EncodeRune(c) + rest) == [c] + Decode(rest)
  {
    var us := EncodeRune(c) + rest;
    if c as int < SurrSelf {
      assert us[1..] == rest;
    } else {
      assert us[2..] == rest;
    }
  }

  /** Decoding undoes encoding (RFC 2781, sections 2.1 and 2.2). */
  lemma {:induction false} DecodeEncode(s: string)
    ensures Decode(Encode(s)) == s
  {
    if s != [] {
      DecodeEncodeRune(s[0], Encode(s[1..]));
      DecodeEncode(s[1..]);
      assert [s[0]] + s[1..] == s;
    }
  }

  /** A low surrogate that does not follow a high one is unpaired and becomes U+FFFD. */
  lemma UnpairedLowSurrogate(us: seq<uint16>)
    requires us != [] && IsLowSurrogate(us[0])
    ensures Decode(us) == [Replacement] + Decode(us[1..])
  {
  }

  /** A high surrogate that is not followed by a low one is unpaired and becomes U+FFFD. */
  lemma UnpairedHighSurrogate(us: seq<uint16>)
    requires us != [] && IsHighSurrogate(us[0]) && (|us| == 1 || !IsLowSurrogate(us[1]))
    ensures Decode(us) == [Replacement] + Decode(us[1..])
  {
  }
}
