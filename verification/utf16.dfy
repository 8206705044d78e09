/**
  JavaScript string values as the sign-in validator sees them.

  A JavaScript string is a sequence of UTF-16 code units: its `length`
  counts code units, and a regular expression without the `u` flag matches
  one code unit per character class. A character outside the Basic
  Multilingual Plane therefore counts twice. Dafny's `string` holds Unicode
  scalar values instead, so `Encode` is the bridge used to write inputs.
 */
module Utf16 {

  /** One UTF-16 code unit. */
  newtype CodeUnit = n: int | 0 <= n < 0x1_0000

  /** The value of a JavaScript string. */
  type JsString = seq<CodeUnit>

  predicate IsHighSurrogate(u: CodeUnit) { 0xD800 <= u < 0xDC00 }

  predicate IsLowSurrogate(u: CodeUnit) { 0xDC00 <= u < 0xE000 }

  /** True iff `c` needs a surrogate pair, i.e. lies outside the Basic Multilingual Plane. */
  predicate IsAstral(c: char) { c as int >= 0x1_0000 }

  /** The number of characters of `s` that take two code units. */
  function AstralCount(s: string): nat
  {
    if s == [] then 0 else (if IsAstral(s[0]) then 1 else 0) + AstralCount(s[1..])
  }

  /** The code units of one character: itself, or a high/low surrogate pair. */
  function EncodeChar(c: char): (r: JsString)
    ensures 1 <= |r| <= 2
    ensures |r| == 2 <==> IsAstral(c)
    ensures |r| == 2 ==> IsHighSurrogate(r[0]) && IsLowSurrogate(r[1])
    ensures |r| == 1 ==> !IsHighSurrogate(r[0]) && !IsLowSurrogate(r[0])
  {
    var n := c as int;
    if n < 0x1_0000 then [n as CodeUnit]
    else
      var m := n - 0x1_0000;
      [(0xD800 + m / 0x400) as CodeUnit, (0xDC00 + m % 0x400) as CodeUnit]
  }

  /** The JavaScript string holding the characters of `s`. */
  function Encode(s: string): (r: JsString)
    ensures |r| == |s| + AstralCount(s)
  {
    if s == [] then [] else EncodeChar(s[0]) + Encode(s[1..])
  }

  /** Without characters outside the Basic Multilingual Plane, each character is one code unit of the same value. */
  lemma {:induction false} EncodeBmp(s: string)
    requires forall k | 0 <= k < |s| :: !IsAstral(s[k])
    ensures |Encode(s)| == |s|
    ensures forall k | 0 <= k < |s| :: Encode(s)[k] as int == s[k] as int
  {
    if s != [] {
      EncodeBmp(s[1..]);
      assert forall k | 1 <= k < |s| :: Encode(s)[k] == Encode(s[1..])[k - 1];
    }
  }

  /**
    The characters of a JavaScript string. A well-formed surrogate pair
    becomes one character; a lone surrogate becomes U+FFFD.
   */
  function Decode(u: JsString): (r: string)
    ensures |r| <= |u|
  {
    if u == [] then []
    else if |u| >= 2 && IsHighSurrogate(u[0]) && IsLowSurrogate(u[1]) then
      [(0x1_0000 + (u[0] as int - 0xD800) * 0x400 + (u[1] as int - 0xDC00)) as char] + Decode(u[2..])
    else if IsHighSurrogate(u[0]) || IsLowSurrogate(u[0]) then
      ['\U{FFFD}'] + Decode(u[1..])
    else
      [u[0] as int as char] + Decode(u[1..])
  }

  /** Decoding the units of one character, then anything, yields that character first. */
  lemma DecodeEncodeChar(c: char, rest: JsString)
    ensures Decode(EncodeChar(c) + rest) == [c] + Decode(rest)
  {
    var e := EncodeChar(c);
    var u := e + rest;
    if IsAstral(c) {
      var m := c as int - 0x1_0000;
      assert u[0] as int - 0xD800 == m / 0x400;
      assert u[1] as int - 0xDC00 == m % 0x400;
      assert u[2..] == rest;
    } else {
      assert u[1..] == rest;
    }
  }

  /** Encoding loses nothing: decoding the code units gives back the characters. */
  lemma {:induction false} DecodeEncode(s: string)
    ensures Decode(Encode(s)) == s
  {
    if s != [] {
      DecodeEncode(s[1..]);
      DecodeEncodeChar(s[0], Encode(s[1..]));
      assert [s[0]] + s[1..] == s;
    }
  }
}
