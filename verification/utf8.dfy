/** Well-formed UTF-8 as defined by the syntax in section 4 of RFC 3629.

    Python's strict 'utf8' codec, which the importer uses to turn the bytes of
    every NUL-terminated string into a `str`, accepts exactly these byte
    sequences: no overlong forms, no surrogates, nothing above U+10FFFF. */
module Utf8 {
  import opened Bytes

  predicate IsTail(b: byte) {
    0x80 <= b <= 0xBF
  }

  /** The length of the one well-formed character encoding that starts `s`,
      or 0 when `s` does not start with one. */
  function LeadLength(s: Bytes): (k: nat)
    requires |s| > 0
    ensures k <= 4 && k <= |s|
  {
    var b0 := s[0];
    if b0 <= 0x7F then 1
    else if 0xC2 <= b0 <= 0xDF then
      if |s| >= 2 && IsTail(s[1]) then 2 else 0
    else if 0xE0 <= b0 <= 0xEF then
      var lo := if b0 == 0xE0 then 0xA0 else 0x80;
      var hi := if b0 == 0xED then 0x9F else 0xBF;
      if |s| >= 3 && lo <= s[1] <= hi && IsTail(s[2]) then 3 else 0
    else if 0xF0 <= b0 <= 0xF4 then
      var lo := if b0 == 0xF0 then 0x90 else 0x80;
      var hi := if b0 == 0xF4 then 0x8F else 0xBF;
      if |s| >= 4 && lo <= s[1] <= hi && IsTail(s[2]) && IsTail(s[3]) then 4 else 0
    else 0
  }

  /** `s` is a concatenation of well-formed character encodings. */
  predicate Valid(s: Bytes)
    decreases |s|
  {
    |s| == 0 || (LeadLength(s) > 0 && Valid(s[LeadLength(s)..]))
  }

  /** The UTF-8 encoding of one Unicode scalar value. */
  function EncodeChar(c: char): (bs: Bytes)
    ensures 1 <= |bs| <= 4
  {
    var n := c as int;
    if n < 0x80 then [n]
    else if n < 0x800 then [0xC0 + n / 64, 0x80 + n % 64]
    else if n < 0x1_0000 then [0xE0 + n / 4096, 0x80 + (n / 64) % 64, 0x80 + n % 64]
    else [0xF0 + n / 262144, 0x80 + (n / 4096) % 64, 0x80 + (n / 64) % 64, 0x80 + n % 64]
  }

  /** The UTF-8 encoding of a string, as `str.encode('utf8')` produces it. */
  function Encode(s: string): (bs: Bytes)
    ensures |bs| >= |s|
  {
    if |s| == 0 then [] else EncodeChar(s[0]) + Encode(s[1..])
  }

  /** A character's encoding is recognised as one whole character,
      whatever bytes follow it. */
  lemma {:induction false} LeadLengthOfEncodeChar(c: char, rest: Bytes)
    ensures LeadLength(EncodeChar(c) + rest) == |EncodeChar(c)|
  {
    var n := c as int;
    assert n < 0xD800 || 0xE000 <= n < 0x11_0000;
    var e := EncodeChar(c);
    var s := e + rest;
    assert s[..|e|] == e;
    if 0x800 <= n < 0x1_0000 {
      assert n / 4096 == 0 ==> n / 64 % 64 >= 32;
      assert n / 4096 == 13 ==> n / 64 % 64 < 32;
    } else if n >= 0x1_0000 {
      assert n / 262144 == 0 ==> n / 4096 % 64 >= 16;
      assert n / 262144 == 4 ==> n / 4096 % 64 < 16;
    }
  }

  /** Every string encodes to well-formed UTF-8, so the importer's decoding
      step never fails on a name that was written from a string. */
  lemma {:induction false} EncodeIsValid(s: string)
    ensures Valid(Encode(s))
  {
    if |s| > 0 {
      var e := EncodeChar(s[0]);
      var rest := Encode(s[1..]);
      LeadLengthOfEncodeChar(s[0], rest);
      assert (e + rest)[|e|..] == rest;
      EncodeIsValid(s[1..]);
    }
  }

  /** A byte below 0x80 stands for itself, so ASCII text is valid. */
  lemma {:induction false} AsciiIsValid(s: Bytes)
    requires forall i :: 0 <= i < |s| ==> s[i] < 0x80
    ensures Valid(s)
  {
    if |s| > 0 {
      AsciiIsValid(s[1..]);
    }
  }

  /** A lone continuation byte, a surrogate and an overlong form are all
      rejected, as RFC 3629 requires. */
  lemma {:induction false} RejectsMalformed()
    ensures !Valid([0x80])
    ensures !Valid([0xED, 0xA0, 0x80])
    ensures !Valid([0xC0, 0x80])
    ensures !Valid([0xF4, 0x90, 0x80, 0x80])
  {
  }
}
