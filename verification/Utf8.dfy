/** The byte strings section 4 of RFC 3629 allows. */
module Utf8 {
  import opened Wire

  predicate Tail(s: Bytes, at: nat, low: Byte, high: Byte) {
    at < |s| && low <= s[at] <= high
  }

  /** IsStructurallyValidUTF8: no overlong form, no surrogate, nothing above U+10FFFF. */
  predicate ValidUtf8(s: Bytes)
    decreases |s|
  {
    if s == [] then true
    else if s[0] < 0x80 then ValidUtf8(s[1..])
    else if 0xC2 <= s[0] <= 0xDF then Tail(s, 1, 0x80, 0xBF) && ValidUtf8(s[2..])
    else if 0xE0 <= s[0] <= 0xEF then
      var low := if s[0] == 0xE0 then 0xA0 else 0x80;
      var high := if s[0] == 0xED then 0x9F else 0xBF;
      Tail(s, 1, low, high) && Tail(s, 2, 0x80, 0xBF) && ValidUtf8(s[3..])
    else if 0xF0 <= s[0] <= 0xF4 then
      var low := if s[0] == 0xF0 then 0x90 else 0x80;
      var high := if s[0] == 0xF4 then 0x8F else 0xBF;
      Tail(s, 1, low, high) && Tail(s, 2, 0x80, 0xBF) && Tail(s, 3, 0x80, 0xBF) && ValidUtf8(s[4..])
    else false
  }

  lemma EmptyIsValid()
    ensures ValidUtf8([])
  {
  }

  /** Examples of RFC 3629: a sign of three bytes, one of four, an overlong form, a surrogate, beyond the end. */
  lemma Utf8Examples()
    ensures ValidUtf8([0xE2, 0x82, 0xAC]) && ValidUtf8([0xF0, 0xA3, 0x8E, 0xB4]) && ValidUtf8([0xC3, 0xA9])
    ensures !ValidUtf8([0xC0, 0x80]) && !ValidUtf8([0xE0, 0x80, 0x80])
    ensures !ValidUtf8([0xED, 0xA0, 0x80]) && ValidUtf8([0xED, 0x9F, 0xBF])
    ensures !ValidUtf8([0xF4, 0x90, 0x80, 0x80]) && ValidUtf8([0xF4, 0x8F, 0xBF, 0xBF])
    ensures !ValidUtf8([0x80]) && !ValidUtf8([0xE2, 0x82])
  {
    EmptyIsValid();
    assert [0xE2, 0x82, 0xAC][3..] == [] && [0xF0, 0xA3, 0x8E, 0xB4][4..] == [] && [0xC3, 0xA9][2..] == [];
    assert [0xED, 0x9F, 0xBF][3..] == [] && [0xF4, 0x8F, 0xBF, 0xBF][4..] == [];
  }

  // ---------------------------------------------------------------- what the valid strings are

  /** A code point that is not a surrogate. */
  predicate Scalar(c: nat) {
    c < 0xD800 || 0xE000 <= c <= 0x10FFFF
  }

  /** Section 3 of RFC 3629: the bytes of one code point. */
  function EncodeScalar(c: nat): (s: Bytes)
    requires Scalar(c)
    ensures 1 <= |s| <= 4
  {
    if c < 0x80 then [c as Byte]
    else if c < 0x800 then [(0xC0 + c / 0x40) as Byte, (0x80 + c % 0x40) as Byte]
    else if c < 0x1_0000 then
      [(0xE0 + c / 0x40 / 0x40) as Byte, (0x80 + c / 0x40 % 0x40) as Byte, (0x80 + c % 0x40) as Byte]
    else
      [(0xF0 + c / 0x40 / 0x40 / 0x40) as Byte, (0x80 + c / 0x40 / 0x40 % 0x40) as Byte,
       (0x80 + c / 0x40 % 0x40) as Byte, (0x80 + c % 0x40) as Byte]
  }

  ghost predicate AllScalar(cs: seq<nat>) {
    forall i :: 0 <= i < |cs| ==> Scalar(cs[i])
  }

  function Encode(cs: seq<nat>): Bytes
    requires forall i :: 0 <= i < |cs| ==> Scalar(cs[i])
  {
    if cs == [] then [] else EncodeScalar(cs[0]) + Encode(cs[1..])
  }

  /** Six more bits behind `q`. */
  lemma SixBits(q: nat, x: nat)
    requires x < 0x40
    ensures (q * 0x40 + x) / 0x40 == q && (q * 0x40 + x) % 0x40 == x
  {
  }

  lemma ThreeBytes(a: Byte, x: Byte, y: Byte) returns (c: nat)
    requires 0xE0 <= a <= 0xEF && 0x80 <= x <= 0xBF && 0x80 <= y <= 0xBF
    requires (a == 0xE0 ==> x >= 0xA0) && (a == 0xED ==> x <= 0x9F)
    ensures Scalar(c) && EncodeScalar(c) == [a, x, y]
  {
    var top := a as int - 0xE0;
    var mid := top * 0x40 + (x as int - 0x80);
    c := mid * 0x40 + (y as int - 0x80);
    SixBits(top, x as int - 0x80);
    SixBits(mid, y as int - 0x80);
  }

  lemma FourBytes(a: Byte, x: Byte, y: Byte, z: Byte) returns (c: nat)
    requires 0xF0 <= a <= 0xF4 && 0x80 <= x <= 0xBF && 0x80 <= y <= 0xBF && 0x80 <= z <= 0xBF
    requires (a == 0xF0 ==> x >= 0x90) && (a == 0xF4 ==> x <= 0x8F)
    ensures Scalar(c) && EncodeScalar(c) == [a, x, y, z]
  {
    var top := a as int - 0xF0;
    var high := top * 0x40 + (x as int - 0x80);
    var mid := high * 0x40 + (y as int - 0x80);
    c := mid * 0x40 + (z as int - 0x80);
    SixBits(top, x as int - 0x80);
    SixBits(high, y as int - 0x80);
    SixBits(mid, z as int - 0x80);
  }

  /** The code point whose bytes a valid string begins with. */
  lemma FirstScalar(s: Bytes) returns (c: nat)
    requires s != [] && ValidUtf8(s)
    ensures Scalar(c) && EncodeScalar(c) <= s && ValidUtf8(s[|EncodeScalar(c)|..])
  {
    if s[0] < 0x80 {
      c := s[0] as int;
    } else if s[0] <= 0xDF {
      c := (s[0] as int - 0xC0) * 0x40 + (s[1] as int - 0x80);
      SixBits(s[0] as int - 0xC0, s[1] as int - 0x80);
    } else if s[0] <= 0xEF {
      hide EncodeScalar;
      c := ThreeBytes(s[0], s[1], s[2]);
    } else {
      hide EncodeScalar;
      c := FourBytes(s[0], s[1], s[2], s[3]);
    }
  }

  lemma ScalarIsValid(c: nat, rest: Bytes)
    requires Scalar(c)
    ensures ValidUtf8(EncodeScalar(c) + rest) <==> ValidUtf8(rest)
  {
    var s, n := EncodeScalar(c) + rest, |EncodeScalar(c)|;
    assert s[n..] == rest;
  }

  lemma {:induction false} Decoded(s: Bytes) returns (cs: seq<nat>)
    requires ValidUtf8(s)
    ensures AllScalar(cs) && Encode(cs) == s
    decreases |s|
  {
    if s == [] {
      cs := [];
    } else {
      var c := FirstScalar(s);
      var n := |EncodeScalar(c)|;
      var rest := Decoded(s[n..]);
      cs := [c] + rest;
      assert cs[1..] == rest && s == s[..n] + s[n..];
    }
  }

  lemma {:induction false} EncodedIsValid(cs: seq<nat>)
    requires AllScalar(cs)
    ensures ValidUtf8(Encode(cs))
  {
    if cs != [] {
      EncodedIsValid(cs[1..]);
      ScalarIsValid(cs[0], Encode(cs[1..]));
    }
  }

  /** The accepted strings are exactly the encodings of sequences of code points without surrogates. */
  lemma ValidUtf8IsEncoding(s: Bytes)
    ensures ValidUtf8(s) <==> exists cs :: AllScalar(cs) && Encode(cs) == s
  {
    if ValidUtf8(s) {
      var cs := Decoded(s);
    }
    forall cs | AllScalar(cs) && Encode(cs) == s
      ensures ValidUtf8(s)
    {
      EncodedIsValid(cs);
    }
  }
}
