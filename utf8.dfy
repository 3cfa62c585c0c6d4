/** How Go's `for _, c := range s` walks a string: it decodes UTF-8 (RFC 3629) one rune at
    a time, and a byte that does not start a valid encoding yields U+FFFD and a step of one. */
module Utf8 {
  import opened Common

  /** A Go `rune`: a code point, or U+FFFD standing for a byte that could not be decoded. */
  type Rune = int

  const RuneError: Rune := 0xFFFD
  const MaxRune: Rune := 0x10FFFF

  /** A Unicode scalar value: what a valid UTF-8 sequence can encode. */
  predicate IsScalar(r: Rune)
  {
    0 <= r <= MaxRune && !(0xD800 <= r <= 0xDFFF)
  }

  predicate IsContinuation(b: byte)
  {
    0x80 <= b <= 0xBF
  }

  /** The six payload bits of a continuation byte. */
  function ContinuationBits(b: byte): int
  {
    b as int - 0x80
  }

  /** The rune at the head of `s` and the number of bytes the loop then advances, as
      Go's runtime decodes it: ASCII bytes stand for themselves; two-, three- and four-byte
      sequences must have continuation bytes in 0x80..0xBF and must not be overlong, a
      surrogate or above U+10FFFF; anything else yields (RuneError, 1). */
  function DecodeRune(s: Bytes): (d: (Rune, nat))
    requires |s| > 0
    ensures 1 <= d.1 <= |s| && d.1 <= 4
  {
    var b0 := s[0] as int;
    if b0 < 0x80 then (b0, 1)
    else if 0xC0 <= b0 < 0xE0 then
      if |s| > 1 && IsContinuation(s[1]) then
        var r := (b0 - 0xC0) * 64 + ContinuationBits(s[1]);
        if 0x7F < r then (r, 2) else (RuneError, 1)
      else (RuneError, 1)
    else if 0xE0 <= b0 < 0xF0 then
      if |s| > 2 && IsContinuation(s[1]) && IsContinuation(s[2]) then
        var r := (b0 - 0xE0) * 4096 + ContinuationBits(s[1]) * 64 + ContinuationBits(s[2]);
        if 0x7FF < r && !(0xD800 <= r <= 0xDFFF) then (r, 3) else (RuneError, 1)
      else (RuneError, 1)
    else if 0xF0 <= b0 < 0xF8 then
      if |s| > 3 && IsContinuation(s[1]) && IsContinuation(s[2]) && IsContinuation(s[3]) then
        var r := (b0 - 0xF0) * 262144 + ContinuationBits(s[1]) * 4096 + ContinuationBits(s[2]) * 64 + ContinuationBits(s[3]);
        if 0xFFFF < r <= MaxRune then (r, 4) else (RuneError, 1)
      else (RuneError, 1)
    else (RuneError, 1)
  }

  /** The runes a `for range` loop over `s` visits, in order. */
  function Runes(s: Bytes): (rs: seq<Rune>)
    ensures |rs| <= |s|
    decreases |s|
  {
    if s == [] then []
    else
      var d := DecodeRune(s);
      [d.0] + Runes(s[d.1..])
  }

  /** The UTF-8 encoding of one scalar value (RFC 3629, section 3). */
  function EncodeRune(r: Rune): (e: Bytes)
    requires IsScalar(r)
    ensures 1 <= |e| <= 4
  {
    if r < 0x80 then [r as byte]
    else if r < 0x800 then [(0xC0 + r / 64) as byte, (0x80 + r % 64) as byte]
    else if r < 0x10000 then
      [(0xE0 + r / 64 / 64) as byte, (0x80 + r / 64 % 64) as byte, (0x80 + r % 64) as byte]
    else
      [(0xF0 + r / 64 / 64 / 64) as byte, (0x80 + r / 64 / 64 % 64) as byte,
       (0x80 + r / 64 % 64) as byte, (0x80 + r % 64) as byte]
  }

  /** The UTF-8 encoding of a text: what Go's `string(runes)` holds. */
  function Encode(rs: seq<Rune>): Bytes
    requires forall i :: 0 <= i < |rs| ==> IsScalar(rs[i])
  {
    if rs == [] then [] else EncodeRune(rs[0]) + Encode(rs[1..])
  }

  /** Decoding the encoding of a scalar value gives it back and steps over exactly its bytes,
      whatever follows. */
  lemma DecodeEncodeRune(r: Rune, rest: Bytes)
    requires IsScalar(r)
    ensures DecodeRune(EncodeRune(r) + rest) == (r, |EncodeRune(r)|)
  {
    if r < 0x80 {
    } else if r < 0x800 {
      DecodeTwo(r, rest);
    } else if r < 0x10000 {
      DecodeThree(r, rest);
    } else {
      DecodeFour(r, rest);
    }
  }

  lemma DecodeTwo(r: Rune, rest: Bytes)
    requires 0x80 <= r < 0x800
    ensures DecodeRune(EncodeRune(r) + rest) == (r, 2)
  {
    var s := EncodeRune(r) + rest;
    assert s[0] as int == 0xC0 + r / 64 && s[1] as int == 0x80 + r % 64;
    assert r == 64 * (r / 64) + r % 64;
  }

  lemma DecodeThree(r: Rune, rest: Bytes)
    requires 0x800 <= r < 0x10000 && !(0xD800 <= r <= 0xDFFF)
    ensures DecodeRune(EncodeRune(r) + rest) == (r, 3)
  {
    var s := EncodeRune(r) + rest;
    var q := r / 64;
    assert r == 64 * q + r % 64;
    assert q == 64 * (q / 64) + q % 64;
    assert s[0] as int == 0xE0 + q / 64 && s[1] as int == 0x80 + q % 64 && s[2] as int == 0x80 + r % 64;
  }

  lemma DecodeFour(r: Rune, rest: Bytes)
    requires 0x10000 <= r <= MaxRune
    ensures DecodeRune(EncodeRune(r) + rest) == (r, 4)
  {
    var s := EncodeRune(r) + rest;
    var q := r / 64;
    var q2 := q / 64;
    assert r == 64 * q + r % 64;
    assert q == 64 * q2 + q % 64;
    assert q2 == 64 * (q2 / 64) + q2 % 64;
    assert s[0] as int == 0xF0 + q2 / 64 && s[1] as int == 0x80 + q2 % 64;
    assert s[2] as int == 0x80 + q % 64 && s[3] as int == 0x80 + r % 64;
  }

  /** A valid UTF-8 text is walked rune by rune: the loop visits exactly the encoded runes,
      so the rune count and the byte length differ as soon as one rune is not ASCII. */
  lemma {:induction false} RunesOfEncode(rs: seq<Rune>)
    requires forall i :: 0 <= i < |rs| ==> IsScalar(rs[i])
    ensures Runes(Encode(rs)) == rs
    ensures |Encode(rs)| >= |rs|
    ensures |Encode(rs)| == |rs| <==> forall i :: 0 <= i < |rs| ==> rs[i] < 0x80
  {
    if rs != [] {
      var e := EncodeRune(rs[0]);
      var tail := Encode(rs[1..]);
      DecodeEncodeRune(rs[0], tail);
      assert (e + tail)[|e|..] == tail;
      RunesOfEncode(rs[1..]);
      assert [rs[0]] + rs[1..] == rs;
      if |Encode(rs)| == |rs| {
        assert |e| == 1;
        forall i | 0 <= i < |rs| ensures rs[i] < 0x80 {
          if i > 0 {
            assert rs[i] == rs[1..][i - 1];
          }
        }
      }
      if forall i :: 0 <= i < |rs| ==> rs[i] < 0x80 {
        assert forall i :: 0 <= i < |rs[1..]| ==> rs[1..][i] < 0x80 by {
          forall i | 0 <= i < |rs[1..]| ensures rs[1..][i] < 0x80 {
            assert rs[1..][i] == rs[i + 1];
          }
        }
      }
    }
  }

  /** Every byte of an ASCII string is one rune of the loop. */
  lemma {:induction false} RunesOfAscii(s: Bytes)
    requires forall i :: 0 <= i < |s| ==> s[i] < 0x80
    ensures |Runes(s)| == |s|
    ensures forall i :: 0 <= i < |s| ==> Runes(s)[i] == s[i] as int
  {
    if s != [] {
      RunesOfAscii(s[1..]);
      forall i | 0 <= i < |s| ensures Runes(s)[i] == s[i] as int {
        if i > 0 {
          assert Runes(s)[i] == Runes(s[1..])[i - 1];
        }
      }
    }
  }
}
