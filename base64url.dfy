/** `base64.URLEncoding` of Go: the URL- and file-name-safe alphabet of section 5 of
    RFC 4648, with '=' padding. The decoder skips carriage returns and line feeds, wants the
    rest in padded groups of four, and ignores the unused low bits of the last group. */
module Base64Url {
  import opened Common

  const Pad: byte := 0x3D
  const CR: byte := 0x0D
  const LF: byte := 0x0A

  /** The character for a six-bit value: A-Z, a-z, 0-9, '-', '_'. */
  function Sextet(v: nat): (c: byte)
    requires v < 64
  {
    if v < 26 then (0x41 + v) as byte
    else if v < 52 then (0x61 + v - 26) as byte
    else if v < 62 then (0x30 + v - 52) as byte
    else if v == 62 then 0x2D
    else 0x5F
  }

  /** The six-bit value of an alphabet character; nothing for any other byte. */
  function SextetValue(c: byte): (r: Option<nat>)
    ensures r.Some? ==> r.value < 64 && Sextet(r.value) == c
    ensures c == Pad || c == CR || c == LF ==> r.None?
  {
    if 0x41 <= c <= 0x5A then Some(c as int - 0x41)
    else if 0x61 <= c <= 0x7A then Some(c as int - 0x61 + 26)
    else if 0x30 <= c <= 0x39 then Some(c as int - 0x30 + 52)
    else if c == 0x2D then Some(62)
    else if c == 0x5F then Some(63)
    else None
  }

  /** Every six-bit value is read back from its character. */
  lemma SextetRoundTrip(v: nat)
    requires v < 64
    ensures SextetValue(Sextet(v)) == Some(v)
  {
  }

  /** The alphabet and the padding: what an encoder writes. */
  predicate IsCodeByte(c: byte)
  {
    SextetValue(c).Some? || c == Pad
  }

  /** Three bytes as four characters: each character carries six of the 24 bits. */
  function EncodeThree(b0: byte, b1: byte, b2: byte): (g: Bytes)
    ensures |g| == 4 && forall i :: 0 <= i < 4 ==> IsCodeByte(g[i])
  {
    var v0, v1 := b0 as nat / 4, b0 as nat % 4 * 16 + b1 as nat / 16;
    var v2, v3 := b1 as nat % 16 * 4 + b2 as nat / 64, b2 as nat % 64;
    SextetRoundTrip(v0);
    SextetRoundTrip(v1);
    SextetRoundTrip(v2);
    SextetRoundTrip(v3);
    [Sextet(v0), Sextet(v1), Sextet(v2), Sextet(v3)]
  }

  /** Two final bytes as three characters and one '='. */
  function EncodeTwo(b0: byte, b1: byte): (g: Bytes)
    ensures |g| == 4 && forall i :: 0 <= i < 4 ==> IsCodeByte(g[i])
  {
    var v0, v1, v2 := b0 as nat / 4, b0 as nat % 4 * 16 + b1 as nat / 16, b1 as nat % 16 * 4;
    SextetRoundTrip(v0);
    SextetRoundTrip(v1);
    SextetRoundTrip(v2);
    [Sextet(v0), Sextet(v1), Sextet(v2), Pad]
  }

  /** A final byte as two characters and "==". */
  function EncodeOne(b0: byte): (g: Bytes)
    ensures |g| == 4 && forall i :: 0 <= i < 4 ==> IsCodeByte(g[i])
  {
    var v0, v1 := b0 as nat / 4, b0 as nat % 4 * 16;
    SextetRoundTrip(v0);
    SextetRoundTrip(v1);
    [Sextet(v0), Sextet(v1), Pad, Pad]
  }

  /** `EncodeToString`: each three bytes become four characters; a final one or two bytes
      become two or three characters followed by "==" or "=". */
  function Encode(bs: Bytes): (r: Bytes)
    ensures |r| == 4 * ((|bs| + 2) / 3)
    ensures forall i :: 0 <= i < |r| ==> IsCodeByte(r[i])
  {
    if |bs| == 0 then []
    else if |bs| == 1 then EncodeOne(bs[0])
    else if |bs| == 2 then EncodeTwo(bs[0], bs[1])
    else
      var g, rest := EncodeThree(bs[0], bs[1], bs[2]), Encode(bs[3..]);
      assert forall i :: 4 <= i < |g + rest| ==> (g + rest)[i] == rest[i - 4];
      g + rest
  }

  /** Four alphabet characters as three bytes. */
  function DecodeFull(g: Bytes): Option<Bytes>
    requires |g| == 4
  {
    var v0, v1, v2, v3 := SextetValue(g[0]), SextetValue(g[1]), SextetValue(g[2]), SextetValue(g[3]);
    if v0.None? || v1.None? || v2.None? || v3.None? then None
    else
      Some([(v0.value * 4 + v1.value / 16) as byte,
            (v1.value % 16 * 16 + v2.value / 4) as byte,
            (v2.value % 4 * 64 + v3.value) as byte])
  }

  /** The last group: "xx==" is one byte, "xxx=" two, "xxxx" three; the low bits the bytes
      do not use are ignored. */
  function DecodeLast(g: Bytes): Option<Bytes>
    requires |g| == 4
  {
    if g[3] == Pad then
      var v0, v1 := SextetValue(g[0]), SextetValue(g[1]);
      if v0.None? || v1.None? then None
      else if g[2] == Pad then Some([(v0.value * 4 + v1.value / 16) as byte])
      else
        var v2 := SextetValue(g[2]);
        if v2.None? then None
        else Some([(v0.value * 4 + v1.value / 16) as byte, (v1.value % 16 * 16 + v2.value / 4) as byte])
    else DecodeFull(g)
  }

  /** Decoding once carriage returns and line feeds are gone: whole groups of four, padding
      only in the last one. */
  function DecodeGroups(t: Bytes): Option<Bytes>
    decreases |t|
  {
    if |t| == 0 then Some([])
    else if |t| < 4 then None
    else if |t| == 4 then DecodeLast(t)
    else
      match DecodeFull(t[..4])
      case None => None
      case Some(three) =>
        match DecodeGroups(t[4..])
        case None => None
        case Some(more) => Some(three + more)
  }

  /** The input with every carriage return and line feed removed. */
  function StripNewlines(s: Bytes): (r: Bytes)
    ensures |r| <= |s|
    ensures CR !in r && LF !in r
  {
    if s == [] then []
    else if s[0] == CR || s[0] == LF then StripNewlines(s[1..])
    else [s[0]] + StripNewlines(s[1..])
  }

  /** `DecodeString`: the bytes, or nothing for malformed input. */
  function Decode(s: Bytes): Option<Bytes>
  {
    DecodeGroups(StripNewlines(s))
  }

  /** Text without carriage returns and line feeds is left as it is. */
  lemma {:induction false} StripNothing(s: Bytes)
    requires CR !in s && LF !in s
    ensures StripNewlines(s) == s
  {
    if s != [] {
      assert s[0] != CR && s[0] != LF;
      StripNothing(s[1..]);
      assert [s[0]] + s[1..] == s;
    }
  }

  /** The bytes of one full group come back from its four characters. */
  lemma DecodeFullGroup(b0: byte, b1: byte, b2: byte)
    ensures DecodeFull(EncodeThree(b0, b1, b2)) == Some([b0, b1, b2])
  {
    var v0, v1 := b0 as nat / 4, b0 as nat % 4 * 16 + b1 as nat / 16;
    var v2, v3 := b1 as nat % 16 * 4 + b2 as nat / 64, b2 as nat % 64;
    SextetRoundTrip(v0);
    SextetRoundTrip(v1);
    SextetRoundTrip(v2);
    SextetRoundTrip(v3);
    assert v0 * 4 + v1 / 16 == b0 as nat by {
      assert v1 / 16 == b0 as nat % 4;
    }
    assert v1 % 16 * 16 + v2 / 4 == b1 as nat by {
      assert v1 % 16 == b1 as nat / 16;
      assert v2 / 4 == b1 as nat % 16;
    }
    assert v2 % 4 * 64 + v3 == b2 as nat by {
      assert v2 % 4 == b2 as nat / 64;
    }
  }

  /** Round trip: decoding an encoding gives the bytes back. */
  lemma {:induction false} DecodeEncode(bs: Bytes)
    ensures Decode(Encode(bs)) == Some(bs)
    decreases |bs|
  {
    var e := Encode(bs);
    forall i | 0 <= i < |e| ensures e[i] != CR && e[i] != LF {
      assert IsCodeByte(e[i]);
    }
    StripNothing(e);
    EncodedGroups(bs);
  }

  lemma {:induction false} EncodedGroups(bs: Bytes)
    ensures DecodeGroups(Encode(bs)) == Some(bs)
    decreases |bs|
  {
    if |bs| == 0 {
    } else if |bs| == 1 {
      EncodedOne(bs[0]);
      assert bs == [bs[0]];
    } else if |bs| == 2 {
      EncodedTwo(bs[0], bs[1]);
      assert bs == [bs[0], bs[1]];
    } else {
      var g := EncodeThree(bs[0], bs[1], bs[2]);
      assert Encode(bs) == g + Encode(bs[3..]);
      DecodeFullGroup(bs[0], bs[1], bs[2]);
      EncodedGroups(bs[3..]);
      DecodeGroupThenRest(g, Encode(bs[3..]), [bs[0], bs[1], bs[2]], bs[3..]);
      assert bs == [bs[0], bs[1], bs[2]] + bs[3..];
    }
  }

  /** A full group in front of well-formed groups decodes to its three bytes in front of
      theirs. */
  lemma DecodeGroupThenRest(g: Bytes, rest: Bytes, three: Bytes, more: Bytes)
    requires |g| == 4 && DecodeFull(g) == Some(three) && DecodeGroups(rest) == Some(more)
    ensures DecodeGroups(g + rest) == Some(three + more)
  {
    assert SextetValue(g[3]).Some? && g[3] != Pad;
    if rest == [] {
      assert g + rest == g && DecodeGroups(g) == DecodeLast(g) == DecodeFull(g);
      assert three + more == three;
    } else {
      assert (g + rest)[..4] == g && (g + rest)[4..] == rest;
    }
  }

  /** A final single byte comes back from "xx==". */
  lemma EncodedOne(b0: byte)
    ensures DecodeGroups(EncodeOne(b0)) == Some([b0])
  {
    var v0, v1 := b0 as nat / 4, b0 as nat % 4 * 16;
    SextetRoundTrip(v0);
    SextetRoundTrip(v1);
    assert v0 * 4 + v1 / 16 == b0 as nat by {
      assert v1 / 16 == b0 as nat % 4;
    }
  }

  /** Two final bytes come back from "xxx=". */
  lemma EncodedTwo(b0: byte, b1: byte)
    ensures DecodeGroups(EncodeTwo(b0, b1)) == Some([b0, b1])
  {
    var v0, v1, v2 := b0 as nat / 4, b0 as nat % 4 * 16 + b1 as nat / 16, b1 as nat % 16 * 4;
    SextetRoundTrip(v0);
    SextetRoundTrip(v1);
    SextetRoundTrip(v2);
    assert v0 * 4 + v1 / 16 == b0 as nat by {
      assert v1 / 16 == b0 as nat % 4;
    }
    assert v1 % 16 * 16 + v2 / 4 == b1 as nat by {
      assert v1 % 16 == b1 as nat / 16;
      assert v2 / 4 == b1 as nat % 16;
    }
  }

  /** Go's decoder is not strict: "QR==" and "QQ==" both decode to "A", so decoding alone
      does not pin down the code that was issued. */
  lemma TrailingBitsIgnored()
    ensures Decode([0x51, 0x52, Pad, Pad]) == Some([0x41])
    ensures Decode([0x51, 0x51, Pad, Pad]) == Some([0x41])
  {
    StripNothing([0x51, 0x52, Pad, Pad]);
    StripNothing([0x51, 0x51, Pad, Pad]);
  }

  /** Carriage returns and line feeds inside a code are skipped. */
  lemma NewlinesSkipped(bs: Bytes)
    ensures Decode([CR] + Encode(bs) + [LF]) == Some(bs)
  {
    var e := Encode(bs);
    forall i | 0 <= i < |e| ensures e[i] != CR && e[i] != LF {
      assert IsCodeByte(e[i]);
    }
    StripNothing(e);
    StripAround(e);
    EncodedGroups(bs);
  }

  lemma StripAround(e: Bytes)
    requires CR !in e && LF !in e
    ensures StripNewlines([CR] + e + [LF]) == e
  {
    assert ([CR] + e + [LF])[1..] == e + [LF];
    StripAppendLF(e);
  }

  lemma {:induction false} StripAppendLF(e: Bytes)
    requires CR !in e && LF !in e
    ensures StripNewlines(e + [LF]) == e
  {
    if e == [] {
      assert [] + [LF] == [LF];
    } else {
      assert (e + [LF])[1..] == e[1..] + [LF];
      StripAppendLF(e[1..]);
      assert [e[0]] + e[1..] == e;
    }
  }
}
