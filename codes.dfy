/** The codes the engine hands out: `getCode` and the way `Confirm` reads an e-mail
    address back out of a confirmation code. */
module Codes {
  import opened Common
  import opened GoStrings
  import opened Base64Url

  /** The 32 bytes `crypto/rand` fills in. */
  type Nonce = b: Bytes | |b| == 32 witness seq(32, _ => 0 as byte)

  /** What a code encodes: `prefix + ":" + nonce`, or the bare nonce for an empty prefix. */
  function Payload(prefix: Bytes, nonce: Nonce): Bytes
  {
    if prefix != [] then prefix + [Colon] + nonce else nonce
  }

  /** `getCode`: the random source either fails, and its error is returned, or yields a
      nonce, and the code is the padded base64url text of the payload. `random` stands for
      the outcome of `rand.Read`. */
  function GetCode(prefix: Bytes, random: Result<Nonce>): (r: Result<Bytes>)
    ensures random.Err? ==> r == Err(random.error)
    ensures random.Ok? ==> r.Ok? && Decode(r.value) == Some(Payload(prefix, random.value))
    ensures random.Ok? ==> |r.value| == 4 * ((|Payload(prefix, random.value)| + 2) / 3)
  {
    match random
    case Err(e) => Err(e)
    case Ok(nonce) =>
      DecodeEncode(Payload(prefix, nonce));
      Ok(Encode(Payload(prefix, nonce)))
  }

  /** Splitting yields a single piece exactly when the separator does not occur. */
  lemma SplitOnePiece(s: Bytes, sep: byte)
    ensures |Split(s, sep)| == 1 <==> sep !in s
  {
    var parts := Split(s, sep);
    JoinSplit(s, sep);
    if sep !in s {
      SplitWithoutSeparator(s, sep);
    }
  }

  /** How `Confirm` as written finds the address: the text before the first ':' of the
      decoded code, and nothing when there is no ':'. */
  function FirstField(decoded: Bytes): (r: Option<Bytes>)
    ensures r.None? <==> Colon !in decoded
    ensures r.Some? ==> Colon !in r.value && |r.value| < |decoded|
                        && decoded[..|r.value|] == r.value && decoded[|r.value|] == Colon
  {
    var parts := Split(decoded, Colon);
    SplitOnePiece(decoded, Colon);
    if |parts| == 1 then None
    else
      JoinSplit(decoded, Colon);
      assert decoded == parts[0] + [Colon] + Join(parts[1..], [Colon]);
      Some(parts[0])
  }

  /** The address a confirmation code was issued for, read from its end: everything before
      the ':' that precedes the 32 nonce bytes. */
  function IssuedEmail(decoded: Bytes): (r: Option<Bytes>)
    ensures r.Some? ==> |decoded| == |r.value| + 33 && decoded[..|r.value|] == r.value
                        && decoded[|r.value|] == Colon
  {
    if |decoded| >= 33 && decoded[|decoded| - 33] == Colon then Some(decoded[..|decoded| - 33]) else None
  }

  /** Reading a confirmation payload gives back the address it was made for, whatever the
      address contains. */
  lemma IssuedEmailOfPayload(email: Bytes, nonce: Nonce)
    requires email != []
    ensures IssuedEmail(Payload(email, nonce)) == Some(email)
  {
    var d := Payload(email, nonce);
    assert d[|d| - 33] == Colon;
    assert d[..|d| - 33] == email;
  }

  /** A password-reset payload (no prefix) never reads as a confirmation payload. */
  lemma NoEmailInBareNonce(nonce: Nonce)
    ensures IssuedEmail(Payload([], nonce)) == None
  {
  }

  /** As written, the address is read back correctly when it holds no ':'. */
  lemma FirstFieldOfPayload(email: Bytes, nonce: Nonce)
    requires email != [] && Colon !in email
    ensures FirstField(Payload(email, nonce)) == Some(email)
  {
    SplitAfterPiece(email, Colon, nonce);
  }

  /** As written, an address with a ':' in it, such as "a:b@x", is read back as the text
      before its own ':', so its confirmation code looks up another account. */
  lemma ColonEmailMisparsed(nonce: Nonce)
    ensures var email: Bytes := [0x61, Colon, 0x62, 0x40, 0x78];
            && FirstField(Payload(email, nonce)) == Some([0x61])
            && IssuedEmail(Payload(email, nonce)) == Some(email)
  {
    var email: Bytes := [0x61, Colon, 0x62, 0x40, 0x78];
    var d := Payload(email, nonce);
    SplitAfterPiece([0x61], Colon, d[2..]);
    assert d == [0x61] + [Colon] + d[2..];
    IssuedEmailOfPayload(email, nonce);
  }
}
