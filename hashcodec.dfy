/** The chunked bcrypt codec of the engine: a password is cut into 72-byte chunks (bcrypt
    looks at no more than 72 bytes), each chunk is hashed on its own, and the hashes are
    joined with single spaces. Checking walks the tokens and the chunks in step. */
module HashCodec {
  import opened Common
  import opened GoStrings

  /** The most bytes one bcrypt hash covers. */
  const MaxBytesPerHash: nat := 72

  /** The bcrypt cost the engine asks for. */
  const Cost: nat := 14

  /** The two bcrypt entry points the engine calls, as opaque values:
      `generate(cost, password)` is `GenerateFromPassword` (it may fail), and
      `compare(hash, password)` holds when `CompareHashAndPassword` returns no error.
      Salting makes `generate` a different function on every run; the model fixes one. */
  datatype Bcrypt = Bcrypt(generate: (nat, Bytes) -> Result<Bytes>, compare: (Bytes, Bytes) -> bool)

  /** What bcrypt guarantees and the codec relies on: a hash generated for a chunk of at
      most 72 bytes accepts that chunk, and a hash is printable text without a space. */
  ghost predicate Sound(h: Bcrypt)
  {
    forall c: Bytes {:trigger h.generate(Cost, c)} :: |c| <= MaxBytesPerHash && h.generate(Cost, c).Ok? ==>
      h.compare(h.generate(Cost, c).value, c) && Space !in h.generate(Cost, c).value
  }

  /** An idealised bcrypt: a hash generated for a chunk of at most 72 bytes accepts no
      other chunk of at most 72 bytes. */
  ghost predicate CollisionFree(h: Bcrypt)
  {
    forall c: Bytes, d: Bytes {:trigger h.compare(h.generate(Cost, c).value, d)} ::
      (&& |c| <= MaxBytesPerHash && |d| <= MaxBytesPerHash && h.generate(Cost, c).Ok?
       && h.compare(h.generate(Cost, c).value, d)) ==> d == c
  }

  function Min(a: nat, b: nat): nat
  {
    if a <= b then a else b
  }

  /** The chunks `hashPassword` hashes: the first 72 bytes, the next 72, ... and the
      remainder; a password of at most 72 bytes, the empty one included, is one chunk. */
  function Chunks(b: Bytes): (cs: seq<Bytes>)
    ensures |cs| >= 1
    ensures forall i :: 0 <= i < |cs| ==> |cs[i]| <= MaxBytesPerHash
    decreases |b|
  {
    if |b| <= MaxBytesPerHash then [b] else [b[..MaxBytesPerHash]] + Chunks(b[MaxBytesPerHash..])
  }

  /** The number of chunks of an n-byte password: max(1, ceil(n / 72)). */
  function ChunkCount(n: nat): nat
  {
    if n == 0 then 1 else (n + MaxBytesPerHash - 1) / MaxBytesPerHash
  }

  /** There are max(1, ceil(n / 72)) chunks. */
  lemma {:induction false} ChunksLength(b: Bytes)
    ensures |Chunks(b)| == ChunkCount(|b|)
    decreases |b|
  {
    if |b| > MaxBytesPerHash {
      ChunksLength(b[MaxBytesPerHash..]);
    }
  }

  /** Chunk i covers the bytes [72 i, min(72 i + 72, n)). */
  lemma {:induction false} ChunkAt(b: Bytes, i: nat)
    requires i < |Chunks(b)|
    ensures 72 * i <= |b| && Chunks(b)[i] == b[72 * i .. Min(72 * i + 72, |b|)]
    decreases i
  {
    if i > 0 {
      var rest := b[MaxBytesPerHash..];
      assert Chunks(b)[i] == Chunks(rest)[i - 1];
      ChunkAt(rest, i - 1);
      var lo := 72 * (i - 1);
      var hi := Min(lo + 72, |rest|);
      assert MaxBytesPerHash + lo == 72 * i && MaxBytesPerHash + hi == Min(72 * i + 72, |b|);
      assert rest[lo..hi] == b[MaxBytesPerHash + lo .. MaxBytesPerHash + hi];
    }
  }

  /** Concatenating the chunks gives the password back: no byte is lost or repeated. */
  lemma {:induction false} ChunksCover(b: Bytes)
    ensures Join(Chunks(b), []) == b
    decreases |b|
  {
    if |b| > MaxBytesPerHash {
      var rest := b[MaxBytesPerHash..];
      ChunksCover(rest);
      var cs := Chunks(b);
      assert cs[1..] == Chunks(rest);
      assert |Chunks(rest)| >= 1;
      assert b[..MaxBytesPerHash] + rest == b;
    }
  }

  /** The hashes of the chunks, in order, or the first error bcrypt reports. */
  function HashTokens(h: Bcrypt, cs: seq<Bytes>): (r: Result<seq<Bytes>>)
    ensures r.Ok? <==> forall i :: 0 <= i < |cs| ==> h.generate(Cost, cs[i]).Ok?
    ensures r.Ok? ==> |r.value| == |cs| && forall i :: 0 <= i < |cs| ==> r.value[i] == h.generate(Cost, cs[i]).value
  {
    if cs == [] then Ok([])
    else
      match h.generate(Cost, cs[0])
      case Err(e) => Err(e)
      case Ok(t) =>
        match HashTokens(h, cs[1..])
        case Err(e) => Err(e)
        case Ok(ts) =>
          assert forall i :: 1 <= i < |cs| ==> cs[i] == cs[1..][i - 1];
          Ok([t] + ts)
  }

  /** `hashPassword` as a value: the chunk hashes joined by single spaces. */
  function Hash(h: Bcrypt, password: Bytes): Result<Bytes>
  {
    match HashTokens(h, Chunks(password))
    case Ok(ts) => Ok(Join(ts, [Space]))
    case Err(e) => Err(e)
  }

  /** Hashes collected so far in front of the outcome of the rest of the walk. */
  function Prepend(done: seq<Bytes>, r: Result<seq<Bytes>>): Result<seq<Bytes>>
  {
    match r
    case Ok(ts) => Ok(done + ts)
    case Err(e) => Err(e)
  }

  /** `hashPassword`: hash the leading chunk, drop it, and stop after the chunk that left
      at most 72 bytes; the first bcrypt error is returned. */
  method HashPassword(h: Bcrypt, password: Bytes) returns (r: Result<Bytes>)
    ensures r == Hash(h, password)
  {
    var b := password;
    var hashed: seq<Bytes> := [];
    ghost var whole := HashTokens(h, Chunks(password));
    if whole.Ok? {
      assert [] + whole.value == whole.value;
    }
    while true
      invariant HashTokens(h, Chunks(password)) == Prepend(hashed, HashTokens(h, Chunks(b)))
      decreases |b|
    {
      var b1 := b;
      if |b1| > MaxBytesPerHash {
        b1 := b1[..MaxBytesPerHash];
      }
      var bytes := h.generate(Cost, b1);
      if bytes.Err? {
        return Err(bytes.error);
      }
      ghost var before := hashed;
      hashed := hashed + [bytes.value];
      if |b| > MaxBytesPerHash {
        assert HashTokens(h, Chunks(b)) == Prepend([bytes.value], HashTokens(h, Chunks(b[MaxBytesPerHash..])));
        assert before + [bytes.value] == hashed;
        assert forall ts :: before + ([bytes.value] + ts) == hashed + ts;
        b := b[MaxBytesPerHash..];
      } else {
        var none: seq<Bytes> := [];
        assert Chunks(b) == [b] && [b][1..] == none && b1 == b;
        assert HashTokens(h, none) == Ok(none);
        assert [bytes.value] + none == [bytes.value];
        assert HashTokens(h, Chunks(b)) == Ok([bytes.value]);
        break;
      }
    }
    return Ok(Join(hashed, [Space]));
  }

  /** `checkPasswordHash` as written: for each token, reject if no candidate bytes are left,
      otherwise compare the next chunk; once the tokens run out, accept. */
  function WalkAsWritten(h: Bcrypt, b: Bytes, tokens: seq<Bytes>): bool
    decreases |tokens|
  {
    if tokens == [] then true
    else if |b| == 0 then false
    else
      var n := Min(MaxBytesPerHash, |b|);
      h.compare(tokens[0], b[..n]) && WalkAsWritten(h, b[n..], tokens[1..])
  }

  function CheckAsWritten(h: Bcrypt, password: Bytes, hash: Bytes): bool
  {
    WalkAsWritten(h, password, Split(hash, Space))
  }

  /** The corrected walk: as written, but once the tokens run out the candidate must be
      used up too. */
  function Walk(h: Bcrypt, b: Bytes, tokens: seq<Bytes>): bool
    decreases |tokens|
  {
    if tokens == [] then |b| == 0
    else if |b| == 0 then false
    else
      var n := Min(MaxBytesPerHash, |b|);
      h.compare(tokens[0], b[..n]) && Walk(h, b[n..], tokens[1..])
  }

  /** The corrected `checkPasswordHash`: the candidate matches the stored hash. */
  function Verifies(h: Bcrypt, password: Bytes, hash: Bytes): bool
  {
    Walk(h, password, Split(hash, Space))
  }

  /** The loop of `checkPasswordHash`: walk the tokens of the stored hash and the chunks of
      the candidate in step, and accept once the tokens run out. */
  method CheckPasswordHash(h: Bcrypt, password: Bytes, hash: Bytes) returns (ok: bool)
    ensures ok == CheckAsWritten(h, password, hash)
  {
    var b := password;
    var tokens := Split(hash, Space);
    var k := 0;
    while k < |tokens|
      invariant 0 <= k <= |tokens|
      invariant WalkAsWritten(h, password, tokens) == WalkAsWritten(h, b, tokens[k..])
      decreases |tokens| - k
    {
      assert tokens[k..][1..] == tokens[k + 1..] && tokens[k..][0] == tokens[k];
      if |b| == 0 {
        return false;
      }
      var b1 := b;
      if |b1| > MaxBytesPerHash {
        b1 := b1[..MaxBytesPerHash];
      }
      assert b1 == b[..Min(MaxBytesPerHash, |b|)];
      if !h.compare(tokens[k], b1) {
        return false;
      }
      if |b| > MaxBytesPerHash {
        b := b[MaxBytesPerHash..];
      } else {
        assert b[|b|..] == [];
        b := [];
      }
      k := k + 1;
    }
    return true;
  }

  /** The empty candidate is rejected whatever the stored hash: splitting any hash, the empty
      one included, gives at least one token. */
  lemma EmptyCandidateRejected(h: Bcrypt, hash: Bytes)
    ensures !Verifies(h, [], hash) && !CheckAsWritten(h, [], hash)
  {
  }

  /** With a sound and collision-free bcrypt, the hash of the empty password matches no
      candidate at all: its one token accepts only the empty chunk, and the empty candidate
      is turned away before any comparison. */
  lemma EmptyHashMatchesNothing(h: Bcrypt, candidate: Bytes)
    requires Sound(h) && CollisionFree(h) && Hash(h, []).Ok?
    ensures !CheckAsWritten(h, candidate, Hash(h, []).value)
  {
    TokensOfHash(h, []);
    var tokens := Split(Hash(h, []).value, Space);
    assert tokens == [h.generate(Cost, []).value];
    if |candidate| > 0 {
      var n := Min(MaxBytesPerHash, |candidate|);
      assert |candidate[..n]| == n > 0;
    }
  }

  /** The hash of a password of at most 72 bytes is the single bcrypt hash of it. */
  lemma ShortPasswordOneToken(h: Bcrypt, password: Bytes)
    requires |password| <= MaxBytesPerHash
    ensures Hash(h, password) == h.generate(Cost, password)
  {
  }

  /** The tokens of a generated hash are the chunk hashes, none holding a space. */
  lemma {:induction false} TokensOfHash(h: Bcrypt, password: Bytes)
    requires Sound(h) && Hash(h, password).Ok?
    ensures Split(Hash(h, password).value, Space) == HashTokens(h, Chunks(password)).value
  {
    var cs := Chunks(password);
    var ts := HashTokens(h, cs).value;
    forall i | 0 <= i < |ts| ensures Space !in ts[i] {
      assert h.generate(Cost, cs[i]).Ok?;
    }
    SplitJoin(ts, Space);
  }

  /** A non-empty candidate walks the hashes of its own chunks to the end, whichever walk. */
  lemma {:induction false} WalkOwnChunks(h: Bcrypt, b: Bytes)
    requires Sound(h) && |b| > 0 && HashTokens(h, Chunks(b)).Ok?
    ensures Walk(h, b, HashTokens(h, Chunks(b)).value)
    ensures WalkAsWritten(h, b, HashTokens(h, Chunks(b)).value)
    decreases |b|
  {
    var cs := Chunks(b);
    var ts := HashTokens(h, cs).value;
    assert h.generate(Cost, cs[0]).Ok?;
    var n := Min(MaxBytesPerHash, |b|);
    assert cs[0] == b[..n];
    if |b| > MaxBytesPerHash {
      var rest := b[MaxBytesPerHash..];
      assert cs[1..] == Chunks(rest);
      assert ts[1..] == HashTokens(h, Chunks(rest)).value;
      WalkOwnChunks(h, rest);
    } else {
      assert b[n..] == [];
    }
  }

  /** Round trip: a non-empty password matches its own hash. */
  lemma HashRoundTrip(h: Bcrypt, password: Bytes)
    requires Sound(h) && |password| > 0 && Hash(h, password).Ok?
    ensures Verifies(h, password, Hash(h, password).value)
    ensures CheckAsWritten(h, password, Hash(h, password).value)
  {
    TokensOfHash(h, password);
    WalkOwnChunks(h, password);
  }

  /** Under an idealised bcrypt the corrected walk accepts exactly the password whose
      chunks the tokens hash. */
  lemma {:induction false} WalkOnlyOwnChunks(h: Bcrypt, p: Bytes, q: Bytes)
    requires CollisionFree(h) && HashTokens(h, Chunks(p)).Ok?
    requires Walk(h, q, HashTokens(h, Chunks(p)).value)
    ensures q == p
    decreases |p|
  {
    var cs := Chunks(p);
    var ts := HashTokens(h, cs).value;
    assert h.generate(Cost, cs[0]).Ok?;
    var n := Min(MaxBytesPerHash, |q|);
    assert h.compare(h.generate(Cost, cs[0]).value, q[..n]);
    assert q[..n] == cs[0];
    if |p| > MaxBytesPerHash {
      var rest := p[MaxBytesPerHash..];
      assert cs[1..] == Chunks(rest);
      assert ts[1..] == HashTokens(h, Chunks(rest)).value;
      WalkOnlyOwnChunks(h, rest, q[n..]);
      assert q == q[..n] + q[n..];
      assert p == p[..MaxBytesPerHash] + rest;
    } else {
      assert ts[1..] == [];
      assert q == q[..n] + q[n..];
    }
  }

  /** The corrected check accepts a candidate against a generated hash exactly when it is
      the hashed password and that password is not empty. */
  lemma VerifiesExactly(h: Bcrypt, p: Bytes, q: Bytes)
    requires Sound(h) && CollisionFree(h) && Hash(h, p).Ok?
    ensures Verifies(h, q, Hash(h, p).value) <==> q == p && |p| > 0
  {
    TokensOfHash(h, p);
    if Verifies(h, q, Hash(h, p).value) {
      WalkOnlyOwnChunks(h, p, q);
      EmptyCandidateRejected(h, Hash(h, p).value);
    }
    if q == p && |p| > 0 {
      HashRoundTrip(h, p);
    }
  }

  /** As written, the check looks at no more than 72 bytes per token: whatever follows the
      first 72 × (number of tokens) bytes of the candidate is ignored. */
  lemma {:induction false} AsWrittenIgnoresTail(h: Bcrypt, b: Bytes, tail: Bytes, tokens: seq<Bytes>)
    requires |b| == MaxBytesPerHash * |tokens|
    ensures WalkAsWritten(h, b + tail, tokens) == WalkAsWritten(h, b, tokens)
    decreases |tokens|
  {
    if tokens != [] {
      assert (b + tail)[..MaxBytesPerHash] == b[..MaxBytesPerHash];
      assert (b + tail)[MaxBytesPerHash..] == b[MaxBytesPerHash..] + tail;
      AsWrittenIgnoresTail(h, b[MaxBytesPerHash..], tail, tokens[1..]);
    }
  }

  /** The chunks of a password whose length is a positive multiple of 72 all have 72 bytes. */
  lemma {:induction false} FullChunks(b: Bytes)
    requires |b| > 0 && |b| % MaxBytesPerHash == 0
    ensures |b| == MaxBytesPerHash * |Chunks(b)|
    decreases |b|
  {
    if |b| > MaxBytesPerHash {
      FullChunks(b[MaxBytesPerHash..]);
    }
  }

  /** As written, a password whose length is a positive multiple of 72 is matched by every
      extension of it. */
  lemma ExtensionAccepted(h: Bcrypt, p: Bytes, tail: Bytes)
    requires Sound(h) && |p| > 0 && |p| % MaxBytesPerHash == 0 && Hash(h, p).Ok?
    ensures CheckAsWritten(h, p + tail, Hash(h, p).value)
  {
    HashRoundTrip(h, p);
    TokensOfHash(h, p);
    FullChunks(p);
    AsWrittenIgnoresTail(h, p, tail, HashTokens(h, Chunks(p)).value);
  }

  /** The concrete case: 73 letters 'a' log in to the account whose password is 72 of them. */
  lemma ExtendedCandidateAccepted(h: Bcrypt)
    requires Sound(h)
    ensures var p := seq(72, _ => 0x61 as byte);
            var q := seq(73, _ => 0x61 as byte);
            Hash(h, p).Ok? ==> q != p && CheckAsWritten(h, q, Hash(h, p).value) && !Verifies(h, q, Hash(h, p).value)
  {
    var p := seq(72, _ => 0x61 as byte);
    var q := seq(73, _ => 0x61 as byte);
    if Hash(h, p).Ok? {
      assert q == p + [0x61];
      ExtensionAccepted(h, p, [0x61]);
      TokensOfHash(h, p);
      var ts := HashTokens(h, Chunks(p)).value;
      assert |ts| == 1 && ts[1..] == [];
      assert Split(Hash(h, p).value, Space) == ts;
      assert q[MaxBytesPerHash..] == [0x61];
      assert !Walk(h, q[MaxBytesPerHash..], ts[1..]);
    }
  }
}
