# User registration engine — a Dafny model

This project models the credential engine of `user-registration-go` and the map-backed user store of
its demo application. The engine covers five flows:

- registration, with a password policy and an optional confirmation mail;
- login against stored bcrypt hashes;
- confirmation of an e-mail address by a base64url code;
- a forgotten-password flow, which issues one-hour reset codes;
- resetting a password with such a code.

Each part of the source gets its own module:

- `Common`: bytes, Go strings as byte sequences, `Option` and `Result`, and the Go `error` as `Error`.
- `GoStrings`: `strings.Split` and `strings.Join` on sequences, with their round trips.
- `Utf8`: the rune decoding that a Go `for range` over a string performs, with `utf8.RuneError` for bad bytes.
- `PasswordPolicy`: the `PasswordRequirements` record with its 8/32 defaults. It holds `verifyPassword`
  and `passwordError`. `verifyPassword` is an imperative rune-counting loop proved against the
  specification function `Acceptable`.
- `HashCodec`: `hashPassword` and `checkPasswordHash`. These cut a password into 72-byte chunks, hash
  each chunk with bcrypt at cost 14 and join the hashes with spaces. Both are loops proved against
  specification functions.
- `Base64Url`: padded base64url as `base64.URLEncoding` uses it (section 5 of RFC 4648). The decoder
  skips CR and LF.
- `Users`: the `User` record and the `UserSource` interface. `UserSource` is a class whose `users` map
  the store methods update in place. The demo store (`NewUserSource`) is the instance that never fails.
- `Mailer`: the `MailSender` interface as a class that logs each mail it attempts.
- `Codes`: `getCode`, and the way `Confirm` reads an address back out of a code.
- `Registration`: the `UserRegistration` class. Its mutable state is the table of reset codes.
- `Scenarios`: end-to-end flows. One example: register, log in, and be refused when registering the
  same address again.

Some of the environment enters the model as parameters:

- Go's Unicode tables are a value `UnicodeTables` (`IsNumber`, `IsUpper`, `IsPunct`/`IsSymbol`,
  `IsLetter`). The proofs that need standard behaviour assume only that these tables classify ASCII as
  Go does.
- bcrypt is a pair of functions, `generate` and `compare`. `Sound` (a generated hash verifies its
  input) and `CollisionFree` (a hash verifies only its own input) are hypotheses of the lemmas that
  need them.
- `crypto/rand.Read` becomes a parameter `random: Result<Nonce>`.
- `time.Now()` becomes a parameter `now`, in nanoseconds.

## Model

| member | source | states |
|---|---|---|
| GoStrings.Join | user-registration/user-registration.go:405 | `strings.Join`: the parts in order with the separator between each two neighbours; a single part is itself and no parts give the empty text |
| GoStrings.Split | user-registration/user-registration.go:226-231 | there is at least one piece and no piece holds the separator |
| GoStrings.SplitJoin | user-registration/user-registration.go:405-411 | splitting the space-joined hashes gives back the hashes when none holds a space |
| GoStrings.JoinSplit | user-registration/user-registration.go:226-231 | joining the pieces of a split with the separator gives back the text |
| GoStrings.SplitWithoutSeparator | user-registration/user-registration.go:226-228 | text without the separator splits into itself alone |
| GoStrings.SplitAfterPiece | user-registration/user-registration.go:226-231 | a separator-free piece followed by the separator is the first of the pieces |
| Utf8.DecodeRune | user-registration/user-registration.go:340 | one step of the range loop consumes between 1 and 4 bytes, never more than are left |
| Utf8.Runes | user-registration/user-registration.go:340 | the range loop visits at most one rune per byte |
| Utf8.EncodeRune | user-registration/user-registration.go:340 | a scalar value is written in 1 to 4 bytes |
| Utf8.DecodeEncodeRune | user-registration/user-registration.go:340 | decoding the encoding of a scalar value gives it back with its length, whatever follows |
| Utf8.RunesOfEncode | user-registration/user-registration.go:340 | the range loop over encoded text visits exactly the encoded runes, and the byte length equals the rune count exactly when all are ASCII |
| Utf8.RunesOfAscii | user-registration/user-registration.go:319-340 | on ASCII text the range loop visits each byte as its own rune |
| PasswordPolicy.Classify | user-registration/user-registration.go:342-349 | a rune goes to the first of number, upper case, punctuation or symbol, letter whose table holds it, and to no class otherwise |
| PasswordPolicy.EachRuneCountedOnce | user-registration/user-registration.go:340-352 | the four class counts and the unclassified runes add up to the number of runes |
| PasswordPolicy.EveryRuneCounted | user-registration/user-registration.go:340-352 | the class of every rune of the string has a count of at least one |
| PasswordPolicy.CountFromRunes | user-registration/user-registration.go:338-352 | counting a class while decoding from a byte offset gives the class count of the runes of the rest of the string |
| PasswordPolicy.Acceptable | user-registration/user-registration.go:314-380 | the byte length lies within the bounds (8 and 32 when unset), there is no space, and each configured class bound is met by the count of its class |
| PasswordPolicy.CountClasses | user-registration/user-registration.go:338-352 | the four counters equal the per-class counts of the string's runes, classified with priority number, upper, punctuation or symbol, letter |
| PasswordPolicy.VerifyPassword | user-registration/user-registration.go:314-380 | accepted exactly when the byte length lies within the bounds, there is no space, and every bound that is set is met by its class count |
| PasswordPolicy.ClassifyAscii | user-registration/user-registration.go:342-349 | with tables that agree with Go on ASCII, digits are numbers, A-Z upper, a-z letters, and the other printable symbols special |
| PasswordPolicy.DemoRequirementsMet | main.go:47-53 | under the demo requirements a password of 8 to 32 bytes with no space and one upper, one number and one special rune is accepted |
| PasswordPolicy.DemoPasswordAccepted | main.go:47-53 | with tables that agree with Go on ASCII, the password "Abc123!@" meets the demo requirements |
| PasswordPolicy.LengthCountsBytes | user-registration/user-registration.go:319-327 | the length bounds count bytes, not runes: eight bytes forming four two-byte letters 'é' are four runes and meet the default minimum of eight |
| PasswordPolicy.Decimal | user-registration/user-registration.go:287-308 | a bound prints as decimal digits only, with a leading zero exactly for zero |
| PasswordPolicy.DecimalRoundTrip | user-registration/user-registration.go:287-308 | the decimal text printed for a bound reads back as that bound |
| PasswordPolicy.PasswordError | user-registration/user-registration.go:280-312 | the preamble, then the clauses joined by ", " (the two length clauses with their defaults, then one clause per configured class bound in the order lower, upper, number, special), then '.' |
| PasswordPolicy.PasswordErrorShape | user-registration/user-registration.go:280-312 | the message starts with the fixed preamble and the two length clauses and ends in '.'; it is exactly those when no class bound is set, and only then |
| PasswordPolicy.PasswordErrorOfDefaults | user-registration/user-registration.go:283-293 | with no bounds set the message names "at least 8 characters" and "at most 32 characters" |
| PasswordPolicy.DefaultLengthClauses | user-registration/user-registration.go:283-293 | unset length bounds print as the defaults 8 and 32 |
| PasswordPolicy.ClassClauseOfOne | user-registration/user-registration.go:295-309 | a class bound of one prints as the clause "at least 1 ..." |
| PasswordPolicy.DemoClassClauses | main.go:47-53 | the demo requirements add the upper, number and special clauses in that order |
| PasswordPolicy.DemoClauses | main.go:47-53 | the demo requirements give the two default length clauses and then the upper, number and special clauses, bound 1 each |
| PasswordPolicy.PasswordErrorOfDemo | user-registration/user-registration.go:280-312 | the message for the demo requirements lists the two length clauses and the three class clauses, comma-separated |
| HashCodec.Chunks | user-registration/user-registration.go:382-404 | at least one chunk, none longer than 72 bytes |
| HashCodec.ChunksLength | user-registration/user-registration.go:382-404 | an n-byte password is cut into max(1, ceil(n/72)) chunks |
| HashCodec.ChunkAt | user-registration/user-registration.go:382-404 | chunk i holds bytes 72i up to min(72i+72, n) of the password |
| HashCodec.ChunksCover | user-registration/user-registration.go:382-404 | the chunks concatenate back to the password |
| HashCodec.Hash | user-registration/user-registration.go:382-406 | the first bcrypt error over the chunks, or the chunk hashes joined by single spaces |
| HashCodec.CheckAsWritten | user-registration/user-registration.go:408-432 | `checkPasswordHash` as written: each token of the stored hash, in order, needs candidate bytes left and must match the next chunk of at most 72 of them; after the last token the candidate is accepted |
| HashCodec.Verifies | user-registration/user-registration.go:408-432 | the corrected check: as written, but after the last token the candidate must also be used up |
| HashCodec.HashTokens | user-registration/user-registration.go:386-403 | hashing succeeds exactly when bcrypt succeeds on every chunk, and then yields one hash per chunk |
| HashCodec.HashPassword | user-registration/user-registration.go:382-406 | the loop returns the specification hash: the first bcrypt error or the space-joined chunk hashes |
| HashCodec.CheckPasswordHash | user-registration/user-registration.go:408-432 | the loop accepts exactly when the check as written (`CheckAsWritten`) holds: each stored hash matches the next chunk of the candidate, and whatever is left of the candidate after the last hash is not looked at |
| HashCodec.EmptyCandidateRejected | user-registration/user-registration.go:412-414 | an empty candidate never matches |
| HashCodec.EmptyHashMatchesNothing | user-registration/user-registration.go:382-432 | with a sound and collision-free bcrypt, no candidate at all matches the stored hash of the empty password |
| HashCodec.ShortPasswordOneToken | user-registration/user-registration.go:382-406 | a password of at most 72 bytes is stored as a single bcrypt hash |
| HashCodec.TokensOfHash | user-registration/user-registration.go:405-411 | splitting a stored hash on spaces gives back one hash per chunk |
| HashCodec.WalkOwnChunks | user-registration/user-registration.go:411-431 | walking a password's own chunk hashes consumes it exactly and accepts |
| HashCodec.HashRoundTrip | user-registration/user-registration.go:382-432 | for a sound bcrypt a non-empty password matches its own hash, under the check as written and the corrected one |
| HashCodec.WalkOnlyOwnChunks | user-registration/user-registration.go:411-431 | with collision-free bcrypt an accepted walk has consumed exactly the password whose chunks were hashed |
| HashCodec.VerifiesExactly | user-registration/user-registration.go:408-432 | under sound and collision-free bcrypt, a candidate matches a stored hash exactly when it is the non-empty password that was hashed |
| HashCodec.AsWrittenIgnoresTail | user-registration/user-registration.go:411-431 | as written, once every token is matched the rest of the candidate is never looked at |
| HashCodec.FullChunks | user-registration/user-registration.go:382-404 | a password whose length is a positive multiple of 72 is exactly its full chunks |
| HashCodec.ExtensionAccepted | user-registration/user-registration.go:408-432 | as written, any extension of such a password is accepted against its hash |
| HashCodec.ExtendedCandidateAccepted | user-registration/user-registration.go:408-432 | 73 'a's are accepted against the hash of 72 'a's as written, and rejected by the corrected check |
| Base64Url.SextetValue | user-registration/user-registration.go:221 | an alphabet byte has a value below 64 that is written back as that byte; '=', CR and LF have none |
| Base64Url.SextetRoundTrip | user-registration/user-registration.go:181 | every value below 64 is written as a code byte that reads back as it |
| Base64Url.EncodeThree | user-registration/user-registration.go:181 | three bytes become four code bytes |
| Base64Url.EncodeTwo | user-registration/user-registration.go:181 | two trailing bytes become three code bytes and one '=' |
| Base64Url.EncodeOne | user-registration/user-registration.go:181 | one trailing byte becomes two code bytes and "==" |
| Base64Url.Encode | user-registration/user-registration.go:181 | the padded text is 4*ceil(n/3) bytes long and every byte is a code byte or '=' |
| Base64Url.StripNewlines | user-registration/user-registration.go:221 | the decoder's view of the input holds no CR or LF and is no longer than it |
| Base64Url.Decode | user-registration/user-registration.go:221 | `DecodeString`: CR and LF are dropped, then whole groups of four decode to three bytes each, padding only in the last group; anything else is malformed |
| Base64Url.StripNothing | user-registration/user-registration.go:221 | text without CR or LF is left as it is |
| Base64Url.DecodeFullGroup | user-registration/user-registration.go:181-221 | a full group decodes to the three bytes it encodes |
| Base64Url.DecodeGroupThenRest | user-registration/user-registration.go:221 | a full group in front of well-formed groups decodes to its three bytes in front of what they decode to |
| Base64Url.EncodedGroups | user-registration/user-registration.go:181-221 | the encoded text decodes group by group to its input |
| Base64Url.EncodedOne | user-registration/user-registration.go:181-221 | the "=="-padded last group decodes to its one byte |
| Base64Url.EncodedTwo | user-registration/user-registration.go:181-221 | the "="-padded last group decodes to its two bytes |
| Base64Url.DecodeEncode | user-registration/user-registration.go:181-221 | decoding the encoding of any bytes gives them back |
| Base64Url.TrailingBitsIgnored | user-registration/user-registration.go:221 | the decoder is not strict: "QR==" and "QQ==" both decode to "A" |
| Base64Url.NewlinesSkipped | user-registration/user-registration.go:221 | a line break inserted into an encoded code does not change what it decodes to |
| Base64Url.StripAround | user-registration/user-registration.go:221 | CR and LF around a code are dropped before decoding |
| Base64Url.StripAppendLF | user-registration/user-registration.go:221 | a trailing LF is dropped before decoding |
| Users.Put | user-source.go:17-27 | the written user is under its address and every other entry is kept |
| Users.Remove | user-source.go:29-33 | the address is gone and every other entry is kept |
| Users.Lookup | user-source.go:35-42 | a user is found exactly when the address is in the table, and it is the stored one |
| Users.UserSource.constructor | user-source.go:11-15 | the demo store starts empty and never fails |
| Users.UserSource.Failing | user-registration/user-source.go:3-8 | any other implementation of the interface: a given table and a given set of failing operations |
| Users.UserSource.Insert | user-source.go:17-21 | writes the user under its address, or reports the store's error and changes nothing |
| Users.UserSource.Update | user-source.go:23-27 | the same write as Insert |
| Users.UserSource.Delete | user-source.go:29-33 | removes the address, a missing one being no error, or reports the store's error and changes nothing |
| Users.UserSource.Select | user-source.go:35-42 | the stored user or none, or the store's error; the table is not changed |
| Users.LookupAfterPut | user-source.go:17-42 | after a write, the written user is found under its address and every other address answers as before |
| Users.PutIdempotent | user-source.go:17-27 | writing the same user twice leaves the table as writing it once |
| Users.LookupAfterRemove | user-source.go:29-42 | after a delete, the address is unknown and every other address answers as before |
| Users.RemoveMissing | user-source.go:29-33 | deleting an address that is not in the table leaves the table as it is |
| Users.InsertThenSelect | user-source.go:11-42 | on the demo store a user inserted is selected back, and a second insert under the same address replaces it |
| Mailer.MailSender.constructor | user-registration/mail-sender.go:3-6 | a sender with an empty log that fails the given kinds of mail |
| Mailer.MailSender.Confirm | user-registration/mail-sender.go:4 | appends one confirmation mail to the log and returns the sender's error for that kind, if any |
| Mailer.MailSender.Reset | user-registration/mail-sender.go:5 | appends one reset mail to the log and returns the sender's error for that kind, if any |
| Codes.GetCode | user-registration/user-registration.go:171-182 | the random source's error is passed on; otherwise the code decodes to prefix, ':' and the 32 random bytes (the bare bytes for an empty prefix), and is 4*ceil(n/3) bytes long |
| Codes.SplitOnePiece | user-registration/user-registration.go:226-228 | the split yields one piece exactly when there is no ':' |
| Codes.FirstField | user-registration/user-registration.go:226-231 | as written: nothing exactly when there is no ':'; otherwise the colon-free text before the first ':' |
| Codes.IssuedEmail | user-registration/user-registration.go:171-182 | the corrected reading: the text before the ':' that precedes the 32 nonce bytes |
| Codes.IssuedEmailOfPayload | user-registration/user-registration.go:171-231 | every non-empty address is read back from its own confirmation payload, ':' included |
| Codes.NoEmailInBareNonce | user-registration/user-registration.go:171-182 | a reset payload never reads as a confirmation payload |
| Codes.FirstFieldOfPayload | user-registration/user-registration.go:220-231 | as written, an address without ':' is read back from its payload |
| Codes.ColonEmailMisparsed | user-registration/user-registration.go:226-231 | as written, the code for "a:b@x" is read as the address "a"; the corrected reading gives "a:b@x" |
| Registration.UserRegistration.constructor | user-registration/user-registration.go:60-65 | the engine holds the given store, sender and requirements, and no reset codes |
| Registration.UserRegistration.NewUserRegistration | user-registration/user-registration.go:47-66 | a missing configuration, store or requirements gives its own error; otherwise a fresh engine with an empty code table |
| Registration.UserRegistration.Register | user-registration/user-registration.go:72-124 | the store error, taken address, policy failure and mismatch in that order; then the code, hash and insert; with a sender, the confirmation mail is attempted once a code exists, and its error is dropped |
| Registration.UserRegistration.HasMailSender | user-registration/user-registration.go:68-70 | true exactly when a mail sender is configured |
| Registration.UserRegistration.Login | user-registration/user-registration.go:184-201 | the store error is passed on; an unknown address, or a password that the check as written rejects, gives the invalid-login message twice; an unconfirmed account behind a mail sender is refused; otherwise the user is returned |
| Registration.UserRegistration.GetUser | user-registration/user-registration.go:216-218 | the store's answer for the address |
| Registration.UserRegistration.Confirm | user-registration/user-registration.go:220-249 | the address is the text before the first ':' of the decoded code; bad base64, a code without ':', a store error, no user under that address, or a code that differs from the stored one each give their error; otherwise the confirmation time is written; no error path changes the store |
| Registration.UserRegistration.Forgot | user-registration/user-registration.go:251-278 | without a sender, with a store error, for an unknown address or a failing random source nothing is recorded or sent; otherwise a code expiring one hour later is recorded and mailed, and the mail error is returned |
| Registration.UserRegistration.ValidateResetCode | user-registration/user-registration.go:203-214 | succeeds exactly for a recorded code at or before its expiry, yielding its address; otherwise the invalid-or-expired error |
| Registration.UserRegistration.Reset | user-registration/user-registration.go:126-169 | each failure (bad code, policy, mismatch, hash, store, missing user) leaves store and codes unchanged; success writes the new hash, confirms an unconfirmed account, and deletes the code |
| Scenarios.RegisterLoginRegisterAgain | user-registration/user-registration.go:72-201 | without a sender, an account logs in with its password at once, and registering its address again is refused |
| Scenarios.ConfirmWithMailedCode | user-registration/user-registration.go:72-249 | with a sender and an address without ':', login is refused until the mailed code confirms the account, after which it succeeds |
| Scenarios.ForgotThenReset | user-registration/user-registration.go:126-278 | a mailed reset code resets the password within the hour, the new password logs in, and the code cannot be used a second time |
| Scenarios.ExpiryBoundary | user-registration/user-registration.go:203-214 | a reset code is valid at its expiry instant and invalid one nanosecond later |
| Scenarios.LoginWithExtendedPassword | user-registration/user-registration.go:184-201 | as written, an account whose password is a positive multiple of 72 bytes long logs in with any candidate that extends that password |
| Scenarios.ColonEmailNotConfirmed | user-registration/user-registration.go:220-235 | as written, the code mailed to "a:b@x" is read as the address "a"; when there is no such account, `Confirm` reports that the user does not exist anymore, and nothing changes |
| Scenarios.EmptyPasswordLocksOut | user-registration/user-registration.go:72-124 | with a minimum length of zero the empty password registers; with a sound and collision-free bcrypt, the login with any candidate, the empty one included, is then refused |

## Left out

- Unicode classification is not modelled. `unicode.IsNumber`, `IsUpper`, `IsPunct`, `IsSymbol` and `IsLetter` are a parameter. Only their agreement with Go on ASCII is assumed where a lemma needs it.
- bcrypt's algorithm, salt and cost handling are not modelled. `generate` and `compare` are a parameter. `Sound` and `CollisionFree` are hypotheses of the lemmas that need them.
- `crypto/rand` is not modelled. Its outcome is a parameter of `Register` and `Forgot`.
- The clock is not modelled. Each operation takes one reading `now`. The Go `Reset` reads the clock twice (validation, then the confirmation time); the model uses the same instant for both.
- Users.UserSource.Failing: a failing operation answers its fixed error and changes nothing. Stores that fail only some of the time, or that fail after a partial write, are not modelled.
- Concurrency is not modelled. The Go engine has no locking around its reset-code map, and the model runs one call at a time.
- `uint` bounds are modelled as unbounded `nat`. A bound near 2^64 in `PasswordRequirements` does not wrap.
- `ErrCorruptInput`: the byte offset inside the base64 error message is not modelled, only the message text before it.
- `Properties map[string]string` of `User` is not modelled. No core operation reads or writes it.
- The SMTP sender and the HTTP handlers, templates, sessions and configuration of the demo application are not modelled. Only its map-backed store and its password requirements are part of this model.
- Logging calls are not modelled. They have no effect on results.
- Go strings are modelled as byte sequences. The messages the engine returns are Dafny strings, and `fmt.Sprintf("%v")` of a `uint` is modelled by `Decimal`.

## Findings

| source | as written | input that shows it | evidently intended | confidence | as-written member | corrected member |
|---|---|---|---|---|---|---|
| user-registration/user-registration.go:408-432 | once every stored hash has matched a chunk the check returns success without looking at what is left of the candidate | the password of 72 'a's is stored; the candidate of 73 'a's is accepted | accept only when the candidate has been used up | medium-high, not executed | HashCodec.ExtendedCandidateAccepted | HashCodec.VerifiesExactly |
| user-registration/user-registration.go:226-231 | the address is taken as the text before the first ':' of the decoded code | the address "a:b@x" gets a code that reads as the address "a", so it can never be confirmed | read the address as everything before the ':' that precedes the 32 random bytes | medium, not executed | Codes.ColonEmailMisparsed | Codes.IssuedEmailOfPayload |

The engine's methods follow the code as written: `Login` accepts by `CheckAsWritten` and `Confirm` reads the address with `FirstField`. The corrected definitions, `Verifies` and `IssuedEmail`, stand beside them with their intended properties proved. `Scenarios.LoginWithExtendedPassword` and `Scenarios.ColonEmailNotConfirmed` show both discrepancies through the engine.
