/** End-to-end runs of the engine against the demo store: the flows a user goes through,
    and what each step leaves behind for the next. */
module Scenarios {
  import opened Common
  import opened PasswordPolicy
  import opened HashCodec
  import opened Base64Url
  import opened Users
  import opened Mailer
  import opened Codes
  import opened Registration
  import Utf8

  /** Without a mail sender, a new account can log in straight away with the password it
      registered, and registering the address again is refused. */
  method RegisterLoginRegisterAgain(r: UserRegistration, email: Bytes, password: Bytes, random: Result<Nonce>, now: Time)
    returns (user: Option<User>, againMsg: string)
    requires r.mailSender == null && r.userSource.failures == map[]
    requires email !in r.userSource.users
    requires Acceptable(r.requirements, r.tables, password) && |password| > 0
    requires Sound(r.bcrypt) && Hash(r.bcrypt, password).Ok?
    modifies r.userSource
    ensures user == Some(User(email, Hash(r.bcrypt, password).value, [], now, None))
    ensures againMsg == MsgEmailTaken
  {
    var ok, emailMsg, passwordMsg, confirmMsg, err := r.Register(email, password, password, random, now);
    assert ok;
    HashRoundTrip(r.bcrypt, password);
    var loginMsg, loginPasswordMsg;
    user, loginMsg, loginPasswordMsg, err := r.Login(email, password);
    ok, againMsg, passwordMsg, confirmMsg, err := r.Register(email, password, password, random, now);
  }

  /** With a mail sender, the account is turned away at login until it is confirmed; the
      code in the confirmation mail confirms it, after which the same login succeeds. The
      address must hold no ':', since `Confirm` reads the address up to the first ':'. */
  method ConfirmWithMailedCode(r: UserRegistration, email: Bytes, password: Bytes, nonce: Nonce, now: Time, later: Time)
    returns (before: string, confirmErr: Option<Error>, after: Option<User>)
    requires r.mailSender != null && r.mailSender.failures == map[] && r.userSource.failures == map[]
    requires email != [] && Colon !in email && email !in r.userSource.users
    requires Acceptable(r.requirements, r.tables, password) && |password| > 0
    requires Sound(r.bcrypt) && Hash(r.bcrypt, password).Ok?
    modifies r.userSource, r.mailSender
    ensures before == MsgNotConfirmed && confirmErr == None
    ensures after == Some(User(email, Hash(r.bcrypt, password).value, Encode(Payload(email, nonce)), now, Some(later)))
  {
    var ok, emailMsg, passwordMsg, confirmMsg, err := r.Register(email, password, password, Ok(nonce), now);
    assert ok;
    var mailed := r.mailSender.sent[|r.mailSender.sent| - 1];
    assert mailed.code == Encode(Payload(email, nonce));
    HashRoundTrip(r.bcrypt, password);
    var user, passwordMsg2;
    user, before, passwordMsg2, err := r.Login(email, password);
    FirstFieldOfPayload(email, nonce);
    assert r.CodeEmail(mailed.code) == Some(email);
    confirmErr := r.Confirm(mailed.code, later);
    after, emailMsg, passwordMsg2, err := r.Login(email, password);
  }

  /** A forgotten password: the mailed reset code resets the password of a known account
      within the hour, the new password then logs in, and the code cannot be used twice. */
  method ForgotThenReset(r: UserRegistration, email: Bytes, nonce: Nonce, now: Time, later: Time, password: Bytes)
    returns (ok: bool, user: Option<User>, second: Option<Error>)
    requires r.mailSender != null && r.mailSender.failures == map[] && r.userSource.failures == map[]
    requires email in r.userSource.users && r.userSource.users[email].email == email
    requires now <= later <= now + Hour
    requires Acceptable(r.requirements, r.tables, password) && |password| > 0
    requires Sound(r.bcrypt) && Hash(r.bcrypt, password).Ok?
    modifies r, r.userSource, r.mailSender
    ensures ok && second == Some(ErrResetCode)
    ensures user.Some? && user.value.password == Hash(r.bcrypt, password).value && user.value.confirmedAt.Some?
  {
    var err := r.Forgot(email, Ok(nonce), now);
    var code := r.mailSender.sent[|r.mailSender.sent| - 1].code;
    assert r.ValidateResetCode(code, later) == Ok(email);
    var passwordMsg, confirmMsg;
    ok, passwordMsg, confirmMsg, err := r.Reset(code, password, password, later);
    HashRoundTrip(r.bcrypt, password);
    assert r.userSource.users[email].confirmedAt.Some?;
    var emailMsg;
    user, emailMsg, passwordMsg, err := r.Login(email, password);
    var again;
    again, passwordMsg, confirmMsg, second := r.Reset(code, password, password, later);
  }

  /** A reset code is valid up to and including its expiry instant and not one nanosecond
      after. */
  lemma ExpiryBoundary(r: UserRegistration, code: Bytes)
    requires code in r.resetCodes
    ensures r.ValidateResetCode(code, r.resetCodes[code].expiry) == Ok(r.resetCodes[code].email)
    ensures r.ValidateResetCode(code, r.resetCodes[code].expiry + 1) == Err(ErrResetCode)
  {
  }

  /** With a minimum length of zero and no class bounds, the empty password is accepted at
      registration, yet with a sound and collision-free bcrypt that account can never log
      in: the login with any candidate, the empty one included, is refused. */
  method EmptyPasswordLocksOut(r: UserRegistration, email: Bytes, now: Time, candidate: Bytes)
    returns (registered: bool, loginMsg: string)
    requires r.requirements == PasswordRequirements(Some(0), None, None, None, None, None)
    requires r.mailSender == null && r.userSource.failures == map[] && email !in r.userSource.users
    requires Sound(r.bcrypt) && CollisionFree(r.bcrypt) && Hash(r.bcrypt, []).Ok?
    modifies r.userSource
    ensures registered && loginMsg == MsgInvalidLogin
  {
    assert Utf8.Runes([]) == [];
    assert Acceptable(r.requirements, r.tables, []);
    var emailMsg, passwordMsg, confirmMsg, err;
    registered, emailMsg, passwordMsg, confirmMsg, err := r.Register(email, [], [], Err(Error("unused")), now);
    var user;
    EmptyHashMatchesNothing(r.bcrypt, candidate);
    user, loginMsg, passwordMsg, err := r.Login(email, candidate);
  }

  /** As written, an account whose password is a positive multiple of 72 bytes long also
      logs in with any longer password that starts with it. */
  method LoginWithExtendedPassword(r: UserRegistration, user: User, p: Bytes, tail: Bytes)
    returns (found: Option<User>)
    requires r.mailSender == null && r.userSource.failures == map[]
    requires user.email in r.userSource.users && r.userSource.users[user.email] == user
    requires Sound(r.bcrypt) && |p| > 0 && |p| % MaxBytesPerHash == 0 && Hash(r.bcrypt, p) == Ok(user.password)
    ensures found == Some(user)
  {
    ExtensionAccepted(r.bcrypt, p, tail);
    var emailMsg, passwordMsg, err;
    found, emailMsg, passwordMsg, err := r.Login(user.email, p + tail);
  }

  /** As written, the account "a:b@x" can never be confirmed: the code mailed to it reads
      as the address "a", and when there is no such account `Confirm` reports that the
      user does not exist anymore. */
  method ColonEmailNotConfirmed(r: UserRegistration, nonce: Nonce, now: Time) returns (err: Option<Error>)
    requires r.userSource.failures == map[] && [0x61] !in r.userSource.users
    modifies r.userSource
    ensures err == Some(ErrUserGone)
    ensures r.userSource.users == old(r.userSource.users)
  {
    var email: Bytes := [0x61, Colon, 0x62, 0x40, 0x78];
    ColonEmailMisparsed(nonce);
    var code := GetCode(email, Ok(nonce)).value;
    assert r.CodeEmail(code) == Some([0x61]);
    err := r.Confirm(code, now);
  }
}
