/** The credential engine: registration, login, e-mail confirmation and password reset,
    over a user store, an optional mail sender and a table of outstanding reset codes. */
module Registration {
  import opened Common
  import opened PasswordPolicy
  import opened HashCodec
  import opened Base64Url
  import opened Users
  import opened Mailer
  import opened Codes

  /** `time.Hour` in nanoseconds: how long a reset code stays valid. */
  const Hour: int := 3_600_000_000_000

  /** An outstanding password-reset code: whose password it resets, and until when. */
  datatype ResetCode = ResetCode(email: Bytes, expiry: Time)

  /** `NewUserRegistrationConfig`; a nil pointer is `null` or `None`. */
  datatype Config = Config(userSource: UserSource?, mailSender: MailSender?,
                           requirements: Option<PasswordRequirements>)

  const ErrNilConfig := Error("NewUserRegistrationConfig cannot be a nil pointer")
  const ErrNilUserSource := Error("UserSource cannot be a nil pointer")
  const ErrNilRequirements := Error("PasswordRequirements cannot be a nil pointer")
  const ErrResetCode := Error("password reset code invalid or expired")
  const ErrNoUser := Error("user does not exist")
  const ErrUserGone := Error("user does not exist anymore")
  const ErrInvalidConfirmation := Error("invalid confirmation code")
  const ErrNoMailSender := Error("no e-mail sender configured")
  /** The error `base64` reports for malformed input (its byte offset is not modelled). */
  const ErrCorruptInput := Error("illegal base64 data at input byte")

  const MsgEmailTaken := "email already registered"
  const MsgMismatch := "passwords are not the same"
  const MsgInvalidLogin := "invalid email and/or password"
  const MsgNotConfirmed := "email not confirmed yet, check your inbox"

  /** The engine. The Unicode tables and bcrypt are the environment it runs in. */
  class UserRegistration {
    const userSource: UserSource
    const mailSender: MailSender?
    const requirements: PasswordRequirements
    const tables: UnicodeTables
    const bcrypt: Bcrypt
    var resetCodes: map<Bytes, ResetCode>

    constructor (userSource: UserSource, mailSender: MailSender?, requirements: PasswordRequirements,
                 tables: UnicodeTables, bcrypt: Bcrypt)
      ensures this.userSource == userSource && this.mailSender == mailSender
      ensures this.requirements == requirements && this.tables == tables && this.bcrypt == bcrypt
      ensures resetCodes == map[]
    {
      this.userSource := userSource;
      this.mailSender := mailSender;
      this.requirements := requirements;
      this.tables := tables;
      this.bcrypt := bcrypt;
      resetCodes := map[];
    }

    /** `NewUserRegistration`: the configuration, the store and the requirements must be
        present; the mail sender may be absent. */
    static method NewUserRegistration(cfg: Option<Config>, tables: UnicodeTables, bcrypt: Bcrypt)
      returns (r: UserRegistration?, err: Option<Error>)
      ensures cfg.None? ==> r == null && err == Some(ErrNilConfig)
      ensures cfg.Some? && cfg.value.userSource == null ==> r == null && err == Some(ErrNilUserSource)
      ensures cfg.Some? && cfg.value.userSource != null && cfg.value.requirements.None?
              ==> r == null && err == Some(ErrNilRequirements)
      ensures cfg.Some? && cfg.value.userSource != null && cfg.value.requirements.Some?
              ==> && err == None && r != null && fresh(r)
                  && r.userSource == cfg.value.userSource && r.mailSender == cfg.value.mailSender
                  && r.requirements == cfg.value.requirements.value && r.resetCodes == map[]
                  && r.tables == tables && r.bcrypt == bcrypt
    {
      if cfg.None? {
        return null, Some(ErrNilConfig);
      }
      if cfg.value.userSource == null {
        return null, Some(ErrNilUserSource);
      }
      if cfg.value.requirements.None? {
        return null, Some(ErrNilRequirements);
      }
      r := new UserRegistration(cfg.value.userSource, cfg.value.mailSender, cfg.value.requirements.value,
                                tables, bcrypt);
      err := None;
    }

    /** `HasMailSender`: whether confirmation and reset mails can be sent. */
    predicate HasMailSender(): (r: bool)
      ensures r <==> mailSender != null
    {
      mailSender != null
    }

    /** The confirmation code `Register` stores and mails: a fresh code for the address
        when there is a mail sender, the empty string otherwise. */
    function IssuedCode(email: Bytes, random: Result<Nonce>): Result<Bytes>
    {
      if HasMailSender() then GetCode(email, random) else Ok([])
    }

    /** All checks of `Register` pass: the store answers, the address is new, the password
        meets the requirements and is repeated exactly. */
    ghost predicate RegisterChecksPass(email: Bytes, password: Bytes, confirmPassword: Bytes)
      reads userSource
    {
      && SelectOp !in userSource.failures && email !in userSource.users
      && Acceptable(requirements, tables, password) && password == confirmPassword
    }

    /** `Register`. The checks run in a fixed order and the first failing one fills its
        slot; after them the code is made, the password hashed and the user inserted. Once
        a code exists the confirmation mail is attempted whatever happens next, and its
        error is dropped. `random` is the outcome of `rand.Read`, `now` the clock. */
    method Register(email: Bytes, password: Bytes, confirmPassword: Bytes, random: Result<Nonce>, now: Time)
      returns (ok: bool, emailMsg: string, passwordMsg: string, confirmMsg: string, err: Option<Error>)
      modifies userSource, mailSender
      ensures SelectOp in userSource.failures
              ==> !ok && emailMsg == "" && passwordMsg == "" && confirmMsg == "" && err == Some(userSource.failures[SelectOp])
      ensures SelectOp !in userSource.failures && email in old(userSource.users)
              ==> !ok && emailMsg == MsgEmailTaken && passwordMsg == "" && confirmMsg == "" && err == None
      ensures SelectOp !in userSource.failures && email !in old(userSource.users) && !Acceptable(requirements, tables, password)
              ==> !ok && emailMsg == "" && passwordMsg == PasswordError(requirements) && confirmMsg == "" && err == None
      ensures SelectOp !in userSource.failures && email !in old(userSource.users) && Acceptable(requirements, tables, password)
              && password != confirmPassword
              ==> !ok && emailMsg == "" && passwordMsg == "" && confirmMsg == MsgMismatch && err == None
      ensures !old(RegisterChecksPass(email, password, confirmPassword)) || IssuedCode(email, random).Err?
              ==> userSource.users == old(userSource.users) && (mailSender != null ==> mailSender.sent == old(mailSender.sent))
      ensures old(RegisterChecksPass(email, password, confirmPassword)) && IssuedCode(email, random).Err?
              ==> !ok && emailMsg == "" && passwordMsg == "" && confirmMsg == "" && err == Some(IssuedCode(email, random).error)
      ensures old(RegisterChecksPass(email, password, confirmPassword)) && IssuedCode(email, random).Ok?
              ==> var code := IssuedCode(email, random).value;
                  var hashed := Hash(bcrypt, password);
                  && emailMsg == "" && passwordMsg == "" && confirmMsg == ""
                  && (mailSender != null ==> mailSender.sent == old(mailSender.sent) + [Mail(ConfirmMail, email, code)])
                  && (ok <==> hashed.Ok? && InsertOp !in userSource.failures)
                  && (ok ==> err == None
                             && userSource.users == Put(old(userSource.users), User(email, hashed.value, code, now, None)))
                  && (hashed.Err? ==> err == Some(hashed.error))
                  && (hashed.Ok? && InsertOp in userSource.failures ==> err == Some(userSource.failures[InsertOp]))
                  && (!ok ==> userSource.users == old(userSource.users))
    {
      var selected := userSource.Select(email);
      if selected.Err? {
        return false, "", "", "", Some(selected.error);
      }
      if selected.value.Some? {
        return false, MsgEmailTaken, "", "", None;
      }
      var acceptable := VerifyPassword(requirements, tables, password);
      if !acceptable {
        return false, "", PasswordError(requirements), "", None;
      }
      if password != confirmPassword {
        return false, "", "", MsgMismatch, None;
      }

      var code: Bytes := [];
      if HasMailSender() {
        var made := GetCode(email, random);
        if made.Err? {
          return false, "", "", "", Some(made.error);
        }
        code := made.value;
      }

      emailMsg, passwordMsg, confirmMsg := "", "", "";
      var hashed := HashPassword(bcrypt, password);
      if hashed.Err? {
        ok, err := false, Some(hashed.error);
      } else {
        var inserted := userSource.Insert(User(email, hashed.value, code, now, None));
        if inserted.Some? {
          ok, err := false, inserted;
        } else {
          ok, err := true, None;
        }
      }

      // The deferred call: the mail goes out on every return after the code was made.
      if HasMailSender() {
        var mailErr := mailSender.Confirm(email, code);
      }
    }

    /** `Login`: reads the store only. An unknown address and a wrong password give the
        same answer; a right password on an unconfirmed account is turned away only when
        there is a mail sender to confirm it with. */
    method Login(email: Bytes, password: Bytes)
      returns (user: Option<User>, emailMsg: string, passwordMsg: string, err: Option<Error>)
      ensures SelectOp in userSource.failures
              ==> user == None && emailMsg == "" && passwordMsg == "" && err == Some(userSource.failures[SelectOp])
      ensures SelectOp !in userSource.failures ==>
                var found := Lookup(userSource.users, email);
                && err == None
                && (found.Some? && CheckAsWritten(bcrypt, password, found.value.password) ==>
                      if HasMailSender() && found.value.confirmedAt.None?
                      then user == None && emailMsg == MsgNotConfirmed && passwordMsg == ""
                      else user == found && emailMsg == "" && passwordMsg == "")
                && (!(found.Some? && CheckAsWritten(bcrypt, password, found.value.password)) ==>
                      user == None && emailMsg == MsgInvalidLogin && passwordMsg == MsgInvalidLogin)
    {
      var selected := userSource.Select(email);
      if selected.Err? {
        return None, "", "", Some(selected.error);
      }
      if selected.value.Some? {
        var matches := CheckPasswordHash(bcrypt, password, selected.value.value.password);
        if matches {
          if HasMailSender() && selected.value.value.confirmedAt.None? {
            return None, MsgNotConfirmed, "", None;
          }
          return selected.value, "", "", None;
        }
      }
      return None, MsgInvalidLogin, MsgInvalidLogin, None;
    }

    /** `GetUser`: the store's `Select`. */
    method GetUser(email: Bytes) returns (r: Result<Option<User>>)
      ensures SelectOp in userSource.failures ==> r == Err(userSource.failures[SelectOp])
      ensures SelectOp !in userSource.failures ==> r == Ok(Lookup(userSource.users, email))
    {
      r := userSource.Select(email);
    }

    /** The address `Confirm` reads out of a code: the text before the first ':' of the
        decoded code, if it decodes and holds a ':'. */
    function CodeEmail(code: Bytes): Option<Bytes>
    {
      var decoded := Decode(code);
      if decoded.None? then None else FirstField(decoded.value)
    }

    /** `Confirm`: decode the code, read the address out of it, find the user, compare the
        stored code with the given one byte for byte, and record the confirmation time.
        The stored code is kept, so confirming again succeeds again. */
    method Confirm(code: Bytes, now: Time) returns (err: Option<Error>)
      modifies userSource
      ensures Decode(code).None? ==> err == Some(ErrCorruptInput)
      ensures Decode(code).Some? && CodeEmail(code).None? ==> err == Some(ErrInvalidConfirmation)
      ensures CodeEmail(code).Some? && SelectOp in userSource.failures ==> err == Some(userSource.failures[SelectOp])
      ensures CodeEmail(code).Some? && SelectOp !in userSource.failures ==>
                var found := Lookup(old(userSource.users), CodeEmail(code).value);
                && (found.None? ==> err == Some(ErrUserGone))
                && (found.Some? && found.value.confirmationCode != code ==> err == Some(ErrInvalidConfirmation))
                && (found.Some? && found.value.confirmationCode == code ==>
                      && (UpdateOp in userSource.failures ==> err == Some(userSource.failures[UpdateOp]))
                      && (UpdateOp !in userSource.failures ==>
                            err == None
                            && userSource.users == Put(old(userSource.users), found.value.(confirmedAt := Some(now)))))
      ensures err.Some? ==> userSource.users == old(userSource.users)
    {
      var decoded := Decode(code);
      if decoded.None? {
        return Some(ErrCorruptInput);
      }
      var email := FirstField(decoded.value);
      if email.None? {
        return Some(ErrInvalidConfirmation);
      }
      var selected := userSource.Select(email.value);
      if selected.Err? {
        return Some(selected.error);
      }
      if selected.value.None? {
        return Some(ErrUserGone);
      }
      var user := selected.value.value;
      if user.confirmationCode != code {
        return Some(ErrInvalidConfirmation);
      }
      user := user.(confirmedAt := Some(now));
      err := userSource.Update(user);
    }

    /** `Forgot`: with a mail sender and a known address, a fresh reset code valid for one
        hour is recorded and mailed; the code stays recorded even if the mail fails, and
        that error is returned. An unknown address is no error and changes nothing. */
    method Forgot(email: Bytes, random: Result<Nonce>, now: Time) returns (err: Option<Error>)
      modifies this, mailSender
      ensures mailSender == null ==> err == Some(ErrNoMailSender) && resetCodes == old(resetCodes)
      ensures mailSender != null && SelectOp in userSource.failures
              ==> err == Some(userSource.failures[SelectOp]) && resetCodes == old(resetCodes)
                  && mailSender.sent == old(mailSender.sent)
      ensures mailSender != null && SelectOp !in userSource.failures && email !in userSource.users
              ==> err == None && resetCodes == old(resetCodes) && mailSender.sent == old(mailSender.sent)
      ensures mailSender != null && SelectOp !in userSource.failures && email in userSource.users && random.Err?
              ==> err == Some(random.error) && resetCodes == old(resetCodes) && mailSender.sent == old(mailSender.sent)
      ensures mailSender != null && SelectOp !in userSource.failures && email in userSource.users && random.Ok?
              ==> var code := GetCode([], random).value;
                  && resetCodes == old(resetCodes)[code := ResetCode(email, now + Hour)]
                  && mailSender.sent == old(mailSender.sent) + [Mail(ResetMail, email, code)]
                  && err == (if ResetMail in mailSender.failures then Some(mailSender.failures[ResetMail]) else None)
    {
      if !HasMailSender() {
        return Some(ErrNoMailSender);
      }
      var selected := GetUser(email);
      if selected.Err? {
        return Some(selected.error);
      }
      if selected.value.Some? {
        var made := GetCode([], random);
        if made.Err? {
          return Some(made.error);
        }
        var code := made.value;
        resetCodes := resetCodes[code := ResetCode(email, now + Hour)];
        err := mailSender.Reset(email, code);
        return err;
      }
      return None;
    }

    /** `ValidateResetCode`: the address of a recorded code that has not expired; a code
        is still valid at the very instant of its expiry. An unknown and an expired code
        give the same error. */
    function ValidateResetCode(code: Bytes, now: Time): (r: Result<Bytes>)
      reads this
      ensures r.Ok? <==> code in resetCodes && now <= resetCodes[code].expiry
      ensures r.Ok? ==> r.value == resetCodes[code].email
      ensures r.Err? ==> r.error == ErrResetCode
    {
      if code !in resetCodes then Err(ErrResetCode)
      else if now > resetCodes[code].expiry then Err(ErrResetCode)
      else Ok(resetCodes[code].email)
    }

    /** The user `Reset` writes back: the new hash, and the confirmation time set to now if
        the account was not confirmed yet. */
    function WithNewPassword(user: User, hashed: Bytes, now: Time): User
    {
      user.(password := hashed, confirmedAt := if user.confirmedAt.None? then Some(now) else user.confirmedAt)
    }

    /** `Reset`: validate the code, check and hash the new password, write it to the user
        the code belongs to, and only then forget the code. Any failure before the write
        succeeds leaves the store and the code table as they were. */
    method Reset(code: Bytes, password: Bytes, confirmPassword: Bytes, now: Time)
      returns (ok: bool, passwordMsg: string, confirmMsg: string, err: Option<Error>)
      modifies this, userSource
      ensures !ok ==> resetCodes == old(resetCodes) && userSource.users == old(userSource.users)
      ensures ok ==> passwordMsg == "" && confirmMsg == "" && err == None
      ensures old(ValidateResetCode(code, now)).Err? ==> !ok && passwordMsg == "" && confirmMsg == "" && err == Some(ErrResetCode)
      ensures old(ValidateResetCode(code, now)).Ok? && !Acceptable(requirements, tables, password)
              ==> !ok && passwordMsg == PasswordError(requirements) && confirmMsg == "" && err == None
      ensures old(ValidateResetCode(code, now)).Ok? && Acceptable(requirements, tables, password) && password != confirmPassword
              ==> !ok && passwordMsg == "" && confirmMsg == MsgMismatch && err == None
      ensures old(ValidateResetCode(code, now)).Ok? && Acceptable(requirements, tables, password) && password == confirmPassword
              ==> var email := old(ValidateResetCode(code, now)).value;
                  var hashed := Hash(bcrypt, password);
                  var found := Lookup(old(userSource.users), email);
                  && passwordMsg == "" && confirmMsg == ""
                  && (hashed.Err? ==> !ok && err == Some(hashed.error))
                  && (hashed.Ok? && SelectOp in userSource.failures ==> !ok && err == Some(userSource.failures[SelectOp]))
                  && (hashed.Ok? && SelectOp !in userSource.failures && found.None? ==> !ok && err == Some(ErrNoUser))
                  && (hashed.Ok? && SelectOp !in userSource.failures && found.Some? && UpdateOp in userSource.failures
                      ==> !ok && err == Some(userSource.failures[UpdateOp]))
                  && (hashed.Ok? && SelectOp !in userSource.failures && found.Some? && UpdateOp !in userSource.failures
                      ==> && ok
                          && userSource.users == Put(old(userSource.users), WithNewPassword(found.value, hashed.value, now))
                          && resetCodes == old(resetCodes) - {code})
    {
      var checked := ValidateResetCode(code, now);
      if checked.Err? {
        return false, "", "", Some(checked.error);
      }
      var email := checked.value;
      var acceptable := VerifyPassword(requirements, tables, password);
      if !acceptable {
        return false, PasswordError(requirements), "", None;
      }
      if password != confirmPassword {
        return false, "", MsgMismatch, None;
      }
      var hashed := HashPassword(bcrypt, password);
      if hashed.Err? {
        return false, "", "", Some(hashed.error);
      }
      var selected := userSource.Select(email);
      if selected.Err? {
        return false, "", "", Some(selected.error);
      }
      if selected.value.None? {
        return false, "", "", Some(ErrNoUser);
      }
      var user := WithNewPassword(selected.value.value, hashed.value, now);
      var updated := userSource.Update(user);
      if updated.Some? {
        return false, "", "", updated;
      }
      resetCodes := resetCodes - {code};
      return true, "", "", None;
    }
  }
}
