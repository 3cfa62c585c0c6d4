/** The `MailSender` interface of the engine: one message carrying a confirmation code,
    one carrying a password-reset code. */
module Mailer {
  import opened Common

  datatype MailKind = ConfirmMail | ResetMail

  /** One attempted message: its kind, its recipient and the code it carries. */
  datatype Mail = Mail(kind: MailKind, to: Bytes, code: Bytes)

  /** A sender behind the interface. `sent` records every attempt in order, failed ones
      included; `failures` says which kind of message reports an error. */
  class MailSender {
    var sent: seq<Mail>
    const failures: map<MailKind, Error>

    constructor (failures: map<MailKind, Error>)
      ensures sent == [] && this.failures == failures
    {
      sent := [];
      this.failures := failures;
    }

    /** `Confirm`: send the confirmation code to the address. */
    method Confirm(email: Bytes, code: Bytes) returns (err: Option<Error>)
      modifies this
      ensures sent == old(sent) + [Mail(ConfirmMail, email, code)]
      ensures err == if ConfirmMail in failures then Some(failures[ConfirmMail]) else None
    {
      sent := sent + [Mail(ConfirmMail, email, code)];
      err := if ConfirmMail in failures then Some(failures[ConfirmMail]) else None;
    }

    /** `Reset`: send the password-reset code to the address. */
    method Reset(email: Bytes, code: Bytes) returns (err: Option<Error>)
      modifies this
      ensures sent == old(sent) + [Mail(ResetMail, email, code)]
      ensures err == if ResetMail in failures then Some(failures[ResetMail]) else None
    {
      sent := sent + [Mail(ResetMail, email, code)];
      err := if ResetMail in failures then Some(failures[ResetMail]) else None;
    }
  }
}
