/**
 * The contact form's `submit` handler: the required-field check, then the
 * email check, then the mail handed to the user's mail client.
 */
module ContactForm {
  import opened Optional
  import Email

  const Recipient := "girirupam25@gmail.com"
  const DefaultSubject := "Portfolio Contact"
  const MissingFieldsText := "Please fill in all required fields."
  const BadEmailText := "Please enter a valid email address."
  const OpeningText := "Opening your email client..."

  datatype Kind = Error | Success

  /** The message `showFormMessage` puts under the form. */
  datatype Notice = Notice(text: string, kind: Kind)

  /** The mail the `mailto:` link describes, before its parts are percent-encoded. */
  datatype Draft = Draft(to: string, subject: string, body: string)

  /** What one submission does: the notice shown, the mail opened if any, and whether the form is reset. */
  datatype Outcome = Outcome(notice: Notice, draft: Option<Draft>, reset: bool)

  /** The `!name || !email || !message` test fails: every required `FormData.get` value is truthy. */
  predicate RequiredFilled(name: Option<string>, email: Option<string>, message: Option<string>)
  {
    Truthy(name) && Truthy(email) && Truthy(message)
  }

  function MailBody(name: string, email: string, message: string): string
  {
    "Name: " + name + "\nEmail: " + email + "\n\n" + message
  }

  /**
   * The handler. The required-field error takes precedence over the email
   * error; a mail is produced, and the form reset, only when both checks pass.
   */
  function Submit(name: Option<string>, email: Option<string>, subject: Option<string>, message: Option<string>): (o: Outcome)
    ensures o.draft.Some? <==> RequiredFilled(name, email, message) && Email.MatchesPattern(email.value)
    ensures o.reset <==> o.draft.Some?
    ensures o.notice.kind == Success <==> o.draft.Some?
    ensures !RequiredFilled(name, email, message) ==> o.notice == Notice(MissingFieldsText, Error)
    ensures RequiredFilled(name, email, message) && !Email.MatchesPattern(email.value) ==>
              o.notice == Notice(BadEmailText, Error)
    ensures o.draft.Some? ==>
              o.draft.value.to == Recipient &&
              o.draft.value.subject == (if Truthy(subject) then subject.value else DefaultSubject) &&
              |o.draft.value.body| >= |message.value| &&
              o.draft.value.body[|o.draft.value.body| - |message.value|..] == message.value
  {
    if !RequiredFilled(name, email, message) then
      Outcome(Notice(MissingFieldsText, Error), None, false)
    else if !Email.IsValidEmail(email.value) then
      Outcome(Notice(BadEmailText, Error), None, false)
    else
      var subjectText := if Truthy(subject) then subject.value else DefaultSubject;
      Outcome(Notice(OpeningText, Success), Some(Draft(Recipient, subjectText, MailBody(name.value, email.value, message.value))), true)
  }

  /** Required fields are checked for emptiness only: a name of spaces passes. */
  lemma BlankNamePasses()
    ensures Submit(Some(" "), Some("a@b.co"), None, Some("hi")).draft.Some?
  {
    Email.AcceptsShortAddress();
  }

  /** A missing field is reported even when the email is malformed too. */
  lemma MissingFieldWins()
    ensures Submit(None, Some("not-an-address"), Some("x"), Some("hi")).notice.text == MissingFieldsText
  {
  }
}
