/**
 * The contact form's submit handler (`initContactForm`): the four field
 * values decide one of three notices, checked in a fixed order, and only a
 * successful submission clears the form. Nothing is sent anywhere.
 */
module Contact {
  import opened EmailShape

  /** The notice the handler raises. */
  datatype Notice =
    | FillOutAllFields   // "Please fill out all fields"
    | InvalidEmail       // "Please enter a valid email address"
    | ThankYou           // "Thank you for your message! ..."

  /** A field is missing exactly when its value is falsy, i.e. the empty string;
      white space alone counts as filled. */
  predicate AllFilled(name: string, email: string, subject: string, message: string) {
    name != "" && email != "" && subject != "" && message != ""
  }

  /** The decision of one submission. The emptiness test comes first, so an
      empty email is reported as a missing field and never reaches the shape
      check; a filled form is then accepted iff the regular expression matches. */
  function Decide(name: string, email: string, subject: string, message: string): (n: Notice)
    ensures n == FillOutAllFields <==> !AllFilled(name, email, subject, message)
    ensures n == InvalidEmail <==> AllFilled(name, email, subject, message) && !RegexMatches(email)
    ensures n == ThankYou <==> AllFilled(name, email, subject, message) && RegexMatches(email)
  {
    ValidEmailIffRegex(email);
    if name == "" || email == "" || subject == "" || message == "" then FillOutAllFields
    else if !IsValidEmail(email) then InvalidEmail
    else ThankYou
  }

  /** The form's four text fields. */
  class ContactForm {
    var name: string
    var email: string
    var subject: string
    var message: string

    constructor (name: string, email: string, subject: string, message: string)
      ensures this.name == name && this.email == email
      ensures this.subject == subject && this.message == message
    {
      this.name, this.email, this.subject, this.message := name, email, subject, message;
    }

    /** The submit handler: raise the decided notice; on success `form.reset()`
        clears every field, on either refusal the fields keep what was typed. */
    method Submit() returns (notice: Notice)
      modifies this
      ensures notice == Decide(old(name), old(email), old(subject), old(message))
      ensures notice == ThankYou ==> name == "" && email == "" && subject == "" && message == ""
      ensures notice != ThankYou ==>
        name == old(name) && email == old(email) && subject == old(subject) && message == old(message)
    {
      if name == "" || email == "" || subject == "" || message == "" {
        return FillOutAllFields;
      }
      if !IsValidEmail(email) {
        return InvalidEmail;
      }
      notice := ThankYou;
      name, email, subject, message := "", "", "", "";
    }
  }

  /** Fields holding only white space pass the emptiness test: with a well-shaped
      email such a form is accepted. */
  lemma BlankFieldsCountAsFilled()
    ensures Decide(" ", "jo@mail.com", " ", " ") == ThankYou
  {
    AcceptsPlainAddress();
    ValidEmailIffRegex("jo@mail.com");
  }

  /** A missing field wins over a malformed email: whatever the other values,
      an empty field gives the fill-out notice, and an empty email never
      reaches the shape check. */
  lemma MissingFieldReportedFirst(name: string, email: string, subject: string, message: string)
    ensures name == "" || email == "" || subject == "" || message == "" ==>
      Decide(name, email, subject, message) == FillOutAllFields
    ensures !IsValidEmail("") && Decide(name, "", subject, message) == FillOutAllFields
  {
  }

  /** A refused submission keeps the form as typed: submitting it again gives
      the same notice. */
  method ResubmitAfterRefusal(form: ContactForm) returns (first: Notice, second: Notice)
    modifies form
    ensures first != ThankYou ==> second == first
    ensures first == ThankYou ==> second == FillOutAllFields
  {
    first := form.Submit();
    second := form.Submit();
  }
}
