/**
  The contact form controller: the component state `formData`, `errors`,
  `isSubmitting` and `submitMessage`, and the handlers that update it in place
  (`validateForm`, `handleInputChange`, `handleSubmit` and the completion of the
  asynchronous send). The outside world enters as parameters: the three
  configuration values, and whether the remote send succeeded.
 */
module Contact {
  import opened Text
  import opened Email
  import opened Validation
  import opened Mailto

  const SentMessage := "Thank you! Your message has been sent successfully."
  const SendFailedMessage := "Sorry, there was an error sending your message. Please try again."
  const MailClientMessage := "Email client opened! Please send the email manually."

  /** The placeholder value that marks an unconfigured service id. */
  const PlaceholderServiceId := "your_service_id_here"

  /** What a submission hands to the outside world: nothing (validation failed),
      a remote send of the form's values, or a `mailto:` link for the browser. */
  datatype Delivery =
    | Rejected
    | Remote(serviceId: string, templateId: string, payload: FormData, publicKey: string)
    | MailClient(uri: string)

  /** The remote service is used iff all three values are set (an undefined
      variable is the empty string) and the service id is not the placeholder. */
  predicate UsesRemote(serviceId: string, templateId: string, publicKey: string) {
    serviceId != "" && templateId != "" && publicKey != "" && serviceId != PlaceholderServiceId
  }

  /** `Object.keys(m).length === 0` holds exactly for the empty map. */
  lemma NoKeysIffEmpty(m: map<Field, string>)
    ensures m.Keys == {} <==> m == map[]
  {
    if m.Keys == {} {
      assert forall f :: f !in m;
    }
  }

  class ContactForm {
    var form: FormData
    var errors: map<Field, string>
    var isSubmitting: bool
    var submitMessage: string

    /** The stored phone number only ever holds digits. */
    ghost predicate Valid()
      reads this
    {
      AllDigits(form.phone)
    }

    /** The initial component state. */
    constructor()
      ensures Valid()
      ensures form == EmptyForm && errors == map[] && !isSubmitting && submitMessage == ""
    {
      form := EmptyForm;
      errors := map[];
      isSubmitting := false;
      submitMessage := "";
    }

    /** `validateForm()`: builds a fresh error map from the current form, stores
        it in place of the old one and reports whether it is empty. A stored
        form never fails the phone rule. */
    method ValidateForm() returns (ok: bool)
      modifies this`errors
      ensures errors == FormErrors(form)
      ensures ok <==> errors == map[]
      ensures Valid() ==> Phone !in errors
    {
      var newErrors: map<Field, string> := map[];
      var name := Trim(form.fromName);
      if name == "" {
        newErrors := newErrors[FromName := NameRequired];
      } else if |name| < 2 {
        newErrors := newErrors[FromName := NameTooShort];
      }
      ghost var afterName := AddError(map[], FromName, FieldError(form, FromName));
      assert newErrors == afterName;
      if Trim(form.replyTo) == "" {
        newErrors := newErrors[ReplyTo := EmailRequired];
      } else if !ValidateEmail(form.replyTo) {
        newErrors := newErrors[ReplyTo := EmailInvalid];
      }
      ghost var afterEmail := AddError(afterName, ReplyTo, FieldError(form, ReplyTo));
      assert newErrors == afterEmail;
      if form.phone != "" && !ValidatePhone(form.phone) {
        newErrors := newErrors[Phone := PhoneDigitsOnly];
      }
      ghost var afterPhone := AddError(afterEmail, Phone, FieldError(form, Phone));
      assert newErrors == afterPhone;
      var message := Trim(form.message);
      if message == "" {
        newErrors := newErrors[Message := MessageRequired];
      } else if |message| < 10 {
        newErrors := newErrors[Message := MessageTooShort];
      }
      assert newErrors == AddError(afterPhone, Message, FieldError(form, Message));
      errors := newErrors;
      ok := newErrors.Keys == {};
      NoKeysIffEmpty(newErrors);
      PhoneRule(form);
    }

    /** `handleInputChange`: the named field takes the typed value (for the
        phone, only its digits); the field's error entry is blanked to `""` when
        it held a message, and nothing else changes. */
    method HandleInputChange(name: Field, value: string)
      modifies this`form, this`errors
      ensures form == old(form).With(name, if name == Phone then KeepDigits(value) else value)
      ensures errors == if name in old(errors) && old(errors)[name] != "" then old(errors)[name := ""] else old(errors)
      ensures old(Valid()) ==> Valid()
    {
      if name == Phone {
        var numericValue := KeepDigits(value);
        form := form.With(name, numericValue);
      } else {
        form := form.With(name, value);
      }
      if name in errors && errors[name] != "" {
        errors := errors[name := ""];
      }
    }

    /** `handleSubmit`: an invalid form is rejected with only the error map
        replaced; a valid one is sent remotely when the service is configured
        (leaving the submission pending) and otherwise handed to the mail client
        as a `mailto:` link, clearing the form. The submit button is disabled
        while a submission is pending. */
    method HandleSubmit(serviceId: string, templateId: string, publicKey: string) returns (d: Delivery)
      requires !isSubmitting
      modifies this
      ensures d == Rejected <==> FormErrors(old(form)) != map[]
      ensures d == Rejected ==>
        && form == old(form) && errors == FormErrors(old(form))
        && isSubmitting == old(isSubmitting) && submitMessage == old(submitMessage)
      ensures d.Remote? <==> FormErrors(old(form)) == map[] && UsesRemote(serviceId, templateId, publicKey)
      ensures d.Remote? ==>
        && d == Remote(serviceId, templateId, old(form), publicKey)
        && form == old(form) && errors == map[] && isSubmitting && submitMessage == ""
      ensures d.MailClient? ==>
        && d.uri == MailtoLink(old(form))
        && form == EmptyForm && errors == map[] && !isSubmitting && submitMessage == MailClientMessage
      ensures old(Valid()) ==> Valid()
    {
      var ok := ValidateForm();
      if !ok {
        return Rejected;
      }
      isSubmitting := true;
      submitMessage := "";
      if UsesRemote(serviceId, templateId, publicKey) {
        d := Remote(serviceId, templateId, form, publicKey);
      } else {
        d := MailClient(MailtoLink(form));
        submitMessage := MailClientMessage;
        form := EmptyForm;
        errors := map[];
        isSubmitting := false;
      }
    }

    /** The end of a remote send: on success the form and errors are cleared
        and thanks are shown; on failure an apology is shown and the form is
        kept for another attempt. Either way the submission is no longer pending. */
    method CompleteRemote(sent: bool)
      requires isSubmitting
      modifies this
      ensures !isSubmitting
      ensures sent ==> submitMessage == SentMessage && form == EmptyForm && errors == map[]
      ensures !sent ==> submitMessage == SendFailedMessage && form == old(form) && errors == old(errors)
      ensures old(Valid()) ==> Valid()
    {
      if sent {
        submitMessage := SentMessage;
        form := EmptyForm;
        errors := map[];
      } else {
        submitMessage := SendFailedMessage;
      }
      isSubmitting := false;
    }
  }

  /** A visitor fills in the four fields of a fresh form and submits with no
      remote service configured: when the typed values pass validation, the
      mail client receives the link built from them, with the phone reduced to
      its digits, the confirmation is shown, and the form and its errors are
      left cleared with no submission pending. */
  method FallbackSession(name: string, email: string, phone: string, message: string)
      returns (d: Delivery, shown: string, left: FormData, leftErrors: map<Field, string>, pending: bool)
    requires FormErrors(FormData(name, email, KeepDigits(phone), message)) == map[]
    ensures d == MailClient(MailtoLink(FormData(name, email, KeepDigits(phone), message)))
    ensures shown == MailClientMessage
    ensures left == EmptyForm && leftErrors == map[] && !pending
  {
    var c := new ContactForm();
    c.HandleInputChange(FromName, name);
    c.HandleInputChange(ReplyTo, email);
    c.HandleInputChange(Phone, phone);
    c.HandleInputChange(Message, message);
    assert c.form == FormData(name, email, KeepDigits(phone), message);
    d := c.HandleSubmit("", "", "");
    shown, left, leftErrors, pending := c.submitMessage, c.form, c.errors, c.isSubmitting;
  }

  /** A failed remote send keeps what the visitor typed, so resubmitting sends
      the same values again. */
  method RetryAfterFailure(c: ContactForm, serviceId: string, templateId: string, publicKey: string)
      returns (first: Delivery, second: Delivery)
    requires !c.isSubmitting
    requires FormErrors(c.form) == map[] && UsesRemote(serviceId, templateId, publicKey)
    modifies c
    ensures first == second == Remote(serviceId, templateId, old(c.form), publicKey)
    ensures c.isSubmitting
  {
    first := c.HandleSubmit(serviceId, templateId, publicKey);
    c.CompleteRemote(false);
    second := c.HandleSubmit(serviceId, templateId, publicKey);
  }

  /** A visitor fills in a fresh form and submits with the remote service
      configured: the submission is pending while the send runs, the service
      receives the typed values, and the outcome decides what is left. */
  method RemoteSession(name: string, email: string, phone: string, message: string,
                       serviceId: string, templateId: string, publicKey: string, sent: bool)
      returns (d: Delivery, pending: bool, shown: string, left: FormData)
    requires FormErrors(FormData(name, email, KeepDigits(phone), message)) == map[]
    requires UsesRemote(serviceId, templateId, publicKey)
    ensures d == Remote(serviceId, templateId, FormData(name, email, KeepDigits(phone), message), publicKey)
    ensures pending
    ensures sent ==> shown == SentMessage && left == EmptyForm
    ensures !sent ==> shown == SendFailedMessage && left == FormData(name, email, KeepDigits(phone), message)
  {
    var c := new ContactForm();
    c.HandleInputChange(FromName, name);
    c.HandleInputChange(ReplyTo, email);
    c.HandleInputChange(Phone, phone);
    c.HandleInputChange(Message, message);
    d := c.HandleSubmit(serviceId, templateId, publicKey);
    pending := c.isSubmitting;
    c.CompleteRemote(sent);
    shown, left := c.submitMessage, c.form;
  }

  /** Validating twice without an edit in between gives the same verdict and
      the same error map. */
  method ValidateTwice(c: ContactForm) returns (first: bool, second: bool)
    modifies c
    ensures first == second
    ensures c.form == old(c.form) && c.errors == FormErrors(old(c.form))
  {
    first := c.ValidateForm();
    ghost var afterFirst := c.errors;
    second := c.ValidateForm();
    assert c.errors == afterFirst;
  }
}
