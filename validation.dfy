/**
  The contact form's data and its validation rules: `validatePhone` and the
  rule part of `validateForm`, as a function from the form to its error map.
 */
module Validation {
  import opened Wrappers
  import opened Text
  import opened Email

  /** The four inputs of the form, by their `name` attribute. */
  datatype Field = FromName | ReplyTo | Phone | Message

  /** `formData`. */
  datatype FormData = FormData(fromName: string, replyTo: string, phone: string, message: string)
  {
    /** `formData[name]`. */
    function Get(f: Field): string {
      match f
      case FromName => fromName
      case ReplyTo => replyTo
      case Phone => phone
      case Message => message
    }

    /** `{ ...formData, [name]: value }`: the named field takes the new value and
        every other field keeps its old one. */
    function With(f: Field, value: string): (r: FormData)
      ensures r.Get(f) == value
      ensures forall g | g != f :: r.Get(g) == Get(g)
    {
      match f
      case FromName => this.(fromName := value)
      case ReplyTo => this.(replyTo := value)
      case Phone => this.(phone := value)
      case Message => this.(message := value)
    }
  }

  /** The initial and the cleared form: every field empty. */
  const EmptyForm := FormData("", "", "", "")

  const NameRequired := "Name is required"
  const NameTooShort := "Name must be at least 2 characters"
  const EmailRequired := "Email is required"
  const EmailInvalid := "Please enter a valid email address"
  const PhoneDigitsOnly := "Phone number can only contain digits"
  const MessageRequired := "Message is required"
  const MessageTooShort := "Message must be at least 10 characters"

  /** `validatePhone(phone)`: the empty string is accepted (the field is
      optional), anything else must match `^\d+$`. */
  function ValidatePhone(phone: string): (ok: bool)
    ensures ok <==> AllDigits(phone)
  {
    if phone == "" then true
    else |phone| > 0 && forall k | 0 <= k < |phone| :: IsDigit(phone[k])
  }

  /** The error `validateForm` records for one field, if any: the "required"
      check comes first and the length or format check only runs when it passes. */
  function FieldError(form: FormData, f: Field): (r: Option<string>)
    ensures r.Some? ==> r.value != ""
  {
    match f
    case FromName =>
      if Trim(form.fromName) == "" then Some(NameRequired)
      else if |Trim(form.fromName)| < 2 then Some(NameTooShort)
      else None
    case ReplyTo =>
      if Trim(form.replyTo) == "" then Some(EmailRequired)
      else if !ValidateEmail(form.replyTo) then Some(EmailInvalid)
      else None
    case Phone =>
      if form.phone != "" && !ValidatePhone(form.phone) then Some(PhoneDigitsOnly)
      else None
    case Message =>
      if Trim(form.message) == "" then Some(MessageRequired)
      else if |Trim(form.message)| < 10 then Some(MessageTooShort)
      else None
  }

  /** Records the field's error, if it has one. */
  function AddError(errors: map<Field, string>, f: Field, e: Option<string>): map<Field, string> {
    if e.Some? then errors[f := e.value] else errors
  }

  /** `newErrors`: the four rules applied in the order of the source, each adding
      the field's message when the field fails. Every recorded message is
      non-empty, so each one is shown. */
  function FormErrors(form: FormData): (r: map<Field, string>)
    ensures forall f | f in r :: r[f] != ""
  {
    var afterName := AddError(map[], FromName, FieldError(form, FromName));
    var afterEmail := AddError(afterName, ReplyTo, FieldError(form, ReplyTo));
    var afterPhone := AddError(afterEmail, Phone, FieldError(form, Phone));
    AddError(afterPhone, Message, FieldError(form, Message))
  }

  /** Each field has at most one entry, present exactly when its rule fails and
      holding that rule's message. */
  lemma FormErrorsEntries(form: FormData, f: Field)
    ensures f in FormErrors(form) <==> FieldError(form, f).Some?
    ensures f in FormErrors(form) ==> FormErrors(form)[f] == FieldError(form, f).value
  {
  }

  /** The name rule: an error iff the trimmed name is shorter than 2; it is
      the "required" message iff the trimmed name is empty, and the "too short"
      message otherwise. */
  lemma NameRule(form: FormData)
    ensures FromName in FormErrors(form) <==> |Trim(form.fromName)| < 2
    ensures FromName in FormErrors(form) ==>
      (FormErrors(form)[FromName] == NameRequired <==> Trim(form.fromName) == "")
    ensures Trim(form.fromName) != "" && |Trim(form.fromName)| < 2 ==>
      FormErrors(form)[FromName] == NameTooShort
  {
  }

  /** The email rule: an error iff the raw value fails the pattern (a blank value
      always fails it); it is the "required" message iff the value is blank, and
      the "invalid" message otherwise. */
  lemma EmailRule(form: FormData)
    ensures ReplyTo in FormErrors(form) <==> !ValidateEmail(form.replyTo)
    ensures ReplyTo in FormErrors(form) ==>
      (FormErrors(form)[ReplyTo] == EmailRequired <==> Trim(form.replyTo) == "")
    ensures Trim(form.replyTo) != "" && !ValidateEmail(form.replyTo) ==>
      FormErrors(form)[ReplyTo] == EmailInvalid
  {
    if ValidateEmail(form.replyTo) {
      AcceptedEmailNotBlank(form.replyTo);
    }
  }

  /** The phone rule: an error iff the value holds a character that is not a digit. */
  lemma PhoneRule(form: FormData)
    ensures Phone in FormErrors(form) <==> !AllDigits(form.phone)
    ensures Phone in FormErrors(form) ==> FormErrors(form)[Phone] == PhoneDigitsOnly
  {
  }

  /** The message rule: an error iff the trimmed message is shorter than 10; it
      is the "required" message iff the trimmed message is empty, and the "too
      short" message otherwise. */
  lemma MessageRule(form: FormData)
    ensures Message in FormErrors(form) <==> |Trim(form.message)| < 10
    ensures Message in FormErrors(form) ==>
      (FormErrors(form)[Message] == MessageRequired <==> Trim(form.message) == "")
    ensures Trim(form.message) != "" && |Trim(form.message)| < 10 ==>
      FormErrors(form)[Message] == MessageTooShort
  {
  }

  /** `validateForm()` returns true iff no key was set, that is iff every field
      passes its rule. */
  lemma FormValidIff(form: FormData)
    ensures FormErrors(form) == map[] <==>
      && |Trim(form.fromName)| >= 2
      && ValidateEmail(form.replyTo)
      && AllDigits(form.phone)
      && |Trim(form.message)| >= 10
  {
    NameRule(form);
    EmailRule(form);
    PhoneRule(form);
    MessageRule(form);
    var errs := FormErrors(form);
    if FromName !in errs && ReplyTo !in errs && Phone !in errs && Message !in errs {
      assert errs.Keys == {};
    }
  }

  /** A phone value that went through the input filter never trips the phone rule. */
  lemma FilteredPhoneNeverFails(form: FormData, typed: string)
    ensures Phone !in FormErrors(form.With(Phone, KeepDigits(typed)))
  {
    PhoneRule(form.With(Phone, KeepDigits(typed)));
  }

  /** A blank name, email or message always yields that field's "required" error. */
  lemma BlankFieldsAreRequired(form: FormData)
    ensures AllWs(form.fromName) ==> FromName in FormErrors(form) && FormErrors(form)[FromName] == NameRequired
    ensures AllWs(form.replyTo) ==> ReplyTo in FormErrors(form) && FormErrors(form)[ReplyTo] == EmailRequired
    ensures AllWs(form.message) ==> Message in FormErrors(form) && FormErrors(form)[Message] == MessageRequired
  {
    TrimEmptyIff(form.fromName);
    TrimEmptyIff(form.replyTo);
    TrimEmptyIff(form.message);
  }

  /** The form `{A, bad, 12a3, hi}` fails on all four fields at once: name too
      short, address malformed, phone not digits, message too short. */
  lemma FourErrorsExample()
    ensures FormErrors(FormData("A", "bad", "12a3", "hi")) == map[
      FromName := NameTooShort, ReplyTo := EmailInvalid,
      Phone := PhoneDigitsOnly, Message := MessageTooShort]
  {
    var form := FormData("A", "bad", "12a3", "hi");
    assert FieldError(form, FromName) == Some(NameTooShort) by {
      TrimFixes("A");
    }
    assert FieldError(form, ReplyTo) == Some(EmailInvalid) by {
      assert !ValidateEmail("bad") by {
        assert IndexOf("bad", '@') == 3;
      }
      TrimFixes("bad");
    }
    assert FieldError(form, Phone) == Some(PhoneDigitsOnly) by {
      assert !IsDigit("12a3"[2]);
    }
    assert FieldError(form, Message) == Some(MessageTooShort) by {
      TrimFixes("hi");
    }
  }

  /** The address `" a@b.co"` is present after trimming but fails the pattern on
      its raw value, so it gets the invalid-address error. */
  lemma LeadingSpaceEmailExample(form: FormData)
    requires form.replyTo == " a@b.co"
    ensures ReplyTo in FormErrors(form) && FormErrors(form)[ReplyTo] == EmailInvalid
  {
    EmailExamples();
    assert Trim(form.replyTo) != "" by {
      TrimEmptyIff(form.replyTo);
      assert !IsWs(form.replyTo[1]);
    }
    assert FieldError(form, ReplyTo) == Some(EmailInvalid);
    FormErrorsEntries(form, ReplyTo);
  }

  /** The name and message of ValidExample are long enough. */
  lemma ValidExampleLengths()
    ensures |Trim("Al")| == 2
    ensures |Trim("Hello there!")| == 12
  {
    TrimFixes("Al");
    TrimFixes("Hello there!");
  }

  /** The address of ValidExample is accepted. */
  lemma ValidExampleAddress()
    ensures ValidateEmail("al@x.com")
  {
    EmailAcceptsShape("al", "x", "com");
    assert "al" + "@" + "x" + "." + "com" == "al@x.com";
  }

  /** The form `{Al, al@x.com, phone, Hello there!}` passes validation for an
      empty phone or any string of digits. */
  lemma ValidExample(phone: string)
    requires AllDigits(phone)
    ensures FormErrors(FormData("Al", "al@x.com", phone, "Hello there!")) == map[]
  {
    ValidExampleLengths();
    ValidExampleAddress();
    FormValidIff(FormData("Al", "al@x.com", phone, "Hello there!"));
  }
}
