# Contact form and title banner of the portfolio page

This project models the only stateful logic of the portfolio single-page app in `src/App.jsx`.

The contact form controller:
- the validators `validateEmail`, `validatePhone` and `validateForm`;
- the input handler `handleInputChange`, which keeps only the digits of the phone number and blanks the edited field's error;
- the submit handler `handleSubmit`. It rejects an invalid form. Otherwise it sends the form through a remote mail service when that service is configured, and falls back to a `mailto:` link when it is not.

The typewriter banner: the effect that types, holds, deletes and cycles the titles "Software Engineer" and "Web Developer".

Files and modules:

| file | module | contents |
|---|---|---|
| `wrappers.dfy` | `Wrappers` | `Option` |
| `text.dfy` | `Text` | JavaScript's `\s` and `\d` classes, `String.prototype.trim`, and the digit filter `replace(/\D/g, "")` |
| `email.dfy` | `Email` | `validateEmail` as a scan, and the regular expression `^[^\s@]+@[^\s@]+\.[^\s@]+$` as a predicate on positions |
| `validation.dfy` | `Validation` | the form data, `validatePhone`, and the rules of `validateForm` as a function from the form to its error map |
| `uri_component.dfy` | `UriComponent` | `encodeURIComponent`, following section 18.2.6.5 of ECMA-262 (2015 edition) with full UTF-8, and its inverse |
| `mailto.dfy` | `Mailto` | the fallback link, plus a reader for `mailto:` URIs as section 2 of RFC 6068 describes them |
| `contact_form.dfy` | `Contact` | the class `ContactForm`: the component state `formData`, `errors`, `isSubmitting` and `submitMessage`, with the handlers as methods that update it in place |
| `typewriter.dfy` | `Banner` | the banner step as a function; the class `Typewriter` performs it on `currentTextIndex`, `displayText` and `isDeleting` |

The main results:
- The email scan accepts exactly the strings the regular expression matches.
- Each field gets at most one message, and the "required" check comes first (src/App.jsx:138-162).
- Editing a field keeps its key in the error map and sets its message to `""`, and only when the message was non-empty (src/App.jsx:186-191).
- The form is valid iff the name's trimmed length is at least 2, the address is well formed, the phone is all digits, and the message's trimmed length is at least 10.
- A phone number stored through the input handler never trips the phone rule.
- Parsing the fallback link gives back the recipient and exactly the two header fields `subject` and `body`, with their text unchanged.
- The banner keeps its index in range and its text a prefix of the current title. It returns to its initial state after 64 steps.

The remote send is asynchronous. It is split into two methods:
- `HandleSubmit` does the synchronous part and leaves the submission pending;
- `CompleteRemote(sent)` does the work of the `.then`, `.catch` and `.finally` callbacks.

The three configuration values are parameters. The `mailto:` link the browser is sent to is returned as a `Delivery` value.

## Model

| member | source | states |
|---|---|---|
| `Text.IsWs` | src/App.jsx:125-139 | the characters `\s` matches (line 125) and `trim` removes (lines 139, 146, 158): the WhiteSpace and LineTerminator code points of ECMA-262, listed in full; `TrimEmptyIff` and `EmailAcceptsShape` use it |
| `Text.IsDigit` | src/App.jsx:131 | JavaScript's `\d`, here and in the `\D` of line 173: the ASCII digits `0` to `9` only; `ValidatePhone` and `KeepDigitsCount` use it |
| `Text.Trim` | src/App.jsx:139 | `.trim()`: drops the leading, then the trailing white space; `TrimIsMiddle` and `TrimEmptyIff` specify the result completely |
| `Text.TrimStartShape` | src/App.jsx:139 | `trim` drops a leading run of white space: what is kept is a suffix, and it does not start with white space |
| `Text.TrimEndShape` | src/App.jsx:139 | likewise for the trailing run: what is kept is a prefix, and it does not end with white space |
| `Text.TrimIsMiddle` | src/App.jsx:139-141 | the trimmed value is a middle slice of the input, with only white space on either side and non-white characters at both ends |
| `Text.TrimEmptyIff` | src/App.jsx:139 | `!s.trim()` holds exactly when `s` is all white space |
| `Text.TrimFixes` | src/App.jsx:139 | a value without white space at either end is its own trim |
| `Text.KeepDigits` | src/App.jsx:173 | the filtered phone value is no longer than the input and holds only `0`–`9` |
| `Text.KeepDigitsSubsequence` | src/App.jsx:173 | the filter keeps the digits in their original order (a subsequence of the input) |
| `Text.KeepDigitsCount` | src/App.jsx:173 | counted character by character, every digit is kept and nothing else is |
| `Text.KeepDigitsFixes` | src/App.jsx:173 | a string of digits passes through unchanged |
| `Text.KeepDigitsIdempotent` | src/App.jsx:173 | filtering twice is filtering once |
| `Text.KeepDigitsAppend` | src/App.jsx:173 | the filter of a concatenation is the concatenation of the filtered parts |
| `Text.KeepDigitsExample` | src/App.jsx:172-177 | the typed number `555-1234` is stored as `5551234` |
| `Email.EmailPattern` | src/App.jsx:125 | the regular expression `^[^\s@]+@[^\s@]+\.[^\s@]+$` as a predicate: an `@` and a later `.` cut the string into three non-empty runs without white space or `@`; it is the reference `ValidateEmailMatchesPattern` compares the scan with |
| `Email.ValidateEmail` | src/App.jsx:124-127 | `validateEmail` as a scan for the first `@` and a later `.`, with no white space and no second `@`; `ValidateEmailMatchesPattern` proves it accepts exactly the matches of `EmailPattern` |
| `Email.ValidateEmailSound` | src/App.jsx:124-127 | every address the scan accepts matches the regular expression |
| `Email.ValidateEmailComplete` | src/App.jsx:124-127 | every match of the regular expression passes the scan |
| `Email.ValidateEmailMatchesPattern` | src/App.jsx:124-127 | `validateEmail` accepts exactly the matches of `^[^\s@]+@[^\s@]+\.[^\s@]+$` |
| `Email.EmailAcceptsShape` | src/App.jsx:124-127 | `L@D.T` is accepted whenever L, D and T are non-empty and hold neither white space nor `@` |
| `Email.EmailShapeOfAccepted` | src/App.jsx:124-127 | an accepted address splits as `L@D.T` with three such parts, and its `@` is the only one |
| `Email.AcceptedEmailNotBlank` | src/App.jsx:146-148 | an accepted address never trims to empty, so the "required" branch cannot hide a well-formed address |
| `Email.EmailExamples` | src/App.jsx:124-127 | `a@b.co` is accepted; `abc`, `a@b`, `a@.c` and ` a@b.co` are rejected |
| `Validation.FormData.With` | src/App.jsx:174-183 | `{ ...prev, [name]: value }`: the named field takes the value and every other field keeps its old one |
| `Validation.ValidatePhone` | src/App.jsx:129-133 | the phone check passes iff every character is a digit; the empty value passes |
| `Validation.FieldError` | src/App.jsx:138-162 | the one message a field's rule records, if any, with the "required" check first; every message it gives is non-empty; `NameRule`, `EmailRule`, `PhoneRule` and `MessageRule` state each case |
| `Validation.FormErrors` | src/App.jsx:136-162 | `newErrors` after the four rules; every recorded message is non-empty, so every entry is shown; `FormErrorsEntries` and `FormValidIff` state which keys it holds |
| `Validation.FormErrorsEntries` | src/App.jsx:135-163 | a field has an entry iff its rule fails, and the entry is that rule's single message |
| `Validation.NameRule` | src/App.jsx:138-143 | a name error iff the trimmed name is shorter than 2; it is "Name is required" iff the trimmed name is empty |
| `Validation.EmailRule` | src/App.jsx:145-150 | an address error iff the raw value fails the pattern; it is "Email is required" iff the trimmed value is empty |
| `Validation.PhoneRule` | src/App.jsx:152-155 | a phone error iff the value holds a non-digit; its message is "Phone number can only contain digits" |
| `Validation.MessageRule` | src/App.jsx:157-162 | a message error iff the trimmed message is shorter than 10; it is "Message is required" iff the trimmed message is empty |
| `Validation.FormValidIff` | src/App.jsx:135-165 | the error map is empty iff all four rules pass |
| `Validation.FilteredPhoneNeverFails` | src/App.jsx:152-155 | a phone value stored through the input filter never gets the phone error |
| `Validation.BlankFieldsAreRequired` | src/App.jsx:138-160 | a blank name, address or message always gets its "required" error |
| `Validation.FourErrorsExample` | src/App.jsx:135-163 | `{A, bad, 12a3, hi}` gets all four errors at once: name too short, invalid address, phone not digits, message too short |
| `Validation.LeadingSpaceEmailExample` | src/App.jsx:145-150 | ` a@b.co` is present after trimming but fails the pattern on its raw value, so it gets the invalid-address error |
| `Validation.ValidExampleLengths` | src/App.jsx:138-162 | the trimmed lengths of `Al` and `Hello there!` are 2 and 12 |
| `Validation.ValidExampleAddress` | src/App.jsx:124-127 | `al@x.com` is accepted |
| `Validation.ValidExample` | src/App.jsx:135-165 | `{Al, al@x.com, phone, Hello there!}` passes validation for any digit-only phone |
| `UriComponent.IsUnreserved` | src/App.jsx:248-250 | the characters `encodeURIComponent` leaves as they are: ASCII letters and digits and `- _ . ! ~ * ' ( )`; `EncodeUnreservedIsIdentity` and `EncodeUriComponent` use it |
| `UriComponent.EncodeUriComponent` | src/App.jsx:248-250 | the encoded text holds only unreserved characters and `%` |
| `UriComponent.Utf8CharRoundTrip` | src/App.jsx:248-250 | the 1 to 4 UTF-8 bytes of a code point decode back to it, and the lead byte announces their number |
| `UriComponent.Utf8RoundTrip` | src/App.jsx:248-250 | UTF-8 decoding undoes UTF-8 encoding on every string |
| `UriComponent.PercentBytesDecode` | src/App.jsx:248-250 | a run of `%XX` groups reads back as its bytes |
| `UriComponent.PercentDecodeEncoded` | src/App.jsx:248-250 | reading the escapes of an encoded string gives its UTF-8 bytes |
| `UriComponent.DecodeEncode` | src/App.jsx:248-250 | decoding undoes `encodeURIComponent` on every string |
| `UriComponent.EncodeUnreservedIsIdentity` | src/App.jsx:248-250 | a string of unreserved characters is encoded as itself |
| `Mailto.Subject` | src/App.jsx:238 | the subject: the fixed prefix "Portfolio Contact from " and the sender's name; `MailtoRoundTrip` proves it reaches the mail client unchanged |
| `Mailto.Body` | src/App.jsx:239-246 | the body: the labelled Name, Email, Phone and Message lines between a leading newline and the template's closing newline and six spaces; `MailtoRoundTrip` proves it reaches the mail client unchanged |
| `Mailto.MailtoLink` | src/App.jsx:248-250 | the fixed recipient, then `?subject=` and `&body=`, each followed by the encoded subject or body; `MailtoRoundTrip` proves it reads back as exactly those two fields |
| `Mailto.EncodedHasNoDelimiters` | src/App.jsx:248-250 | an encoded component holds no `&`, `=`, `?`, `#` or space, so it cannot add or split query parameters |
| `Mailto.RecipientIsPlain` | src/App.jsx:248 | the fixed recipient holds neither `%` nor `?`, so it reads back as itself |
| `Mailto.HeaderRoundTrip` | src/App.jsx:248-250 | `name=` followed by an encoded value reads back as that name and value |
| `Mailto.QueryRoundTrip` | src/App.jsx:248-250 | a two-field query `n1=…&n2=…` reads back as exactly those two fields |
| `Mailto.ParseMailtoOf` | src/App.jsx:248 | `mailto:` + address + `?` + query reads back as that address and the query's fields |
| `Mailto.MailtoRoundTrip` | src/App.jsx:238-250 | the fallback link reads back as the recipient plus exactly `subject` = "Portfolio Contact from " + name, and `body` = the labelled Name, Email, Phone and Message text |
| `Contact.UsesRemote` | src/App.jsx:210-215 | the remote service is chosen iff the service id, template id and public key are all set and the service id is not the placeholder; `HandleSubmit` proves the remote branch is taken exactly then |
| `Contact.ContactForm.constructor` | src/App.jsx:23-31 | the initial state: empty form, no errors, not submitting, no message |
| `Contact.ContactForm.ValidateForm` | src/App.jsx:135-166 | replaces the error map with the rules' map for the current form, returns true iff it is empty, and never records a phone error for a stored form |
| `Contact.ContactForm.HandleInputChange` | src/App.jsx:168-192 | only the named field changes: the phone takes its digits, other fields the raw value. Only that field's error entry changes, blanked to `""` when it held a message. The digits-only phone invariant is kept |
| `Contact.ContactForm.HandleSubmit` | src/App.jsx:194-261 | an invalid form is rejected with only the errors replaced. A valid form goes remote iff all three settings are set and the service id is not the placeholder; it is then pending with an empty message. Otherwise the `mailto:` link of the old form is returned and the form is cleared with the "Email client opened!" message |
| `Contact.ContactForm.CompleteRemote` | src/App.jsx:217-235 | success shows the thanks and clears form and errors; failure shows the apology and keeps both; either way the submission is no longer pending |
| `Contact.FallbackSession` | src/App.jsx:168-261 | typing a valid form and submitting without configuration hands the link of the typed values, with the phone filtered, to the mail client, shows the confirmation, and leaves the form empty, the errors `{}` and no submission pending |
| `Contact.RemoteSession` | src/App.jsx:168-235 | with the service configured, the send receives the typed values and the submission is pending; success clears the form and failure keeps it |
| `Contact.RetryAfterFailure` | src/App.jsx:194-235 | after a failed send, resubmitting sends the same values again |
| `Contact.ValidateTwice` | src/App.jsx:135-166 | validating twice without an edit gives the same verdict and the same error map |
| `Banner.JsPrefix` | src/App.jsx:57-60 | `substring(0, n)`: a prefix of the title whose length is n clamped to the range from 0 to the title's length |
| `Banner.Next` | src/App.jsx:41-65 | one run of the effect keeps the index a valid title index |
| `Banner.NextPreservesInv` | src/App.jsx:41-65 | the step keeps the index in range and the shown text a prefix of the current title |
| `Banner.StepShape` | src/App.jsx:41-65 | a full title starts being deleted; an emptied one moves on to the next title cyclically; otherwise exactly the last character is removed, or the title's next character appended |
| `Banner.IterateAdd` | src/App.jsx:41-65 | m steps followed by n steps are m + n steps |
| `Banner.TypeUp` | src/App.jsx:56-61 | from an empty text, k steps show the first k characters of the title |
| `Banner.DeleteDown` | src/App.jsx:56-59 | from a full title, k steps remove its last k characters |
| `Banner.Cycle` | src/App.jsx:41-65 | a title takes `2 * length + 2` steps, ending on the next title with an empty text |
| `Banner.TwoTitlePeriod` | src/App.jsx:41-65 | with two titles, both cycles together bring the banner back to its start |
| `Banner.BannerPeriod` | src/App.jsx:38-65 | "Software Engineer" takes 36 steps and "Web Developer" 28, after which the banner is back in its initial state |
| `Banner.Typewriter.constructor` | src/App.jsx:32-34 | the banner starts on the first title with nothing shown, typing |
| `Banner.Typewriter.Step` | src/App.jsx:41-65 | one run of the effect updates the three state variables exactly as `Next` says, keeping the invariant |

## Left out

- Timers are not modelled: the 100 ms and 50 ms typing delays, the 2000 ms hold, and `clearTimeout`. Each state change of the effect is one step. The re-runs caused by `texts` being rebuilt on every render are not modelled either.
- The 2000 ms timeout that starts deleting is never cancelled. If it fires after other state changes, its late `setIsDeleting(true)` is not modelled; the model performs the hold as a single step.
- Presentation is not modelled: rendering, animation variants, scrolling, the scroll listener, the back-to-top button and the mobile menu.
- The settled outcome of the delivery collaborator is a boolean `sent` passed to `CompleteRemote`. This replaces:
  - the dynamic `import("@emailjs/browser")` and `sendForm`;
  - promise interleaving;
  - React's batching of state updates. Each handler's updates take effect in order.
- Contact.ContactForm.HandleSubmit: the remote payload is `formData` at the moment of submit. The source hands `sendForm` the DOM form `e.target` instead (src/App.jsx:219). Its inputs are controlled, so they show the same values, but the form is read only once the dynamic import resolves (src/App.jsx:217). An edit made before then is what gets sent, and it was never validated; the model does not capture that.
- Contact.ContactForm.CompleteRemote: covers only the two settled outcomes of the send, success and failure. In the source the promise of the dynamic `import("@emailjs/browser")` has no rejection handler (src/App.jsx:217-235). So a failed import, or a `sendForm` that throws synchronously, runs neither the apology nor `setIsSubmitting(false)`. The submission then stays pending with no message, and the model has no such outcome.
- Configuration reads are replaced by parameters. An undefined variable is the empty string, since both are falsy.
- `window.location.href` is replaced by the returned `Delivery`.
- `e.preventDefault()` is not modelled.
- The submit button is disabled while a submission is pending. This is modelled by the precondition `!isSubmitting` on `HandleSubmit`.
- JavaScript strings are UTF-16. Here a string is a sequence of Unicode scalar values, so:
  - a lone surrogate, which makes `encodeURIComponent` throw `URIError`, cannot occur;
  - `length` counts code points, not UTF-16 units. This changes the trimmed-length thresholds only for characters outside the Basic Multilingual Plane.
- `IsWs` is the fixed WhiteSpace and LineTerminator set of ECMA-262 for the Unicode version current when the model was written.
- `Mailto.ParseMailto` and `UriComponent.DecodeUriComponent` are the model's own inverse of the encoder, not JavaScript's `decodeURIComponent` in every detail. They read a raw character as its UTF-8 bytes and return `None` where JavaScript throws.
- Which way the fallback link opens the mail client is not modelled.
- The colour of the submit message is not modelled.
