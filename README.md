# Contact form and scroll-spy of a portfolio site, in Dafny

The site's script `js/main.js` mostly wires animations to a third-party
library. Three pieces of it hold logic of their own, and this project
models them and proves what they do.

- **Contact-form validator** (`validateInputs`, `validateEmail`,
  `setError`, `clearError`).
  - Each of the three inputs (name, e-mail, message) is trimmed and its
    rules are tried in order: "required" first, then the e-mail pattern or
    the minimum message length.
  - Each field's group is left either marked with the first failing rule's
    message or cleared.
  - All three fields are always checked, and the verdict is the
    conjunction.
- **Submission state machine** (the form's `submit` listener, its
  `.then`/`.finally` branches, and the `input` listener).
  - Invalid input leaves only the error marks.
  - Valid input locks the button with "Sending...", resets and hides the
    status line, and hands the untrimmed values to the mail service.
  - A success shows the success text and resets the form.
  - A failure shows the failure text and keeps the inputs.
  - Either way, `finally` re-enables the button with the text it had
    before.
  - Typing into a field whose group shows an error re-runs the whole
    validation.
- **Scroll-spy** (the body of the `scroll` listener of `initScrollSpy`).
  - The last section, in document order, whose top less a third of its
    height has been scrolled past gives the current id.
  - Every navigation link whose `href` contains that id is then marked
    active.

Modules:

- `JsText` (`js_text.dfy`): the JavaScript string built-ins the code relies
  on.
  - `trim`, with the ECMAScript white-space set.
  - `toLowerCase` on ASCII.
  - `length` in UTF-16 code units.
  - `includes`.
  - How an absent attribute (`null`) becomes the string `"null"`.
- `EmailAddress` (`email_address.dfy`): the regular expression of
  `validateEmail`, written twice.
  - Once as ghost predicates that follow the expression piece by piece.
  - Once as an executable recogniser that splits at the last `@` and the
    last `.`.
  - A proof that the two agree, plus the documented examples.
- `ContactValidation` (`contact_validation.dfy`): the per-field rules as
  pure functions over the raw input values, the verdict, and the error
  display that each rule outcome leaves.
- `ContactForm` (`contact_form.dfy`): the form as a class.
  - Fields: the three input values, the three error displays, the
    button's `disabled` flag and text, and the status line's classes,
    text and display.
  - The labels captured by sends still in flight.
  - The requests handed to the mail service.
  - Its methods are the handlers.
- `ScrollSpy` (`scroll_spy.dfy`):
  - the scan over the sections, as a loop proved against a recursive
    definition;
  - the pass over the links, in place on an `array<bool>` of `active`
    flags.

The mail service is outside the model. `emailjs.send` is modelled as
recording the request and one more pending settlement. `Resolve` settles a
pending send with success or failure, which stands for the promise's
outcome.

## Model

| member | source | states |
|---|---|---|
| JsText.TrimStart | js/main.js:251-253 | The result is no longer than the input and does not start with white space. |
| JsText.TrimStartDropsSpace | js/main.js:251-253 | Leading trimming keeps a suffix of the input, and everything it drops is white space. |
| JsText.TrimEnd | js/main.js:251-253 | The result is no longer than the input, starts where the input starts, and does not end with white space. |
| JsText.TrimEndDropsSpace | js/main.js:251-253 | Trailing trimming keeps a prefix of the input, and everything it drops is white space. |
| JsText.Trim | js/main.js:251-253 | The trimmed value neither starts nor ends with white space. |
| JsText.TrimIsInfix | js/main.js:251-253 | The trimmed value is an infix of the input with only white space on both sides. |
| JsText.TrimEmptyIff | js/main.js:251-253 | A value trims to `''` exactly when it is entirely white space. |
| JsText.TrimOfTrimmed | js/main.js:251-253 | A value with no surrounding white space is unchanged by trimming. |
| JsText.LowerChar | js/main.js:247 | The ASCII part of lower-casing only: A-Z map to a-z (plus 32), no other code point is changed, and no result is an upper-case ASCII letter. |
| JsText.ToLower | js/main.js:247 | Lower-casing keeps the length and lower-cases each character in place. |
| JsText.Utf16Length | js/main.js:276 | `length` counts between one and two code units per code point. |
| JsText.Utf16LengthOfBmp | js/main.js:276 | Inside the Basic Multilingual Plane, `length` is the number of code points. |
| JsText.Includes | js/main.js:72 | `includes` holds exactly when the sub-string occurs at some index. |
| EmailAddress.DotListIff | js/main.js:246 | `[p]+(\.[p]+)*` matches exactly the non-empty runs of `p` or `.` with no dot at either end and no two dots in a row. |
| EmailAddress.LabelsWithDotsIff | js/main.js:246 | `([a-zA-Z\-0-9]+\.)+` matches exactly a dotted label list followed by one dot. |
| EmailAddress.HostNameIff | js/main.js:246 | The host-name alternative matches exactly when the part before the last dot is a dotted label list and the part after it is two or more letters. |
| EmailAddress.OctetsIff | js/main.js:246 | `n` dot-separated groups of 1 to 3 digits are what the leading-digit scanner accepts. |
| EmailAddress.AddressLiteralIff | js/main.js:246 | The bracketed dotted-quad alternative agrees with the scanner. |
| EmailAddress.LocalPartIff | js/main.js:246 | The local-part alternatives (dotted atoms or a quoted string) agree with the scanner. |
| EmailAddress.DomainIff | js/main.js:246 | The domain alternatives agree with the scanner, and no domain they accept contains `@`. |
| EmailAddress.MatchIsRecognised | js/main.js:246-247 | Any split of a matching string at an `@` is a split at the last `@`, so the recogniser accepts the string. |
| EmailAddress.RecognisedIsMatch | js/main.js:246-247 | A string the recogniser accepts matches the expression at its last `@`. |
| EmailAddress.RecogniseCorrect | js/main.js:246 | The recogniser accepts exactly the strings the anchored expression matches. |
| EmailAddress.ValidateEmailCorrect | js/main.js:245-248 | `validateEmail` holds exactly when the lower-cased input matches the expression. |
| EmailAddress.AcceptsPlainAddress | js/main.js:245-248 | `word@word.tld` with lower-case words and a top-level label of at least two letters passes. |
| EmailAddress.RejectsWithoutAt | js/main.js:245-248 | A string without `@` fails. |
| EmailAddress.RejectsDotlessDomain | js/main.js:245-248 | `word@word` fails: the domain needs a dot. |
| EmailAddress.RejectsOneLetterTopLevel | js/main.js:245-248 | `word@word.x` fails: the top-level label needs two letters. |
| EmailAddress.ExampleTwoLetterTopLevel | js/main.js:245-248 | `"a@bc.de"` passes. |
| EmailAddress.ExampleOneLetterTopLevel | js/main.js:245-248 | `"a@b.c"` fails. |
| EmailAddress.ExampleDotlessDomain | js/main.js:245-248 | `"a@b"` fails. |
| EmailAddress.ExampleNoAt | js/main.js:245-248 | `"not-an-email"` fails. |
| EmailAddress.ExampleUpperCase | js/main.js:247 | `"A@BC.DE"` passes, because the input is lower-cased before the test. |
| EmailAddress.Recognise | js/main.js:246 | The recogniser: split at the last `@`, a dotted-atom or quoted local part before it, and a bracketed dotted quad or a dotted host name with a top-level label of two or more letters after it. RecogniseCorrect proves it equal to the expression. |
| EmailAddress.ValidateEmail | js/main.js:245-248 | `validateEmail`: the recogniser applied to the lower-cased input. ValidateEmailCorrect and the examples below state what it accepts. |
| ContactValidation.CheckName | js/main.js:251-261 | The name rule: "Name is required" when the trimmed value is `''`, otherwise a pass. BlankFieldsReportRequired and InputsValidIff state its outcomes. |
| ContactValidation.CheckEmail | js/main.js:252-271 | The e-mail rules in order: "Email is required" for `''`, then "Please provide a valid email address" when `validateEmail` fails on the trimmed value, otherwise a pass. |
| ContactValidation.CheckMessage | js/main.js:253-281 | The message rules in order: "Message is required" for `''`, then "Message must be at least 10 characters." when the trimmed `length` is under 10, otherwise a pass. NonBlankMessageFailsOnlyOnLength and MessageLengthBoundary state its outcomes. |
| ContactValidation.InputsValid | js/main.js:250-284 | The verdict `validateInputs` returns: all three rules pass. InputsValidIff restates it in terms of the raw values. |
| ContactValidation.SetError | js/main.js:229-235 | `setError`: the group gets the `error` class and the message is shown. |
| ContactValidation.ClearError | js/main.js:237-243 | `clearError`: the `error` class is removed and the message emptied. |
| ContactValidation.StatusAfter | js/main.js:256-281 | The display a rule outcome leaves: `setError` with the failing rule's message, or `clearError` on a pass. |
| ContactValidation.InputsValidIff | js/main.js:250-284 | The verdict is true exactly when name and e-mail each hold a non-white-space character, the trimmed e-mail passes `validateEmail`, and the trimmed message is at least 10 code units long. |
| ContactValidation.BlankFieldsReportRequired | js/main.js:256-281 | A blank field gets its "... is required" message, never the format or length message. |
| ContactValidation.NonBlankMessageFailsOnlyOnLength | js/main.js:273-281 | A non-blank message fails only with the length message, and exactly when its trimmed length is under 10. |
| ContactValidation.MessageLengthBoundary | js/main.js:276-277 | A trimmed message of 9 BMP characters gets "Message must be at least 10 characters."; 10 or more pass. |
| ContactValidation.AstralMessageExample | js/main.js:276 | Five emoji count 10 code units and pass the length rule. |
| ContactForm.RequestFor | js/main.js:300-305 | The template variables sent: the untrimmed name, e-mail and message values and the fixed recipient name, with the fixed service and template ids. |
| ContactForm.ContactForm.constructor | js/main.js:219-227 | The form as loaded: empty inputs, no errors, button enabled with its initial text, nothing in flight or sent. |
| ContactForm.ContactForm.ValidateName | js/main.js:256-261 | The name block returns true exactly when the name rule passes, and leaves the name group showing that rule's outcome. |
| ContactForm.ContactForm.ValidateEmailField | js/main.js:263-271 | The e-mail block returns true exactly when the e-mail rules pass, and leaves the group showing the first failing rule's message or cleared. |
| ContactForm.ContactForm.ValidateMessage | js/main.js:273-281 | The message block returns true exactly when the message rules pass, and leaves the group showing the first failing rule's message or cleared. |
| ContactForm.ContactForm.ValidateInputs | js/main.js:250-284 | Returns the verdict on the current values and leaves every group's display matching its value. Only the three displays change. |
| ContactForm.ContactForm.BeginSend | js/main.js:290-309 | Locks the button with "Sending...", resets the status classes to `form-status`, hides the status line, records the old button text for `finally`, and issues one request with the untrimmed values and the fixed recipient. |
| ContactForm.ContactForm.Submit | js/main.js:286-329 | Inputs unchanged and displays matching them. On invalid input, button, status classes, display, pending sends and requests are unchanged. On valid input, the effect of BeginSend. |
| ContactForm.ContactForm.Resolve | js/main.js:310-327 | Settles one pending send. The button is enabled again with the text captured for that send. The status line is shown. Success: success text, class `success` added, inputs reset to empty. Failure: failure text, class `error` added, inputs kept. A form with at most one send in flight keeps that property. |
| ContactForm.ContactForm.Edit | js/main.js:331-339 | Typing replaces one input's value. If that field's group showed an error, every display then matches its value; otherwise no display changes. The at-most-one-in-flight property is kept. |
| ContactForm.ContactForm.PressSubmit | js/main.js:286-329 | With the browser delivering no submission to a disabled button: nothing changes while a send is in flight, otherwise the submit effect; at most one send is ever in flight. |
| ContactForm.SendAndSettle | js/main.js:286-327 | From an idle form with valid input, one submission and its settlement send exactly one request with the entered values. They restore the button text and leave the status classes `form-status success` or `form-status error` with the matching text. |
| ContactForm.DoubleSubmitSendsOnce | js/main.js:289-327 | Submitting again while the first send is in flight issues nothing: two submissions and one settlement give exactly one request, carrying the values entered before the first submission, and the button ends enabled with its old text. |
| ScrollSpy.Reached | js/main.js:65 | A section is reached when `scrollY >= offsetTop - clientHeight / 3`, with exact division. |
| ScrollSpy.Current | js/main.js:60-68 | The reference for the scan: the id of the last reached section, or `""` when none is. CurrentIsLastReached proves it against LastReached. |
| ScrollSpy.LinkActive | js/main.js:66-72 | A link is active when its `href` contains the current id converted to a string; a missing id (`null`) is converted to `"null"`. |
| ScrollSpy.MissingIdMatchesNullText | js/main.js:66-72 | After a section without an id, exactly the links whose `href` contains `"null"` are active. |
| ScrollSpy.LastReached | js/main.js:62-68 | Index of the last reached section: the section there is reached and none after it is. |
| ScrollSpy.CurrentIsLastReached | js/main.js:60-68 | The scan leaves the id of the last section reached (`top - height / 3 <= scrollY`), or `""` when none is. |
| ScrollSpy.LastReachedMonotone | js/main.js:62-68 | Scrolling further down never moves the current section back up the document. |
| ScrollSpy.SelectCurrent | js/main.js:60-68 | The loop over the sections computes the current id. |
| ScrollSpy.FirstMissingHref | js/main.js:70-75 | Index of the first link without an `href`: all links before it have one. |
| ScrollSpy.MarkLinks | js/main.js:70-75 | Each link before the first missing `href` is active exactly when its `href` contains the current id. A link without an `href` loses `active` and then the call throws, leaving later links untouched. |
| ScrollSpy.OnScroll | js/main.js:59-76 | The whole listener: links are marked against the id of the last reached section. |
| ScrollSpy.NothingReachedActivatesAll | js/main.js:60-72 | Above every section the id stays `""`, which every `href` contains, so every link becomes active. |
| ScrollSpy.TwoLinksActiveExample | js/main.js:72 | `"#about"` and `"#about-me"` are both active for the id `"about"`. |
| ScrollSpy.TwoSectionsExample | js/main.js:62-68 | With sections a (0, 300) and b (300, 300): at offset 350, b is current; at offset 0, a is current. |
| ScrollSpy.ThresholdExample | js/main.js:65 | A section at 300 with height 300 is reached at offset 200 but not at 199.5. |

## Behaviour worth knowing

- `"a@b.c"` is rejected: `[a-zA-Z]{2,}` needs a top-level label of two
  letters or more (`ExampleOneLetterTopLevel`).
- Several links can be active at once, because an `href` only has to
  contain the current id (`TwoLinksActiveExample`).
- Above the first section the id is `""`, so every link is active
  (`NothingReachedActivatesAll`).
- After a section without an id, the id is `null` and is searched as the
  text `"null"` (`MissingIdMatchesNullText`).
- The submit handler has no in-flight guard. Only the disabled button
  stops a second send (`PressSubmit`). `Resolve` can settle any pending
  send, so the model also covers sends that overlap.
- `length` counts UTF-16 code units, so five emoji pass the length rule
  (`AstralMessageExample`).

## Left out

- The intro timeline, scroll-reveal, parallax, magnetic buttons and the
  about-section animations: their behaviour lives in an animation library
  that is not part of this model.
- The transport of `emailjs.send`: it is an external network call.
  - The model records the request and lets `Resolve` supply the outcome.
  - Which outcome arrives, and when, is not modelled.
- `console.error` on failure: logging only.
- The `if (!form) return` guard and the element look-ups: the model
  assumes the form and its elements exist.
- `e.preventDefault()`: page navigation is not modelled.
- ContactForm.ContactForm.constructor: does not read the page. It assumes
  empty inputs, cleared error displays, an enabled button and a status line
  with only the class `form-status`.
- ContactForm.ContactForm.Resolve: `form.reset()` is modelled as emptying
  the three inputs. The inputs' default values are assumed empty, and the
  error displays are left as they are (reset does not touch them).
- JsText.LowerChar: models only the ASCII part of `toLowerCase`. Other
  case mappings (for example `É`, `İ`, or the Kelvin sign U+212A, which
  lower-cases to `k`) are not modelled.
- JsText.ToLower: inherits that restriction, so an address with
  non-ASCII capitals can be judged differently. For example,
  `"a@bc.\u212A\u212A"` passes in the browser but fails in the model.
- The regular expression is modelled on code points, while the expression
  (no `u` flag) sees a character beyond U+FFFF as two UTF-16 units. The
  verdict is the same either way: such units fall only under negated
  classes and `.`, which accept both halves.
- ScrollSpy.Reached: `offsetTop` and `clientHeight` are whole pixels. The
  scroll offset is an exact real, so floating-point rounding of `scrollY`
  and of the division is not modelled.
- ScrollSpy.OnScroll: how the browser schedules `scroll` events is not
  modelled, and neither are the CSS effects of the `active` class.
