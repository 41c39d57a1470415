/** The contact form's field rules (validateInputs, js/main.js). Each field is
    trimmed and its rules are tried in order; the first failing rule gives
    the message shown next to the field. */
module ContactValidation {
  import opened JsText
  import opened EmailAddress

  const NameRequired := "Name is required"
  const EmailRequired := "Email is required"
  const EmailInvalid := "Please provide a valid email address"
  const MessageRequired := "Message is required"
  const MessageTooShort := "Message must be at least 10 characters."

  /** The least `length` (UTF-16 code units) a trimmed message may have. */
  const MinMessageLength := 10

  /** The outcome of one field's rules: the first failing rule's message, or a pass. */
  datatype Check = Pass | Fail(message: string)

  /** name: required. */
  function CheckName(value: string): Check {
    if Trim(value) == "" then Fail(NameRequired) else Pass
  }

  /** email: required, then the address pattern. */
  function CheckEmail(value: string): Check {
    var v := Trim(value);
    if v == "" then Fail(EmailRequired)
    else if !ValidateEmail(v) then Fail(EmailInvalid)
    else Pass
  }

  /** message: required, then at least MinMessageLength code units. */
  function CheckMessage(value: string): Check {
    var v := Trim(value);
    if v == "" then Fail(MessageRequired)
    else if Utf16Length(v) < MinMessageLength then Fail(MessageTooShort)
    else Pass
  }

  /** The verdict validateInputs returns for the three raw input values. */
  predicate InputsValid(name: string, email: string, message: string) {
    CheckName(name) == Pass && CheckEmail(email) == Pass && CheckMessage(message) == Pass
  }

  /** One field's error display: the `error` class on the field's group and
      the text of its `.error-message` element. */
  datatype FieldStatus = FieldStatus(hasError: bool, text: string)

  /** setError: mark the group and show the message. */
  function SetError(message: string): FieldStatus {
    FieldStatus(true, message)
  }

  /** clearError: unmark the group and empty the message. */
  function ClearError(): FieldStatus {
    FieldStatus(false, "")
  }

  /** The display a field is left with once its rules have run. */
  function StatusAfter(c: Check): FieldStatus {
    match c
    case Pass => ClearError()
    case Fail(m) => SetError(m)
  }

  /** The form passes exactly when the name and the e-mail address hold a
      non-blank character, the trimmed address matches the pattern, and the
      trimmed message is at least MinMessageLength code units long. */
  lemma InputsValidIff(name: string, email: string, message: string)
    ensures InputsValid(name, email, message)
            <==> !AllSpace(name) && !AllSpace(email) && ValidateEmail(Trim(email))
                 && Utf16Length(Trim(message)) >= MinMessageLength
  {
    TrimEmptyIff(name);
    TrimEmptyIff(email);
  }

  /** A blank field reports "required", never the format or length message
      that an empty string would also fail. */
  lemma BlankFieldsReportRequired(value: string)
    requires AllSpace(value)
    ensures CheckName(value) == Fail(NameRequired)
    ensures CheckEmail(value) == Fail(EmailRequired)
    ensures CheckMessage(value) == Fail(MessageRequired)
  {
    TrimEmptyIff(value);
  }

  /** A non-blank message fails on length exactly when its trimmed form is
      shorter than MinMessageLength. */
  lemma NonBlankMessageFailsOnlyOnLength(message: string)
    requires !AllSpace(message)
    ensures CheckMessage(message) == Pass <==> Utf16Length(Trim(message)) >= MinMessageLength
    ensures CheckMessage(message) != Pass ==> CheckMessage(message) == Fail(MessageTooShort)
  {
    TrimEmptyIff(message);
  }

  /** For a message without surrounding white space and without characters
      beyond U+FFFF, nine characters are too few and ten are enough. */
  lemma MessageLengthBoundary(message: string)
    requires message == [] || (!IsJsSpace(message[0]) && !IsJsSpace(message[|message| - 1]))
    requires forall i :: 0 <= i < |message| ==> message[i] as int <= 0xFFFF
    ensures |message| == 9 ==> CheckMessage(message) == Fail(MessageTooShort)
    ensures |message| >= 10 ==> CheckMessage(message) == Pass
  {
    TrimOfTrimmed(message);
    Utf16LengthOfBmp(message);
  }

  /** `length` counts UTF-16 code units: five emoji are ten units and pass. */
  lemma AstralMessageExample()
    ensures CheckMessage("\U{1F600}\U{1F600}\U{1F600}\U{1F600}\U{1F600}") == Pass
  {
    var m := "\U{1F600}\U{1F600}\U{1F600}\U{1F600}\U{1F600}";
    TrimOfTrimmed(m);
  }
}
