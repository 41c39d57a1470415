/** The contact form of initContactForm (js/main.js): three inputs with their
    error displays, the submit button, the status line, and the requests
    handed to the mail service. The mail service's promise is outside the
    model: a send stays pending until Resolve settles it one way or the
    other. */
module ContactForm {
  import opened JsText
  import opened ContactValidation
  import opened EmailAddress

  const SendingLabel := "Sending..."
  const ServiceId := "service_sp2u1h4"
  const TemplateId := "template_dzqfct9"
  const RecipientName := "Naveen Muthukumar"
  const SentText := "Message sent successfully! I will get back to you soon."
  const FailedText := "Failed to send message. Please try again later or email me directly."

  /** The status line's base class, and the classes each outcome adds to it. */
  const StatusClass := "form-status"
  const SuccessClass := "success"
  const ErrorClass := "error"

  /** Values written to the status line's inline `display` style. */
  const DisplayNone := "none"
  const DisplayBlock := "block"

  /** The template variables of one send. */
  datatype TemplateParams = TemplateParams(fromName: string, replyTo: string, message: string, toName: string)

  /** One call to the mail service: service id, template id, variables. */
  datatype SendRequest = SendRequest(serviceId: string, templateId: string, params: TemplateParams)

  datatype Field = NameField | EmailField | MessageField

  /** The request a submission sends: the raw, untrimmed input values. */
  function RequestFor(name: string, email: string, message: string): SendRequest {
    SendRequest(ServiceId, TemplateId, TemplateParams(name, email, message, RecipientName))
  }

  class ContactForm {
    /** The `value` of the name, e-mail and message inputs. */
    var name: string
    var email: string
    var message: string
    /** The error display of each input's group. */
    var nameStatus: FieldStatus
    var emailStatus: FieldStatus
    var messageStatus: FieldStatus
    /** The submit button: its `disabled` flag and the text of its span. */
    var buttonDisabled: bool
    var buttonLabel: string
    /** The status line: its class list, text and inline display style. */
    var statusClasses: set<string>
    var statusText: string
    var statusDisplay: string
    /** One entry per send not yet settled: the button text captured when it
        was issued, which its `finally` puts back. */
    var pending: seq<string>
    /** Every request handed to the mail service, oldest first. */
    var sent: seq<SendRequest>

    /** The form as the page loads it, with empty inputs and `initialLabel` on the button. */
    constructor (initialLabel: string)
      ensures name == "" && email == "" && message == ""
      ensures nameStatus == ClearError() && emailStatus == ClearError() && messageStatus == ClearError()
      ensures !buttonDisabled && buttonLabel == initialLabel
      ensures statusClasses == {StatusClass} && statusText == "" && statusDisplay == ""
      ensures pending == [] && sent == []
      ensures AtMostOneInFlight()
    {
      name, email, message := "", "", "";
      nameStatus, emailStatus, messageStatus := ClearError(), ClearError(), ClearError();
      buttonDisabled, buttonLabel := false, initialLabel;
      statusClasses, statusText, statusDisplay := {StatusClass}, "", "";
      pending, sent := [], [];
    }

    function ValueOf(f: Field): string
      reads this
    {
      match f
      case NameField => name
      case EmailField => email
      case MessageField => message
    }

    function StatusOf(f: Field): FieldStatus
      reads this
    {
      match f
      case NameField => nameStatus
      case EmailField => emailStatus
      case MessageField => messageStatus
    }

    /** While the browser is the only caller, a send is in flight exactly when
        the button is disabled, there is never more than one, and the button
        then reads SendingLabel. */
    ghost predicate AtMostOneInFlight()
      reads this
    {
      |pending| <= 1
      && (buttonDisabled <==> |pending| == 1)
      && (|pending| == 1 ==> buttonLabel == SendingLabel)
    }

    /** Every error display is the one its field's current value calls for. */
    ghost predicate StatusesMatchValues()
      reads this
    {
      nameStatus == StatusAfter(CheckName(name))
      && emailStatus == StatusAfter(CheckEmail(email))
      && messageStatus == StatusAfter(CheckMessage(message))
    }

    twostate predicate SameValues()
      reads this
    {
      name == old(name) && email == old(email) && message == old(message)
    }

    twostate predicate SameStatuses()
      reads this
    {
      nameStatus == old(nameStatus) && emailStatus == old(emailStatus) && messageStatus == old(messageStatus)
    }

    /** The button, the status line's classes and display, pending sends and
        issued requests are as they were. */
    twostate predicate SameControls()
      reads this
    {
      buttonDisabled == old(buttonDisabled) && buttonLabel == old(buttonLabel)
      && statusClasses == old(statusClasses) && statusDisplay == old(statusDisplay)
      && pending == old(pending) && sent == old(sent)
    }

    /** The name block of validateInputs: required. */
    method ValidateName() returns (ok: bool)
      modifies this`nameStatus
      ensures ok <==> CheckName(name) == Pass
      ensures nameStatus == StatusAfter(CheckName(name))
    {
      var nameValue := Trim(name);
      ok := true;
      if nameValue == "" {
        nameStatus := SetError(NameRequired);
        ok := false;
      } else {
        nameStatus := ClearError();
      }
    }

    /** The e-mail block of validateInputs: required, then the pattern. */
    method ValidateEmailField() returns (ok: bool)
      modifies this`emailStatus
      ensures ok <==> CheckEmail(email) == Pass
      ensures emailStatus == StatusAfter(CheckEmail(email))
    {
      var emailValue := Trim(email);
      ok := true;
      if emailValue == "" {
        emailStatus := SetError(EmailRequired);
        ok := false;
      } else if !ValidateEmail(emailValue) {
        emailStatus := SetError(EmailInvalid);
        ok := false;
      } else {
        emailStatus := ClearError();
      }
    }

    /** The message block of validateInputs: required, then the length. */
    method ValidateMessage() returns (ok: bool)
      modifies this`messageStatus
      ensures ok <==> CheckMessage(message) == Pass
      ensures messageStatus == StatusAfter(CheckMessage(message))
    {
      var messageValue := Trim(message);
      ok := true;
      if messageValue == "" {
        messageStatus := SetError(MessageRequired);
        ok := false;
      } else if Utf16Length(messageValue) < MinMessageLength {
        messageStatus := SetError(MessageTooShort);
        ok := false;
      } else {
        messageStatus := ClearError();
      }
    }

    /** validateInputs: runs the rules of all three fields (no short cut, so
        every field's display is refreshed), and returns the verdict. */
    method ValidateInputs() returns (isValid: bool)
      modifies this`nameStatus, this`emailStatus, this`messageStatus
      ensures isValid == InputsValid(name, email, message)
      ensures StatusesMatchValues()
    {
      isValid := true;
      var nameOk := ValidateName();
      if !nameOk {
        isValid := false;
      }
      var emailOk := ValidateEmailField();
      if !emailOk {
        isValid := false;
      }
      var messageOk := ValidateMessage();
      if !messageOk {
        isValid := false;
      }
    }

    /** What the submit handler leaves behind: the inputs are untouched and
        the error displays match them; on invalid input nothing else moves; on
        valid input the button is locked with SendingLabel, the status line's
        classes are reset and it is hidden (its text stays), the old label is
        kept for the send's `finally`, and one request carrying the untrimmed
        values is issued. */
    twostate predicate SubmitEffect()
      reads this
    {
      SameValues() && StatusesMatchValues()
      && (!old(InputsValid(name, email, message)) ==> SameControls())
      && (old(InputsValid(name, email, message)) ==>
            buttonDisabled && buttonLabel == SendingLabel
            && statusClasses == {StatusClass} && statusDisplay == DisplayNone
            && pending == old(pending) + [old(buttonLabel)]
            && sent == old(sent) + [old(RequestFor(name, email, message))])
    }

    /** The valid branch of the submit handler: the button's text is kept,
        the button is locked with SendingLabel, the status line's classes are
        reset and it is hidden, and the request goes to the mail service. */
    method BeginSend()
      modifies this`buttonDisabled, this`buttonLabel, this`statusClasses, this`statusDisplay
      modifies this`pending, this`sent
      ensures buttonDisabled && buttonLabel == SendingLabel
      ensures statusClasses == {StatusClass} && statusDisplay == DisplayNone
      ensures pending == old(pending) + [old(buttonLabel)]
      ensures sent == old(sent) + [RequestFor(name, email, message)]
    {
      var originalLabel := buttonLabel;
      buttonDisabled := true;
      buttonLabel := SendingLabel;
      statusClasses := {StatusClass};
      statusDisplay := DisplayNone;
      pending := pending + [originalLabel];
      sent := sent + [RequestFor(name, email, message)];
    }

    /** The form's `submit` listener (the default navigation is suppressed). */
    method Submit()
      modifies this`nameStatus, this`emailStatus, this`messageStatus
      modifies this`buttonDisabled, this`buttonLabel, this`statusClasses, this`statusDisplay
      modifies this`pending, this`sent
      ensures SubmitEffect()
    {
      var ok := ValidateInputs();
      if ok {
        BeginSend();
      }
    }

    /** The send that captured pending[k] settles: success shows the success
        text and clears the inputs (form.reset, default values empty); failure
        shows the failure text and keeps the inputs; either way the status line
        is shown and `finally` re-enables the button with the captured label. */
    method Resolve(k: nat, succeeded: bool)
      requires k < |pending|
      modifies this`name, this`email, this`message
      modifies this`buttonDisabled, this`buttonLabel, this`pending
      modifies this`statusClasses, this`statusText, this`statusDisplay
      ensures !buttonDisabled && buttonLabel == old(pending[k])
      ensures pending == old(pending[..k] + pending[k + 1..])
      ensures statusDisplay == DisplayBlock
      ensures succeeded ==>
                statusText == SentText && statusClasses == old(statusClasses) + {SuccessClass}
                && name == "" && email == "" && message == ""
      ensures !succeeded ==>
                statusText == FailedText && statusClasses == old(statusClasses) + {ErrorClass}
                && SameValues()
      ensures old(AtMostOneInFlight()) ==> AtMostOneInFlight()
    {
      var originalLabel := pending[k];
      if succeeded {
        statusText := SentText;
        statusClasses := statusClasses + {SuccessClass};
        statusDisplay := DisplayBlock;
        name, email, message := "", "", "";
      } else {
        statusText := FailedText;
        statusClasses := statusClasses + {ErrorClass};
        statusDisplay := DisplayBlock;
      }
      buttonDisabled := false;
      buttonLabel := originalLabel;
      pending := pending[..k] + pending[k + 1..];
    }

    /** The user types `value` into `field`: the `input` listener re-runs
        validation of all fields only if that field's group shows an error. */
    method Edit(field: Field, value: string)
      modifies this`name, this`email, this`message
      modifies this`nameStatus, this`emailStatus, this`messageStatus
      ensures name == (if field == NameField then value else old(name))
      ensures email == (if field == EmailField then value else old(email))
      ensures message == (if field == MessageField then value else old(message))
      ensures old(StatusOf(field)).hasError ==> StatusesMatchValues()
      ensures !old(StatusOf(field)).hasError ==> SameStatuses()
      ensures old(AtMostOneInFlight()) ==> AtMostOneInFlight()
    {
      match field {
        case NameField => name := value;
        case EmailField => email := value;
        case MessageField => message := value;
      }
      if StatusOf(field).hasError {
        var _ := ValidateInputs();
      }
    }

    /** The user submits the form (button click or Enter in a field). The
        browser delivers no submission while the button is disabled, so at
        most one send is ever in flight. */
    method PressSubmit()
      requires AtMostOneInFlight()
      modifies this`nameStatus, this`emailStatus, this`messageStatus
      modifies this`buttonDisabled, this`buttonLabel, this`statusClasses, this`statusDisplay
      modifies this`pending, this`sent
      ensures AtMostOneInFlight()
      ensures old(buttonDisabled) ==> unchanged(this)
      ensures !old(buttonDisabled) ==> SubmitEffect()
    {
      if !buttonDisabled {
        Submit();
      }
    }
  }

  /** One round trip from an idle form with valid input: exactly one request
      with the entered values goes out, and once it settles the button is
      enabled again with the label it had before. */
  method SendAndSettle(form: ContactForm, succeeded: bool)
    requires form.AtMostOneInFlight() && !form.buttonDisabled
    requires InputsValid(form.name, form.email, form.message)
    modifies form
    ensures form.AtMostOneInFlight() && !form.buttonDisabled
    ensures form.buttonLabel == old(form.buttonLabel)
    ensures form.sent == old(form.sent) + [RequestFor(old(form.name), old(form.email), old(form.message))]
    ensures form.statusDisplay == DisplayBlock
    ensures succeeded ==>
              form.statusClasses == {StatusClass, SuccessClass} && form.statusText == SentText
              && form.name == "" && form.email == "" && form.message == ""
    ensures !succeeded ==>
              form.statusClasses == {StatusClass, ErrorClass} && form.statusText == FailedText
              && form.name == old(form.name) && form.email == old(form.email)
              && form.message == old(form.message)
  {
    form.PressSubmit();
    form.Resolve(0, succeeded);
  }

  /** Submitting again while the first send is in flight issues nothing:
      two presses and one settlement give exactly one request. */
  method DoubleSubmitSendsOnce(form: ContactForm, succeeded: bool)
    requires form.AtMostOneInFlight() && !form.buttonDisabled
    requires InputsValid(form.name, form.email, form.message)
    modifies form
    ensures form.AtMostOneInFlight() && !form.buttonDisabled
    ensures form.buttonLabel == old(form.buttonLabel)
    ensures form.sent == old(form.sent) + [RequestFor(old(form.name), old(form.email), old(form.message))]
  {
    form.PressSubmit();
    form.PressSubmit();
    form.Resolve(0, succeeded);
  }
}
