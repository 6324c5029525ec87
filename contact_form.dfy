/** The contact form of the site: its four-field form state, the field update
    on each keystroke, and the submit handler that checks the fields, posts
    them to `POST /api/contact` and shows a notification. The request itself
    is outside the model: its outcome is the `Answer` the handler is given. */
module ContactForm {
  import opened Wrappers
  import opened EmailPattern
  import ContactServer

  const FillAllFields := "Please fill in all fields"
  const InvalidEmailNotice := "Please enter a valid email address"
  const SendFailedNotice := "Failed to send message"
  const NetworkErrorNotice := "Network error. Please check your connection and try again."

  /** The `name` attributes of the form's four inputs. */
  datatype Field = Name | Email | Subject | Message

  datatype FormData = FormData(name: string, email: string, subject: string, message: string) {
    function Get(f: Field): string {
      match f
      case Name => name
      case Email => email
      case Subject => subject
      case Message => message
    }

    /** The request body this form is posted as. */
    function ToSubmission(): ContactServer.Submission {
      ContactServer.Submission(name, email, subject, message)
    }
  }

  const EmptyForm := FormData("", "", "", "")

  datatype Kind = Success | Error

  /** The banner `showNotification` sets. */
  datatype Notice = Notice(message: string, kind: Kind)

  /** How the request ended: the parsed JSON reply's `success` and `message`
      (an absent message is the empty string), or a rejected `fetch` or
      unparsable body. */
  datatype Answer = Answer(success: bool, message: string) | NetworkError

  /** `handleInputChange`: a copy of the form with the named field replaced. */
  function WithField(form: FormData, f: Field, value: string): (r: FormData)
    ensures r.Get(f) == value
    ensures forall g :: g != f ==> r.Get(g) == form.Get(g)
  {
    match f
    case Name => form.(name := value)
    case Email => form.(email := value)
    case Subject => form.(subject := value)
    case Message => form.(message := value)
  }

  /** The two checks `handleSubmit` runs before any request, in their order:
      the notice of the first that fails, or None. The client refuses exactly
      the forms the server would refuse with a 400. */
  function Precheck(form: FormData): (r: Option<string>)
    ensures r.None? <==> ContactServer.Admissible(form.ToSubmission())
    ensures r.Some? ==> r.value == FillAllFields || r.value == InvalidEmailNotice
    ensures r == Some(FillAllFields) <==> exists f :: form.Get(f) == ""
  {
    if form.name == "" || form.email == "" || form.subject == "" || form.message == "" then
      assert form.Get(Name) == form.name && form.Get(Email) == form.email;
      assert form.Get(Subject) == form.subject && form.Get(Message) == form.message;
      Some(FillAllFields)
    else if !IsValidEmail(form.email) then
      Some(InvalidEmailNotice)
    else
      None
  }

  /** The notification for how the request ended: the server's message on
      success; on failure its message, or a fallback when it sent none. */
  function AnswerNotice(answer: Answer): (n: Notice)
    ensures n.kind == Success <==> answer.Answer? && answer.success
    ensures n.message != "" || (answer.Answer? && answer.success)
    ensures answer.Answer? && answer.success ==> n.message == answer.message
    ensures answer.Answer? && !answer.success ==>
      n.message == if answer.message == "" then SendFailedNotice else answer.message
    ensures answer.NetworkError? ==> n.message == NetworkErrorNotice
  {
    match answer
    case Answer(true, message) => Notice(message, Success)
    case Answer(false, message) => Notice(if message == "" then SendFailedNotice else message, Error)
    case NetworkError => Notice(NetworkErrorNotice, Error)
  }

  /** The `Contact` component's state. */
  class ContactFormState {
    var formData: FormData
    var notification: Option<Notice>
    var isSubmitting: bool

    constructor ()
      ensures formData == EmptyForm && notification == None && !isSubmitting
    {
      formData := EmptyForm;
      notification := None;
      isSubmitting := false;
    }

    /** `handleInputChange`: only the edited field changes. */
    method InputChange(f: Field, value: string)
      modifies this
      ensures formData == WithField(old(formData), f, value)
      ensures notification == old(notification) && isSubmitting == old(isSubmitting)
    {
      formData := WithField(formData, f, value);
    }

    /** `handleSubmit`. A form failing a check is never posted and is kept;
        a posted form is cleared only when the server reports success. Every
        path ends with `isSubmitting` false. `posted` is the body sent, if any. */
    method Submit(answer: Answer) returns (posted: Option<FormData>)
      modifies this
      ensures !isSubmitting
      ensures posted.Some? <==> Precheck(old(formData)).None?
      ensures posted.Some? ==> posted.value == old(formData)
      ensures Precheck(old(formData)).Some? ==>
        notification == Some(Notice(Precheck(old(formData)).value, Error)) && formData == old(formData)
      ensures posted.Some? ==> notification == Some(AnswerNotice(answer))
      ensures posted.Some? ==>
        formData == if answer.Answer? && answer.success then EmptyForm else old(formData)
    {
      isSubmitting := true;
      var problem := Precheck(formData);
      if problem.Some? {
        notification := Some(Notice(problem.value, Error));
        isSubmitting := false;
        return None;
      }
      posted := Some(formData);
      notification := Some(AnswerNotice(answer));
      if answer.Answer? && answer.success {
        formData := EmptyForm;
      }
      isSubmitting := false;
    }
  }
}
