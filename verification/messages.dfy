/** Every message the system reports, as a value. The repositories, the
    submission handler and the public form page pick a `Message`; `Wording`
    gives the exact wording the program sends or shows. */
module Messages {
  import opened Text

  datatype Message =
    // forms.ts
    | FormIdNotPositive
    | FormNameRequired
    | FormStatusRequired
    | FormNameNotEmpty
    | FormStatusNotEmpty
    | FormNotLoaded
    | NoFormFields
    // fields.ts
    | FieldIdNotPositive
    | FormIdParamNotPositive
    | NotJsonString(property: string)
    | NotValidJson(property: string)
    | QuestionTextRequired
    | AnswerTypeRequired
    | QuestionTextNotEmpty
    | AnswerTypeNotEmpty
    | FieldNotLoaded
    | NoFieldProperties
    // clients.ts
    | ClientIdNotPositive
    | EmailNotValid
    | OptionalFormIdNotPositive
    | ClientNameRequired
    | ClientEmailRequired
    | DateRespondedRequired
    | ClientNameNotEmpty
    | EmailNotEmpty
    | DateRespondedNotEmpty
    | ClientNotLoaded
    | EmailRequired
    | NoClientFields
    // responses.ts
    | ResponseIdNotPositive
    | ResponseTextRequired
    | ResponseTextNotEmpty
    | ResponseNotLoaded
    | NoResponseFields
    // errors/handler.ts
    | QueryFailed(operation: string)
    | SomethingWentWrong
    // routes/publicForms.ts
    | InvalidFormId
    | FormNotFound
    | FormNotPublished
    | NameRequired
    | SubmitterEmailRequired
    | SubmitterEmailInvalid
    | AnswersRequired
    | AlreadySubmitted
    | QuestionsUnanswered
    | AnswerRequiredFor(fieldId: int)
    | ThankYou
    // PublicForm.tsx
    | EnterYourName
    | EnterYourEmail
    | EnterValidEmail
    | PleaseAnswer(question: string)

  /** The wording of each message. */
  function Wording(m: Message): string {
    match m
    case FormIdNotPositive => "Form id must be a positive integer"
    case FormNameRequired => "Form name is required"
    case FormStatusRequired => "Form status is required"
    case FormNameNotEmpty => "If provided, form name must be a non-empty string"
    case FormStatusNotEmpty => "If provided, form status must be a non-empty string"
    case FormNotLoaded => "Failed to load form after creation"
    case NoFormFields => "No form fields to update"
    case FieldIdNotPositive => "field_id must be a positive integer"
    case FormIdParamNotPositive => "form_id must be a positive integer"
    case NotJsonString(p) => p + " must be a JSON string"
    case NotValidJson(p) => p + " must be valid JSON"
    case QuestionTextRequired => "question_text is required"
    case AnswerTypeRequired => "answer_type is required"
    case QuestionTextNotEmpty => "If provided, question_text must be a non-empty string"
    case AnswerTypeNotEmpty => "If provided, answer_type must be a non-empty string"
    case FieldNotLoaded => "Failed to load field after creation"
    case NoFieldProperties => "No field properties to update"
    case ClientIdNotPositive => "client_id must be a positive integer"
    case EmailNotValid => "email must be a valid email address"
    case OptionalFormIdNotPositive => "If provided, form_id must be a positive integer"
    case ClientNameRequired => "Client name is required"
    case ClientEmailRequired => "Client email is required"
    case DateRespondedRequired => "date_responded is required"
    case ClientNameNotEmpty => "If provided, client name must be a non-empty string"
    case EmailNotEmpty => "If provided, email must be a non-empty string"
    case DateRespondedNotEmpty => "If provided, date_responded must be a non-empty string"
    case ClientNotLoaded => "Failed to load client after creation"
    case EmailRequired => "email is required"
    case NoClientFields => "No client fields to update"
    case ResponseIdNotPositive => "response_id must be a positive integer"
    case ResponseTextRequired => "response_text is required"
    case ResponseTextNotEmpty => "If provided, response_text must be a non-empty string"
    case ResponseNotLoaded => "Failed to load response after creation"
    case NoResponseFields => "No response fields to update"
    case QueryFailed(operation) => "Database query failed during " + operation
    case SomethingWentWrong => "Something went wrong"
    case InvalidFormId => "Invalid form id"
    case FormNotFound => "Form not found"
    case FormNotPublished => "Form is not published"
    case NameRequired => "Name is required"
    case SubmitterEmailRequired => "Email is required"
    case SubmitterEmailInvalid => "Please enter a valid email address"
    case AnswersRequired => "Answers are required"
    case AlreadySubmitted => "A response with this email has already been submitted for this form"
    case QuestionsUnanswered => "All questions must be answered"
    case AnswerRequiredFor(id) => "Answer required for question (field " + IntToString(id) + ")"
    case ThankYou => "Thank you! Your response has been submitted."
    case EnterYourName => "Please enter your name."
    case EnterYourEmail => "Please enter your email."
    case EnterValidEmail => "Please enter a valid email address."
    case PleaseAnswer(question) => "Please answer: " + question
  }
}
