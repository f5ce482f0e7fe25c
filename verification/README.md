# Forms: a Dafny model of the repositories, the public submission workflow and the form pages

This project models the core logic of a small form builder. A TypeScript
back end stores forms, their questions (fields), respondents (clients) and
answers (responses) in SQLite. A React front end lets an author edit a
form's questions and lets a respondent fill in a published form.

Everything is modelled as pure functions over immutable values:

- **Store** (`Tables`). Each table is a sequence of rows in key order plus the
  counter that supplies the next generated key. `Valid` is the store
  invariant: keys are positive, below the counter, and strictly ascending.
- **Repositories** (`Forms`, `Fields`, `Clients`, `Responses`). Each validates
  its input in the source's order and returns a `Result` together with the
  table it leaves behind. Every rejection carries the exact message as a
  `Messages.Message` value; `Messages.Wording` spells out its text.
- **Errors** (`Errors`). `DatabaseError`, `DatabaseQueryError` and
  `toDatabaseError`.
- **Submission handler** (`PublicSubmission`). `Submit` goes through admission,
  body shape, duplicate check, completeness filter, then the commit of one
  client row and one response row per question. It returns the HTTP reply
  and the resulting store.
- **Editor** (`FormEditor`). The question-list reducers of the form editor
  page, and the invariant they keep.
- **Public page** (`PublicFormPage`). The public form page's normalisation of
  questions, its answer state, its validation and the body it posts. It is
  connected to the handler by lemmas about what the server does with what
  the page sends.
- **JavaScript values** (`Js`, `Text`, `Email`). Request bodies as JavaScript
  values, the JavaScript string operations the code relies on (`trim`,
  `toLowerCase`, `join`, `String(x)`), and the e-mail regular expression
  `^[^@\s]+@[^@\s]+\.[^@\s]+$`. The regular expression is given twice: as a
  literal reading and as an executable test, proved equivalent.

Two behaviours of the code are worth stating:

- A store failure wrapped by `toDatabaseError` is a `DatabaseError`, because
  `DatabaseQueryError` extends it. The handler therefore answers 400 with the
  wrapper's message, not 500 (`PublicSubmission.WrappedFailureIs400`).
- A form id that is not a positive integer gets 400 "Invalid form id", not
  404.

Two lemmas connect the pages with the rest of the system:

- **Blank checkbox options.** The page and the server disagree about a
  checkbox question whose only checked option is blank. The editor gives a
  question a single blank option when it becomes a choice question. The page
  accepts such an answer and posts `""` for it. The server then answers 400
  "All questions must be answered"
  (`PublicFormPage.BlankOptionPassesPageOnly`). When every checked checkbox
  question has a non-blank option and ids are distinct, what the page lets
  through passes the server's completeness filter
  (`PublicFormPage.ValidatedPayloadComplete`).
- **Unique question ids.** The editor never empties its question list, but
  only because new questions get fresh ids. Two questions sharing an id are
  removed together (`FormEditor.SharedIdEmptiesList`).

## Model

| member | source | states |
|---|---|---|
| Text.Trim | backend/src/database/forms.ts:32 | `trim()`: the result has no white space at either end; it is empty exactly when the input is all white space; an already trimmed string is unchanged |
| Text.TrimIsSlice | backend/src/database/forms.ts:32 | `trim()` removes only white space, and only at the two ends: the result is a contiguous slice of the input with nothing but white space before and after it |
| Text.TrimIdempotent | backend/src/routes/publicForms.ts:35-42 | trimming a trimmed string changes nothing, so the handler's trimmed e-mail is what the repository trims again |
| Text.ToLowerAscii | backend/src/routes/publicForms.ts:24 | `toLowerCase()` keeps the length and lowers each letter in place |
| Text.Join | backend/src/routes/publicForms.ts:78 | `join(sep)`: no parts give ""; the result starts with the first part and ends with the last |
| Text.JoinAppend | backend/src/routes/publicForms.ts:78 | joining two non-empty lists one after the other is joining each with the separator between them |
| Text.JoinCases | backend/src/routes/publicForms.ts:78 | the same split when either list may be empty: an empty list adds nothing, not even the separator |
| Text.StrLeTotal | backend/src/database/forms.ts:90 | the binary text order used by `ORDER BY ... DESC` relates every two texts |
| Text.StrLeTransitive | backend/src/database/forms.ts:90 | the binary text order is transitive, so sorting by it is well defined |
| Email.ValidEmailIsRegex | backend/src/database/clients.ts:26-31 | the executable e-mail test accepts exactly the strings the regular expression accepts |
| Email.ValidEmailMatches | backend/src/database/clients.ts:28 | every string the executable test accepts is matched by the regular expression |
| Email.RegexMatchIsValid | backend/src/database/clients.ts:28 | every way of matching the regular expression is accepted by the executable test |
| Email.ValidEmailShape | backend/src/database/clients.ts:28 | an accepted address has exactly one `@`, no white space, a non-empty local part, and a domain with a `.` that has text on both sides |
| Errors.NewDatabaseError | backend/src/database/errors/handler.ts:1-9 | the constructor keeps the given message and cause, and the error's class is `DatabaseError` |
| Errors.NewDatabaseQueryError | backend/src/database/errors/handler.ts:11-16 | the message is "Database query failed during " + operation; the cause is kept; the class is the subclass |
| Errors.Rejection | backend/src/database/forms.ts:33 | a validation failure is a `DatabaseError` with the given message and no cause |
| Errors.ToDatabaseError | backend/src/database/errors/handler.ts:18-24 | a `DatabaseError` is returned unchanged; anything else is wrapped in a query error whose cause is the original |
| Errors.ToDatabaseErrorIdempotent | backend/src/database/errors/handler.ts:18-24 | wrapping an already wrapped error gives it back, whatever the operation name |
| Tables.Find | backend/src/database/forms.ts:86 | a lookup by key finds a row with that key exactly when one exists; in a valid table it is the row with that key |
| Tables.FirstWhere | backend/src/database/clients.ts:150-153 | `dbGet` with a condition returns a row satisfying it, and returns nothing exactly when no row does |
| Tables.Where | backend/src/database/fields.ts:107-110 | a filtered read returns exactly the rows satisfying the condition, and rows in ascending key order stay in ascending key order |
| Tables.Insert | backend/src/database/forms.ts:60-74 | an insert keeps the table valid, and the new row can be read back under the counter's key |
| Tables.Modify | backend/src/database/forms.ts:135-142 | an update by key rewrites only the rows with that key, keeps every key and the table's length, and keeps it valid |
| Tables.Remove | backend/src/database/forms.ts:152 | a delete by key leaves exactly the rows with other keys, and keeps the table valid |
| Tables.SortDesc | backend/src/database/forms.ts:90 | `ORDER BY column DESC` returns a permutation of the rows, sorted with the largest key column first |
| Forms.ValidateCreate | backend/src/database/forms.ts:31-38 | creation passes exactly when name and status are non-blank strings; otherwise it fails with the name message first, then the status message |
| Forms.ValidateUpdate | backend/src/database/forms.ts:40-55 | an update passes exactly when a given name and a given status are non-blank strings; otherwise it fails with the matching message, name first |
| Js.OrNull | backend/src/database/forms.ts:67-70 | `value ?? null` is a value exactly when the property is present |
| Js.Patched | backend/src/database/forms.ts:109-112 | an omitted property keeps the stored value; a present one, or null, replaces it |
| Forms.GetFormById | backend/src/database/forms.ts:81-87 | a non-positive id is rejected before any read; otherwise the result is the row with that key, or nothing when there is none |
| Forms.CreateForm | backend/src/database/forms.ts:57-79 | a rejected input leaves the table unchanged; an accepted one appends one row under the next key (name and status trimmed, the optional columns as given or null, created now), which is the row returned and the row read back by its key |
| Forms.GetAllForms | backend/src/database/forms.ts:89-91 | every form exactly once, newest `date_created` first |
| Forms.UpdateForm | backend/src/database/forms.ts:93-145 | a bad id, a failed check or an update with nothing present fails and changes nothing; a failed check with a positive id carries the update validator's own message; success happens exactly when all checks pass; it rewrites only the row with that key, and the result is that row after the update, or nothing when there is no such row |
| Forms.UpdateFormChangesOnlyGiven | backend/src/database/forms.ts:105-131 | after a successful update, omitted columns keep their value, a present null clears a nullable column, name and status are stored trimmed, and `date_updated` is now |
| Forms.EmptyUpdateRejected | backend/src/database/forms.ts:126-128 | an update with nothing present fails with "No form fields to update" and leaves the table as it was |
| Forms.DeleteForm | backend/src/database/forms.ts:147-153 | a non-positive id is rejected with the table unchanged; otherwise exactly the other rows remain and the key no longer finds a row |
| Fields.ValidateJsonString | backend/src/database/fields.ts:26-36 | `options_json` passes exactly when it is undefined, null, or a string that parses as JSON; another type fails with "must be a JSON string", an unparsable string with "must be valid JSON" |
| Fields.ValidateCreate | backend/src/database/fields.ts:38-49 | creation passes exactly when the form id is positive, the question text and answer type are non-blank strings and `options_json` passes; the failures come in that order |
| Fields.ValidateUpdate | backend/src/database/fields.ts:51-69 | an update passes exactly when a given question text and answer type are non-blank and `options_json` passes, failing in that order |
| Fields.GetFieldById | backend/src/database/fields.ts:94-100 | a non-positive id is rejected; otherwise the result is the row with that key or nothing |
| Fields.CreateField | backend/src/database/fields.ts:71-92 | a rejected input changes nothing; an accepted one appends one row under the next key, with trimmed texts and `options_json` verbatim or null, and returns the row read back by its key |
| Fields.GetFieldsByFormId | backend/src/database/fields.ts:102-111 | a non-positive form id is rejected; otherwise exactly the form's fields, in ascending key order |
| Fields.UpdateField | backend/src/database/fields.ts:113-156 | failures change nothing; a failed check with a positive id carries the update validator's own message; success happens exactly when the id is positive, the checks pass and something is present; only the row with that key is rewritten, and it is returned |
| Fields.UpdateFieldChangesOnlyGiven | backend/src/database/fields.ts:125-143 | after a successful update, omitted properties keep their value, a present null clears `options_json`, texts are trimmed, the form link is kept, and `date_updated` is now |
| Fields.EmptyUpdateRejected | backend/src/database/fields.ts:138-140 | an update with nothing present fails with "No field properties to update" and writes nothing |
| Fields.DeleteField | backend/src/database/fields.ts:158-164 | a non-positive id is rejected; otherwise exactly the other rows remain |
| Clients.ValidateEmail | backend/src/database/clients.ts:26-31 | the check passes exactly for the strings the regular expression accepts; otherwise it fails with "email must be a valid email address" |
| Clients.ValidateCreate | backend/src/database/clients.ts:33-53 | creation passes exactly when the name is non-blank, the e-mail is non-blank and its trimmed form matches the regular expression, a non-null form id is positive, and the response date is non-blank; each failure has its own message, in that order |
| Clients.ValidateUpdate | backend/src/database/clients.ts:55-90 | an update passes exactly when every present property satisfies its creation rule, the e-mail checked after trimming; it fails first on the name, then on an empty e-mail, then on an e-mail the regular expression rejects, then with "If provided, form_id must be a positive integer" on a form id that is not a positive integer or null, then with "If provided, date_responded must be a non-empty string" |
| Clients.GetClientById | backend/src/database/clients.ts:117-125 | a non-positive id is rejected; otherwise the row with that key or nothing |
| Clients.CreateClient | backend/src/database/clients.ts:92-115 | a rejected input changes nothing; an accepted one appends one row under the next key (name, e-mail and date trimmed, form id or null) and returns the row read back by its key |
| Clients.GetClientsByFormId | backend/src/database/clients.ts:127-138 | a non-positive form id is rejected; otherwise exactly the form's clients, each once, latest `date_responded` first |
| Clients.GetClientByEmailAndFormId | backend/src/database/clients.ts:140-154 | a blank e-mail, then a bad form id, is rejected; otherwise it finds a client with the trimmed e-mail (matched exactly, case included) and the form id, or nothing when there is no such client |
| Clients.UpdateClient | backend/src/database/clients.ts:156-201 | failures change nothing; a failed check with a positive id carries the update validator's own message; success happens exactly when the id is positive, the checks pass and something is present; only that row is rewritten |
| Clients.UpdateClientChangesOnlyGiven | backend/src/database/clients.ts:168-187 | after a successful update, omitted properties keep their value, name, e-mail and response date are stored trimmed, a stored e-mail matches the regular expression, and a present form id is stored while a present null clears it |
| Clients.EmptyUpdateRejected | backend/src/database/clients.ts:185-187 | an update with nothing present fails with "No client fields to update" and writes nothing |
| Clients.DeleteClient | backend/src/database/clients.ts:203-209 | a non-positive id is rejected; otherwise exactly the other rows remain |
| Responses.ValidateCreate | backend/src/database/responses.ts:21-34 | creation passes exactly when both ids are positive and the text is non-blank, failing on the client id, then the field id, then the text |
| Responses.ValidateUpdate | backend/src/database/responses.ts:36-45 | an update passes exactly when a present text is a non-blank string |
| Responses.GetResponseById | backend/src/database/responses.ts:67-78 | a non-positive id is rejected; otherwise the row with that key or nothing |
| Responses.CreateResponse | backend/src/database/responses.ts:47-65 | a rejected input changes nothing; an accepted one appends exactly one row with the trimmed text under the next key, and that row is returned and can be read back |
| Responses.GetResponsesByClientId | backend/src/database/responses.ts:80-91 | exactly the client's responses, in ascending key order |
| Responses.GetResponsesByFieldId | backend/src/database/responses.ts:93-104 | exactly the question's responses, in ascending key order |
| Responses.UpdateResponse | backend/src/database/responses.ts:106-139 | success happens exactly when the id is positive and the text is present and non-blank; a present text that fails the check carries the validator's message ("If provided, response_text must be a non-empty string"); an omitted text fails with "No response fields to update"; failures write nothing; on success the table has the same rows in the same order, the row with that id with only its text replaced by the trimmed text and every other row unchanged; the row comes back with the trimmed text |
| Responses.DeleteResponse | backend/src/database/responses.ts:141-147 | a non-positive id is rejected; otherwise exactly the other rows remain |
| PublicSubmission.HandleError | backend/src/routes/publicForms.ts:101-108 | a `DatabaseError` becomes 400 with its own message; anything else becomes 500 "Something went wrong" |
| PublicSubmission.WrappedFailureIs400 | backend/src/routes/publicForms.ts:102-105 | a store failure wrapped by `toDatabaseError` always reaches the 400 branch, carrying the "Database query failed during" message |
| PublicSubmission.IsPublishedSpelling | backend/src/routes/publicForms.ts:24 | a status counts as published exactly when it spells "published" with any mix of letter cases |
| PublicSubmission.ShapeError | backend/src/routes/publicForms.ts:28-41 | the body passes exactly when the name and e-mail are non-blank strings, the trimmed e-mail matches the regular expression, and `answers` is a non-null object (arrays included) |
| PublicSubmission.Render | backend/src/routes/publicForms.ts:73-79 | the text stored for an answer has no white space at either end |
| PublicSubmission.TrimmedStrings | backend/src/routes/publicForms.ts:78 | entry i of an array answer becomes `String(entry).trim()`, one string per entry |
| PublicSubmission.DropEmpty | backend/src/routes/publicForms.ts:78 | `filter(Boolean)`: a string is in the result exactly when it is a non-empty entry of the input |
| PublicSubmission.DropEmptySingle | backend/src/routes/publicForms.ts:78 | a single entry is kept exactly when it is not empty |
| PublicSubmission.DropEmptyAppend | backend/src/routes/publicForms.ts:78 | filtering two lists one after the other is filtering each, so the kept entries keep their order and repetitions |
| PublicSubmission.KeysWhere | backend/src/routes/publicForms.ts:50-60 | the ids selected are exactly the keys of the rows satisfying the condition |
| PublicSubmission.Missing | backend/src/routes/publicForms.ts:49-62 | the reported ids are exactly the form's questions whose answer is missing; the list is empty exactly when none is; it is strictly ascending when the fields are in key order |
| PublicSubmission.KeysWhereIncreasing | backend/src/routes/publicForms.ts:50-60 | keys selected from rows in ascending key order come out strictly increasing |
| PublicSubmission.AnsweredRendersNonEmpty | backend/src/routes/publicForms.ts:72-84 | an answer the completeness filter accepts renders as a non-empty text, so the post-commit "Answer required" guard cannot fire |
| PublicSubmission.RenderExample | backend/src/routes/publicForms.ts:73-79 | the array answer `["A", " ", " B"]` is stored as "A, B" |
| PublicSubmission.RenderNotArray | backend/src/routes/publicForms.ts:75-79 | a string answer is stored trimmed; `undefined` and `null` as ""; any other non-array value as its string form, trimmed |
| PublicSubmission.TrimmedStringsAppend | backend/src/routes/publicForms.ts:77 | converting and trimming two arrays one after the other is converting each |
| PublicSubmission.EntriesAppend | backend/src/routes/publicForms.ts:77-78 | the surviving entries of two arrays one after the other are those of each, in order |
| PublicSubmission.RenderEmptyIffNoEntries | backend/src/routes/publicForms.ts:77-78 | an array answer renders as "" exactly when no entry survives conversion, trimming and the empty filter |
| PublicSubmission.RenderArraySingle | backend/src/routes/publicForms.ts:77-78 | an array of one entry is stored as that entry converted to a string and trimmed; an empty array as "" |
| PublicSubmission.RenderArrayAppend | backend/src/routes/publicForms.ts:77-78 | the text stored for an array splits at any point into the texts of the two halves joined by ", ", where a half that renders empty contributes nothing, not even the separator |
| PublicSubmission.JoinOfTwo | backend/src/routes/publicForms.ts:78 | two parts joined are the first part, the separator, then the second part |
| PublicSubmission.ExpectedResponsesRows | backend/src/routes/publicForms.ts:72-90 | row i of the batch answers question i, for client `clientId`, under key `next + i` |
| PublicSubmission.SavedAfterFirst | backend/src/routes/publicForms.ts:72-90 | saving the first answer and then the rest is saving the whole batch |
| PublicSubmission.SaveResponses | backend/src/routes/publicForms.ts:72-90 | the loop's failure is always a 400; it keeps the table valid; when every answer text is usable, it completes and appends exactly one row per question, in question order |
| PublicSubmission.Commit | backend/src/routes/publicForms.ts:64-95 | the commit never touches forms or questions, replies 201 or 400, and keeps the store valid |
| PublicSubmission.Submit | backend/src/routes/publicForms.ts:12-99 | each early rejection leaves the store unchanged: 400 for a bad id, 404 for a missing form, 400 for an unpublished one, 400 with the first shape message, 409 for a repeat respondent, 400 with the missing ids; forms and questions are never written |
| PublicSubmission.ClientCreated | backend/src/routes/publicForms.ts:64-70 | the client the handler creates is the trimmed name and e-mail, the form and the clock reading, under the next client key |
| PublicSubmission.ClientInputPasses | backend/src/routes/publicForms.ts:64-70 | the client the handler builds from an accepted body passes `createClient`'s checks |
| PublicSubmission.NoEarlierResponse | backend/src/routes/publicForms.ts:42-47 | when no client of the form has the e-mail, the duplicate lookup finds none |
| PublicSubmission.FormFieldsAnswered | backend/src/routes/publicForms.ts:49-84 | once completeness passes, every question of the form has a usable (non-empty, trimmed) answer text |
| PublicSubmission.CommitSucceeds | backend/src/routes/publicForms.ts:64-95 | with usable inputs the commit replies 201 with the new client's key, and the store gains exactly the client row and the expected response rows |
| PublicSubmission.SubmitReachesCommit | backend/src/routes/publicForms.ts:15-62 | a submission passing every check reaches the commit with the form's questions in key order |
| PublicSubmission.PublishedFormFound | backend/src/routes/publicForms.ts:20-26 | an accepting form is found by its key and reads as published |
| PublicSubmission.FormFieldsListed | backend/src/routes/publicForms.ts:49 | for a positive form id the question listing succeeds with the form's questions in key order |
| PublicSubmission.CompleteNothingMissing | backend/src/routes/publicForms.ts:50-62 | when every question of the form has a non-missing answer, no id is reported missing |
| PublicSubmission.SubmitCommits | backend/src/routes/publicForms.ts:12-95 | an admissible submission gets 201 with the new client's key, and the store becomes exactly `Committed`: one client, then one response per question in question order |
| PublicSubmission.SubmitRejects | backend/src/routes/publicForms.ts:15-62 | a submission that fails any check before the first write changes nothing and never gets 201 |
| PublicSubmission.SubmitAcceptsExactlyAdmissible | backend/src/routes/publicForms.ts:12-99 | the handler answers 201 exactly for the admissible submissions |
| FieldKinds.Normalise | frontend/src/pages/PublicForm.tsx:79-82 | "checkbox" and "radio" are kept; every other answer type reads as text |
| FieldKinds.NormaliseName | frontend/src/pages/FormEditor.tsx:21 | normalising each editor type's own word gives back that type |
| FormEditor.Merge | frontend/src/pages/FormEditor.tsx:47 | every property the patch carries replaces the field's own; the others are kept |
| FormEditor.MapMatching | frontend/src/pages/FormEditor.tsx:46-48 | the list keeps its length and order; only questions with the id are rewritten |
| FormEditor.UpdateField | frontend/src/pages/FormEditor.tsx:45-49 | only the questions with the id change, each merged with the patch |
| FormEditor.SetFieldQuestion | frontend/src/pages/FormEditor.tsx:51-54 | only the matching question's text changes |
| FormEditor.OptionsFor | frontend/src/pages/FormEditor.tsx:61 | a text question has no options; a choice question keeps its options, or gets one when it had none |
| FormEditor.SetFieldType | frontend/src/pages/FormEditor.tsx:56-67 | the matching question takes the new type and the options that type keeps; the others are unchanged |
| FormEditor.SetFieldOption | frontend/src/pages/FormEditor.tsx:69-81 | only option `index` of the matching question changes (none for a negative index); the list, the other questions and the other options are unchanged |
| FormEditor.ReplaceOption | frontend/src/pages/FormEditor.tsx:74-76 | assigning option `index` keeps the length and every other option |
| FormEditor.AddOption | frontend/src/pages/FormEditor.tsx:83-89 | the matching question gains one empty option at the end |
| FormEditor.Without | frontend/src/pages/FormEditor.tsx:95 | dropping a position inside the list shifts the later options down by one; a position outside it changes nothing |
| FormEditor.RemainingOptions | frontend/src/pages/FormEditor.tsx:95-96 | the options after a removal are never empty; a single empty option replaces the last one removed |
| FormEditor.RemoveOption | frontend/src/pages/FormEditor.tsx:91-99 | only the matching question's options change, to the remaining options |
| FormEditor.AddField | frontend/src/pages/FormEditor.tsx:101-103 | exactly one new empty question is appended; the others are kept in order |
| FormEditor.DropId | frontend/src/pages/FormEditor.tsx:106 | a question remains exactly when it was there and has another id |
| FormEditor.DropIdSingle | frontend/src/pages/FormEditor.tsx:106 | a single question is kept exactly when its id differs |
| FormEditor.DropIdAppend | frontend/src/pages/FormEditor.tsx:106 | filtering two lists one after the other is filtering each, so the kept questions keep their order and repetitions |
| FormEditor.RemoveField | frontend/src/pages/FormEditor.tsx:105-107 | a list of one question is kept as it is; otherwise the list is filtered by id as `DropId` does, so exactly the questions with other ids remain, in order |
| FormEditor.InitialGood | frontend/src/pages/FormEditor.tsx:30-43 | the editor starts with exactly one question and in a good state |
| FormEditor.DropIdKeepsOne | frontend/src/pages/FormEditor.tsx:106 | with distinct ids, removing one id from two or more questions leaves at least one |
| FormEditor.InPlaceKeepsIds | frontend/src/pages/FormEditor.tsx:45-99 | an edit that keeps every question's id in place keeps the ids distinct |
| FormEditor.SharedIdEmptiesList | frontend/src/pages/FormEditor.tsx:105-107 | two questions sharing an id are both removed, so the list becomes empty |
| FormEditor.DropIdUnique | frontend/src/pages/FormEditor.tsx:106 | removing questions keeps the remaining ids distinct |
| FormEditor.StepKeepsGood | frontend/src/pages/FormEditor.tsx:45-107 | every edit keeps the list non-empty, the ids distinct, and an option on every choice question |
| FormEditor.RunKeepsGood | frontend/src/pages/FormEditor.tsx:43-107 | any run of edits keeps the editor's invariant |
| FormEditor.EditorNeverEmpty | frontend/src/pages/FormEditor.tsx:43-107 | starting from the initial question, the list is never empty, whatever the user does |
| PublicFormPage.StringItems | frontend/src/pages/PublicForm.tsx:88-90 | exactly the string entries of a parsed array are kept |
| PublicFormPage.StringItemsSingle | frontend/src/pages/PublicForm.tsx:88-90 | a single entry is kept exactly when it is a string |
| PublicFormPage.StringItemsAppend | frontend/src/pages/PublicForm.tsx:88-90 | the string entries of two arrays one after the other are those of each, in order and with repetitions |
| PublicFormPage.ParseOptions | frontend/src/pages/PublicForm.tsx:83-96 | no options for a null or empty `options_json`, a parse failure, or a non-array; the string entries of a parsed array otherwise |
| PublicFormPage.ToViewField | frontend/src/pages/PublicForm.tsx:76-97 | the id and question are kept, the type is normalised, and the options are those `ParseOptions` gives, so every option is a string entry of the parsed JSON array |
| PublicFormPage.ById | frontend/src/pages/PublicForm.tsx:99-104 | building a map over the questions gives exactly the questions' ids as keys |
| PublicFormPage.ByIdLastWins | frontend/src/pages/PublicForm.tsx:99-104 | a question that no later question shares its id with keeps its own value |
| PublicFormPage.ByIdFromSomeField | frontend/src/pages/PublicForm.tsx:99-104 | every value in the map comes from a question with that id |
| PublicFormPage.InitialAnswers | frontend/src/pages/PublicForm.tsx:99-104 | the starting answers have exactly the questions' ids as keys |
| PublicFormPage.InitialAnswersDistinct | frontend/src/pages/PublicForm.tsx:99-104 | with distinct ids, a checkbox question starts with no option checked and any other question with empty text |
| PublicFormPage.FreshAnswersUnanswered | frontend/src/pages/PublicForm.tsx:99-104 | every question starts unanswered, whatever ids it shares |
| PublicFormPage.FreshPageSubmitsOnlyWhenEmpty | frontend/src/pages/PublicForm.tsx:137-155 | with a valid name and e-mail, a freshly loaded page passes validation exactly when the form has no questions |
| PublicFormPage.Characters | frontend/src/pages/PublicForm.tsx:128 | spreading a string gives its characters as one-character strings, in order |
| PublicFormPage.RemoveAll | frontend/src/pages/PublicForm.tsx:130 | unchecking keeps exactly the entries that differ from the option |
| PublicFormPage.RemoveAllSingle | frontend/src/pages/PublicForm.tsx:130 | a single checked option is kept exactly when it is not the one removed |
| PublicFormPage.RemoveAllAppend | frontend/src/pages/PublicForm.tsx:130 | unchecking from two lists one after the other is unchecking from each, so the other options keep their order and repetitions |
| PublicFormPage.RemoveAllIdempotent | frontend/src/pages/PublicForm.tsx:130 | unchecking an option twice is unchecking it once |
| PublicFormPage.UncheckUndoesCheck | frontend/src/pages/PublicForm.tsx:128-130 | unchecking an option cancels any number of earlier checks of it |
| PublicFormPage.SetCheckboxOption | frontend/src/pages/PublicForm.tsx:123-135 | checking appends the option (duplicates allowed) to the checked list, or to the characters of typed text spread into one-character strings, or to [] when there is no answer yet; unchecking removes all its occurrences, and unchecking with no answer yet stores []; and other questions' answers are untouched; the update fails exactly when unchecking against typed text |
| PublicFormPage.SetAnswer | frontend/src/pages/PublicForm.tsx:119-121 | the question's answer becomes the value, and every other question's answer is kept |
| PublicFormPage.AnswerSettersAnswer | frontend/src/pages/PublicForm.tsx:119-147 | typing non-blank text answers a non-checkbox question; checking any option answers a checkbox question |
| PublicFormPage.FirstUnanswered | frontend/src/pages/PublicForm.tsx:143-153 | nothing is returned exactly when every question is answered; otherwise the first unanswered question in page order |
| PublicFormPage.ShiftFirstUnanswered | frontend/src/pages/PublicForm.tsx:143-153 | after an answered first question, the first unanswered question of the rest is the first unanswered question of the whole list |
| PublicFormPage.Validate | frontend/src/pages/PublicForm.tsx:137-155 | nothing is returned exactly when the name is non-blank, the e-mail is non-blank and matches the regular expression, and every question is answered; otherwise the first failing check's message, in that order, naming the first unanswered question |
| PublicFormPage.PayloadText | frontend/src/pages/PublicForm.tsx:170-175 | a checkbox question with options checked is posted as their join with ", ", in the order they were checked; typed text is sent as typed; anything else is "" |
| PublicFormPage.Payload | frontend/src/pages/PublicForm.tsx:168-176 | the posted answers have exactly the questions' ids as keys |
| PublicFormPage.PayloadDistinct | frontend/src/pages/PublicForm.tsx:168-176 | with distinct ids, each question's own answer text is what is posted under its id |
| PublicFormPage.PayloadObject | frontend/src/pages/PublicForm.tsx:177-181 | the posted `answers` object has a string under exactly the payload's keys |
| PublicFormPage.ValidatedBodyHasShape | frontend/src/pages/PublicForm.tsx:137-181 | a body the page lets through passes the server's shape checks |
| PublicFormPage.JoinKeepsChar | frontend/src/pages/PublicForm.tsx:172 | joining keeps every character of every part |
| PublicFormPage.JoinNotBlank | frontend/src/pages/PublicForm.tsx:172 | the join of parts including a non-blank one is not blank |
| PublicFormPage.AnsweredTextNotBlank | frontend/src/pages/PublicForm.tsx:168-176 | an answered question, with a non-blank checked option when it is a checkbox question, is posted as non-blank text |
| PublicFormPage.PostedNotMissing | frontend/src/pages/PublicForm.tsx:168-181 | such a question's posted answer is not missing for the server's completeness filter |
| PublicFormPage.ValidatedPayloadComplete | frontend/src/pages/PublicForm.tsx:137-181 | with distinct ids and a non-blank option checked on every checkbox question, no question the page lets through is missing for the server |
| PublicFormPage.BlankOptionPassesPageOnly | frontend/src/pages/PublicForm.tsx:144-147 | a checkbox question whose only checked option is blank passes the page's validation, but its posted answer is missing for the server |
| PublicFormPage.BlankOptionAnswered | frontend/src/pages/PublicForm.tsx:145-148 | a checkbox question with only a blank option checked counts as answered on the page |
| PublicFormPage.BlankOptionPostedEmpty | frontend/src/pages/PublicForm.tsx:171-172 | that question is posted as "", which the server's completeness filter reports missing |

## Left out

- Store plumbing: the SQLite driver, the schema file, the WAL setting and the SQL text are not modelled. Tables are sequences of rows plus a key counter, and only the effect of each statement is modelled. Keys are never reused, as with `AUTOINCREMENT` (the schema that would settle this is not part of this model).
- Driver failures are not modelled. Every driver call succeeds. `toDatabaseError` and the 400/500 mapping are modelled on their own (`PublicSubmission.WrappedFailureIs400`).
- Concurrency: requests run one after another. The check-then-act race between the duplicate lookup and the client insert cannot arise in a sequential model.
- The clock (`CURRENT_TIMESTAMP`, `new Date().toISOString()`), `JSON.parse` and `crypto.randomUUID()` are parameters: a `now` string, a `parse` function returning `None` where `JSON.parse` throws, and fresh ids supplied by the caller.
- JavaScript numbers are integers. `Number(...)` coercion and non-integer ids are not modelled; only the positivity check is.
- White space is the fixed ECMAScript set; `toLowerCase` is modelled on ASCII letters only, which is exact for the comparison with "published".
- A present input property of another JavaScript type than the column's is `Js.WrongType`. The `typeof` and `Number.isInteger` checks reject it like `null` where they apply. `options_json` and the submission body keep full JavaScript values.
- Forms.CreateForm, Forms.UpdateForm: a `description`, `date_published` or `date_closed` of another type is stored as null. The code runs no type check on these three: it hands a number to the driver as given and the driver refuses a boolean or an object. A column of type `Option<string>` cannot hold either outcome.
- Objects keep only their integer-named properties, the only ones the code reads.
- The request body of the submission handler is taken as given. `req.body ?? {}` on a missing body is the same as a body whose three properties are undefined.
- Ordering ties: `ORDER BY ... DESC` leaves the order of equal keys open. `Tables.SortDesc` fixes one order, so results that differ only in the order of rows with equal dates are not distinguished.
- A failure inside the commit phase (a response row rejected after the client row was written) leaves the earlier rows in place, as the code does. The model returns that partial store; it states no property about it beyond validity.
- Messages are values of the `Messages.Message` datatype. `Messages.Wording` gives each one's exact text, but no lemma is stated about the text itself.
- The CRUD routers (`backend/src/routes/{forms,fields,clients,responses}.ts`) repeat the repository checks and are not modelled. One of them turns an omitted `form_id` into null on every client PATCH.
- React rendering, effects, toasts, theme, data fetching, and the loading and not-found states of both pages are not modelled. The public page's own published check before showing a form is one of these.
- FormEditor.SetFieldOption: it requires the index to be below the question's option count. Assigning past the end of a JavaScript array leaves holes, which a sequence of strings cannot hold. The page only edits options it displays.
- FormEditor.Step: new question ids are assumed fresh (`FreshId`), as `randomUUID` makes them; the invariant lemmas rely on it.
- PublicFormPage.SetCheckboxOption: when the question holds typed text, checking spreads the text into characters and unchecking throws, because `filter` is not a string method. The model returns `None` for the throw.
- PublicSubmission.Render: its own contract says only that the stored text is trimmed. What the text is, is stated by `RenderNotArray` for strings and other scalars, by `RenderArraySingle` and `RenderArrayAppend` for arrays, and by `RenderExample` and `AnsweredRendersNonEmpty`.
- Logging: the handler's `console.log` on every request and `handleError`'s `console.error` of each failure are not modelled, as they change neither the reply nor the store.
- `createField(overrides)` is modelled without overrides (`FormEditor.NewField`), the only way the page calls it.
