/** The public submission workflow of `routes/publicForms.ts`: admission,
    shape validation, duplicate check, completeness check, then the commit of
    one client row followed by one response row per question. */
module PublicSubmission {
  import opened Wrappers
  import opened Text
  import opened Email
  import opened Js
  import opened Errors
  import opened Messages
  import opened Tables
  import Forms
  import Fields
  import Clients
  import Responses

  /** The whole store: one table per entity. */
  datatype Store = Store(
    forms: Table<Forms.FormData>,
    fields: Table<Fields.FieldData>,
    clients: Table<Clients.ClientData>,
    responses: Table<Responses.ResponseData>)

  ghost predicate ValidStore(s: Store) {
    Valid(s.forms) && Valid(s.fields) && Valid(s.clients) && Valid(s.responses)
  }

  /** The JSON body of a reply. */
  datatype Payload =
    | ErrorPayload(error: Message)
    | MissingPayload(error: Message, missing: seq<int>)
    | CreatedPayload(message: Message, clientId: int)

  /** An HTTP status and JSON body. */
  datatype Reply = Reply(status: int, payload: Payload)

  /** The request body's three properties, as whatever JavaScript values the
      client sent (`Undefined` when missing). */
  datatype Body = Body(name: JsValue, email: JsValue, answers: JsValue)

  /** The reply, and the store as the request leaves it. */
  datatype Submitted = Submitted(reply: Reply, store: Store)

  /** `handleError`: a `DatabaseError` becomes 400 with its message, anything
      else a 500 with a fixed message. */
  function HandleError(error: Thrown): (r: Reply)
    ensures IsDatabaseError(error) ==> r == Reply(400, ErrorPayload(error.error.message))
    ensures !IsDatabaseError(error) ==> r == Reply(500, ErrorPayload(SomethingWentWrong))
  {
    if IsDatabaseError(error) then Reply(400, ErrorPayload(error.error.message))
    else Reply(500, ErrorPayload(SomethingWentWrong))
  }

  /** A store failure wrapped by `toDatabaseError` is a `DatabaseError`, so it
      reaches the 400 branch with the wrapper's message, never the 500 one. */
  lemma WrappedFailureIs400(operation: string, error: Thrown)
    ensures HandleError(Raised(ToDatabaseError(operation, error))).status == 400
    ensures !IsDatabaseError(error) ==>
              HandleError(Raised(ToDatabaseError(operation, error))).payload
              == ErrorPayload(QueryFailed(operation))
  {
  }

  /** `status.toLowerCase() === "published"`. */
  predicate IsPublished(status: string) {
    ToLowerAscii(status) == "published"
  }

  /** A status is published exactly when it spells "published" in any mix of cases. */
  lemma IsPublishedSpelling(status: string)
    ensures IsPublished(status) <==>
              |status| == 9 && forall i :: 0 <= i < 9 ==> status[i] == "published"[i] || status[i] == "PUBLISHED"[i]
  {
    if IsPublished(status) {
      forall i | 0 <= i < 9
        ensures status[i] == "published"[i] || status[i] == "PUBLISHED"[i]
      {
        assert LowerAscii(status[i]) == "published"[i];
      }
    }
    if |status| == 9 && forall i :: 0 <= i < 9 ==> status[i] == "published"[i] || status[i] == "PUBLISHED"[i] {
      assert ToLowerAscii(status) == "published";
    }
  }

  /** The body checks, in the handler's order; `None` when all pass. */
  function ShapeError(body: Body): (r: Option<Message>)
    ensures r.None? <==>
              && body.name.Str? && !IsBlank(body.name.s)
              && body.email.Str? && !IsBlank(body.email.s)
              && RegexAccepts(Trim(body.email.s))
              && IsObject(body.answers)
  {
    ValidEmailIsRegex(if body.email.Str? then Trim(body.email.s) else "");
    if !body.name.Str? || IsBlank(body.name.s) then Some(NameRequired)
    else if !body.email.Str? || IsBlank(body.email.s) then Some(SubmitterEmailRequired)
    else if !ValidEmail(Trim(body.email.s)) then Some(SubmitterEmailInvalid)
    else if !IsObject(body.answers) then Some(AnswersRequired)
    else None
  }

  /** The completeness filter: an answer is missing when it is absent or null,
      a blank string, an array whose every entry is blank once converted to a
      string (the empty array included), or a value of any other type. */
  predicate IsMissing(v: JsValue) {
    match v
    case Str(s) => IsBlank(s)
    case Arr(items) => forall i :: 0 <= i < |items| ==> IsBlank(ToJsString(items[i]))
    case _ => true
  }

  /** Strictly increasing integers. */
  ghost predicate Increasing(r: seq<int>) {
    forall i, j :: 0 <= i < j < |r| ==> r[i] < r[j]
  }

  /** The keys of the rows that `p` selects, in row order. */
  function KeysWhere<D>(rows: seq<Row<D>>, p: int -> bool): (r: seq<int>)
    ensures forall id :: id in r ==> p(id) && HasKey(rows, id)
    ensures forall x :: x in rows && p(x.id) ==> x.id in r
  {
    if |rows| == 0 then []
    else
      var rest := KeysWhere(rows[1..], p);
      assert forall x :: x in rows[1..] ==> x in rows;
      if p(rows[0].id) then [rows[0].id] + rest else rest
  }

  /** Selecting keys keeps the table's key order. */
  lemma {:induction false} KeysWhereIncreasing<D>(rows: seq<Row<D>>, p: int -> bool)
    requires Ascending(rows)
    ensures Increasing(KeysWhere(rows, p))
  {
    if |rows| > 0 {
      KeysWhereIncreasing(rows[1..], p);
      if p(rows[0].id) {
        assert forall x :: x in rows[1..] ==> rows[0].id < x.id;
        KeysWhereAbove(rows[1..], p, rows[0].id);
        PrependIncreasing(rows[0].id, KeysWhere(rows[1..], p));
      }
    }
  }

  /** Selected keys are keys of the rows, so they share any lower bound. */
  lemma KeysWhereAbove<D>(rows: seq<Row<D>>, p: int -> bool, lo: int)
    requires forall x :: x in rows ==> lo < x.id
    ensures forall id :: id in KeysWhere(rows, p) ==> lo < id
  {
    forall id | id in KeysWhere(rows, p)
      ensures lo < id
    {
      var x :| x in rows && x.id == id;
    }
  }

  lemma PrependIncreasing(h: int, r: seq<int>)
    requires Increasing(r)
    requires forall id :: id in r ==> h < id
    ensures Increasing([h] + r)
  {
    forall i, j | 0 <= i < j < |[h] + r|
      ensures ([h] + r)[i] < ([h] + r)[j]
    {
      assert ([h] + r)[j] == r[j - 1] && r[j - 1] in r;
      if i > 0 {
        assert ([h] + r)[i] == r[i - 1];
      }
    }
  }

  /** The keys of the fields whose answer is missing, in field order: the
      `missing` list of the 400 reply. */
  function Missing(fields: seq<Fields.Field>, answers: JsValue): (r: seq<int>)
    ensures forall id :: id in r ==> IsMissing(Get(answers, id)) && HasKey(fields, id)
    ensures forall f :: f in fields && IsMissing(Get(answers, f.id)) ==> f.id in r
    ensures r == [] <==> forall f :: f in fields ==> !IsMissing(Get(answers, f.id))
    ensures Ascending(fields) ==> Increasing(r)
  {
    var r := KeysWhere(fields, k => IsMissing(Get(answers, k)));
    assert Ascending(fields) ==> Increasing(r) by {
      if Ascending(fields) {
        KeysWhereIncreasing(fields, k => IsMissing(Get(answers, k)));
      }
    }
    assert r != [] ==> exists f :: f in fields && IsMissing(Get(answers, f.id)) by {
      if r != [] {
        assert r[0] in r;
        var f :| f in fields && f.id == r[0];
      }
    }
    r
  }

  /** `.filter(Boolean)` on strings: the non-empty ones, in order. */
  function DropEmpty(parts: seq<string>): (r: seq<string>)
    ensures forall i :: 0 <= i < |r| ==> r[i] != [] && r[i] in parts
    ensures (exists i :: 0 <= i < |parts| && parts[i] != []) ==> |r| > 0
    ensures forall x :: x in r <==> x in parts && x != []
  {
    if |parts| == 0 then []
    else if parts[0] == [] then
      assert forall i :: 1 <= i < |parts| ==> parts[i] == parts[1..][i - 1];
      DropEmpty(parts[1..])
    else [parts[0]] + DropEmpty(parts[1..])
  }

  /** One entry survives exactly when it is not empty. */
  lemma DropEmptySingle(x: string)
    ensures DropEmpty([x]) == if x == [] then [] else [x]
  {
    assert [x][1..] == [];
  }

  /** Dropping the empty entries of two lists one after the other is dropping
      them from each: the survivors keep their order and their repetitions. */
  lemma {:induction false} DropEmptyAppend(a: seq<string>, b: seq<string>)
    ensures DropEmpty(a + b) == DropEmpty(a) + DropEmpty(b)
  {
    if |a| == 0 {
      assert a + b == b;
    } else {
      assert (a + b)[1..] == a[1..] + b;
      DropEmptyAppend(a[1..], b);
    }
  }

  /** `.map((x) => String(x).trim())`. */
  function TrimmedStrings(items: seq<JsValue>): (r: seq<string>)
    ensures |r| == |items|
    ensures forall i :: 0 <= i < |items| ==> r[i] == Trim(ToJsString(items[i]))
  {
    seq(|items|, i requires 0 <= i < |items| => Trim(ToJsString(items[i])))
  }

  /** The `response_text` derived from one answer: a string trimmed; an array's
      entries converted to strings, trimmed, the empty ones dropped, the rest
      joined with ", "; anything else converted to a string and trimmed. */
  function Render(raw: JsValue): (r: string)
    ensures IsTrimmed(r)
  {
    match raw
    case Str(s) => Trim(s)
    case Arr(items) =>
      var parts := DropEmpty(TrimmedStrings(items));
      var r := Join(parts, ", ");
      assert |parts| > 0 ==> r[0] == parts[0][0];
      assert |parts| > 0 ==> r[|r| - 1] == parts[|parts| - 1][|parts[|parts| - 1]| - 1];
      r
    case Undefined => Trim("")
    case Null => Trim("")
    case _ => Trim(ToJsString(raw))
  }

  /** An answer that is not an array: a string is stored trimmed, `undefined`
      and `null` as "", and any other value as its string form, trimmed. */
  lemma RenderNotArray(v: JsValue)
    requires !v.Arr?
    ensures v.Str? ==> Render(v) == Trim(v.s)
    ensures v.Undefined? || v.Null? ==> Render(v) == []
    ensures !v.Str? && !v.Undefined? && !v.Null? ==> Render(v) == Trim(ToJsString(v))
  {
    assert AllSpace("");
  }

  /** Once the completeness filter passes an answer, its rendering is not
      empty: the handler's post-commit "Answer required" guard cannot fire. */
  lemma AnsweredRendersNonEmpty(v: JsValue)
    requires !IsMissing(v)
    ensures Render(v) != []
  {
    match v
    case Str(s) =>
    case Arr(items) =>
      var i :| 0 <= i < |items| && !IsBlank(ToJsString(items[i]));
      assert TrimmedStrings(items)[i] != [];
  }

  /** The handler's own example: blank entries vanish and the rest are
      trimmed and joined, so `["A", " ", " B"]` is stored as "A, B". */
  lemma RenderExample()
    ensures Render(Arr([Str("A"), Str(" "), Str(" B")])) == "A, B"
  {
    var items := [Str("A"), Str(" "), Str(" B")];
    RenderArray(items);
    ExampleEntries(items);
    JoinExample();
  }

  /** The example's entries trimmed, with the empty one dropped. */
  lemma ExampleEntries(items: seq<JsValue>)
    requires items == [Str("A"), Str(" "), Str(" B")]
    ensures DropEmpty(TrimmedStrings(items)) == ["A", "B"]
  {
    TrimExamples();
    var trimmed := TrimmedStrings(items);
    assert trimmed == ["A", "", "B"];
    assert trimmed[1..] == ["", "B"];
    assert trimmed[1..][1..] == ["B"];
    assert DropEmpty(["B"]) == ["B"] + DropEmpty([]);
  }

  /** An array answer is rendered by joining its trimmed, non-empty entries. */
  lemma RenderArray(items: seq<JsValue>)
    ensures Render(Arr(items)) == Join(DropEmpty(TrimmedStrings(items)), ", ")
  {
  }

  /** An array of one entry is rendered as that entry converted to a string
      and trimmed; an empty array as "". */
  lemma RenderArraySingle(x: JsValue)
    ensures Render(Arr([x])) == Trim(ToJsString(x))
    ensures Render(Arr([])) == []
  {
    var t := Trim(ToJsString(x));
    assert TrimmedStrings([x]) == [t];
    DropEmptySingle(t);
    RenderEmptyIffNoEntries([x]);
    RenderEmptyIffNoEntries([]);
    assert Join([t], ", ") == t;
  }

  /** The rendering of an array splits at any point: the renderings of the two
      halves joined by ", ", where a half that renders empty contributes
      nothing, not even the separator. */
  lemma RenderArrayAppend(a: seq<JsValue>, b: seq<JsValue>)
    ensures Render(Arr(a)) == [] ==> Render(Arr(a + b)) == Render(Arr(b))
    ensures Render(Arr(b)) == [] ==> Render(Arr(a + b)) == Render(Arr(a))
    ensures Render(Arr(a)) != [] && Render(Arr(b)) != [] ==>
              Render(Arr(a + b)) == Render(Arr(a)) + ", " + Render(Arr(b))
  {
    EntriesAppend(a, b);
    RenderEmptyIffNoEntries(a);
    RenderEmptyIffNoEntries(b);
    RenderEmptyIffNoEntries(a + b);
    JoinCases(DropEmpty(TrimmedStrings(a)), DropEmpty(TrimmedStrings(b)), ", ");
  }

  /** The surviving entries of two arrays one after the other. */
  lemma EntriesAppend(a: seq<JsValue>, b: seq<JsValue>)
    ensures DropEmpty(TrimmedStrings(a + b)) == DropEmpty(TrimmedStrings(a)) + DropEmpty(TrimmedStrings(b))
  {
    TrimmedStringsAppend(a, b);
    DropEmptyAppend(TrimmedStrings(a), TrimmedStrings(b));
  }

  /** Converting two arrays one after the other. */
  lemma TrimmedStringsAppend(a: seq<JsValue>, b: seq<JsValue>)
    ensures TrimmedStrings(a + b) == TrimmedStrings(a) + TrimmedStrings(b)
  {
    var l, r := TrimmedStrings(a + b), TrimmedStrings(a) + TrimmedStrings(b);
    forall i | 0 <= i < |l|
      ensures l[i] == r[i]
    {
      if i < |a| {
        assert (a + b)[i] == a[i];
      } else {
        assert (a + b)[i] == b[i - |a|];
      }
    }
  }

  /** An array renders empty exactly when none of its entries survives. */
  lemma RenderEmptyIffNoEntries(items: seq<JsValue>)
    ensures Render(Arr(items)) == Join(DropEmpty(TrimmedStrings(items)), ", ")
    ensures Render(Arr(items)) == [] <==> DropEmpty(TrimmedStrings(items)) == []
  {
    var p := DropEmpty(TrimmedStrings(items));
    if p != [] {
      assert p[0] in p;
    }
  }

  /** Joining the example's two surviving entries. */
  lemma JoinExample()
    ensures Join(["A", "B"], ", ") == "A, B"
  {
    JoinOfTwo("A", "B", ", ");
    ExampleSpelling();
  }

  /** Two parts joined are the first, the separator, then the second. */
  lemma JoinOfTwo(a: string, b: string, sep: string)
    ensures Join([a, b], sep) == a + sep + b
  {
    assert [a, b][1..] == [b];
  }

  /** The example's expected text, spelled out. */
  lemma ExampleSpelling()
    ensures "A" + ", " + "B" == "A, B"
  {
  }

  /** Trimming the three entries of the example. */
  lemma TrimExamples()
    ensures Trim("A") == "A" && Trim(" ") == "" && Trim(" B") == "B"
  {
    assert IsTrimmed("A");
    assert AllSpace(" ");
    assert SkipSpace(" B", 0) == 1 by {
      assert IsSpace(" B"[0]) && !IsSpace(" B"[1]);
    }
    assert BackSpace(" B", 1, 2) == 2;
    assert " B"[1..2] == "B";
  }

  /** The text stored for the question with key `k`: its answer rendered. */
  function AnswerText(answers: JsValue): int -> string {
    k => Render(Get(answers, k))
  }

  /** The response rows the commit should append: one per field, in field
      order, with consecutive keys from `next`. */
  function ExpectedResponses(next: int, clientId: int, fields: seq<Fields.Field>, text: int -> string): (r: seq<Responses.Response>)
    ensures |r| == |fields|
    decreases |fields|
  {
    if |fields| == 0 then []
    else [Row(next, Responses.ResponseData(clientId, fields[0].id, text(fields[0].id)))]
         + ExpectedResponses(next + 1, clientId, fields[1..], text)
  }

  /** Row `i` of the batch answers question `i`, under key `next + i`. */
  lemma {:induction false} ExpectedResponsesRows(next: int, clientId: int, fields: seq<Fields.Field>, text: int -> string)
    ensures forall i :: 0 <= i < |fields| ==>
              ExpectedResponses(next, clientId, fields, text)[i]
              == Row(next + i, Responses.ResponseData(clientId, fields[i].id, text(fields[i].id)))
    decreases |fields|
  {
    if |fields| > 0 {
      ExpectedResponsesRows(next + 1, clientId, fields[1..], text);
      var r := ExpectedResponses(next, clientId, fields, text);
      forall i | 1 <= i < |fields|
        ensures r[i] == Row(next + i, Responses.ResponseData(clientId, fields[i].id, text(fields[i].id)))
      {
        assert r[i] == ExpectedResponses(next + 1, clientId, fields[1..], text)[i - 1];
        assert fields[1..][i - 1] == fields[i];
      }
    }
  }

  /** The failure of the commit phase, if any, and the responses table it leaves. */
  datatype Saved = Saved(failure: Option<Reply>, responses: Table<Responses.ResponseData>)

  /** Every question has a usable answer text: a non-empty, trimmed one. */
  ghost predicate AllAnswered(fields: seq<Fields.Field>, text: int -> string) {
    forall f :: f in fields ==> PositiveId(f.id) && text(f.id) != [] && IsTrimmed(text(f.id))
  }

  /** The loop over the form's fields: take each question's answer text,
      abort if it is empty, otherwise create its response. `text` is
      `AnswerText` of the submitted answers. When every question has a
      usable text and the keys are valid, the loop completes and appends
      exactly the expected rows. */
  function SaveResponses(t: Table<Responses.ResponseData>, clientId: int, fields: seq<Fields.Field>, text: int -> string): (out: Saved)
    ensures out.failure.Some? ==> out.failure.value.status == 400
    ensures Valid(t) ==> Valid(out.responses)
    ensures Valid(t) && PositiveId(clientId) && AllAnswered(fields, text) ==>
              out == Saved(None, Table(t.rows + ExpectedResponses(t.nextId, clientId, fields, text), t.nextId + |fields|))
    decreases |fields|
  {
    if |fields| == 0 then
      assert t.rows + [] == t.rows;
      Saved(None, t)
    else
      var f := fields[0];
      if text(f.id) == [] then
        Saved(Some(Reply(400, ErrorPayload(AnswerRequiredFor(f.id)))), t)
      else
        var w := Responses.CreateResponse(t, Responses.CreateInput(clientId, f.id, Present(text(f.id))));
        match w.result
        case Failure(e) => Saved(Some(HandleError(Raised(e))), w.table)
        case Success(_) =>
          var out := SaveResponses(w.table, clientId, fields[1..], text);
          assert Valid(t) && PositiveId(clientId) && AllAnswered(fields, text) ==>
                   out == Saved(None, Table(t.rows + ExpectedResponses(t.nextId, clientId, fields, text), t.nextId + |fields|)) by {
            if Valid(t) && PositiveId(clientId) && AllAnswered(fields, text) {
              assert f in fields;
              assert Trim(text(f.id)) == text(f.id);
              assert forall g :: g in fields[1..] ==> g in fields;
              assert w.table == Table(t.rows + [Row(t.nextId, Responses.ResponseData(clientId, f.id, text(f.id)))], t.nextId + 1);
              assert AllAnswered(fields[1..], text);
              SavedAfterFirst(out, t.rows, t.nextId, w.table, clientId, fields, text);
            }
          }
          out
  }

  /** Saving the first question's row and then the rest is saving the whole batch. */
  lemma SavedAfterFirst(out: Saved, rows: seq<Responses.Response>, next: int, t': Table<Responses.ResponseData>,
                        clientId: int, fields: seq<Fields.Field>, text: int -> string)
    requires |fields| > 0
    requires t' == Table(rows + [Row(next, Responses.ResponseData(clientId, fields[0].id, text(fields[0].id)))], next + 1)
    requires out == Saved(None, Table(t'.rows + ExpectedResponses(t'.nextId, clientId, fields[1..], text), t'.nextId + |fields[1..]|))
    ensures out == Saved(None, Table(rows + ExpectedResponses(next, clientId, fields, text), next + |fields|))
  {
    var head := Row(next, Responses.ResponseData(clientId, fields[0].id, text(fields[0].id)));
    var rest := ExpectedResponses(next + 1, clientId, fields[1..], text);
    assert ExpectedResponses(next, clientId, fields, text) == [head] + rest;
    assert (rows + [head]) + rest == rows + ([head] + rest);
  }

  /** A form with this key exists and is published. */
  ghost predicate FormAccepting(s: Store, formId: int) {
    PositiveId(formId) && exists f :: f in s.forms.rows && f.id == formId && IsPublished(f.data.status)
  }

  /** A client with this (trimmed) e-mail already answered this form. */
  ghost predicate HasResponded(s: Store, formId: int, email: string) {
    exists c :: c in s.clients.rows && Clients.SameRespondent(c.data, email, formId)
  }

  /** Every question of the form has an answer that is not missing. */
  ghost predicate Complete(s: Store, formId: int, answers: JsValue) {
    forall f :: f in s.fields.rows && f.data.formId == formId ==> !IsMissing(Get(answers, f.id))
  }

  /** Everything the handler checks before its first write passes. */
  ghost predicate Admissible(s: Store, formId: int, body: Body) {
    && FormAccepting(s, formId)
    && ShapeError(body).None?
    && !HasResponded(s, formId, body.email.s)
    && Complete(s, formId, body.answers)
  }

  /** The form's questions in key order, as `getFieldsByFormId` lists them. */
  function FormFields(t: Table<Fields.FieldData>, formId: int): seq<Fields.Field> {
    Where(t.rows, (d: Fields.FieldData) => d.formId == formId)
  }

  /** The commit phase: create the client, then its responses, then reply 201. */
  function Commit(s: Store, formId: int, body: Body, fields: seq<Fields.Field>, now: string): (out: Submitted)
    requires body.name.Str? && body.email.Str?
    ensures out.store.forms == s.forms && out.store.fields == s.fields
    ensures out.reply.status in {201, 400}
    ensures ValidStore(s) ==> ValidStore(out.store)
  {
    var input := Clients.CreateInput(Present(Trim(body.name.s)), Present(Trim(body.email.s)), Present(formId), Present(now));
    var w := Clients.CreateClient(s.clients, input);
    var s' := s.(clients := w.table);
    match w.result
    case Failure(e) => Submitted(HandleError(Raised(e)), s')
    case Success(client) =>
      var saved := SaveResponses(s.responses, client.id, fields, AnswerText(body.answers));
      var s'' := s'.(responses := saved.responses);
      match saved.failure
      case Some(reply) => Submitted(reply, s'')
      case None => Submitted(Reply(201, CreatedPayload(ThankYou, client.id)), s'')
  }

  /** The `POST /api/public/forms/:id/submit` handler. `now` is the clock's
      reading, `new Date().toISOString()`. */
  function Submit(s: Store, formId: int, body: Body, now: string): (out: Submitted)
    ensures out.store.forms == s.forms && out.store.fields == s.fields
    ensures out.reply.status in {201, 400, 404, 409}
    ensures ValidStore(s) ==> ValidStore(out.store)
    ensures !PositiveId(formId) ==> out == Submitted(Reply(400, ErrorPayload(InvalidFormId)), s)
    ensures PositiveId(formId) && !HasKey(s.forms.rows, formId) ==>
              out == Submitted(Reply(404, ErrorPayload(FormNotFound)), s)
    ensures ValidStore(s) && PositiveId(formId)
            && (exists f :: f in s.forms.rows && f.id == formId && !IsPublished(f.data.status)) ==>
              out == Submitted(Reply(400, ErrorPayload(FormNotPublished)), s)
    ensures ValidStore(s) && FormAccepting(s, formId) && ShapeError(body).Some? ==>
              out == Submitted(Reply(400, ErrorPayload(ShapeError(body).value)), s)
    ensures ValidStore(s) && FormAccepting(s, formId) && ShapeError(body).None?
            && HasResponded(s, formId, body.email.s) ==>
              out == Submitted(Reply(409, ErrorPayload(AlreadySubmitted)), s)
    ensures ValidStore(s) && FormAccepting(s, formId) && ShapeError(body).None?
            && !HasResponded(s, formId, body.email.s) && !Complete(s, formId, body.answers) ==>
              out == Submitted(Reply(400, MissingPayload(QuestionsUnanswered, Missing(FormFields(s.fields, formId), body.answers))), s)
  {
    if !PositiveId(formId) then Submitted(Reply(400, ErrorPayload(InvalidFormId)), s)
    else match Forms.GetFormById(s.forms, formId)
    case Failure(e) => Submitted(HandleError(Raised(e)), s)
    case Success(None) => Submitted(Reply(404, ErrorPayload(FormNotFound)), s)
    case Success(Some(form)) =>
      if !IsPublished(form.data.status) then Submitted(Reply(400, ErrorPayload(FormNotPublished)), s)
      else match ShapeError(body)
      case Some(message) => Submitted(Reply(400, ErrorPayload(message)), s)
      case None =>
        var email := Trim(body.email.s);
        TrimIdempotent(body.email.s);
        match Clients.GetClientByEmailAndFormId(s.clients, email, formId)
        case Failure(e) => Submitted(HandleError(Raised(e)), s)
        case Success(Some(_)) => Submitted(Reply(409, ErrorPayload(AlreadySubmitted)), s)
        case Success(None) =>
          match Fields.GetFieldsByFormId(s.fields, formId)
          case Failure(e) => Submitted(HandleError(Raised(e)), s)
          case Success(fields) =>
            var missing := Missing(fields, body.answers);
            if |missing| > 0 then Submitted(Reply(400, MissingPayload(QuestionsUnanswered, missing)), s)
            else Commit(s, formId, body, fields, now)
  }

  /** The store an accepted submission leaves behind: the forms and questions
      untouched, one new client row carrying the trimmed name and e-mail, the
      form and the clock reading, and one response row per question of the
      form, in question order, under consecutive keys. */
  function Committed(s: Store, formId: int, name: string, email: string, answers: JsValue, now: string): Store {
    var fields := FormFields(s.fields, formId);
    s.(clients := Table(s.clients.rows + [Row(s.clients.nextId, Clients.ClientData(Trim(name), Trim(email), Some(formId), Trim(now)))],
                        s.clients.nextId + 1),
       responses := Table(s.responses.rows + ExpectedResponses(s.responses.nextId, s.clients.nextId, fields, AnswerText(answers)),
                          s.responses.nextId + |fields|))
  }

  /** Every question of the form, once the completeness filter passed, has a
      usable answer text. */
  lemma FormFieldsAnswered(s: Store, formId: int, answers: JsValue)
    requires Valid(s.fields) && Complete(s, formId, answers)
    ensures AllAnswered(FormFields(s.fields, formId), AnswerText(answers))
  {
    forall f | f in FormFields(s.fields, formId)
      ensures PositiveId(f.id) && AnswerText(answers)(f.id) != [] && IsTrimmed(AnswerText(answers)(f.id))
    {
      AnsweredRendersNonEmpty(Get(answers, f.id));
    }
  }

  /** With a usable name, e-mail, clock reading and answer texts, the commit
      phase creates the client under the next client key, appends the
      expected response rows and replies 201 with that key. */
  lemma CommitSucceeds(s: Store, formId: int, body: Body, fields: seq<Fields.Field>, now: string)
    requires ValidStore(s) && PositiveId(formId)
    requires body.name.Str? && !IsBlank(body.name.s)
    requires body.email.Str? && RegexAccepts(Trim(body.email.s))
    requires !IsBlank(now)
    requires AllAnswered(fields, AnswerText(body.answers))
    ensures Commit(s, formId, body, fields, now).reply == Reply(201, CreatedPayload(ThankYou, s.clients.nextId))
    ensures Commit(s, formId, body, fields, now).store
            == s.(clients := Table(s.clients.rows + [Row(s.clients.nextId, Clients.ClientData(Trim(body.name.s), Trim(body.email.s), Some(formId), Trim(now)))],
                                   s.clients.nextId + 1),
                  responses := Table(s.responses.rows + ExpectedResponses(s.responses.nextId, s.clients.nextId, fields, AnswerText(body.answers)),
                                     s.responses.nextId + |fields|))
  {
    var client := Row(s.clients.nextId, Clients.ClientData(Trim(body.name.s), Trim(body.email.s), Some(formId), Trim(now)));
    ClientCreated(s.clients, body.name.s, body.email.s, formId, now);
    var responses := Table(s.responses.rows + ExpectedResponses(s.responses.nextId, s.clients.nextId, fields, AnswerText(body.answers)),
                           s.responses.nextId + |fields|);
    assert SaveResponses(s.responses, client.id, fields, AnswerText(body.answers)) == Saved(None, responses);
    CommitOutcome(s, formId, body, fields, now, client, Table(s.clients.rows + [client], s.clients.nextId + 1), responses);
  }

  /** The client row the commit phase creates from a usable name, e-mail and
      clock reading: the trimmed values under the next client key. */
  lemma ClientCreated(t: Table<Clients.ClientData>, name: string, email: string, formId: int, now: string)
    requires Valid(t) && PositiveId(formId)
    requires !IsBlank(name) && RegexAccepts(Trim(email)) && !IsBlank(now)
    ensures var client := Row(t.nextId, Clients.ClientData(Trim(name), Trim(email), Some(formId), Trim(now)));
            Clients.CreateClient(t, Clients.CreateInput(Present(Trim(name)), Present(Trim(email)), Present(formId), Present(now)))
            == Written(Success(client), Table(t.rows + [client], t.nextId + 1))
  {
    ClientInputPasses(name, email, formId, now);
    TrimIdempotent(name);
    TrimIdempotent(email);
    var input := Clients.CreateInput(Present(Trim(name)), Present(Trim(email)), Present(formId), Present(now));
    var w := Clients.CreateClient(t, input);
    var client := Row(t.nextId, Clients.ClientData(Trim(name), Trim(email), Some(formId), Trim(now)));
    assert w.result.value == client;
  }

  /** The client the commit phase builds passes the repository's checks. */
  lemma ClientInputPasses(name: string, email: string, formId: int, now: string)
    requires PositiveId(formId) && !IsBlank(name) && RegexAccepts(Trim(email)) && !IsBlank(now)
    ensures Clients.ValidateCreate(Clients.CreateInput(Present(Trim(name)), Present(Trim(email)), Present(formId), Present(now))).Pass?
  {
    TrimIdempotent(name);
    TrimIdempotent(email);
  }

  /** How the commit phase ends once the client is created and every
      response saved. */
  lemma CommitOutcome(s: Store, formId: int, body: Body, fields: seq<Fields.Field>, now: string,
                      client: Clients.Client, clients: Table<Clients.ClientData>, responses: Table<Responses.ResponseData>)
    requires body.name.Str? && body.email.Str?
    requires Clients.CreateClient(s.clients, Clients.CreateInput(Present(Trim(body.name.s)), Present(Trim(body.email.s)), Present(formId), Present(now)))
             == Written(Success(client), clients)
    requires SaveResponses(s.responses, client.id, fields, AnswerText(body.answers)) == Saved(None, responses)
    ensures Commit(s, formId, body, fields, now)
            == Submitted(Reply(201, CreatedPayload(ThankYou, client.id)), s.(clients := clients, responses := responses))
  {
  }

  /** A submission that passes every check before the first write reaches the
      commit phase with the form's questions in key order. */
  lemma SubmitReachesCommit(s: Store, formId: int, body: Body, now: string)
    requires ValidStore(s) && Admissible(s, formId, body)
    ensures Submit(s, formId, body, now) == Commit(s, formId, body, FormFields(s.fields, formId), now)
  {
    var f := PublishedFormFound(s, formId);
    TrimIdempotent(body.email.s);
    NoEarlierResponse(s, formId, Trim(body.email.s));
    FormFieldsListed(s, formId);
    CompleteNothingMissing(s, formId, body.answers);
  }

  /** An accepting form is found by its key and reads as published. */
  lemma PublishedFormFound(s: Store, formId: int) returns (f: Forms.Form)
    requires ValidStore(s) && FormAccepting(s, formId)
    ensures Forms.GetFormById(s.forms, formId) == Success(Some(f)) && IsPublished(f.data.status)
  {
    f :| f in s.forms.rows && f.id == formId && IsPublished(f.data.status);
    assert Forms.GetFormById(s.forms, formId) == Success(Some(f));
  }

  /** For a positive form id the question listing succeeds with the form's
      questions in key order. */
  lemma FormFieldsListed(s: Store, formId: int)
    requires PositiveId(formId)
    ensures Fields.GetFieldsByFormId(s.fields, formId) == Success(FormFields(s.fields, formId))
  {
  }

  /** A complete submission reports no missing question. */
  lemma CompleteNothingMissing(s: Store, formId: int, answers: JsValue)
    requires Complete(s, formId, answers)
    ensures Missing(FormFields(s.fields, formId), answers) == []
  {
  }

  /** No client of the form has the e-mail, so the duplicate lookup finds
      none. */
  lemma NoEarlierResponse(s: Store, formId: int, email: string)
    requires PositiveId(formId) && !IsBlank(email) && !HasResponded(s, formId, email)
    ensures Clients.GetClientByEmailAndFormId(s.clients, email, formId) == Success(None)
  {
  }

  /** An admissible submission is accepted: the reply is 201 with the new
      client's key, and the store is exactly `Committed`. */
  lemma SubmitCommits(s: Store, formId: int, body: Body, now: string)
    requires ValidStore(s) && Admissible(s, formId, body) && !IsBlank(now)
    ensures Submit(s, formId, body, now)
            == Submitted(Reply(201, CreatedPayload(ThankYou, s.clients.nextId)),
                         Committed(s, formId, body.name.s, body.email.s, body.answers, now))
  {
    SubmitReachesCommit(s, formId, body, now);
    FormFieldsAnswered(s, formId, body.answers);
    CommitSucceeds(s, formId, body, FormFields(s.fields, formId), now);
  }

  /** A submission that fails any check before the first write is refused
      without touching the store. */
  lemma SubmitRejects(s: Store, formId: int, body: Body, now: string)
    requires ValidStore(s) && !Admissible(s, formId, body)
    ensures Submit(s, formId, body, now).store == s
    ensures Submit(s, formId, body, now).reply.status != 201
  {
    if PositiveId(formId) && HasKey(s.forms.rows, formId) && !FormAccepting(s, formId) {
      var f :| f in s.forms.rows && f.id == formId;
      assert !IsPublished(f.data.status);
    }
  }

  /** Given a usable clock reading, the handler answers 201 exactly for the
      admissible submissions. */
  lemma SubmitAcceptsExactlyAdmissible(s: Store, formId: int, body: Body, now: string)
    requires ValidStore(s) && !IsBlank(now)
    ensures Submit(s, formId, body, now).reply.status == 201 <==> Admissible(s, formId, body)
  {
    if Admissible(s, formId, body) {
      SubmitCommits(s, formId, body, now);
    } else {
      SubmitRejects(s, formId, body, now);
    }
  }
}
