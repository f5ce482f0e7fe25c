/** The public form page (`PublicForm.tsx`): how it turns the API's questions
    into what it shows, keeps the respondent's answers, validates them, and
    builds the body it posts to the submission endpoint. `JSON.parse` is a
    parameter: `None` stands for a parse that throws. */
module PublicFormPage {
  import opened Wrappers
  import opened Text
  import opened Email
  import opened Js
  import opened Messages
  import opened FieldKinds
  import PublicSubmission

  /** A question as the API returns it. */
  datatype ApiField = ApiField(fieldId: int, questionText: string, answerType: string, optionsJson: Option<string>)

  /** `ViewField`: a question as the page shows it. */
  datatype ViewField = ViewField(id: int, question: string, kind: FieldType, options: seq<string>)

  /** `.filter(x => typeof x === "string")` on a parsed array. */
  function StringItems(items: seq<JsValue>): (r: seq<string>)
    ensures |r| <= |items|
    ensures forall s :: s in r <==> Str(s) in items
  {
    if |items| == 0 then []
    else
      var rest := StringItems(items[1..]);
      assert forall v :: v in items <==> v == items[0] || v in items[1..];
      if items[0].Str? then [items[0].s] + rest else rest
  }

  /** One entry is kept exactly when it is a string. */
  lemma StringItemsSingle(x: JsValue)
    ensures StringItems([x]) == if x.Str? then [x.s] else []
  {
    assert [x][1..] == [];
  }

  /** The string entries of two arrays one after the other: order and
      repetitions are kept. */
  lemma {:induction false} StringItemsAppend(a: seq<JsValue>, b: seq<JsValue>)
    ensures StringItems(a + b) == StringItems(a) + StringItems(b)
  {
    if |a| == 0 {
      assert a + b == b;
    } else {
      assert (a + b)[1..] == a[1..] + b;
      StringItemsAppend(a[1..], b);
    }
  }

  /** The options of a question: the string entries of its `options_json`
      when that parses to an array; none when it is null, empty, does not
      parse, or parses to anything else. */
  function ParseOptions(optionsJson: Option<string>, parse: string -> Option<JsValue>): (r: seq<string>)
    ensures optionsJson.None? || optionsJson == Some("") ==> r == []
    ensures optionsJson.Some? && optionsJson != Some("") ==>
              match parse(optionsJson.value)
              case Some(Arr(items)) => r == StringItems(items)
              case _ => r == []
  {
    if optionsJson.None? || optionsJson.value == "" then []
    else match parse(optionsJson.value)
      case Some(Arr(items)) => StringItems(items)
      case _ => []
  }

  /** A question as the page shows it: id and text kept, the answer type
      normalised, and the options read from `options_json`. */
  function ToViewField(f: ApiField, parse: string -> Option<JsValue>): (v: ViewField)
    ensures v.id == f.fieldId && v.question == f.questionText
    ensures v.kind == Checkbox <==> f.answerType == "checkbox"
    ensures v.kind == Radio <==> f.answerType == "radio"
    ensures forall o :: o in v.options ==>
              && f.optionsJson.Some?
              && parse(f.optionsJson.value).Some? && parse(f.optionsJson.value).value.Arr?
              && Str(o) in parse(f.optionsJson.value).value.items
    ensures v.options == ParseOptions(f.optionsJson, parse)
  {
    ViewField(f.fieldId, f.questionText, Normalise(f.answerType), ParseOptions(f.optionsJson, parse))
  }

  /** A respondent's answer: typed text, or the checked options of a checkbox
      question, in the order they were checked. */
  datatype Answer = Typed(s: string) | Checked(items: seq<string>)

  /** The page's answers, keyed by question id. */
  type Answers = map<int, Answer>

  /** The answer a question starts with: no option checked for a checkbox
      question, empty text otherwise. */
  function InitialAnswer(f: ViewField): Answer {
    if f.kind == Checkbox then Checked([]) else Typed("")
  }

  /** Each question's value under its id, in page order, so that when two
      questions share an id the later one's value is the one kept. */
  function ById<V>(fields: seq<ViewField>, value: ViewField -> V): (r: map<int, V>)
    ensures r.Keys == set f | f in fields :: f.id
  {
    if |fields| == 0 then map[]
    else
      var last := fields[|fields| - 1];
      assert forall f :: f in fields <==> f in fields[..|fields| - 1] || f == last;
      ById(fields[..|fields| - 1], value)[last.id := value(last)]
  }

  /** A question no later question shares its id with keeps its own value. */
  lemma {:induction false} ByIdLastWins<V>(fields: seq<ViewField>, value: ViewField -> V, i: int)
    requires 0 <= i < |fields|
    requires forall j :: i < j < |fields| ==> fields[j].id != fields[i].id
    ensures fields[i].id in ById(fields, value) && ById(fields, value)[fields[i].id] == value(fields[i])
  {
    if i < |fields| - 1 {
      var init := fields[..|fields| - 1];
      assert init[i] == fields[i];
      forall j | i < j < |init| ensures init[j].id != init[i].id {
        assert init[j] == fields[j];
      }
      ByIdLastWins(init, value, i);
    }
  }

  /** Every value kept is the value of some question with that id. */
  lemma {:induction false} ByIdFromSomeField<V>(fields: seq<ViewField>, value: ViewField -> V, k: int)
    requires k in ById(fields, value)
    ensures exists f :: f in fields && f.id == k && ById(fields, value)[k] == value(f)
  {
    var last := fields[|fields| - 1];
    var init := fields[..|fields| - 1];
    if k != last.id {
      ByIdFromSomeField(init, value, k);
      var f :| f in init && f.id == k && ById(init, value)[k] == value(f);
      assert f in fields;
    } else {
      assert last in fields;
    }
  }

  /** The starting answers: every question's initial answer under its id. */
  function InitialAnswers(fields: seq<ViewField>): (r: Answers)
    ensures r.Keys == set f | f in fields :: f.id
  {
    ById(fields, InitialAnswer)
  }

  /** With distinct ids every question starts with its own initial answer. */
  lemma InitialAnswersDistinct(fields: seq<ViewField>)
    requires forall i, j :: 0 <= i < j < |fields| ==> fields[i].id != fields[j].id
    ensures forall i :: 0 <= i < |fields| ==> InitialAnswers(fields)[fields[i].id] == InitialAnswer(fields[i])
  {
    forall i | 0 <= i < |fields|
      ensures InitialAnswers(fields)[fields[i].id] == InitialAnswer(fields[i])
    {
      ByIdLastWins(fields, InitialAnswer, i);
    }
  }

  /** `[...s]`: a string spread into its characters. */
  function Characters(s: string): (r: seq<string>)
    ensures |r| == |s|
    ensures forall i :: 0 <= i < |s| ==> r[i] == [s[i]]
  {
    seq(|s|, i requires 0 <= i < |s| => [s[i]])
  }

  /** `current.filter(x => x !== option)`: every occurrence removed, the rest
      in order. */
  function RemoveAll(items: seq<string>, option: string): (r: seq<string>)
    ensures forall x :: x in r <==> x in items && x != option
    ensures |r| <= |items|
  {
    if |items| == 0 then []
    else
      var rest := RemoveAll(items[1..], option);
      assert forall x :: x in items <==> x == items[0] || x in items[1..];
      if items[0] == option then rest else [items[0]] + rest
  }

  /** One checked option is kept exactly when it is not the one removed. */
  lemma RemoveAllSingle(x: string, option: string)
    ensures RemoveAll([x], option) == if x == option then [] else [x]
  {
    assert [x][1..] == [];
  }

  /** Removing from two lists one after the other is removing from each: the
      other options keep their order and their repetitions. */
  lemma {:induction false} RemoveAllAppend(a: seq<string>, b: seq<string>, option: string)
    ensures RemoveAll(a + b, option) == RemoveAll(a, option) + RemoveAll(b, option)
  {
    if |a| == 0 {
      assert a + b == b;
    } else {
      assert (a + b)[1..] == a[1..] + b;
      RemoveAllAppend(a[1..], b, option);
    }
  }

  /** Removing an option again changes nothing. */
  lemma {:induction false} RemoveAllIdempotent(items: seq<string>, option: string)
    ensures RemoveAll(RemoveAll(items, option), option) == RemoveAll(items, option)
  {
    if |items| > 0 {
      RemoveAllIdempotent(items[1..], option);
      if items[0] != option {
        assert ([items[0]] + RemoveAll(items[1..], option))[1..] == RemoveAll(items[1..], option);
      }
    }
  }

  /** Unchecking an option undoes every check of it, however many. */
  lemma {:induction false} UncheckUndoesCheck(items: seq<string>, option: string)
    ensures RemoveAll(items + [option], option) == RemoveAll(items, option)
  {
    if |items| == 0 {
      assert [option][1..] == [];
    } else {
      assert (items + [option])[1..] == items[1..] + [option];
      UncheckUndoesCheck(items[1..], option);
    }
  }

  /** `(prev[key] as string[]) ?? []`: the checked options so far. The cast
      checks nothing, so text typed earlier is what the update reads. */
  function Current(answers: Answers, fieldId: int): Option<Answer> {
    if fieldId in answers then Some(answers[fieldId]) else None
  }

  /** `setCheckboxOption(fieldId, option, checked)`. Checking appends the
      option (twice if checked twice); unchecking removes all its
      occurrences. When the question holds text rather than a list, checking
      spreads the text into characters and unchecking throws (`filter` is not
      a string method): `None`. Other questions' answers are untouched. */
  function SetCheckboxOption(answers: Answers, fieldId: int, option: string, checked: bool): (r: Option<Answers>)
    ensures r.None? <==> !checked && Current(answers, fieldId).Some? && Current(answers, fieldId).value.Typed?
    ensures r.Some? ==> r.value.Keys == answers.Keys + {fieldId}
    ensures r.Some? ==> forall k :: k in answers && k != fieldId ==> r.value[k] == answers[k]
    ensures checked && Current(answers, fieldId).None? ==> r == Some(answers[fieldId := Checked([option])])
    ensures r.Some? && Current(answers, fieldId).Some? && Current(answers, fieldId).value.Checked? ==>
              var items := answers[fieldId].items;
              r.value[fieldId] == Checked(if checked then items + [option] else RemoveAll(items, option))
    ensures r.Some? && !checked ==> r.value[fieldId].Checked? && option !in r.value[fieldId].items
    ensures checked && Current(answers, fieldId).Some? && Current(answers, fieldId).value.Typed? ==>
              r == Some(answers[fieldId := Checked(Characters(answers[fieldId].s) + [option])])
    ensures !checked && Current(answers, fieldId).None? ==> r == Some(answers[fieldId := Checked([])])
  {
    assert [] + [option] == [option];
    var current: Option<seq<string>> :=
      match Current(answers, fieldId)
      case None => Some([])
      case Some(Checked(items)) => Some(items)
      case Some(Typed(s)) => if checked then Some(Characters(s)) else None;
    match current
    case None => None
    case Some(items) =>
      Some(answers[fieldId := Checked(if checked then items + [option] else RemoveAll(items, option))])
  }

  /** `setAnswer(fieldId, value)`: the question's answer replaced, the
      others kept. */
  function SetAnswer(answers: Answers, fieldId: int, value: Answer): (r: Answers)
    ensures r.Keys == answers.Keys + {fieldId}
    ensures Current(r, fieldId) == Some(value)
    ensures forall k :: k != fieldId ==> Current(r, k) == Current(answers, k)
  {
    answers[fieldId := value]
  }

  /** The page's test of one answer: a checkbox question needs at least one
      checked option (blank ones count); any other question needs text that
      is not blank. */
  predicate Answered(f: ViewField, v: Option<Answer>) {
    if f.kind == Checkbox then v.Some? && v.value.Checked? && |v.value.items| > 0
    else v.Some? && v.value.Typed? && !IsBlank(v.value.s)
  }

  /** Typing a non-blank text answers a question that is not a checkbox
      question; checking any option, blank or not, answers a checkbox
      question whose answer is not typed text. */
  lemma AnswerSettersAnswer(answers: Answers, f: ViewField, text: string, option: string)
    ensures f.kind != Checkbox && !IsBlank(text) ==> Answered(f, Current(SetAnswer(answers, f.id, Typed(text)), f.id))
    ensures f.kind == Checkbox && (Current(answers, f.id).None? || Current(answers, f.id).value.Checked?) ==>
              && SetCheckboxOption(answers, f.id, option, true).Some?
              && Answered(f, Current(SetCheckboxOption(answers, f.id, option, true).value, f.id))
  {
  }

  /** The first question, in page order, whose answer does not pass. */
  function FirstUnanswered(fields: seq<ViewField>, answers: Answers): (r: Option<ViewField>)
    ensures r.None? <==> forall f :: f in fields ==> Answered(f, Current(answers, f.id))
    ensures r.Some? ==> exists i :: FirstUnansweredAt(fields, answers, i) && fields[i] == r.value
  {
    if |fields| == 0 then None
    else if !Answered(fields[0], Current(answers, fields[0].id)) then
      assert FirstUnansweredAt(fields, answers, 0);
      Some(fields[0])
    else
      var r := FirstUnanswered(fields[1..], answers);
      assert forall f :: f in fields <==> f == fields[0] || f in fields[1..];
      if r.Some? then
        var i :| FirstUnansweredAt(fields[1..], answers, i) && fields[1..][i] == r.value;
        ShiftFirstUnanswered(fields, answers, i);
        r
      else r
  }

  /** Question `i` is unanswered and every question before it is answered. */
  predicate FirstUnansweredAt(fields: seq<ViewField>, answers: Answers, i: int) {
    && 0 <= i < |fields|
    && !Answered(fields[i], Current(answers, fields[i].id))
    && forall j :: 0 <= j < i ==> Answered(fields[j], Current(answers, fields[j].id))
  }

  /** The first unanswered question of the rest, after an answered first
      question, is the first unanswered question of the whole list. */
  lemma ShiftFirstUnanswered(fields: seq<ViewField>, answers: Answers, i: int)
    requires |fields| > 0 && Answered(fields[0], Current(answers, fields[0].id))
    requires FirstUnansweredAt(fields[1..], answers, i)
    ensures FirstUnansweredAt(fields, answers, i + 1) && fields[i + 1] == fields[1..][i]
  {
    forall j | 1 <= j < i + 1
      ensures Answered(fields[j], Current(answers, fields[j].id))
    {
      assert fields[j] == fields[1..][j - 1];
    }
  }

  /** `validate()`: the first failing check, in the page's order, or `None`
      when the submission may go ahead. */
  function Validate(name: string, email: string, fields: seq<ViewField>, answers: Answers): (r: Option<Message>)
    ensures r.None? <==>
              && !IsBlank(name) && !IsBlank(email) && RegexAccepts(Trim(email))
              && forall f :: f in fields ==> Answered(f, Current(answers, f.id))
    ensures IsBlank(name) ==> r == Some(EnterYourName)
    ensures !IsBlank(name) && IsBlank(email) ==> r == Some(EnterYourEmail)
    ensures !IsBlank(name) && !IsBlank(email) && !RegexAccepts(Trim(email)) ==> r == Some(EnterValidEmail)
    ensures !IsBlank(name) && !IsBlank(email) && RegexAccepts(Trim(email)) && r.Some? ==>
              exists i :: FirstUnansweredAt(fields, answers, i) && r.value == PleaseAnswer(fields[i].question)
  {
    ValidEmailIsRegex(Trim(email));
    if IsBlank(name) then Some(EnterYourName)
    else if IsBlank(email) then Some(EnterYourEmail)
    else if !ValidEmail(Trim(email)) then Some(EnterValidEmail)
    else match FirstUnanswered(fields, answers)
      case None => None
      case Some(f) => Some(PleaseAnswer(f.question))
  }

  /** The text posted for one question: a checkbox question's checked options
      joined with ", "; typed text as typed; anything else the empty string. */
  function PayloadText(f: ViewField, v: Option<Answer>): (r: string)
    ensures f.kind == Checkbox && v.Some? && v.value.Checked? && |v.value.items| > 0 ==>
              |v.value.items[0]| <= |r| && r[..|v.value.items[0]|] == v.value.items[0]
    ensures f.kind == Checkbox && v.Some? && v.value.Checked? && |v.value.items| > 0 ==>
              r == Join(v.value.items, ", ")
    ensures v.Some? && v.value.Typed? ==> r == v.value.s
    ensures v.None? || (v.value.Checked? && (f.kind != Checkbox || v.value.items == [])) ==> r == ""
  {
    match v
    case Some(Checked(items)) => if f.kind == Checkbox && |items| > 0 then Join(items, ", ") else ""
    case Some(Typed(s)) => s
    case None => ""
  }

  /** The `answers` object the page posts: every question's text under its
      id. */
  function Payload(fields: seq<ViewField>, answers: Answers): (r: map<int, string>)
    ensures r.Keys == set f | f in fields :: f.id
  {
    ById(fields, (f: ViewField) => PayloadText(f, Current(answers, f.id)))
  }

  /** With distinct ids every question's own answer is what is posted. */
  lemma PayloadDistinct(fields: seq<ViewField>, answers: Answers, i: int)
    requires forall i, j :: 0 <= i < j < |fields| ==> fields[i].id != fields[j].id
    requires 0 <= i < |fields|
    ensures Payload(fields, answers)[fields[i].id] == PayloadText(fields[i], Current(answers, fields[i].id))
  {
    ByIdLastWins(fields, (f: ViewField) => PayloadText(f, Current(answers, f.id)), i);
  }

  /** The posted `answers` object as the server receives it. */
  function PayloadObject(payload: map<int, string>): (v: JsValue)
    ensures v.Obj? && v.props.Keys == payload.Keys
    ensures forall k :: k in payload ==> Get(v, k) == Str(payload[k])
  {
    Obj(map k | k in payload :: Str(payload[k]))
  }

  /** The request body the page posts: trimmed name and e-mail, and the
      answers object. */
  function Body(name: string, email: string, fields: seq<ViewField>, answers: Answers): PublicSubmission.Body {
    PublicSubmission.Body(Str(Trim(name)), Str(Trim(email)), PayloadObject(Payload(fields, answers)))
  }

  /** A body the page lets through also passes the server's shape checks. */
  lemma ValidatedBodyHasShape(name: string, email: string, fields: seq<ViewField>, answers: Answers)
    requires Validate(name, email, fields, answers).None?
    ensures PublicSubmission.ShapeError(Body(name, email, fields, answers)).None?
  {
    TrimIdempotent(name);
    TrimIdempotent(email);
  }

  /** Some checked option of a checkbox question is not blank. */
  predicate CheckedSomethingReal(f: ViewField, v: Option<Answer>) {
    f.kind == Checkbox ==> v.Some? && v.value.Checked? && exists o :: o in v.value.items && !IsBlank(o)
  }

  /** Joining keeps every character of every part. */
  lemma {:induction false} JoinKeepsChar(parts: seq<string>, sep: string, o: string, i: int)
    requires o in parts && 0 <= i < |o|
    ensures exists k :: 0 <= k < |Join(parts, sep)| && Join(parts, sep)[k] == o[i]
    decreases |parts|
  {
    if |parts| == 1 || parts[0] == o {
      assert Join(parts, sep)[i] == o[i];
    } else {
      assert o in parts[1..];
      JoinKeepsChar(parts[1..], sep, o, i);
      var rest := Join(parts[1..], sep);
      var k :| 0 <= k < |rest| && rest[k] == o[i];
      var whole := Join(parts, sep);
      assert whole == parts[0] + sep + rest;
      assert whole[|parts[0] + sep| + k] == rest[k];
    }
  }

  /** Joining keeps a non-blank part's characters, so the joined text is not
      blank either. */
  lemma JoinNotBlank(parts: seq<string>, sep: string, o: string)
    requires o in parts && !IsBlank(o)
    ensures !IsBlank(Join(parts, sep))
  {
    var i :| 0 <= i < |o| && !IsSpace(o[i]) by {
      if forall i :: 0 <= i < |o| ==> IsSpace(o[i]) {
        assert AllSpace(o);
      }
    }
    JoinKeepsChar(parts, sep, o, i);
    var k :| 0 <= k < |Join(parts, sep)| && Join(parts, sep)[k] == o[i];
    NotBlankWitness(Join(parts, sep), k);
  }

  /** One question the page lets through, whose checked options include a
      non-blank one when it is a checkbox question, is posted as a non-blank
      text. */
  lemma AnsweredTextNotBlank(f: ViewField, v: Option<Answer>)
    requires Answered(f, v) && CheckedSomethingReal(f, v)
    ensures !IsBlank(PayloadText(f, v))
  {
    if f.kind == Checkbox {
      var o :| o in v.value.items && !IsBlank(o);
      JoinNotBlank(v.value.items, ", ", o);
    }
  }

  /** When the page's checks pass, ids are distinct and every checkbox
      question has a non-blank option checked, the server's completeness
      filter finds no question of the page missing. */
  lemma ValidatedPayloadComplete(name: string, email: string, fields: seq<ViewField>, answers: Answers)
    requires Validate(name, email, fields, answers).None?
    requires forall i, j :: 0 <= i < j < |fields| ==> fields[i].id != fields[j].id
    requires forall f :: f in fields ==> CheckedSomethingReal(f, Current(answers, f.id))
    ensures forall f :: f in fields ==> !PublicSubmission.IsMissing(Get(Body(name, email, fields, answers).answers, f.id))
  {
    forall f | f in fields
      ensures !PublicSubmission.IsMissing(Get(Body(name, email, fields, answers).answers, f.id))
    {
      var i :| 0 <= i < |fields| && fields[i] == f;
      PostedNotMissing(name, email, fields, answers, i);
    }
  }

  /** The per-question step of `ValidatedPayloadComplete`. */
  lemma PostedNotMissing(name: string, email: string, fields: seq<ViewField>, answers: Answers, i: int)
    requires forall i, j :: 0 <= i < j < |fields| ==> fields[i].id != fields[j].id
    requires 0 <= i < |fields|
    requires Answered(fields[i], Current(answers, fields[i].id))
    requires CheckedSomethingReal(fields[i], Current(answers, fields[i].id))
    ensures !PublicSubmission.IsMissing(Get(Body(name, email, fields, answers).answers, fields[i].id))
  {
    var payload := Payload(fields, answers);
    PayloadDistinct(fields, answers, i);
    AnsweredTextNotBlank(fields[i], Current(answers, fields[i].id));
    assert Get(Body(name, email, fields, answers).answers, fields[i].id) == Str(payload[fields[i].id]);
  }

  /** Every question starts unanswered, whatever its id is shared with: the
      page refuses to submit a freshly loaded form with any question. */
  lemma FreshAnswersUnanswered(fields: seq<ViewField>)
    ensures forall f :: f in fields ==> !Answered(f, Current(InitialAnswers(fields), f.id))
  {
    forall f | f in fields ensures !Answered(f, Current(InitialAnswers(fields), f.id)) {
      ByIdFromSomeField(fields, InitialAnswer, f.id);
    }
  }

  /** With a valid name and e-mail, a freshly loaded page may be submitted
      exactly when the form has no questions. */
  lemma FreshPageSubmitsOnlyWhenEmpty(name: string, email: string, fields: seq<ViewField>)
    requires !IsBlank(name) && !IsBlank(email) && RegexAccepts(Trim(email))
    ensures Validate(name, email, fields, InitialAnswers(fields)).None? <==> fields == []
  {
    FreshAnswersUnanswered(fields);
    if fields != [] {
      assert fields[0] in fields;
    }
  }

  /** The page's check is weaker than the server's: a checkbox question with
      only a blank option checked passes the page and is posted as an empty
      answer, which the server reports missing. */
  lemma BlankOptionPassesPageOnly(name: string, email: string, id: int, question: string)
    requires !IsBlank(name) && !IsBlank(email) && RegexAccepts(Trim(email))
    ensures var fields := [ViewField(id, question, Checkbox, [""])];
            var answers := map[id := Checked([""])];
            && Validate(name, email, fields, answers).None?
            && PublicSubmission.IsMissing(Get(Body(name, email, fields, answers).answers, id))
  {
    BlankOptionAnswered(name, email, id, question);
    BlankOptionPostedEmpty(name, email, id, question);
  }

  /** The page's half of `BlankOptionPassesPageOnly`. */
  lemma BlankOptionAnswered(name: string, email: string, id: int, question: string)
    requires !IsBlank(name) && !IsBlank(email) && RegexAccepts(Trim(email))
    ensures Validate(name, email, [ViewField(id, question, Checkbox, [""])], map[id := Checked([""])]).None?
  {
    var fields := [ViewField(id, question, Checkbox, [""])];
    assert Answered(fields[0], Current(map[id := Checked([""])], id));
  }

  /** The server's half of `BlankOptionPassesPageOnly`. */
  lemma BlankOptionPostedEmpty(name: string, email: string, id: int, question: string)
    ensures PublicSubmission.IsMissing(Get(Body(name, email, [ViewField(id, question, Checkbox, [""])], map[id := Checked([""])]).answers, id))
  {
    var fields := [ViewField(id, question, Checkbox, [""])];
    var answers := map[id := Checked([""])];
    assert Payload(fields, answers)[id] == "";
    assert IsBlank("");
  }
}
