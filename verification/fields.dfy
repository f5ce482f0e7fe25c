/** The field (question) repository of `database/fields.ts`. */
module Fields {
  import opened Wrappers
  import opened Text
  import opened Js
  import opened Errors
  import opened Messages
  import opened Tables

  /** The columns of a `fields` row; the key is the row's `id` (`field_id`). */
  datatype FieldData = FieldData(
    formId: int,
    questionText: string,
    answerType: string,
    optionsJson: Option<string>,
    dateUpdated: string)

  type Field = Row<FieldData>

  /** `CreateFieldInput`. `options_json` may be any JavaScript value. */
  datatype CreateInput = CreateInput(
    formId: int,
    questionText: Prop<string>,
    answerType: Prop<string>,
    optionsJson: JsValue)

  /** `UpdateFieldInput`; an omitted `options_json` is `Undefined`. */
  datatype UpdateInput = UpdateInput(
    questionText: Prop<string>,
    answerType: Prop<string>,
    optionsJson: JsValue)

  /** `JSON.parse`, which is not part of this model: `None` where it throws. */
  type JsonParser = string -> Option<JsValue>


  /** `validateJsonString`: absent or null passes; anything else must be a
      string that parses as JSON. */
  function ValidateJsonString(value: JsValue, fieldName: string, parse: JsonParser): (r: Outcome<DatabaseError>)
    ensures r.Pass? <==> value.Undefined? || value.Null? || (value.Str? && parse(value.s).Some?)
    ensures !(value.Undefined? || value.Null? || value.Str?) ==>
              r == Fail(Rejection(NotJsonString(fieldName)))
    ensures value.Str? && parse(value.s).None? ==> r == Fail(Rejection(NotValidJson(fieldName)))
  {
    if value.Undefined? || value.Null? then Pass
    else if !value.Str? then Fail(Rejection(NotJsonString(fieldName)))
    else if parse(value.s).None? then Fail(Rejection(NotValidJson(fieldName)))
    else Pass
  }

  /** The stored `options_json` of an accepted value: the string, or null. */
  function JsonColumn(value: JsValue): Option<string> {
    if value.Str? then Some(value.s) else None
  }

  /** `validateCreateField`. The answer type is any non-blank string. */
  function ValidateCreate(input: CreateInput, parse: JsonParser): (r: Outcome<DatabaseError>)
    ensures r.Pass? <==>
              && PositiveId(input.formId)
              && Filled(input.questionText)
              && Filled(input.answerType)
              && ValidateJsonString(input.optionsJson, "options_json", parse).Pass?
    ensures !PositiveId(input.formId) ==> r == Fail(Rejection(FormIdParamNotPositive))
    ensures PositiveId(input.formId) && !Filled(input.questionText) ==> r == Fail(Rejection(QuestionTextRequired))
    ensures PositiveId(input.formId) && Filled(input.questionText) && !Filled(input.answerType) ==>
              r == Fail(Rejection(AnswerTypeRequired))
    ensures PositiveId(input.formId) && Filled(input.questionText) && Filled(input.answerType) ==>
              r == ValidateJsonString(input.optionsJson, "options_json", parse)
  {
    if !PositiveId(input.formId) then Fail(Rejection(FormIdParamNotPositive))
    else if !Filled(input.questionText) then Fail(Rejection(QuestionTextRequired))
    else if !Filled(input.answerType) then Fail(Rejection(AnswerTypeRequired))
    else ValidateJsonString(input.optionsJson, "options_json", parse)
  }

  /** `validateUpdateField`. */
  function ValidateUpdate(input: UpdateInput, parse: JsonParser): (r: Outcome<DatabaseError>)
    ensures r.Pass? <==>
              && FilledIfGiven(input.questionText)
              && FilledIfGiven(input.answerType)
              && ValidateJsonString(input.optionsJson, "options_json", parse).Pass?
    ensures !FilledIfGiven(input.questionText) ==> r == Fail(Rejection(QuestionTextNotEmpty))
    ensures FilledIfGiven(input.questionText) && !FilledIfGiven(input.answerType) ==>
              r == Fail(Rejection(AnswerTypeNotEmpty))
    ensures FilledIfGiven(input.questionText) && FilledIfGiven(input.answerType) ==>
              r == ValidateJsonString(input.optionsJson, "options_json", parse)
  {
    if !FilledIfGiven(input.questionText) then
      Fail(Rejection(QuestionTextNotEmpty))
    else if !FilledIfGiven(input.answerType) then
      Fail(Rejection(AnswerTypeNotEmpty))
    else ValidateJsonString(input.optionsJson, "options_json", parse)
  }

  /** `getFieldById`. */
  function GetFieldById(t: Table<FieldData>, id: int): (r: Result<Option<Field>, DatabaseError>)
    ensures !PositiveId(id) ==> r == Failure(Rejection(FieldIdNotPositive))
    ensures PositiveId(id) ==> r.Success?
    ensures r.Success? && r.value.Some? ==> r.value.value in t.rows && r.value.value.id == id
    ensures r.Success? ==> (r.value.None? <==> !HasKey(t.rows, id))
  {
    if !PositiveId(id) then Failure(Rejection(FieldIdNotPositive)) else Success(Find(t.rows, id))
  }

  /** `createField`: validate, insert (texts trimmed, `options_json` verbatim
      or null, `date_updated` defaulting to now), read back by the new key. */
  function CreateField(t: Table<FieldData>, input: CreateInput, parse: JsonParser, now: string): (out: Written<Field, FieldData>)
    ensures ValidateCreate(input, parse).Fail? ==> out == Written(Failure(ValidateCreate(input, parse).error), t)
    ensures Valid(t) ==> Valid(out.table)
    ensures Valid(t) && ValidateCreate(input, parse).Pass? ==>
              && out.result.Success?
              && out.result.value.id == t.nextId
              && out.result.value.data.formId == input.formId
              && out.result.value.data.questionText == Trim(input.questionText.value)
              && out.result.value.data.answerType == Trim(input.answerType.value)
              && out.result.value.data.optionsJson == (if input.optionsJson.Str? then Some(input.optionsJson.s) else None)
              && out.table.rows == t.rows + [out.result.value]
    ensures Valid(t) && out.result.Success? ==>
              GetFieldById(out.table, out.result.value.id) == Success(Some(out.result.value))
  {
    match ValidateCreate(input, parse)
    case Fail(e) => Written(Failure(e), t)
    case Pass =>
      var row := FieldData(input.formId, Trim(input.questionText.value), Trim(input.answerType.value),
                           JsonColumn(input.optionsJson), now);
      var t' := Insert(t, row);
      match GetFieldById(t', t.nextId)
      case Failure(e) => Written(Failure(e), t')
      case Success(None) => Written(Failure(Rejection(FieldNotLoaded)), t')
      case Success(Some(f)) => Written(Success(f), t')
  }

  /** `getFieldsByFormId`: exactly the form's fields, in ascending key order
      (the order the questions were created in). */
  function GetFieldsByFormId(t: Table<FieldData>, formId: int): (r: Result<seq<Field>, DatabaseError>)
    ensures !PositiveId(formId) ==> r == Failure(Rejection(FormIdParamNotPositive))
    ensures PositiveId(formId) ==> r.Success?
    ensures r.Success? ==> forall x :: x in r.value ==> x in t.rows && x.data.formId == formId
    ensures r.Success? ==> forall x :: x in t.rows && x.data.formId == formId ==> x in r.value
    ensures r.Success? && Valid(t) ==> Ascending(r.value)
  {
    if !PositiveId(formId) then Failure(Rejection(FormIdParamNotPositive))
    else Success(Where(t.rows, (d: FieldData) => d.formId == formId))
  }

  /** Some property of the update is present. */
  predicate HasChanges(input: UpdateInput) {
    !input.questionText.Omitted? || !input.answerType.Omitted? || !input.optionsJson.Undefined?
  }

  /** The columns after `updateField`'s `SET` list. */
  function Apply(d: FieldData, input: UpdateInput, now: string): FieldData {
    FieldData(
      d.formId,
      if input.questionText.Present? then Trim(input.questionText.value) else d.questionText,
      if input.answerType.Present? then Trim(input.answerType.value) else d.answerType,
      if input.optionsJson.Undefined? then d.optionsJson else JsonColumn(input.optionsJson),
      now)
  }

  /** `updateField`. */
  function UpdateField(t: Table<FieldData>, id: int, input: UpdateInput, parse: JsonParser, now: string): (out: Written<Option<Field>, FieldData>)
    ensures out.result.Failure? ==> out.table == t
    ensures !PositiveId(id) ==> out.result == Failure(Rejection(FieldIdNotPositive))
    ensures PositiveId(id) && ValidateUpdate(input, parse).Fail? ==> out == Written(Failure(ValidateUpdate(input, parse).error), t)
    ensures out.result.Success? <==> PositiveId(id) && ValidateUpdate(input, parse).Pass? && HasChanges(input)
    ensures PositiveId(id) && ValidateUpdate(input, parse).Pass? && !HasChanges(input) ==>
              out.result == Failure(Rejection(NoFieldProperties))
    ensures Valid(t) ==> Valid(out.table)
    ensures out.result.Success? ==>
              && |out.table.rows| == |t.rows|
              && forall i :: 0 <= i < |t.rows| ==>
                   out.table.rows[i] == if t.rows[i].id == id then Row(id, Apply(t.rows[i].data, input, now)) else t.rows[i]
    ensures Valid(t) && out.result.Success? ==>
              && (out.result.value.None? <==> !HasKey(t.rows, id))
              && forall x :: x in t.rows && x.id == id ==> out.result.value == Some(Row(id, Apply(x.data, input, now)))
  {
    if !PositiveId(id) then Written(Failure(Rejection(FieldIdNotPositive)), t)
    else match ValidateUpdate(input, parse)
    case Fail(e) => Written(Failure(e), t)
    case Pass =>
      if !HasChanges(input) then Written(Failure(Rejection(NoFieldProperties)), t)
      else
        var t' := Modify(t, id, d => Apply(d, input, now));
        assert Valid(t) ==> forall x :: x in t.rows && x.id == id ==> Row(id, Apply(x.data, input, now)) in t'.rows by {
          if Valid(t) {
            forall x | x in t.rows && x.id == id
              ensures Row(id, Apply(x.data, input, now)) in t'.rows
            {
              var i :| 0 <= i < |t.rows| && t.rows[i] == x;
              assert t'.rows[i] == Row(id, Apply(x.data, input, now));
            }
          }
        }
        assert HasKey(t'.rows, id) ==> HasKey(t.rows, id) by {
          if HasKey(t'.rows, id) {
            var y :| y in t'.rows && y.id == id;
            var i :| 0 <= i < |t'.rows| && t'.rows[i] == y;
            assert t.rows[i] in t.rows;
          }
        }
        Written(GetFieldById(t', id), t')
  }

  /** A successful update writes exactly the present properties: omitted
      ones keep their value, a present null clears `options_json`, texts are
      stored trimmed, the form link never changes, `date_updated` becomes now. */
  lemma UpdateFieldChangesOnlyGiven(t: Table<FieldData>, id: int, input: UpdateInput, parse: JsonParser, now: string, before: Field)
    requires Valid(t) && before in t.rows && before.id == id
    requires UpdateField(t, id, input, parse, now).result.Success?
    ensures var after := UpdateField(t, id, input, parse, now).result.value;
      && after.Some? && after.value.id == id
      && after.value.data.formId == before.data.formId
      && (input.questionText.Omitted? ==> after.value.data.questionText == before.data.questionText)
      && (input.questionText.Present? ==> after.value.data.questionText == Trim(input.questionText.value))
      && (input.answerType.Omitted? ==> after.value.data.answerType == before.data.answerType)
      && (input.answerType.Present? ==> after.value.data.answerType == Trim(input.answerType.value))
      && (input.optionsJson.Undefined? ==> after.value.data.optionsJson == before.data.optionsJson)
      && (input.optionsJson.Null? ==> after.value.data.optionsJson == None)
      && (input.optionsJson.Str? ==> after.value.data.optionsJson == Some(input.optionsJson.s))
      && after.value.data.dateUpdated == now
  {
  }

  /** An update with nothing present fails before writing. */
  lemma EmptyUpdateRejected(t: Table<FieldData>, id: int, parse: JsonParser, now: string)
    requires PositiveId(id)
    ensures UpdateField(t, id, UpdateInput(Omitted, Omitted, Undefined), parse, now)
            == Written(Failure(Rejection(NoFieldProperties)), t)
  {
  }

  /** `deleteField`. */
  function DeleteField(t: Table<FieldData>, id: int): (out: Written<(), FieldData>)
    ensures !PositiveId(id) ==> out == Written(Failure(Rejection(FieldIdNotPositive)), t)
    ensures PositiveId(id) ==> out.result.Success? && GetFieldById(out.table, id) == Success(None)
    ensures forall x :: x in t.rows && x.id != id ==> x in out.table.rows
    ensures forall x :: x in out.table.rows ==> x in t.rows
    ensures Valid(t) ==> Valid(out.table)
  {
    if !PositiveId(id) then Written(Failure(Rejection(FieldIdNotPositive)), t)
    else Written(Success(()), Remove(t, id))
  }
}
