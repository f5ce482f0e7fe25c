/** The response (answer) repository of `database/responses.ts`. */
module Responses {
  import opened Wrappers
  import opened Text
  import opened Js
  import opened Errors
  import opened Messages
  import opened Tables

  /** The columns of a `responses` row; the key is the row's `id` (`response_id`). */
  datatype ResponseData = ResponseData(clientId: int, fieldId: int, responseText: string)

  type Response = Row<ResponseData>

  /** `CreateResponseInput`. */
  datatype CreateInput = CreateInput(clientId: int, fieldId: int, responseText: Prop<string>)

  /** `UpdateResponseInput`. */
  datatype UpdateInput = UpdateInput(responseText: Prop<string>)


  /** `validateCreateResponse`: client id, field id, then a non-blank text. */
  function ValidateCreate(input: CreateInput): (r: Outcome<DatabaseError>)
    ensures r.Pass? <==> PositiveId(input.clientId) && PositiveId(input.fieldId) && Filled(input.responseText)
    ensures !PositiveId(input.clientId) ==> r == Fail(Rejection(ClientIdNotPositive))
    ensures PositiveId(input.clientId) && !PositiveId(input.fieldId) ==> r == Fail(Rejection(FieldIdNotPositive))
    ensures PositiveId(input.clientId) && PositiveId(input.fieldId) && !Filled(input.responseText) ==>
              r == Fail(Rejection(ResponseTextRequired))
  {
    if !PositiveId(input.clientId) then Fail(Rejection(ClientIdNotPositive))
    else if !PositiveId(input.fieldId) then Fail(Rejection(FieldIdNotPositive))
    else if !Filled(input.responseText) then Fail(Rejection(ResponseTextRequired))
    else Pass
  }

  /** `validateUpdateResponse`. */
  function ValidateUpdate(input: UpdateInput): (r: Outcome<DatabaseError>)
    ensures r.Pass? <==> FilledIfGiven(input.responseText)
    ensures r.Fail? ==> r.error == Rejection(ResponseTextNotEmpty)
  {
    if !FilledIfGiven(input.responseText) then
      Fail(Rejection(ResponseTextNotEmpty))
    else Pass
  }

  /** `getResponseById`. */
  function GetResponseById(t: Table<ResponseData>, id: int): (r: Result<Option<Response>, DatabaseError>)
    ensures !PositiveId(id) ==> r == Failure(Rejection(ResponseIdNotPositive))
    ensures PositiveId(id) ==> r.Success?
    ensures r.Success? && r.value.Some? ==> r.value.value in t.rows && r.value.value.id == id
    ensures r.Success? ==> (r.value.None? <==> !HasKey(t.rows, id))
  {
    if !PositiveId(id) then Failure(Rejection(ResponseIdNotPositive)) else Success(Find(t.rows, id))
  }

  /** `createResponse`: validate, insert the trimmed text, and return the row
      read back by its new key; a failed read-back is a `DatabaseError`. */
  function CreateResponse(t: Table<ResponseData>, input: CreateInput): (out: Written<Response, ResponseData>)
    ensures ValidateCreate(input).Fail? ==> out == Written(Failure(ValidateCreate(input).error), t)
    ensures Valid(t) ==> Valid(out.table)
    ensures Valid(t) && ValidateCreate(input).Pass? ==>
              && out.result.Success?
              && out.result.value == Row(t.nextId, ResponseData(input.clientId, input.fieldId, Trim(input.responseText.value)))
              && out.table == Table(t.rows + [out.result.value], t.nextId + 1)
    ensures Valid(t) && out.result.Success? ==>
              GetResponseById(out.table, out.result.value.id) == Success(Some(out.result.value))
  {
    match ValidateCreate(input)
    case Fail(e) => Written(Failure(e), t)
    case Pass =>
      var t' := Insert(t, ResponseData(input.clientId, input.fieldId, Trim(input.responseText.value)));
      match GetResponseById(t', t.nextId)
      case Failure(e) => Written(Failure(e), t')
      case Success(None) => Written(Failure(Rejection(ResponseNotLoaded)), t')
      case Success(Some(r)) => Written(Success(r), t')
  }

  /** `getResponsesByClientId`: exactly the client's responses, in key order. */
  function GetResponsesByClientId(t: Table<ResponseData>, clientId: int): (r: Result<seq<Response>, DatabaseError>)
    ensures !PositiveId(clientId) ==> r == Failure(Rejection(ClientIdNotPositive))
    ensures PositiveId(clientId) ==> r.Success?
    ensures r.Success? ==> forall x :: x in r.value ==> x in t.rows && x.data.clientId == clientId
    ensures r.Success? ==> forall x :: x in t.rows && x.data.clientId == clientId ==> x in r.value
    ensures r.Success? && Valid(t) ==> Ascending(r.value)
  {
    if !PositiveId(clientId) then Failure(Rejection(ClientIdNotPositive))
    else Success(Where(t.rows, (d: ResponseData) => d.clientId == clientId))
  }

  /** `getResponsesByFieldId`: exactly the field's responses, in key order. */
  function GetResponsesByFieldId(t: Table<ResponseData>, fieldId: int): (r: Result<seq<Response>, DatabaseError>)
    ensures !PositiveId(fieldId) ==> r == Failure(Rejection(FieldIdNotPositive))
    ensures PositiveId(fieldId) ==> r.Success?
    ensures r.Success? ==> forall x :: x in r.value ==> x in t.rows && x.data.fieldId == fieldId
    ensures r.Success? ==> forall x :: x in t.rows && x.data.fieldId == fieldId ==> x in r.value
    ensures r.Success? && Valid(t) ==> Ascending(r.value)
  {
    if !PositiveId(fieldId) then Failure(Rejection(FieldIdNotPositive))
    else Success(Where(t.rows, (d: ResponseData) => d.fieldId == fieldId))
  }

  /** `updateResponse`: only the text can change, and it must be present. */
  function UpdateResponse(t: Table<ResponseData>, id: int, input: UpdateInput): (out: Written<Option<Response>, ResponseData>)
    ensures out.result.Failure? ==> out.table == t
    ensures !PositiveId(id) ==> out.result == Failure(Rejection(ResponseIdNotPositive))
    ensures PositiveId(id) && ValidateUpdate(input).Fail? ==> out == Written(Failure(ValidateUpdate(input).error), t)
    ensures out.result.Success? <==> PositiveId(id) && Filled(input.responseText)
    ensures PositiveId(id) && input.responseText.Omitted? ==>
              out.result == Failure(Rejection(NoResponseFields))
    ensures Valid(t) ==> Valid(out.table)
    ensures out.result.Success? ==>
              forall x :: x in t.rows && x.id != id ==> x in out.table.rows
    ensures out.result.Success? ==>
              && out.table.nextId == t.nextId
              && |out.table.rows| == |t.rows|
              && forall i :: 0 <= i < |t.rows| ==>
                   out.table.rows[i] == (if t.rows[i].id == id
                                         then Row(id, t.rows[i].data.(responseText := Trim(input.responseText.value)))
                                         else t.rows[i])
    ensures Valid(t) && out.result.Success? ==>
              && (out.result.value.None? <==> !HasKey(t.rows, id))
              && forall x :: x in t.rows && x.id == id ==>
                   out.result.value == Some(Row(id, x.data.(responseText := Trim(input.responseText.value))))
  {
    if !PositiveId(id) then Written(Failure(Rejection(ResponseIdNotPositive)), t)
    else match ValidateUpdate(input)
    case Fail(e) => Written(Failure(e), t)
    case Pass =>
      if input.responseText.Omitted? then Written(Failure(Rejection(NoResponseFields)), t)
      else
        var text := Trim(input.responseText.value);
        var t' := Modify(t, id, (d: ResponseData) => d.(responseText := text));
        assert forall x :: x in t.rows && x.id != id ==> x in t'.rows by {
          forall x | x in t.rows && x.id != id
            ensures x in t'.rows
          {
            var i :| 0 <= i < |t.rows| && t.rows[i] == x;
            assert t'.rows[i] == x;
          }
        }
        assert forall x :: x in t.rows && x.id == id ==> Row(id, x.data.(responseText := text)) in t'.rows by {
          forall x | x in t.rows && x.id == id
            ensures Row(id, x.data.(responseText := text)) in t'.rows
          {
            var i :| 0 <= i < |t.rows| && t.rows[i] == x;
            assert t'.rows[i] == Row(id, x.data.(responseText := text));
          }
        }
        assert HasKey(t'.rows, id) ==> HasKey(t.rows, id) by {
          if HasKey(t'.rows, id) {
            var y :| y in t'.rows && y.id == id;
            var i :| 0 <= i < |t'.rows| && t'.rows[i] == y;
            assert t.rows[i] in t.rows;
          }
        }
        Written(GetResponseById(t', id), t')
  }

  /** `deleteResponse`. */
  function DeleteResponse(t: Table<ResponseData>, id: int): (out: Written<(), ResponseData>)
    ensures !PositiveId(id) ==> out == Written(Failure(Rejection(ResponseIdNotPositive)), t)
    ensures PositiveId(id) ==> out.result.Success? && GetResponseById(out.table, id) == Success(None)
    ensures forall x :: x in t.rows && x.id != id ==> x in out.table.rows
    ensures forall x :: x in out.table.rows ==> x in t.rows
    ensures Valid(t) ==> Valid(out.table)
  {
    if !PositiveId(id) then Written(Failure(Rejection(ResponseIdNotPositive)), t)
    else Written(Success(()), Remove(t, id))
  }
}
