/** The form repository of `database/forms.ts`. */
module Forms {
  import opened Wrappers
  import opened Text
  import opened Js
  import opened Errors
  import opened Messages
  import opened Tables

  /** The columns of a `forms` row; the key is the row's `id` (`form_id`). */
  datatype FormData = FormData(
    name: string,
    description: Option<string>,
    status: string,
    dateCreated: string,
    dateUpdated: string,
    datePublished: Option<string>,
    dateClosed: Option<string>)

  type Form = Row<FormData>

  /** `CreateFormInput`. */
  datatype CreateInput = CreateInput(
    name: Prop<string>,
    description: Prop<string>,
    status: Prop<string>,
    datePublished: Prop<string>,
    dateClosed: Prop<string>)

  /** `UpdateFormInput`: every property may be omitted. */
  datatype UpdateInput = UpdateInput(
    name: Prop<string>,
    description: Prop<string>,
    status: Prop<string>,
    datePublished: Prop<string>,
    dateClosed: Prop<string>)


  /** `validateCreateForm`: name, then status, must be non-blank strings. */
  function ValidateCreate(input: CreateInput): (r: Outcome<DatabaseError>)
    ensures r.Pass? <==> Filled(input.name) && Filled(input.status)
    ensures !Filled(input.name) ==> r == Fail(Rejection(FormNameRequired))
    ensures Filled(input.name) && !Filled(input.status) ==> r == Fail(Rejection(FormStatusRequired))
  {
    if !Filled(input.name) then Fail(Rejection(FormNameRequired))
    else if !Filled(input.status) then Fail(Rejection(FormStatusRequired))
    else Pass
  }

  /** `validateUpdateForm`: a present name or status must be a non-blank string. */
  function ValidateUpdate(input: UpdateInput): (r: Outcome<DatabaseError>)
    ensures r.Pass? <==> FilledIfGiven(input.name) && FilledIfGiven(input.status)
    ensures !FilledIfGiven(input.name) ==> r == Fail(Rejection(FormNameNotEmpty))
    ensures FilledIfGiven(input.name) && !FilledIfGiven(input.status) ==> r == Fail(Rejection(FormStatusNotEmpty))
  {
    if !FilledIfGiven(input.name) then
      Fail(Rejection(FormNameNotEmpty))
    else if !FilledIfGiven(input.status) then
      Fail(Rejection(FormStatusNotEmpty))
    else Pass
  }

  /** `getFormById`. */
  function GetFormById(t: Table<FormData>, id: int): (r: Result<Option<Form>, DatabaseError>)
    ensures !PositiveId(id) ==> r == Failure(Rejection(FormIdNotPositive))
    ensures PositiveId(id) ==> r.Success?
    ensures r.Success? && r.value.Some? ==> r.value.value in t.rows && r.value.value.id == id
    ensures r.Success? ==> (r.value.None? <==> !HasKey(t.rows, id))
  {
    if !PositiveId(id) then Failure(Rejection(FormIdNotPositive)) else Success(Find(t.rows, id))
  }

  /** The row `createForm` inserts: name and status trimmed, the optional
      columns as given or null, both timestamps defaulting to now. */
  function NewRow(input: CreateInput, now: string): FormData
    requires input.name.Present? && input.status.Present?
  {
    FormData(Trim(input.name.value), OrNull(input.description), Trim(input.status.value),
             now, now, OrNull(input.datePublished), OrNull(input.dateClosed))
  }

  /** `createForm`: validate, insert, and return the row read back by its new key. */
  function CreateForm(t: Table<FormData>, input: CreateInput, now: string): (out: Written<Form, FormData>)
    ensures ValidateCreate(input).Fail? ==> out == Written(Failure(ValidateCreate(input).error), t)
    ensures Valid(t) ==> Valid(out.table)
    ensures Valid(t) && ValidateCreate(input).Pass? ==>
              && out.result.Success?
              && out.result.value.id == t.nextId
              && out.result.value.data.name == Trim(input.name.value)
              && out.result.value.data.status == Trim(input.status.value)
              && out.result.value.data.description == OrNull(input.description)
              && out.result.value.data.datePublished == OrNull(input.datePublished)
              && out.result.value.data.dateClosed == OrNull(input.dateClosed)
              && out.result.value.data.dateCreated == now
              && out.table.rows == t.rows + [out.result.value]
    ensures Valid(t) && out.result.Success? ==>
              GetFormById(out.table, out.result.value.id) == Success(Some(out.result.value))
  {
    match ValidateCreate(input)
    case Fail(e) => Written(Failure(e), t)
    case Pass =>
      var t' := Insert(t, NewRow(input, now));
      match GetFormById(t', t.nextId)
      case Failure(e) => Written(Failure(e), t')
      case Success(None) => Written(Failure(Rejection(FormNotLoaded)), t')
      case Success(Some(f)) => Written(Success(f), t')
  }

  /** The `date_created` column, the key of `getAllForms`' ordering. */
  function CreatedAt(d: FormData): string {
    d.dateCreated
  }

  /** `getAllForms`: every form, newest `date_created` first. */
  function GetAllForms(t: Table<FormData>): (r: seq<Form>)
    ensures multiset(r) == multiset(t.rows)
    ensures SortedDesc(r, CreatedAt)
  {
    SortDesc(t.rows, CreatedAt)
  }

  /** Some property of the update is present. */
  predicate HasChanges(input: UpdateInput) {
    || !input.name.Omitted? || !input.description.Omitted? || !input.status.Omitted?
    || !input.datePublished.Omitted? || !input.dateClosed.Omitted?
  }

  /** The columns after `updateForm`'s `SET` list: present properties written,
      `date_updated` stamped. */
  function Apply(d: FormData, input: UpdateInput, now: string): FormData {
    FormData(
      if input.name.Present? then Trim(input.name.value) else d.name,
      Patched(d.description, input.description),
      if input.status.Present? then Trim(input.status.value) else d.status,
      d.dateCreated,
      now,
      Patched(d.datePublished, input.datePublished),
      Patched(d.dateClosed, input.dateClosed))
  }

  /** `updateForm`. */
  function UpdateForm(t: Table<FormData>, id: int, input: UpdateInput, now: string): (out: Written<Option<Form>, FormData>)
    ensures out.result.Failure? ==> out.table == t
    ensures !PositiveId(id) ==> out.result == Failure(Rejection(FormIdNotPositive))
    ensures PositiveId(id) && ValidateUpdate(input).Fail? ==> out == Written(Failure(ValidateUpdate(input).error), t)
    ensures out.result.Success? <==> PositiveId(id) && ValidateUpdate(input).Pass? && HasChanges(input)
    ensures PositiveId(id) && ValidateUpdate(input).Pass? && !HasChanges(input) ==>
              out.result == Failure(Rejection(NoFormFields))
    ensures Valid(t) ==> Valid(out.table)
    ensures out.result.Success? ==>
              && |out.table.rows| == |t.rows|
              && forall i :: 0 <= i < |t.rows| ==>
                   out.table.rows[i] == if t.rows[i].id == id then Row(id, Apply(t.rows[i].data, input, now)) else t.rows[i]
    ensures Valid(t) && out.result.Success? ==>
              && (out.result.value.None? <==> !HasKey(t.rows, id))
              && forall x :: x in t.rows && x.id == id ==> out.result.value == Some(Row(id, Apply(x.data, input, now)))
  {
    if !PositiveId(id) then Written(Failure(Rejection(FormIdNotPositive)), t)
    else match ValidateUpdate(input)
    case Fail(e) => Written(Failure(e), t)
    case Pass =>
      if !HasChanges(input) then Written(Failure(Rejection(NoFormFields)), t)
      else
        var t' := Modify(t, id, d => Apply(d, input, now));
        assert Valid(t) ==> forall x :: x in t.rows && x.id == id ==> Row(id, Apply(x.data, input, now)) in t'.rows by {
          if Valid(t) {
            forall x | x in t.rows && x.id == id
              ensures Row(id, Apply(x.data, input, now)) in t'.rows
            {
              var i :| 0 <= i < |t.rows| && t.rows[i] == x;
              assert t'.rows[i] == Row(id, Apply(x.data, input, now));
            }
          }
        }
        assert HasKey(t'.rows, id) ==> HasKey(t.rows, id) by {
          if HasKey(t'.rows, id) {
            var y :| y in t'.rows && y.id == id;
            var i :| 0 <= i < |t'.rows| && t'.rows[i] == y;
            assert t.rows[i] in t.rows;
          }
        }
        Written(GetFormById(t', id), t')
  }

  /** A successful update writes exactly the present properties of the form:
      omitted ones keep their value, a present null clears a nullable column,
      name and status are stored trimmed, and `date_updated` becomes now. */
  lemma UpdateFormChangesOnlyGiven(t: Table<FormData>, id: int, input: UpdateInput, now: string, before: Form)
    requires Valid(t) && before in t.rows && before.id == id
    requires UpdateForm(t, id, input, now).result.Success?
    ensures var after := UpdateForm(t, id, input, now).result.value;
      && after.Some? && after.value.id == id
      && (input.name.Omitted? ==> after.value.data.name == before.data.name)
      && (input.name.Present? ==> after.value.data.name == Trim(input.name.value))
      && (input.status.Omitted? ==> after.value.data.status == before.data.status)
      && (input.status.Present? ==> after.value.data.status == Trim(input.status.value))
      && (input.description.Omitted? ==> after.value.data.description == before.data.description)
      && (input.description.NullValue? ==> after.value.data.description == None)
      && (input.datePublished.Omitted? ==> after.value.data.datePublished == before.data.datePublished)
      && (input.datePublished.NullValue? ==> after.value.data.datePublished == None)
      && (input.dateClosed.Omitted? ==> after.value.data.dateClosed == before.data.dateClosed)
      && (input.dateClosed.NullValue? ==> after.value.data.dateClosed == None)
      && after.value.data.dateCreated == before.data.dateCreated
      && after.value.data.dateUpdated == now
  {
  }

  /** An update with nothing present fails before writing, whatever the form. */
  lemma EmptyUpdateRejected(t: Table<FormData>, id: int, now: string)
    requires PositiveId(id)
    ensures var none := UpdateInput(Omitted, Omitted, Omitted, Omitted, Omitted);
      UpdateForm(t, id, none, now) == Written(Failure(Rejection(NoFormFields)), t)
  {
  }

  /** `deleteForm`. */
  function DeleteForm(t: Table<FormData>, id: int): (out: Written<(), FormData>)
    ensures !PositiveId(id) ==> out == Written(Failure(Rejection(FormIdNotPositive)), t)
    ensures PositiveId(id) ==> out.result.Success? && GetFormById(out.table, id) == Success(None)
    ensures forall x :: x in t.rows && x.id != id ==> x in out.table.rows
    ensures forall x :: x in out.table.rows ==> x in t.rows
    ensures Valid(t) ==> Valid(out.table)
  {
    if !PositiveId(id) then Written(Failure(Rejection(FormIdNotPositive)), t)
    else Written(Success(()), Remove(t, id))
  }
}
