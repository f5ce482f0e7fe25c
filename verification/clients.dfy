/** The client (respondent) repository of `database/clients.ts`. */
module Clients {
  import opened Wrappers
  import opened Text
  import opened Email
  import opened Js
  import opened Errors
  import opened Messages
  import opened Tables

  /** The columns of a `clients` row; the key is the row's `id` (`client_id`). */
  datatype ClientData = ClientData(
    name: string,
    email: string,
    formId: Option<int>,
    dateResponded: string)

  type Client = Row<ClientData>

  /** `CreateClientInput`. */
  datatype CreateInput = CreateInput(
    name: Prop<string>,
    email: Prop<string>,
    formId: Prop<int>,
    dateResponded: Prop<string>)

  /** `UpdateClientInput`: every property may be omitted. */
  datatype UpdateInput = UpdateInput(
    name: Prop<string>,
    email: Prop<string>,
    formId: Prop<int>,
    dateResponded: Prop<string>)


  /** `validateEmail`: the minimal e-mail shape. */
  function ValidateEmail(email: string): (r: Outcome<DatabaseError>)
    ensures r.Pass? <==> RegexAccepts(email)
    ensures r.Fail? ==> r.error == Rejection(EmailNotValid)
  {
    ValidEmailIsRegex(email);
    if ValidEmail(email) then Pass else Fail(Rejection(EmailNotValid))
  }

  /** A form id, when present and not null, is a positive integer: a value of
      another type fails `Number.isInteger`. */
  predicate FormIdAcceptable(p: Prop<int>) {
    p.Omitted? || p.NullValue? || (p.Present? && PositiveId(p.value))
  }

  /** `validateCreateClient`, in its order: name, email, e-mail shape of the
      trimmed address, form id, response date. */
  function ValidateCreate(input: CreateInput): (r: Outcome<DatabaseError>)
    ensures r.Pass? <==>
              && Filled(input.name)
              && Filled(input.email) && RegexAccepts(Trim(input.email.value))
              && FormIdAcceptable(input.formId)
              && Filled(input.dateResponded)
    ensures !Filled(input.name) ==> r == Fail(Rejection(ClientNameRequired))
    ensures Filled(input.name) && !Filled(input.email) ==> r == Fail(Rejection(ClientEmailRequired))
    ensures Filled(input.name) && Filled(input.email) && !RegexAccepts(Trim(input.email.value)) ==>
              r == Fail(Rejection(EmailNotValid))
    ensures (Filled(input.name) && Filled(input.email) && RegexAccepts(Trim(input.email.value))
             && !FormIdAcceptable(input.formId)) ==> r == Fail(Rejection(OptionalFormIdNotPositive))
    ensures (Filled(input.name) && Filled(input.email) && RegexAccepts(Trim(input.email.value))
             && FormIdAcceptable(input.formId) && !Filled(input.dateResponded)) ==>
              r == Fail(Rejection(DateRespondedRequired))
  {
    if !Filled(input.name) then Fail(Rejection(ClientNameRequired))
    else if !Filled(input.email) then Fail(Rejection(ClientEmailRequired))
    else if ValidateEmail(Trim(input.email.value)).Fail? then ValidateEmail(Trim(input.email.value))
    else if !FormIdAcceptable(input.formId) then Fail(Rejection(OptionalFormIdNotPositive))
    else if !Filled(input.dateResponded) then Fail(Rejection(DateRespondedRequired))
    else Pass
  }

  /** `validateUpdateClient`: present properties follow the create rules; a
      present e-mail is shape-checked after trimming. */
  function ValidateUpdate(input: UpdateInput): (r: Outcome<DatabaseError>)
    ensures r.Pass? <==>
              && FilledIfGiven(input.name)
              && FilledIfGiven(input.email)
              && (input.email.Present? ==> RegexAccepts(Trim(input.email.value)))
              && FormIdAcceptable(input.formId)
              && FilledIfGiven(input.dateResponded)
    ensures !FilledIfGiven(input.name) ==> r == Fail(Rejection(ClientNameNotEmpty))
    ensures FilledIfGiven(input.name) && !FilledIfGiven(input.email) ==> r == Fail(Rejection(EmailNotEmpty))
    ensures (FilledIfGiven(input.name) && input.email.Present? && !IsBlank(input.email.value)
             && !RegexAccepts(Trim(input.email.value))) ==> r == Fail(Rejection(EmailNotValid))
    ensures (FilledIfGiven(input.name) && FilledIfGiven(input.email)
             && (input.email.Present? ==> RegexAccepts(Trim(input.email.value)))
             && !FormIdAcceptable(input.formId)) ==> r == Fail(Rejection(OptionalFormIdNotPositive))
    ensures (FilledIfGiven(input.name) && FilledIfGiven(input.email)
             && (input.email.Present? ==> RegexAccepts(Trim(input.email.value)))
             && FormIdAcceptable(input.formId) && !FilledIfGiven(input.dateResponded)) ==>
              r == Fail(Rejection(DateRespondedNotEmpty))
  {
    if !FilledIfGiven(input.name) then
      Fail(Rejection(ClientNameNotEmpty))
    else if !FilledIfGiven(input.email) then
      Fail(Rejection(EmailNotEmpty))
    else if input.email.Present? && ValidateEmail(Trim(input.email.value)).Fail? then
      ValidateEmail(Trim(input.email.value))
    else if !FormIdAcceptable(input.formId) then Fail(Rejection(OptionalFormIdNotPositive))
    else if !FilledIfGiven(input.dateResponded) then
      Fail(Rejection(DateRespondedNotEmpty))
    else Pass
  }

  /** `getClientById`. */
  function GetClientById(t: Table<ClientData>, id: int): (r: Result<Option<Client>, DatabaseError>)
    ensures !PositiveId(id) ==> r == Failure(Rejection(ClientIdNotPositive))
    ensures PositiveId(id) ==> r.Success?
    ensures r.Success? && r.value.Some? ==> r.value.value in t.rows && r.value.value.id == id
    ensures r.Success? ==> (r.value.None? <==> !HasKey(t.rows, id))
  {
    if !PositiveId(id) then Failure(Rejection(ClientIdNotPositive)) else Success(Find(t.rows, id))
  }

  /** `createClient`: validate, insert name, e-mail and date trimmed and the
      form id or null, and return the row read back by its new key. */
  function CreateClient(t: Table<ClientData>, input: CreateInput): (out: Written<Client, ClientData>)
    ensures ValidateCreate(input).Fail? ==> out == Written(Failure(ValidateCreate(input).error), t)
    ensures Valid(t) ==> Valid(out.table)
    ensures Valid(t) && ValidateCreate(input).Pass? ==>
              && out.result.Success?
              && out.result.value.id == t.nextId
              && out.result.value.data.name == Trim(input.name.value)
              && out.result.value.data.email == Trim(input.email.value)
              && out.result.value.data.formId == OrNull(input.formId)
              && out.result.value.data.dateResponded == Trim(input.dateResponded.value)
              && out.table == Table(t.rows + [out.result.value], t.nextId + 1)
    ensures Valid(t) && out.result.Success? ==>
              GetClientById(out.table, out.result.value.id) == Success(Some(out.result.value))
  {
    match ValidateCreate(input)
    case Fail(e) => Written(Failure(e), t)
    case Pass =>
      var row := ClientData(Trim(input.name.value), Trim(input.email.value), OrNull(input.formId),
                            Trim(input.dateResponded.value));
      var t' := Insert(t, row);
      match GetClientById(t', t.nextId)
      case Failure(e) => Written(Failure(e), t')
      case Success(None) => Written(Failure(Rejection(ClientNotLoaded)), t')
      case Success(Some(c)) => Written(Success(c), t')
  }

  /** The `date_responded` column, the key of `getClientsByFormId`' ordering. */
  function RespondedAt(d: ClientData): string {
    d.dateResponded
  }

  /** `getClientsByFormId`: exactly the form's clients, most recent response first. */
  function GetClientsByFormId(t: Table<ClientData>, formId: int): (r: Result<seq<Client>, DatabaseError>)
    ensures !PositiveId(formId) ==> r == Failure(Rejection(FormIdParamNotPositive))
    ensures PositiveId(formId) ==> r.Success?
    ensures r.Success? ==> forall x :: x in r.value ==> x in t.rows && x.data.formId == Some(formId)
    ensures r.Success? ==> forall x :: x in t.rows && x.data.formId == Some(formId) ==> x in r.value
    ensures r.Success? ==> |r.value| == |Where(t.rows, (d: ClientData) => d.formId == Some(formId))|
    ensures r.Success? ==> SortedDesc(r.value, RespondedAt)
  {
    if !PositiveId(formId) then Failure(Rejection(FormIdParamNotPositive))
    else
      var matching := Where(t.rows, (d: ClientData) => d.formId == Some(formId));
      var sorted := SortDesc(matching, RespondedAt);
      assert forall x :: x in sorted ==> x in matching by {
        forall x | x in sorted
          ensures x in matching
        {
          assert x in multiset(sorted);
        }
      }
      assert forall x :: x in matching ==> x in sorted by {
        forall x | x in matching
          ensures x in sorted
        {
          assert x in multiset(matching);
        }
      }
      assert |sorted| == |multiset(sorted)| == |multiset(matching)| == |matching|;
      Success(sorted)
  }

  /** The submission workflow's duplicate test: the address, trimmed, and
      the form id match a stored client exactly (case matters). */
  predicate SameRespondent(d: ClientData, email: string, formId: int) {
    d.email == Trim(email) && d.formId == Some(formId)
  }

  /** `getClientByEmailAndFormId`. */
  function GetClientByEmailAndFormId(t: Table<ClientData>, email: string, formId: int): (r: Result<Option<Client>, DatabaseError>)
    ensures IsBlank(email) ==> r == Failure(Rejection(EmailRequired))
    ensures !IsBlank(email) && !PositiveId(formId) ==> r == Failure(Rejection(FormIdParamNotPositive))
    ensures r.Success? <==> !IsBlank(email) && PositiveId(formId)
    ensures r.Success? && r.value.Some? ==> r.value.value in t.rows && SameRespondent(r.value.value.data, email, formId)
    ensures r.Success? && r.value.None? ==> forall x :: x in t.rows ==> !SameRespondent(x.data, email, formId)
  {
    if IsBlank(email) then Failure(Rejection(EmailRequired))
    else if !PositiveId(formId) then Failure(Rejection(FormIdParamNotPositive))
    else Success(FirstWhere(t.rows, (d: ClientData) => SameRespondent(d, email, formId)))
  }

  /** Some property of the update is present. */
  predicate HasChanges(input: UpdateInput) {
    !input.name.Omitted? || !input.email.Omitted? || !input.formId.Omitted? || !input.dateResponded.Omitted?
  }

  /** The columns after `updateClient`'s `SET` list (no timestamp is stamped). */
  function Apply(d: ClientData, input: UpdateInput): ClientData {
    ClientData(
      if input.name.Present? then Trim(input.name.value) else d.name,
      if input.email.Present? then Trim(input.email.value) else d.email,
      Patched(d.formId, input.formId),
      if input.dateResponded.Present? then Trim(input.dateResponded.value) else d.dateResponded)
  }

  /** `updateClient`. */
  function UpdateClient(t: Table<ClientData>, id: int, input: UpdateInput): (out: Written<Option<Client>, ClientData>)
    ensures out.result.Failure? ==> out.table == t
    ensures !PositiveId(id) ==> out.result == Failure(Rejection(ClientIdNotPositive))
    ensures PositiveId(id) && ValidateUpdate(input).Fail? ==> out == Written(Failure(ValidateUpdate(input).error), t)
    ensures out.result.Success? <==> PositiveId(id) && ValidateUpdate(input).Pass? && HasChanges(input)
    ensures PositiveId(id) && ValidateUpdate(input).Pass? && !HasChanges(input) ==>
              out.result == Failure(Rejection(NoClientFields))
    ensures Valid(t) ==> Valid(out.table)
    ensures out.result.Success? ==>
              && |out.table.rows| == |t.rows|
              && forall i :: 0 <= i < |t.rows| ==>
                   out.table.rows[i] == if t.rows[i].id == id then Row(id, Apply(t.rows[i].data, input)) else t.rows[i]
    ensures Valid(t) && out.result.Success? ==>
              && (out.result.value.None? <==> !HasKey(t.rows, id))
              && forall x :: x in t.rows && x.id == id ==> out.result.value == Some(Row(id, Apply(x.data, input)))
  {
    if !PositiveId(id) then Written(Failure(Rejection(ClientIdNotPositive)), t)
    else match ValidateUpdate(input)
    case Fail(e) => Written(Failure(e), t)
    case Pass =>
      if !HasChanges(input) then Written(Failure(Rejection(NoClientFields)), t)
      else
        var t' := Modify(t, id, d => Apply(d, input));
        assert Valid(t) ==> forall x :: x in t.rows && x.id == id ==> Row(id, Apply(x.data, input)) in t'.rows by {
          if Valid(t) {
            forall x | x in t.rows && x.id == id
              ensures Row(id, Apply(x.data, input)) in t'.rows
            {
              var i :| 0 <= i < |t.rows| && t.rows[i] == x;
              assert t'.rows[i] == Row(id, Apply(x.data, input));
            }
          }
        }
        assert HasKey(t'.rows, id) ==> HasKey(t.rows, id) by {
          if HasKey(t'.rows, id) {
            var y :| y in t'.rows && y.id == id;
            var i :| 0 <= i < |t'.rows| && t'.rows[i] == y;
            assert t.rows[i] in t.rows;
          }
        }
        Written(GetClientById(t', id), t')
  }

  /** A successful update writes exactly the present properties: omitted
      ones keep their value, a present null clears the form link, texts are
      stored trimmed, and no other column (no timestamp) changes. */
  lemma UpdateClientChangesOnlyGiven(t: Table<ClientData>, id: int, input: UpdateInput, before: Client)
    requires Valid(t) && before in t.rows && before.id == id
    requires UpdateClient(t, id, input).result.Success?
    ensures var after := UpdateClient(t, id, input).result.value;
      && after.Some? && after.value.id == id
      && (input.name.Omitted? ==> after.value.data.name == before.data.name)
      && (input.name.Present? ==> after.value.data.name == Trim(input.name.value))
      && (input.email.Omitted? ==> after.value.data.email == before.data.email)
      && (input.email.Present? ==> after.value.data.email == Trim(input.email.value)
                                   && RegexAccepts(after.value.data.email))
      && (input.formId.Omitted? ==> after.value.data.formId == before.data.formId)
      && (input.formId.NullValue? ==> after.value.data.formId == None)
      && (input.formId.Present? ==> after.value.data.formId == Some(input.formId.value))
      && (input.dateResponded.Omitted? ==> after.value.data.dateResponded == before.data.dateResponded)
      && (input.dateResponded.Present? ==> after.value.data.dateResponded == Trim(input.dateResponded.value))
  {
  }

  /** An update with nothing present fails before writing. */
  lemma EmptyUpdateRejected(t: Table<ClientData>, id: int)
    requires PositiveId(id)
    ensures UpdateClient(t, id, UpdateInput(Omitted, Omitted, Omitted, Omitted))
            == Written(Failure(Rejection(NoClientFields)), t)
  {
  }

  /** `deleteClient`. */
  function DeleteClient(t: Table<ClientData>, id: int): (out: Written<(), ClientData>)
    ensures !PositiveId(id) ==> out == Written(Failure(Rejection(ClientIdNotPositive)), t)
    ensures PositiveId(id) ==> out.result.Success? && GetClientById(out.table, id) == Success(None)
    ensures forall x :: x in t.rows && x.id != id ==> x in out.table.rows
    ensures forall x :: x in out.table.rows ==> x in t.rows
    ensures Valid(t) ==> Valid(out.table)
  {
    if !PositiveId(id) then Written(Failure(Rejection(ClientIdNotPositive)), t)
    else Written(Success(()), Remove(t, id))
  }
}
