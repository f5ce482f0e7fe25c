/** The question-list reducers of the form editor page (`FormEditor.tsx`):
    each takes the current list of questions and returns the next one. Fresh
    question ids, which the page draws from `crypto.randomUUID()`, are
    parameters. */
module FormEditor {
  import opened Wrappers
  import opened FieldKinds

  /** `FormField`: a question being edited. */
  datatype EditorField = EditorField(id: string, question: string, kind: FieldType, options: seq<string>)

  /** `Partial<FormField>`: the properties an update overwrites. */
  datatype FieldPatch = FieldPatch(
    id: Option<string>,
    question: Option<string>,
    kind: Option<FieldType>,
    options: Option<seq<string>>)

  /** `createField()`: an empty free-text question. */
  function NewField(id: string): EditorField {
    EditorField(id, "", FreeText, [])
  }

  /** The editor's starting state: a single empty question. */
  function Initial(id: string): seq<EditorField> {
    [NewField(id)]
  }

  /** `{ ...f, ...updates }`: every property the patch carries replaces the
      field's own. */
  function Merge(f: EditorField, patch: FieldPatch): (r: EditorField)
    ensures patch.id.Some? ==> r.id == patch.id.value
    ensures patch.id.None? ==> r.id == f.id
    ensures patch.question.Some? ==> r.question == patch.question.value
    ensures patch.question.None? ==> r.question == f.question
    ensures patch.kind.Some? ==> r.kind == patch.kind.value
    ensures patch.kind.None? ==> r.kind == f.kind
    ensures patch.options.Some? ==> r.options == patch.options.value
    ensures patch.options.None? ==> r.options == f.options
  {
    EditorField(
      if patch.id.Some? then patch.id.value else f.id,
      if patch.question.Some? then patch.question.value else f.question,
      if patch.kind.Some? then patch.kind.value else f.kind,
      if patch.options.Some? then patch.options.value else f.options)
  }

  /** `prev.map(f => f.id === id ? g(f) : f)`: the shape every per-question
      reducer shares. */
  function MapMatching(fields: seq<EditorField>, id: string, g: EditorField -> EditorField): (r: seq<EditorField>)
    ensures |r| == |fields|
    ensures forall i :: 0 <= i < |fields| && fields[i].id != id ==> r[i] == fields[i]
    ensures forall i :: 0 <= i < |fields| && fields[i].id == id ==> r[i] == g(fields[i])
  {
    if |fields| == 0 then []
    else [if fields[0].id == id then g(fields[0]) else fields[0]] + MapMatching(fields[1..], id, g)
  }

  /** `updateField(id, updates)`. */
  function UpdateField(fields: seq<EditorField>, id: string, patch: FieldPatch): (r: seq<EditorField>)
    ensures |r| == |fields|
    ensures forall i :: 0 <= i < |fields| && fields[i].id != id ==> r[i] == fields[i]
    ensures forall i :: 0 <= i < |fields| && fields[i].id == id ==> r[i] == Merge(fields[i], patch)
  {
    MapMatching(fields, id, (f: EditorField) => Merge(f, patch))
  }

  /** `setFieldQuestion(id, question)`: only the matching question's text changes. */
  function SetFieldQuestion(fields: seq<EditorField>, id: string, question: string): (r: seq<EditorField>)
    ensures |r| == |fields|
    ensures forall i :: 0 <= i < |fields| && fields[i].id != id ==> r[i] == fields[i]
    ensures forall i :: 0 <= i < |fields| && fields[i].id == id ==> r[i] == fields[i].(question := question)
  {
    UpdateField(fields, id, FieldPatch(None, Some(question), None, None))
  }

  /** The options a question keeps when its type becomes `kind`. */
  function OptionsFor(kind: FieldType, options: seq<string>): (r: seq<string>)
    ensures kind == FreeText ==> r == []
    ensures kind != FreeText ==> |r| >= 1
    ensures kind != FreeText && options != [] ==> r == options
  {
    if kind == FreeText then [] else if |options| > 0 then options else [""]
  }

  /** `setFieldType(id, type)`: the matching question takes the new type; a
      free-text question has no options, a choice question keeps its options
      or, having none, gets one empty option. */
  function SetFieldType(fields: seq<EditorField>, id: string, kind: FieldType): (r: seq<EditorField>)
    ensures |r| == |fields|
    ensures forall i :: 0 <= i < |fields| && fields[i].id != id ==> r[i] == fields[i]
    ensures forall i :: 0 <= i < |fields| && fields[i].id == id ==>
              r[i] == fields[i].(kind := kind, options := OptionsFor(kind, fields[i].options))
  {
    MapMatching(fields, id, (f: EditorField) => f.(kind := kind, options := OptionsFor(kind, f.options)))
  }

  /** `next[index] = value` on a copy of the options: an index inside the list
      replaces that option; a negative index names no element, so the
      elements stay as they were. */
  function ReplaceOption(options: seq<string>, index: int, value: string): (r: seq<string>)
    requires index < |options|
    ensures |r| == |options|
    ensures forall k :: 0 <= k < |options| && k != index ==> r[k] == options[k]
    ensures 0 <= index ==> r[index] == value
  {
    if index < 0 then options else options[index := value]
  }

  /** `setFieldOption(fieldId, index, value)`. */
  function SetFieldOption(fields: seq<EditorField>, id: string, index: int, value: string): (r: seq<EditorField>)
    requires forall f :: f in fields && f.id == id ==> index < |f.options|
    ensures |r| == |fields|
    ensures forall i :: 0 <= i < |fields| && fields[i].id != id ==> r[i] == fields[i]
    ensures forall i :: 0 <= i < |fields| && fields[i].id == id ==>
              && r[i].id == id && r[i].question == fields[i].question && r[i].kind == fields[i].kind
              && |r[i].options| == |fields[i].options|
              && (0 <= index ==> r[i].options[index] == value)
              && forall k :: 0 <= k < |fields[i].options| && k != index ==> r[i].options[k] == fields[i].options[k]
  {
    var g := (f: EditorField) => if index < |f.options| then f.(options := ReplaceOption(f.options, index, value)) else f;
    var r := MapMatching(fields, id, g);
    assert forall i :: 0 <= i < |fields| && fields[i].id == id ==> fields[i] in fields && index < |fields[i].options|;
    r
  }

  /** `addOption(fieldId)`: an empty option is appended. */
  function AddOption(fields: seq<EditorField>, id: string): (r: seq<EditorField>)
    ensures |r| == |fields|
    ensures forall i :: 0 <= i < |fields| && fields[i].id != id ==> r[i] == fields[i]
    ensures forall i :: 0 <= i < |fields| && fields[i].id == id ==> r[i] == fields[i].(options := fields[i].options + [""])
  {
    MapMatching(fields, id, (f: EditorField) => f.(options := f.options + [""]))
  }

  /** `options.filter((_, i) => i !== index)`. */
  function Without(options: seq<string>, index: int): (r: seq<string>)
    ensures 0 <= index < |options| ==>
              && |r| == |options| - 1
              && (forall k :: 0 <= k < index ==> r[k] == options[k])
              && (forall k :: index <= k < |r| ==> r[k] == options[k + 1])
    ensures !(0 <= index < |options|) ==> r == options
  {
    if 0 <= index < |options| then options[..index] + options[index + 1..] else options
  }

  /** The option list after removing position `index`: never empty, a single
      empty option standing in when the last one goes. */
  function RemainingOptions(options: seq<string>, index: int): (r: seq<string>)
    ensures |r| >= 1
    ensures |Without(options, index)| > 0 ==> r == Without(options, index)
    ensures |Without(options, index)| == 0 ==> r == [""]
  {
    var next := Without(options, index);
    if |next| > 0 then next else [""]
  }

  /** `removeOption(fieldId, index)`. */
  function RemoveOption(fields: seq<EditorField>, id: string, index: int): (r: seq<EditorField>)
    ensures |r| == |fields|
    ensures forall i :: 0 <= i < |fields| && fields[i].id != id ==> r[i] == fields[i]
    ensures forall i :: 0 <= i < |fields| && fields[i].id == id ==>
              r[i] == fields[i].(options := RemainingOptions(fields[i].options, index))
  {
    MapMatching(fields, id, (f: EditorField) => f.(options := RemainingOptions(f.options, index)))
  }

  /** `addField()`: a new empty question at the end. */
  function AddField(fields: seq<EditorField>, newId: string): (r: seq<EditorField>)
    ensures |r| == |fields| + 1
    ensures r[..|fields|] == fields && r[|fields|] == NewField(newId)
  {
    fields + [NewField(newId)]
  }

  /** `prev.filter(f => f.id !== id)`. */
  function DropId(fields: seq<EditorField>, id: string): (r: seq<EditorField>)
    ensures forall f :: f in r <==> f in fields && f.id != id
    ensures |r| <= |fields|
  {
    if |fields| == 0 then []
    else if fields[0].id == id then DropId(fields[1..], id)
    else [fields[0]] + DropId(fields[1..], id)
  }

  /** A single question is kept exactly when its id differs. */
  lemma DropIdSingle(f: EditorField, id: string)
    ensures DropId([f], id) == if f.id == id then [] else [f]
  {
    assert [f][1..] == [];
  }

  /** Filtering two lists one after the other is filtering each: the kept
      questions keep their order and their repetitions. */
  lemma {:induction false} DropIdAppend(a: seq<EditorField>, b: seq<EditorField>, id: string)
    ensures DropId(a + b, id) == DropId(a, id) + DropId(b, id)
  {
    if |a| == 0 {
      assert a + b == b;
    } else {
      assert (a + b)[1..] == a[1..] + b;
      DropIdAppend(a[1..], b, id);
    }
  }

  /** `removeField(id)`: the last remaining question cannot be removed. */
  function RemoveField(fields: seq<EditorField>, id: string): (r: seq<EditorField>)
    ensures |fields| <= 1 ==> r == fields
    ensures |fields| > 1 ==> r == DropId(fields, id)
    ensures |fields| > 1 ==> forall f :: f in r <==> f in fields && f.id != id
  {
    if |fields| <= 1 then fields else DropId(fields, id)
  }

  /** The page's edits, as the reducers they dispatch. */
  datatype Action =
    | SetQuestion(id: string, question: string)
    | SetType(id: string, kind: FieldType)
    | SetOption(id: string, index: int, value: string)
    | AddOptionTo(id: string)
    | RemoveOptionAt(id: string, index: int)
    | AddQuestion(newId: string)
    | RemoveQuestion(id: string)

  /** The page only edits options it displays. */
  predicate Applicable(fields: seq<EditorField>, a: Action) {
    a.SetOption? ==> forall f :: f in fields && f.id == a.id ==> a.index < |f.options|
  }

  /** The list after one edit. */
  function Step(fields: seq<EditorField>, a: Action): seq<EditorField>
    requires Applicable(fields, a)
  {
    match a
    case SetQuestion(id, question) => SetFieldQuestion(fields, id, question)
    case SetType(id, kind) => SetFieldType(fields, id, kind)
    case SetOption(id, index, value) => SetFieldOption(fields, id, index, value)
    case AddOptionTo(id) => AddOption(fields, id)
    case RemoveOptionAt(id, index) => RemoveOption(fields, id, index)
    case AddQuestion(newId) => AddField(fields, newId)
    case RemoveQuestion(id) => RemoveField(fields, id)
  }

  /** No two questions share an id. */
  predicate UniqueIds(fields: seq<EditorField>) {
    forall i, j :: 0 <= i < j < |fields| ==> fields[i].id != fields[j].id
  }

  /** Every checkbox or radio question offers at least one option. */
  predicate ChoicesOffered(fields: seq<EditorField>) {
    forall i :: 0 <= i < |fields| && fields[i].kind != FreeText ==> |fields[i].options| > 0
  }

  /** What the editor keeps true: at least one question, distinct ids, and
      an option for every choice question. */
  predicate Good(fields: seq<EditorField>) {
    |fields| > 0 && UniqueIds(fields) && ChoicesOffered(fields)
  }

  /** A new question's id is not already in use (what `randomUUID` gives). */
  predicate FreshId(fields: seq<EditorField>, a: Action) {
    a.AddQuestion? ==> forall f :: f in fields ==> f.id != a.newId
  }

  /** The editor starts in a good state, with exactly one question. */
  lemma InitialGood(id: string)
    ensures Good(Initial(id)) && |Initial(id)| == 1
  {
  }

  /** Reducers that only rewrite questions in place keep the ids in order. */
  lemma InPlaceKeepsIds(fields: seq<EditorField>, r: seq<EditorField>)
    requires |r| == |fields|
    requires forall i :: 0 <= i < |fields| ==> r[i].id == fields[i].id
    requires UniqueIds(fields)
    ensures UniqueIds(r)
  {
  }

  /** Removing a question by id from a list with distinct ids of two or more
      questions removes at most one of them, so one is left. */
  lemma {:induction false} DropIdKeepsOne(fields: seq<EditorField>, id: string)
    requires UniqueIds(fields) && |fields| > 1
    ensures |DropId(fields, id)| > 0
  {
    if fields[0].id == id {
      assert fields[1] in fields[1..] && fields[1].id != id;
    } else {
      assert fields[0] in DropId(fields, id);
    }
  }

  /** Distinct ids are what keeps the list non-empty: two questions sharing
      an id are removed together. */
  lemma SharedIdEmptiesList(id: string)
    ensures RemoveField([NewField(id), NewField(id)], id) == []
  {
    var fields := [NewField(id), NewField(id)];
    assert DropId(fields[1..][1..], id) == [];
    assert DropId(fields[1..], id) == [];
  }

  /** Removing questions by id keeps the remaining ids distinct. */
  lemma {:induction false} DropIdUnique(fields: seq<EditorField>, id: string)
    requires UniqueIds(fields)
    ensures UniqueIds(DropId(fields, id))
  {
    if |fields| > 0 {
      DropIdUnique(fields[1..], id);
      var rest := DropId(fields[1..], id);
      if fields[0].id != id {
        var r := [fields[0]] + rest;
        forall i, j | 0 <= i < j < |r|
          ensures r[i].id != r[j].id
        {
          if i == 0 {
            assert r[j] in rest;
            assert r[j] in fields[1..];
            var k :| 0 <= k < |fields[1..]| && fields[1..][k] == r[j];
            assert fields[k + 1] == r[j];
          } else {
            assert r[i] == rest[i - 1] && r[j] == rest[j - 1];
          }
        }
      }
    }
  }

  /** Every edit the page can make keeps the editor's invariant; in
      particular the question list never becomes empty. */
  lemma StepKeepsGood(fields: seq<EditorField>, a: Action)
    requires Good(fields) && Applicable(fields, a) && FreshId(fields, a)
    ensures Good(Step(fields, a))
  {
    var r := Step(fields, a);
    match a
    case AddQuestion(newId) =>
      forall i, j | 0 <= i < j < |r|
        ensures r[i].id != r[j].id
      {
        if j == |fields| {
          assert fields[i] in fields;
        }
      }
    case RemoveQuestion(id) =>
      if |fields| > 1 {
        DropIdKeepsOne(fields, id);
        DropIdUnique(fields, id);
        forall i | 0 <= i < |r| && r[i].kind != FreeText
          ensures |r[i].options| > 0
        {
          assert r[i] in r;
          var k :| 0 <= k < |fields| && fields[k] == r[i];
        }
      }
    case SetOption(id, index, value) =>
      InPlaceKeepsIds(fields, r);
    case SetQuestion(id, question) =>
      InPlaceKeepsIds(fields, r);
    case SetType(id, kind) =>
      InPlaceKeepsIds(fields, r);
    case AddOptionTo(id) =>
      InPlaceKeepsIds(fields, r);
    case RemoveOptionAt(id, index) =>
      InPlaceKeepsIds(fields, r);
  }

  /** A run of edits, each applicable where it happens, each new question
      with a fresh id. */
  predicate Playable(fields: seq<EditorField>, actions: seq<Action>)
    decreases |actions|
  {
    |actions| == 0
    || (Applicable(fields, actions[0]) && FreshId(fields, actions[0])
        && Playable(Step(fields, actions[0]), actions[1..]))
  }

  /** The list after a run of edits. */
  function Run(fields: seq<EditorField>, actions: seq<Action>): seq<EditorField>
    requires Playable(fields, actions)
    decreases |actions|
  {
    if |actions| == 0 then fields else Run(Step(fields, actions[0]), actions[1..])
  }

  /** However the user edits, starting from the initial question, the list
      always has a question, distinct ids, and options for every choice
      question. */
  lemma {:induction false} RunKeepsGood(fields: seq<EditorField>, actions: seq<Action>)
    requires Good(fields) && Playable(fields, actions)
    ensures Good(Run(fields, actions))
    decreases |actions|
  {
    if |actions| > 0 {
      StepKeepsGood(fields, actions[0]);
      RunKeepsGood(Step(fields, actions[0]), actions[1..]);
    }
  }

  /** Whatever the user does, the page never shows an empty question list. */
  lemma EditorNeverEmpty(id: string, actions: seq<Action>)
    requires Playable(Initial(id), actions)
    ensures |Run(Initial(id), actions)| > 0
  {
    InitialGood(id);
    RunKeepsGood(Initial(id), actions);
  }
}
