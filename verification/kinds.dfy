/** The three answer types the front end knows: the editor's `FieldType` and
    the public page's normalised `answer_type` are the same three words. */
module FieldKinds {

  datatype FieldType = FreeText | Checkbox | Radio

  /** The word the program uses for each type. */
  function Name(t: FieldType): string {
    match t
    case FreeText => "text"
    case Checkbox => "checkbox"
    case Radio => "radio"
  }

  /** The public page's normalisation of a stored `answer_type`: "checkbox"
      and "radio" are kept, every other word reads as "text". */
  function Normalise(answerType: string): (t: FieldType)
    ensures t == Checkbox <==> answerType == "checkbox"
    ensures t == Radio <==> answerType == "radio"
    ensures t == FreeText <==> answerType != "checkbox" && answerType != "radio"
  {
    if answerType == "checkbox" then Checkbox
    else if answerType == "radio" then Radio
    else FreeText
  }

  /** Normalising a type's own word gives the type back, and the three words
      are distinct. */
  lemma NormaliseName(t: FieldType)
    ensures Normalise(Name(t)) == t
  {
    match t
    case FreeText =>
      assert Name(t)[0] == 't';
    case Checkbox =>
    case Radio =>
  }
}
