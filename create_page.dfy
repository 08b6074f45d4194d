/**
 * The bill-creation page: a name and a list of participant names that the
 * user grows and shrinks with "Add Participant" and the per-row remove button,
 * and the list actually sent when the form is submitted.
 */
module CreatePage {
  import opened Folds
  import opened JsText
  import opened Validations

  /** The most participant rows the page lets the user have. */
  const MaxSubjects: nat := 10

  /** One click on the page: "Add Participant", or the remove button of row `index`. */
  datatype Edit = Add | Remove(index: nat)

  /**
   * The participant list after one click: `addSubject` appends an empty row
   * while there are fewer than ten; `removeSubject` drops row `index` while
   * there is more than one (a row past the end removes nothing, as `splice` does).
   */
  function ApplyEdit(subjects: seq<string>, e: Edit): seq<string>
  {
    match e
    case Add => if |subjects| < MaxSubjects then subjects + [""] else subjects
    case Remove(i) => if |subjects| > 1 && i < |subjects| then subjects[..i] + subjects[i + 1..] else subjects
  }

  /** The list after a sequence of clicks, in order. */
  function ApplyEdits(subjects: seq<string>, edits: seq<Edit>): seq<string>
    decreases |edits|
  {
    if edits == [] then subjects else ApplyEdits(ApplyEdit(subjects, edits[0]), edits[1..])
  }

  /** What one click does: refused at the bounds, otherwise one empty row more or row `i` fewer. */
  lemma ApplyEditEffect(subjects: seq<string>, e: Edit)
    ensures var r := ApplyEdit(subjects, e);
      match e
      case Add =>
        if |subjects| < MaxSubjects then |r| == |subjects| + 1 && r[..|subjects|] == subjects && r[|subjects|] == ""
        else r == subjects
      case Remove(i) =>
        if |subjects| > 1 && i < |subjects| then
          && |r| == |subjects| - 1
          && (forall j :: 0 <= j < i ==> r[j] == subjects[j])
          && (forall j :: i <= j < |r| ==> r[j] == subjects[j + 1])
        else r == subjects
  {
  }

  /** On a list the page can show, adding a row and removing it again gives back the list. */
  lemma AddThenRemove(subjects: seq<string>)
    requires 1 <= |subjects| < MaxSubjects
    ensures ApplyEdit(ApplyEdit(subjects, Add), Remove(|subjects|)) == subjects
  {
    var r := ApplyEdit(subjects, Add);
    assert r[..|subjects|] == subjects;
    assert r[|subjects| + 1..] == [];
  }

  /** No sequence of clicks takes the list out of 1..10 rows once it is in that range. */
  lemma {:induction false} EditsKeepBounds(subjects: seq<string>, edits: seq<Edit>)
    requires 1 <= |subjects| <= MaxSubjects
    ensures 1 <= |ApplyEdits(subjects, edits)| <= MaxSubjects
    decreases |edits|
  {
    if edits != [] {
      var next := ApplyEdit(subjects, edits[0]);
      ApplyEditEffect(subjects, edits[0]);
      EditsKeepBounds(next, edits[1..]);
    }
  }

  /** Every list the page can show satisfies the schema's "1 to 10 subjects" rule. */
  lemma ReachableListsHaveValidCount(edits: seq<Edit>)
    ensures 1 <= |ApplyEdits([""], edits)| <= MaxSubjects
  {
    EditsKeepBounds([""], edits);
  }

  /** A row counts as a participant when something is left after trimming. */
  predicate HasText(subject: string)
  {
    Trim(subject) != ""
  }

  /** `data.subjects.filter(subject => subject.trim() !== '')`: the names sent on submit. */
  function SubmittedSubjects(subjects: seq<string>): seq<string>
  {
    Filter(subjects, HasText)
  }

  /** A name is sent exactly when it is a row holding a character other than white space. */
  lemma SubmittedSubjectsMeaning(subjects: seq<string>)
    ensures forall x :: x in SubmittedSubjects(subjects) <==>
      x in subjects && exists i :: 0 <= i < |x| && !IsJsWhitespace(x[i])
  {
    FilterSound(subjects, HasText);
    forall x | x in subjects
      ensures x in SubmittedSubjects(subjects) <==> exists i :: 0 <= i < |x| && !IsJsWhitespace(x[i])
    {
      TrimEmptyIffBlank(x);
      FilterCount(subjects, HasText, x);
    }
  }

  /** Each named row is sent as often as it appears; blank rows are not sent at all. */
  lemma SubmittedSubjectsCount(subjects: seq<string>, x: string)
    ensures multiset(SubmittedSubjects(subjects))[x] == if HasText(x) then multiset(subjects)[x] else 0
  {
    FilterCount(subjects, HasText, x);
  }

  /** The filter keeps the rows' order: the rows above and below are filtered separately and joined. */
  lemma SubmittedSubjectsOrder(above: seq<string>, below: seq<string>)
    ensures SubmittedSubjects(above + below) == SubmittedSubjects(above) + SubmittedSubjects(below)
  {
    FilterAppend(above, below, HasText);
  }

  /** When every row holds a name, the list is sent unchanged. */
  lemma SubmittedSubjectsAllNamed(subjects: seq<string>)
    requires forall k :: 0 <= k < |subjects| ==> HasText(subjects[k])
    ensures SubmittedSubjects(subjects) == subjects
  {
    FilterAll(subjects, HasText);
  }

  /** A row of one space passes the schema's per-subject length rule and is still dropped before sending. */
  lemma BlankRowPassesSchema()
    ensures Elements([" "], SubjectIssues) == []
    ensures SubmittedSubjects([" "]) == []
  {
    BlankRowLength();
    BlankRowDropped();
  }

  lemma BlankRowLength()
    ensures Elements([" "], SubjectIssues) == []
  {
    ElementsEmpty([" "], SubjectIssues);
    assert SubjectIssues(0, " ") == [];
  }

  lemma BlankRowDropped()
    ensures SubmittedSubjects([" "]) == []
  {
    assert IsJsWhitespace(" "[0]);
    TrimEmptyIffBlank(" ");
    FilterNone([" "], HasText);
  }

  /** The form's state: the bill name and the participant rows. */
  class CreateForm {
    var name: string
    var subjects: seq<string>

    /** The rows the page may show. */
    predicate Valid()
      reads this
    {
      1 <= |subjects| <= MaxSubjects
    }

    /** `defaultValues`: an empty name and one empty row. */
    constructor ()
      ensures name == "" && subjects == [""]
      ensures Valid()
    {
      name := "";
      subjects := [""];
    }

    /** `addSubject`. */
    method AddSubject()
      modifies this
      ensures subjects == ApplyEdit(old(subjects), Add)
      ensures name == old(name)
      ensures old(Valid()) ==> Valid()
    {
      if |subjects| < MaxSubjects {
        subjects := subjects + [""];
      }
    }

    /** `removeSubject(index)`. */
    method RemoveSubject(index: nat)
      modifies this
      ensures subjects == ApplyEdit(old(subjects), Remove(index))
      ensures name == old(name)
      ensures old(Valid()) ==> Valid()
    {
      if |subjects| > 1 && index < |subjects| {
        subjects := subjects[..index] + subjects[index + 1..];
      }
    }
  }
}
