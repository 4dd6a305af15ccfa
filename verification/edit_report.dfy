/**
 * The edit dialog for one report: an editable copy of the report, field updates, and
 * `validate`, which records one error per failing field and allows saving only when
 * none was recorded.
 */
module EditReport {
  import opened Options
  import opened Text
  import opened Reports

  const ViolenceTypes: seq<string> := [
    "Physical Violence",
    "Psychological Violence",
    "Sexual Violence",
    "Workplace Violence",
    "Discrimination"
  ]

  const AgeMessage: string := "Age must be a number greater than zero."
  const CategoryMessage: string := "Select a valid type of violence."
  const DescriptionMessage: string := "Description must be at least 10 characters."

  /** The dialog's `formData`: seven fields of the report; the legacy `id` is not among them. */
  datatype EditForm = EditForm(
    dbId: IdField,
    userEmail: string,
    age: Age,
    date: Stamp,
    category: string,
    description: string,
    zone: string
  )

  /** The `errors` object: one optional message per checked field. */
  datatype FormErrors = FormErrors(age: Option<string>, category: Option<string>, description: Option<string>)

  const NoErrors: FormErrors := FormErrors(None, None, None)

  /** The fields with an enabled input whose `onChange` is `handleChange`. */
  datatype EditableField = CategoryField | DescriptionField

  function InitialForm(r: Report): EditForm {
    EditForm(r.dbId, r.userEmail, r.age, r.date, r.category, r.description, r.zone)
  }

  /** The initial form is a field-for-field copy of the seven fields, and nothing else of the report. */
  lemma InitialFormCopies(r: Report, legacy: Option<string>)
    ensures var f := InitialForm(r);
      && f.dbId == r.dbId && f.userEmail == r.userEmail && f.age == r.age && f.date == r.date
      && f.category == r.category && f.description == r.description && f.zone == r.zone
    ensures InitialForm(r.(id := legacy)) == InitialForm(r)
  {
  }

  /** `handleChange`: `{ ...formData, [name]: value }`. */
  function Change(f: EditForm, field: EditableField, value: string): EditForm {
    match field
    case CategoryField => f.(category := value)
    case DescriptionField => f.(description := value)
  }

  /** The errors `validate` records for a form; `!formData.age` holds for an undefined, `null` or zero age. */
  function Validation(f: EditForm): FormErrors {
    FormErrors(
      if !f.age.Years? || f.age.n <= 0 then Some(AgeMessage) else None,
      if f.category !in ViolenceTypes then Some(CategoryMessage) else None,
      if Utf16Length(Trim(f.description)) < 10 then Some(DescriptionMessage) else None
    )
  }

  /**
   * `validate()` returns true exactly when the age is present and positive, the category
   * is one of the five violence types and the trimmed description is at least 10 UTF-16 code units long.
   */
  lemma ValidationAccepts(f: EditForm)
    ensures Validation(f) == NoErrors <==>
      && f.age.Years? && f.age.n > 0
      && f.category in ViolenceTypes
      && Utf16Length(Trim(f.description)) >= 10
  {
  }

  /** Editing one field leaves every other field, and the verdicts on the other fields, unchanged. */
  lemma ChangeIsolated(f: EditForm, field: EditableField, value: string)
    ensures var g := Change(f, field, value);
      && g.dbId == f.dbId && g.userEmail == f.userEmail && g.age == f.age
      && g.date == f.date && g.zone == f.zone
      && (field == CategoryField ==> g.description == f.description && g.category == value)
      && (field == DescriptionField ==> g.category == f.category && g.description == value)
      && Validation(g).age == Validation(f).age
      && (field == CategoryField ==> Validation(g).description == Validation(f).description)
      && (field == DescriptionField ==> Validation(g).category == Validation(f).category)
  {
  }

  /** A description of ten spaces is too short: only the trimmed text counts. */
  lemma BlankDescriptionRejected(f: EditForm)
    requires f.description == "          "
    ensures Validation(f).description == Some(DescriptionMessage)
  {
    assert AllSpace(f.description);
  }

  /**
   * `.length` counts UTF-16 code units: five emoji make a description of length 10, long
   * enough to save.
   */
  lemma EmojiDescriptionAccepted(f: EditForm)
    requires f.description == "\U{1F600}\U{1F600}\U{1F600}\U{1F600}\U{1F600}"
    ensures Validation(f).description.None?
  {
    var d := f.description;
    assert !IsSpace(d[0]) && !IsSpace(d[4]);
    TrimUnchanged(d);
    assert forall i :: 0 <= i < |d| ==> Astral(d[i]);
    assert Utf16Length(d) == 10;
  }

  /** Four emoji and a letter have length 9, one unit short of the minimum. */
  lemma EmojiDescriptionRejected(f: EditForm)
    requires f.description == "\U{1F600}\U{1F600}\U{1F600}\U{1F600}a"
    ensures Validation(f).description == Some(DescriptionMessage)
  {
    var d := f.description;
    assert !IsSpace(d[0]) && !IsSpace(d[4]);
    TrimUnchanged(d);
    var emoji, letter := d[..4], d[4..];
    assert d == emoji + letter;
    assert forall i :: 0 <= i < |emoji| ==> Astral(emoji[i]);
    assert !Astral(letter[0]);
    Utf16LengthAppend(emoji, letter);
  }

  /** The dialog's state: the form copy and the last recorded errors. */
  class EditDialog {
    var form: EditForm
    var errors: FormErrors

    constructor (report: Report)
      ensures form == InitialForm(report) && errors == NoErrors
    {
      form := InitialForm(report);
      errors := NoErrors;
    }

    method HandleChange(field: EditableField, value: string)
      modifies this`form
      ensures form == Change(old(form), field, value)
    {
      match field
      case CategoryField => form := form.(category := value);
      case DescriptionField => form := form.(description := value);
    }

    /** `validate`: fills a fresh errors object field by field, stores it, and reports whether it is empty. */
    method Validate() returns (ok: bool)
      modifies this`errors
      ensures errors == Validation(form)
      ensures ok <==> errors == NoErrors
    {
      var newErrors := NoErrors;
      if !form.age.Years? || form.age.n <= 0 {
        newErrors := newErrors.(age := Some(AgeMessage));
      }
      if form.category !in ViolenceTypes {
        newErrors := newErrors.(category := Some(CategoryMessage));
      }
      if Utf16Length(Trim(form.description)) < 10 {
        newErrors := newErrors.(description := Some(DescriptionMessage));
      }
      errors := newErrors;
      ok := newErrors == NoErrors;
    }

    /** `handleSubmit`: hands the form to `onSave` only when `validate` succeeds. */
    method HandleSubmit() returns (saved: Option<EditForm>)
      modifies this`errors
      ensures errors == Validation(form)
      ensures saved == if errors == NoErrors then Some(form) else None
    {
      var ok := Validate();
      if ok {
        saved := Some(form);
      } else {
        saved := None;
      }
    }
  }
}
