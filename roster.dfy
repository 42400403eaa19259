/** The roster component's state machine. The five state cells of the
    component (the records, the form draft, the two flags and the error map)
    are the fields of one object; each event handler is a method that
    overwrites them in the order the handler calls its setters. */
module Roster {
  import opened Wrappers
  import opened Numbers
  import opened Text
  import opened Students

  class RosterManager {
    var students: seq<Student>
    var draft: Draft
    var isEditing: bool
    var showForm: bool
    var errors: ErrorMap

    /** The records' ids stay unique across every handler. */
    ghost predicate Valid()
      reads this
    {
      UniqueIds(students)
    }

    /** The state at start-up: the two seed records, an empty form, both
        flags off and no errors. */
    constructor ()
      ensures Valid()
      ensures students == InitialRoster && draft == EmptyDraft
      ensures !isEditing && !showForm && errors == map[]
    {
      students := InitialRoster;
      draft := EmptyDraft;
      isEditing := false;
      showForm := false;
      errors := map[];
    }

    /** `resetForm`: empties the draft and the errors and clears both
        flags; the records are untouched. */
    method ResetForm()
      requires Valid()
      modifies this
      ensures Valid()
      ensures students == old(students)
      ensures draft == EmptyDraft && errors == map[] && !isEditing && !showForm
    {
      draft := EmptyDraft;
      errors := map[];
      isEditing := false;
      showForm := false;
    }

    /** `validateForm`: stores the fresh error map and answers whether it
        has no keys, that is, whether the draft is acceptable. */
    method ValidateForm() returns (ok: bool)
      requires Valid()
      modifies this
      ensures Valid()
      ensures errors == Validate(draft, isEditing, students)
      ensures ok <==> errors == map[]
      ensures ok <==> Acceptable(draft, isEditing, students)
      ensures students == old(students) && draft == old(draft)
      ensures isEditing == old(isEditing) && showForm == old(showForm)
    {
      var newErrors := Validate(draft, isEditing, students);
      errors := newErrors;
      ok := |newErrors.Keys| == 0;
      NoErrorsIff(draft, isEditing, students);
    }

    /** `handleInputChange`: writes one input of the draft and, when that
        input shows a message, blanks that message; every other input and
        every other message stays as it was. */
    method HandleInputChange(f: Field, value: string)
      requires Valid()
      modifies this
      ensures Valid()
      ensures draft == old(draft).With(f, value)
      ensures errors.Keys == old(errors).Keys
      ensures f in errors ==> errors[f] == ""
      ensures forall g :: g != f && g in errors ==> errors[g] == old(errors)[g]
      ensures students == old(students)
      ensures isEditing == old(isEditing) && showForm == old(showForm)
    {
      draft := draft.With(f, value);
      if f in errors && errors[f] != "" {
        errors := errors[f := ""];
      }
    }

    /** `handleSubmit`. A draft that fails validation only stores the error
        map: records, draft and flags are unchanged. An accepted draft is
        committed (replace by id when editing, append with a fresh id when
        creating) and the form is reset. */
    method HandleSubmit()
      requires Valid()
      modifies this
      ensures Valid()
      ensures Validate(old(draft), old(isEditing), old(students)) != map[] ==>
        && errors == Validate(old(draft), old(isEditing), old(students))
        && students == old(students) && draft == old(draft)
        && isEditing == old(isEditing) && showForm == old(showForm)
      ensures Validate(old(draft), old(isEditing), old(students)) == map[] ==>
        && ParseInt(old(draft).age).Some?
        && students == Commit(old(draft), old(isEditing), old(students))
        && draft == EmptyDraft && errors == map[] && !isEditing && !showForm
    {
      var ok := ValidateForm();
      if !ok {
        return;
      }
      NoErrorsIff(draft, isEditing, students);
      var age := ParseInt(draft.age).value;
      if isEditing {
        match draft.id
        case Some(n) =>
          students := ReplaceById(students, n, RecordOf(draft, n, age));
        case None =>
      } else {
        var newId := NextId(students);
        students := students + [RecordOf(draft, newId, age)];
      }
      CommitKeepsUnique(old(draft), old(isEditing), old(students));
      ResetForm();
    }

    /** `handleEdit`: copies the record into the draft, its age as text,
        and raises both flags. The records and the errors are untouched. */
    method HandleEdit(st: Student)
      requires Valid()
      modifies this
      ensures Valid()
      ensures draft == DraftOf(st)
      ensures isEditing && showForm
      ensures students == old(students) && errors == old(errors)
    {
      draft := DraftOf(st);
      isEditing := true;
      showForm := true;
    }

    /** `handleDelete`, with the browser's confirmation dialog's answer as
        `confirmed`: a confirmed delete drops every record with that id; a
        declined one changes nothing. The draft, flags and errors are
        untouched either way. */
    method HandleDelete(id: int, confirmed: bool)
      requires Valid()
      modifies this
      ensures Valid()
      ensures students == if confirmed then WithoutId(old(students), id) else old(students)
      ensures draft == old(draft) && errors == old(errors)
      ensures isEditing == old(isEditing) && showForm == old(showForm)
    {
      if confirmed {
        WithoutIdKeepsUnique(students, id);
        students := WithoutId(students, id);
      }
    }

    /** `handleAddNew`: resets the form and opens it for a new record. */
    method HandleAddNew()
      requires Valid()
      modifies this
      ensures Valid()
      ensures students == old(students)
      ensures draft == EmptyDraft && errors == map[]
      ensures !isEditing && showForm
    {
      ResetForm();
      showForm := true;
    }
  }

  /** Opening the first seed record and submitting it unchanged passes
      validation and leaves the roster as it was, with the form closed. */
  method EditSubmitSession() {
    var app := new RosterManager();
    var john := app.students[0];
    FirstSeedAdmissible();
    SeedEmailsDiffer();
    assert UniqueIds(InitialRoster);
    assert |InitialRoster| == 2;
    assert forall i :: 0 <= i < |InitialRoster| && i != 0 ==> !SameIgnoringCase(InitialRoster[i].email, InitialRoster[0].email);
    EditThenSubmitRestores(InitialRoster, 0);
    app.HandleEdit(john);
    app.HandleSubmit();
    assert app.students == InitialRoster && !app.isEditing && !app.showForm;
  }

  /** A declined delete changes nothing; a confirmed delete of id 2 leaves
      only the first record, and the next new record gets id 2 again. */
  method DeleteSession() {
    var app := new RosterManager();
    var john := app.students[0];
    app.HandleDelete(2, false);
    assert app.students == InitialRoster;
    app.HandleDelete(2, true);
    WithoutPresentId(InitialRoster, 1);
    assert app.students == [john];
    assert NextId(app.students) == 2;
  }

  /** A new draft that reuses a stored email, typed in capitals, is refused
      as a duplicate, with the roster unchanged and the form open; typing
      into the email input then blanks only the email's message. */
  method DuplicateEmailSession() {
    var app := new RosterManager();
    app.HandleAddNew();
    app.HandleInputChange(Email, "JOHN.DOE@EXAMPLE.COM");
    var d := app.draft;
    assert d == EmptyDraft.(email := "JOHN.DOE@EXAMPLE.COM");
    assert !app.isEditing && app.students == InitialRoster;
    var errs := Validate(d, false, InitialRoster);
    CapitalisedSeedEmailMatches();
    CreateRejectsTakenEmail(d, InitialRoster, 0);
    RequiredTextChecked(d, false, InitialRoster, Name);
    assert errs[Email] == EmailExists && errs[Name] == NameRequired;
    app.HandleSubmit();
    assert app.errors == errs;
    assert app.students == InitialRoster && app.showForm;
    app.HandleInputChange(Email, "jo@example.com");
    assert app.errors[Email] == "" && app.errors[Name] == NameRequired;
  }
}
