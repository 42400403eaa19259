/** The values of the student roster and the pure logic behind its handlers:
    student records, the form draft, the per-field error map, the validation
    pass, the id given to a new record, and the three roster updates (replace
    by id, remove by id, append). */
module Students {
  import opened Wrappers
  import opened Text
  import opened Numbers
  import opened EmailShape

  /** One stored student. Ages are numbers once stored. */
  datatype Student = Student(
    id: int, name: string, email: string, age: int,
    course: string, phone: string, address: string)

  /** The six form inputs, by their `name` attribute. */
  datatype Field = Name | Email | Age | Course | Phone | Address

  /** The form's text draft of one record. `id` is empty (`None`) while a new
      record is being created and holds the numeric id of the record being
      edited otherwise; every other field is text, the age included. */
  datatype Draft = Draft(
    id: Option<int>, name: string, email: string, age: string,
    course: string, phone: string, address: string)
  {
    /** The text of one input. */
    function Get(f: Field): string {
      match f
      case Name => name
      case Email => email
      case Age => age
      case Course => course
      case Phone => phone
      case Address => address
    }

    /** `{...prev, [name]: value}`: only the named input changes. */
    function With(f: Field, v: string): (d: Draft)
      ensures d.Get(f) == v
      ensures forall g :: g != f ==> d.Get(g) == Get(g)
      ensures d.id == id
    {
      match f
      case Name => this.(name := v)
      case Email => this.(email := v)
      case Age => this.(age := v)
      case Course => this.(course := v)
      case Phone => this.(phone := v)
      case Address => this.(address := v)
    }
  }

  /** The form's initial and reset value: every input empty, no id. */
  const EmptyDraft: Draft := Draft(None, "", "", "", "", "", "")

  /** Field name to message, as rendered under each input. */
  type ErrorMap = map<Field, string>

  const NameRequired := "Name is required"
  const EmailRequired := "Email is required"
  const EmailInvalid := "Email is invalid"
  const EmailExists := "Email already exists"
  const AgeOutOfRange := "Age must be between 1 and 120"
  const CourseRequired := "Course is required"
  const PhoneRequired := "Phone is required"
  const AddressRequired := "Address is required"

  /** The two records the roster starts with. */
  const InitialRoster: seq<Student> := [
    Student(1, "John Doe", "john.doe@example.com", 20, "Computer Science", "+1234567890", "123 Main St, City"),
    Student(2, "Jane Smith", "jane.smith@example.com", 22, "Mathematics", "+1987654321", "456 Oak Ave, Town")
  ]

  /** No two records share an id. */
  ghost predicate UniqueIds(roster: seq<Student>) {
    forall i, j :: 0 <= i < j < |roster| ==> roster[i].id != roster[j].id
  }

  // ---------------------------------------------------------------------
  // Validation
  // ---------------------------------------------------------------------

  /** The age check: the text is empty, or is not integer text, or its value
      lies outside 1..120. The emptiness test is subsumed by the others: the
      age passes exactly when it reads as an integer in 1..120. */
  predicate AgeRejected(s: string)
    ensures !AgeRejected(s) <==> exists n :: 1 <= n <= 120 && ParseInt(s) == Some(n)
  {
    s == "" || match ParseInt(s)
              case None => true
              case Some(n) => n < 1 || n > 120
  }

  /** The id the duplicate-email check skips: the draft's own id when
      editing, none when creating. */
  function SkippedId(d: Draft, editing: bool): Option<int> {
    if editing then d.id else None
  }

  /** `students.some(...)`: some record, other than the skipped one, has the
      email ignoring case. */
  function EmailTaken(roster: seq<Student>, email: string, skip: Option<int>): (r: bool)
    ensures r ==> exists i :: 0 <= i < |roster| && SameIgnoringCase(roster[i].email, email)
  {
    if roster == [] then false
    else if SameIgnoringCase(roster[0].email, email) && skip != Some(roster[0].id) then true
    else
      var r := EmailTaken(roster[1..], email, skip);
      assert r ==> exists i :: 1 <= i < |roster| && roster[i] == roster[1..][i - 1] && SameIgnoringCase(roster[i].email, email);
      r
  }

  /** Reference definition of a duplicate email. */
  ghost predicate EmailClash(roster: seq<Student>, email: string, skip: Option<int>) {
    exists i :: 0 <= i < |roster| && SameIgnoringCase(roster[i].email, email) && skip != Some(roster[i].id)
  }

  lemma {:induction false} EmailTakenIff(roster: seq<Student>, email: string, skip: Option<int>)
    ensures EmailTaken(roster, email, skip) <==> EmailClash(roster, email, skip)
  {
    if roster != [] {
      EmailTakenIff(roster[1..], email, skip);
      if EmailClash(roster[1..], email, skip) {
        var i :| 0 <= i < |roster[1..]| && SameIgnoringCase(roster[1..][i].email, email) && skip != Some(roster[1..][i].id);
        assert roster[i + 1] == roster[1..][i];
      }
      if EmailClash(roster, email, skip) {
        var i :| 0 <= i < |roster| && SameIgnoringCase(roster[i].email, email) && skip != Some(roster[i].id);
        if i > 0 {
          assert roster[1..][i - 1] == roster[i];
        }
      }
    }
  }

  /** The message the validation pass puts under one input, if any. The
      email's duplicate check runs after its shape checks and overwrites
      their message. */
  function Check(d: Draft, editing: bool, roster: seq<Student>, f: Field): (r: Option<string>)
    ensures r.Some? ==> r.value != ""
  {
    match f
    case Name => if Trim(d.name) == "" then Some(NameRequired) else None
    case Email =>
      if EmailTaken(roster, d.email, SkippedId(d, editing)) then Some(EmailExists)
      else if Trim(d.email) == "" then Some(EmailRequired)
      else if !HasEmailShape(d.email) then Some(EmailInvalid)
      else None
    case Age => if AgeRejected(d.age) then Some(AgeOutOfRange) else None
    case Course => if Trim(d.course) == "" then Some(CourseRequired) else None
    case Phone => if Trim(d.phone) == "" then Some(PhoneRequired) else None
    case Address => if Trim(d.address) == "" then Some(AddressRequired) else None
  }

  const AllFields: set<Field> := {Name, Email, Age, Course, Phone, Address}

  /** `validateForm`'s fresh error map: every check runs and each failing
      one contributes its input's message. Every message it holds is
      non-empty, so each one is shown under its input. */
  function Validate(d: Draft, editing: bool, roster: seq<Student>): (errs: ErrorMap)
    ensures forall f :: f in errs ==> errs[f] != ""
  {
    map f | f in AllFields && Check(d, editing, roster, f).Some? :: Check(d, editing, roster, f).value
  }

  /** The inputs that only have to be non-blank, and their messages. */
  predicate IsRequiredText(f: Field) {
    f == Name || f == Course || f == Phone || f == Address
  }

  function RequiredMessage(f: Field): string {
    match f
    case Name => NameRequired
    case Course => CourseRequired
    case Phone => PhoneRequired
    case Address => AddressRequired
    case _ => ""
  }

  /** Name, course, phone and address each get "... is required" exactly
      when that input is blank after trimming, whatever the other inputs hold. */
  lemma RequiredTextChecked(d: Draft, editing: bool, roster: seq<Student>, f: Field)
    requires IsRequiredText(f)
    ensures f in Validate(d, editing, roster) <==> Blank(d.Get(f))
    ensures f in Validate(d, editing, roster) ==> Validate(d, editing, roster)[f] == RequiredMessage(f)
  {
    TrimEmptyIff(d.Get(f));
  }

  /** Age text that is not integer text always gets the range message; text
      written for an integer gets it exactly when the integer lies outside
      1..120. */
  lemma AgeChecked(d: Draft, editing: bool, roster: seq<Student>)
    ensures ParseInt(d.age).None? ==> Age in Validate(d, editing, roster)
    ensures forall n :: d.age == ShowInt(n) ==> (Age in Validate(d, editing, roster) <==> n < 1 || 120 < n)
    ensures Age in Validate(d, editing, roster) ==> Validate(d, editing, roster)[Age] == AgeOutOfRange
  {
    forall n | d.age == ShowInt(n) ensures AgeRejected(d.age) <==> n < 1 || 120 < n {
      AgeBoundaries(n);
    }
  }

  /** The email gets a message exactly when it is blank, lacks the
      `\S+@\S+\.\S+` shape, or another record has it ignoring case; a
      duplicate is reported as such even when the email is also blank or
      malformed. */
  lemma EmailChecked(d: Draft, editing: bool, roster: seq<Student>)
    ensures Email in Validate(d, editing, roster) <==>
      Blank(d.email) || !MatchesPattern(d.email) || EmailClash(roster, d.email, SkippedId(d, editing))
    ensures Email in Validate(d, editing, roster) ==>
      Validate(d, editing, roster)[Email] ==
      (if EmailClash(roster, d.email, SkippedId(d, editing)) then EmailExists
       else if Blank(d.email) then EmailRequired
       else EmailInvalid)
  {
    TrimEmptyIff(d.email);
    HasEmailShapeIff(d.email);
    EmailTakenIff(roster, d.email, SkippedId(d, editing));
  }

  /** Everything `Validate` demands of a draft. */
  ghost predicate Acceptable(d: Draft, editing: bool, roster: seq<Student>) {
    && !Blank(d.name) && !Blank(d.course) && !Blank(d.phone) && !Blank(d.address)
    && !AgeRejected(d.age)
    && !Blank(d.email) && MatchesPattern(d.email) && !EmailClash(roster, d.email, SkippedId(d, editing))
  }

  /** An input is in the error map exactly when its check produced a message. */
  lemma ValidateHas(d: Draft, editing: bool, roster: seq<Student>, f: Field)
    ensures f in Validate(d, editing, roster) <==> Check(d, editing, roster, f).Some?
    ensures f in Validate(d, editing, roster) ==> Validate(d, editing, roster)[f] == Check(d, editing, roster, f).value
  {
    assert f in AllFields;
  }

  /** A draft is acceptable exactly when no check produces a message. */
  lemma AcceptableIffChecksPass(d: Draft, editing: bool, roster: seq<Student>)
    ensures Acceptable(d, editing, roster) <==> forall f :: Check(d, editing, roster, f).None?
  {
    TrimEmptyIff(d.name);
    TrimEmptyIff(d.email);
    TrimEmptyIff(d.course);
    TrimEmptyIff(d.phone);
    TrimEmptyIff(d.address);
    HasEmailShapeIff(d.email);
    EmailTakenIff(roster, d.email, SkippedId(d, editing));
    if Acceptable(d, editing, roster) {
      forall f ensures Check(d, editing, roster, f).None? {
        match f
        case Name =>
        case Email =>
        case Age =>
        case Course =>
        case Phone =>
        case Address =>
      }
    }
    if forall f :: Check(d, editing, roster, f).None? {
      assert Check(d, editing, roster, Name).None? && Check(d, editing, roster, Email).None?;
      assert Check(d, editing, roster, Age).None? && Check(d, editing, roster, Course).None?;
      assert Check(d, editing, roster, Phone).None? && Check(d, editing, roster, Address).None?;
    }
  }

  /** `validateForm` answers true (its map has no keys) exactly when every
      check passes; an accepted draft's age is then integer text in 1..120. */
  lemma NoErrorsIff(d: Draft, editing: bool, roster: seq<Student>)
    ensures Validate(d, editing, roster) == map[] <==> Acceptable(d, editing, roster)
    ensures Validate(d, editing, roster) == map[] ==>
      ParseInt(d.age).Some? && 1 <= ParseInt(d.age).value <= 120
  {
    var errs := Validate(d, editing, roster);
    AcceptableIffChecksPass(d, editing, roster);
    if forall f :: Check(d, editing, roster, f).None? {
      forall f ensures f !in errs {
        ValidateHas(d, editing, roster, f);
      }
      assert errs == map[];
    } else {
      var f :| Check(d, editing, roster, f).Some?;
      ValidateHas(d, editing, roster, f);
    }
  }

  /** The age boundaries: a stored age shown as text passes exactly when it
      lies in 1..120, so 1 and 120 pass, 0 and 121 fail, and so does an
      empty age input. */
  lemma AgeBoundaries(n: int)
    ensures AgeRejected(ShowInt(n)) <==> n < 1 || n > 120
    ensures !AgeRejected("1") && !AgeRejected("120")
    ensures AgeRejected("0") && AgeRejected("121") && AgeRejected("")
  {
    ParseShowRoundTrip(n);
    ParseShowRoundTrip(0);
    ParseShowRoundTrip(1);
    ParseShowRoundTrip(120);
    ParseShowRoundTrip(121);
    assert ShowInt(0) == "0" && ShowInt(1) == "1";
    assert ShowNat(12) == "12";
    assert ShowInt(120) == "120" && ShowInt(121) == "121";
  }

  /** When creating, an email that any record already has (in any case)
      is reported as a duplicate, whatever else is wrong with it. */
  lemma CreateRejectsTakenEmail(d: Draft, roster: seq<Student>, k: int)
    requires 0 <= k < |roster| && SameIgnoringCase(roster[k].email, d.email)
    ensures Email in Validate(d, false, roster)
    ensures Validate(d, false, roster)[Email] == EmailExists
  {
    EmailChecked(d, false, roster);
    assert EmailClash(roster, d.email, None);
  }

  /** The first seed's email typed in capitals matches it ignoring case. */
  lemma CapitalisedSeedEmailMatches()
    ensures SameIgnoringCase(InitialRoster[0].email, "JOHN.DOE@EXAMPLE.COM")
  {
    var a, b := InitialRoster[0].email, "JOHN.DOE@EXAMPLE.COM";
    assert a == "john.doe@example.com";
    forall i | 0 <= i < |a| ensures LowerChar(a[i]) == LowerChar(b[i]) {
      LowerCharSame(a[i], b[i]);
    }
    SameIgnoringCaseIff(a, b);
  }

  /** When editing record `k` of a roster with unique ids, the draft's email
      is a duplicate exactly when some other record has it: record `k`
      itself never counts, and no other record is skipped. */
  lemma OwnEmailIsNotDuplicate(d: Draft, roster: seq<Student>, k: int)
    requires UniqueIds(roster) && 0 <= k < |roster| && d.id == Some(roster[k].id)
    ensures EmailClash(roster, d.email, SkippedId(d, true)) <==>
      exists i :: 0 <= i < |roster| && i != k && SameIgnoringCase(roster[i].email, d.email)
  {
    if exists i :: 0 <= i < |roster| && i != k && SameIgnoringCase(roster[i].email, d.email) {
      var i :| 0 <= i < |roster| && i != k && SameIgnoringCase(roster[i].email, d.email);
      assert roster[i].id != roster[k].id by {
        if i < k { assert roster[i].id != roster[k].id; } else { assert roster[k].id != roster[i].id; }
      }
    }
  }

  // ---------------------------------------------------------------------
  // Ids and roster updates
  // ---------------------------------------------------------------------

  /** `Math.max(...students.map(s => s.id), 0)`. */
  function MaxId(roster: seq<Student>): (m: int)
    ensures 0 <= m
    ensures forall i :: 0 <= i < |roster| ==> roster[i].id <= m
    ensures m == 0 || exists i :: 0 <= i < |roster| && roster[i].id == m
  {
    if roster == [] then 0
    else
      var rest := MaxId(roster[1..]);
      assert forall i :: 1 <= i < |roster| ==> roster[i] == roster[1..][i - 1];
      if roster[0].id > rest then roster[0].id else rest
  }

  /** The id of a newly created record: one more than the largest id, and
      1 for an empty roster. It exceeds every id in the roster. */
  function NextId(roster: seq<Student>): (id: int)
    ensures 1 <= id
    ensures forall i :: 0 <= i < |roster| ==> roster[i].id < id
  {
    MaxId(roster) + 1
  }

  /** Ids come from the maximum, not the count: after ids 1 and 3 the next
      id is 4, and any roster of ids 1 and 2 gets 3. */
  lemma NextIdExamples(a: Student, b: Student)
    ensures a.id == 1 && b.id == 3 ==> NextId([a, b]) == 4
    ensures a.id == 1 && b.id == 2 ==> NextId([a, b]) == 3
  {
    assert [a, b][1..] == [b];
    assert [b][1..] == [];
    assert MaxId([b]) == if b.id > 0 then b.id else 0;
    assert MaxId([a, b]) == if a.id > MaxId([b]) then a.id else MaxId([b]);
  }

  /** `prev.map(s => s.id === id ? rec : s)`: same length and order, the
      records with that id replaced, every other record unchanged. */
  function ReplaceById(roster: seq<Student>, id: int, rec: Student): (r: seq<Student>)
    ensures |r| == |roster|
    ensures forall i :: 0 <= i < |r| ==> r[i] == if roster[i].id == id then rec else roster[i]
  {
    if roster == [] then []
    else [if roster[0].id == id then rec else roster[0]] + ReplaceById(roster[1..], id, rec)
  }

  /** `prev.filter(s => s.id !== id)`. */
  function WithoutId(roster: seq<Student>, id: int): (r: seq<Student>)
    ensures |r| <= |roster|
  {
    if roster == [] then []
    else
      assert roster == [roster[0]] + roster[1..];
      (if roster[0].id == id then [] else [roster[0]]) + WithoutId(roster[1..], id)
  }

  /** A record survives the filter exactly when it was in the roster and
      has a different id. */
  lemma {:induction false} WithoutIdMembers(roster: seq<Student>, id: int, x: Student)
    ensures x in WithoutId(roster, id) <==> x in roster && x.id != id
  {
    if roster != [] {
      WithoutIdMembers(roster[1..], id, x);
      assert roster == [roster[0]] + roster[1..];
    }
  }

  /** One step of the filter: the first record is kept exactly when its id differs. */
  lemma WithoutIdStep(roster: seq<Student>, id: int)
    requires roster != []
    ensures WithoutId(roster, id) == (if roster[0].id == id then [] else [roster[0]]) + WithoutId(roster[1..], id)
  {
  }

  /** Filtering distributes over concatenation, so the records kept stay in
      their relative order. */
  lemma {:induction false} WithoutIdConcat(a: seq<Student>, b: seq<Student>, id: int)
    ensures WithoutId(a + b, id) == WithoutId(a, id) + WithoutId(b, id)
  {
    if a == [] {
      assert a + b == b;
    } else {
      var ab := a + b;
      assert ab[0] == a[0] && ab[1..] == a[1..] + b;
      WithoutIdStep(ab, id);
      WithoutIdStep(a, id);
      WithoutIdConcat(a[1..], b, id);
      var head := if a[0].id == id then [] else [a[0]];
      var x, y := WithoutId(a[1..], id), WithoutId(b, id);
      assert head + (x + y) == (head + x) + y;
    }
  }

  /** Removing an id no record has leaves the roster as it was. */
  lemma {:induction false} WithoutAbsentId(roster: seq<Student>, id: int)
    requires forall i :: 0 <= i < |roster| ==> roster[i].id != id
    ensures WithoutId(roster, id) == roster
  {
    if roster != [] {
      WithoutAbsentId(roster[1..], id);
      assert roster == [roster[0]] + roster[1..];
    }
  }

  /** Removing an id that only the middle record has cuts out that record. */
  lemma WithoutSoleId(before: seq<Student>, x: Student, after: seq<Student>)
    requires forall i :: 0 <= i < |before| ==> before[i].id != x.id
    requires forall i :: 0 <= i < |after| ==> after[i].id != x.id
    ensures WithoutId(before + [x] + after, x.id) == before + after
  {
    var id := x.id;
    assert [x][1..] == [];
    assert WithoutId([x], id) == [] + WithoutId([], id) == [];
    WithoutAbsentId(before, id);
    WithoutAbsentId(after, id);
    WithoutIdConcat(before, [x], id);
    WithoutIdConcat(before + [x], after, id);
    calc {
      WithoutId(before + [x] + after, id);
      WithoutId(before + [x], id) + WithoutId(after, id);
      (WithoutId(before, id) + WithoutId([x], id)) + WithoutId(after, id);
      (before + []) + after;
      { assert before + [] == before; }
      before + after;
    }
  }

  /** With unique ids, removing the id of record `k` removes exactly that
      record: the roster shrinks by one and the rest keep their order. */
  lemma WithoutPresentId(roster: seq<Student>, k: int)
    requires UniqueIds(roster) && 0 <= k < |roster|
    ensures WithoutId(roster, roster[k].id) == roster[..k] + roster[k + 1..]
    ensures |WithoutId(roster, roster[k].id)| == |roster| - 1
  {
    var before, after := roster[..k], roster[k + 1..];
    assert roster == before + [roster[k]] + after;
    assert forall i :: 0 <= i < |before| ==> before[i] == roster[i];
    assert forall i :: 0 <= i < |after| ==> after[i] == roster[k + 1 + i];
    WithoutSoleId(before, roster[k], after);
  }

  /** The ids of a roster, as a set. */
  ghost function IdSet(roster: seq<Student>): set<int> {
    set i | 0 <= i < |roster| :: roster[i].id
  }

  /** Filtering keeps ids unique. */
  lemma {:induction false} WithoutIdKeepsUnique(roster: seq<Student>, id: int)
    requires UniqueIds(roster)
    ensures UniqueIds(WithoutId(roster, id))
    ensures IdSet(WithoutId(roster, id)) <= IdSet(roster)
  {
    if roster != [] {
      var tail := roster[1..];
      assert UniqueIds(tail) by {
        forall i, j | 0 <= i < j < |tail| ensures tail[i].id != tail[j].id {
          assert tail[i] == roster[i + 1] && tail[j] == roster[j + 1];
        }
      }
      WithoutIdKeepsUnique(tail, id);
      var rest := WithoutId(tail, id);
      assert roster[0].id !in IdSet(tail) by {
        forall i | 0 <= i < |tail| ensures tail[i].id != roster[0].id {
          assert tail[i] == roster[i + 1];
        }
      }
      forall x | x in IdSet(tail) ensures x in IdSet(roster) {
        var i :| 0 <= i < |tail| && tail[i].id == x;
        assert roster[i + 1] == tail[i];
      }
      if roster[0].id != id {
        var r := WithoutId(roster, id);
        assert r == [roster[0]] + rest;
        forall i, j | 0 <= i < j < |r| ensures r[i].id != r[j].id {
          if i == 0 {
            assert r[j] == rest[j - 1];
            assert r[j].id in IdSet(rest);
          } else {
            assert r[i] == rest[i - 1] && r[j] == rest[j - 1];
          }
        }
        forall x | x in IdSet(r) ensures x in IdSet(roster) {
          var i :| 0 <= i < |r| && r[i].id == x;
          if i > 0 {
            assert r[i] == rest[i - 1];
            assert x in IdSet(rest);
          }
        }
      }
    }
  }

  // ---------------------------------------------------------------------
  // Records and drafts
  // ---------------------------------------------------------------------

  /** `{...formData, id, age}`: the draft's text fields with a numeric id and age. */
  function RecordOf(d: Draft, id: int, age: int): Student {
    Student(id, d.name, d.email, age, d.course, d.phone, d.address)
  }

  /** Copying a stored record back into the form gives the draft it was
      built from, with the id filled in and the age written as text. */
  lemma RecordOfDraftOf(d: Draft, id: int, age: int)
    ensures DraftOf(RecordOf(d, id, age)) == d.(id := Some(id), age := ShowInt(age))
  {
  }

  /** `{...student, age: student.age.toString()}`: the record copied into
      the form; its age text parses back to the stored age. */
  function DraftOf(st: Student): (d: Draft)
    ensures d.id == Some(st.id)
    ensures ParseInt(d.age) == Some(st.age)
    ensures RecordOf(d, st.id, st.age) == st
  {
    ParseShowRoundTrip(st.age);
    Draft(Some(st.id), st.name, st.email, ShowInt(st.age), st.course, st.phone, st.address)
  }

  /** The roster after a submit that passed validation. Editing replaces the
      records whose id equals the draft's id (an empty id matches none);
      creating appends a record with a fresh id. The age is parsed. */
  function Commit(d: Draft, editing: bool, roster: seq<Student>): (r: seq<Student>)
    requires ParseInt(d.age).Some?
    ensures editing ==> |r| == |roster|
    ensures editing ==> forall i :: 0 <= i < |r| ==>
      r[i] == if Some(roster[i].id) == d.id then RecordOf(d, roster[i].id, ParseInt(d.age).value) else roster[i]
    ensures !editing ==> |r| == |roster| + 1 && r[..|roster|] == roster
    ensures !editing ==> r[|roster|] == RecordOf(d, NextId(roster), ParseInt(d.age).value)
    ensures !editing ==> forall i :: 0 <= i < |roster| ==> roster[i].id < r[|roster|].id
    ensures forall i :: 0 <= i < |roster| ==> r[i].id == roster[i].id
  {
    var age := ParseInt(d.age).value;
    if editing then
      match d.id
      case Some(n) => ReplaceById(roster, n, RecordOf(d, n, age))
      case None => roster
    else roster + [RecordOf(d, NextId(roster), age)]
  }

  /** Every submit keeps ids unique. */
  lemma CommitKeepsUnique(d: Draft, editing: bool, roster: seq<Student>)
    requires ParseInt(d.age).Some? && UniqueIds(roster)
    ensures UniqueIds(Commit(d, editing, roster))
  {
    var r := Commit(d, editing, roster);
    forall i, j | 0 <= i < j < |r| ensures r[i].id != r[j].id {
      if j == |roster| {
        assert !editing;
      }
    }
  }

  /** A record that the form would accept as it is. */
  ghost predicate Admissible(st: Student) {
    && !Blank(st.name) && !Blank(st.course) && !Blank(st.phone) && !Blank(st.address)
    && 1 <= st.age <= 120 && !Blank(st.email) && MatchesPattern(st.email)
  }

  /** Opening record `k` for editing and submitting without changes passes
      validation (the record does not clash with its own email) and leaves
      the roster exactly as it was. */
  lemma EditThenSubmitRestores(roster: seq<Student>, k: int)
    requires UniqueIds(roster) && 0 <= k < |roster| && Admissible(roster[k])
    requires forall i :: 0 <= i < |roster| && i != k ==> !SameIgnoringCase(roster[i].email, roster[k].email)
    ensures Validate(DraftOf(roster[k]), true, roster) == map[]
    ensures Commit(DraftOf(roster[k]), true, roster) == roster
  {
    var d := DraftOf(roster[k]);
    AgeBoundaries(roster[k].age);
    OwnEmailIsNotDuplicate(d, roster, k);
    NoErrorsIff(d, true, roster);
    var r := Commit(d, true, roster);
    assert forall i :: 0 <= i < |r| ==> r[i] == roster[i];
  }

  /** The first seed record is acceptable to the form as it stands. */
  lemma FirstSeedAdmissible()
    ensures Admissible(InitialRoster[0])
  {
    var st := InitialRoster[0];
    assert st == Student(1, "John Doe", "john.doe@example.com", 20, "Computer Science", "+1234567890", "123 Main St, City");
    assert MatchAt(st.email, 7, 8, 16, 18);
    assert !IsSpace(st.name[0]) && !IsSpace(st.course[0]) && !IsSpace(st.phone[0]) && !IsSpace(st.address[0]);
    assert !IsSpace(st.email[0]);
  }

  /** The second seed record is acceptable to the form as it stands. */
  lemma SecondSeedAdmissible()
    ensures Admissible(InitialRoster[1])
  {
    var st := InitialRoster[1];
    assert st == Student(2, "Jane Smith", "jane.smith@example.com", 22, "Mathematics", "+1987654321", "456 Oak Ave, Town");
    assert MatchAt(st.email, 9, 10, 18, 20);
    assert !IsSpace(st.name[0]) && !IsSpace(st.course[0]) && !IsSpace(st.phone[0]) && !IsSpace(st.address[0]);
    assert !IsSpace(st.email[0]);
  }

  /** The seed records' emails differ even ignoring case. */
  lemma SeedEmailsDiffer()
    ensures !SameIgnoringCase(InitialRoster[0].email, InitialRoster[1].email)
  {
    assert !SameIgnoringCase("john.doe@example.com", "jane.smith@example.com");
  }
}
