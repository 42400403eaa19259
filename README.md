# Student roster editor: the roster state machine

The repository is a single-page React editor for student records
(`src/App.jsx`). Its logic lives in the `App` component's five state cells
and six handlers:

- the ordered list of students;
- a text draft of one record, for the form;
- the "editing" and "form shown" flags;
- a map from input name to error message.

Everything else in the file is markup and inline styles. This project
models that state machine in Dafny and proves what the handlers promise.

Files and modules:

- `wrappers.dfy` (`Wrappers`) holds `Option`.
- `text.dfy` (`Text`) models the string built-ins the validation uses: `trim`, with the full ECMAScript
  white-space set, which is also what the regular-expression class `\s`
  matches; and `toLowerCase`, for ASCII letters.
- `numbers.dfy` (`Numbers`) models `Number#toString` and `parseInt` on
  integer text, and proves that the two round-trip.
- `email.dfy` (`EmailShape`) models the `/\S+@\S+\.\S+/.test(email)`
  check. It has two parts: a ghost predicate that states what a match of
  the unanchored pattern is, and an executable left-to-right scan. A lemma
  proves that the two agree on every string.
- `students.dfy` (`Students`) holds the pure parts:
  - records, the draft, the error map and the messages;
  - the validation pass, with one lemma per input;
  - the new-id rule `max(ids, 0) + 1`;
  - the three roster updates (`map` replace by id, `filter` by id, append);
  - `Commit`, the function that specifies what a successful submit does to
    the roster.
- `roster.dfy` (`Roster`) holds the class `RosterManager`. Its fields are
  the five state cells and its methods are the handlers. Every setter is an
  immediate assignment, in the order the handler calls it. Three client
  methods (`EditSubmitSession`, `DeleteSession`, `DuplicateEmailSession`)
  drive the handlers on the seed roster. They check the concrete scenarios
  by assertion: an unchanged edit round-trips, delete works, a duplicate
  email typed in capitals is refused, and typing clears an error.

Behaviour of `src/App.jsx` worth noting, which the model keeps:

- The duplicate-email check runs whatever the shape checks found, and its
  message overwrites theirs. It is not only reached once the format is
  valid.
- Typing into an input that shows a message sets that message to the empty
  string. The key stays in the map.
- Opening a record for editing leaves the error map as it was.
- A new record's id is one more than the largest id still present. After
  the record with the largest id is deleted, the next new record gets that
  id again.

## Model

| member | source | states |
|---|---|---|
| Text.BlankSplit | src/App.jsx:58 | A non-empty string is all white space exactly when its first character is white space and the rest is all white space, and the same from the last character. |
| Text.TrimStart | src/App.jsx:58 | Removing leading white space leaves a suffix of the input that does not start with white space, and everything dropped before it is white space. |
| Text.TrimEnd | src/App.jsx:58 | Removing trailing white space leaves a prefix of the input that does not end with white space, and everything dropped after it is white space. |
| Text.Trim | src/App.jsx:58 | `trim` returns a slice of the input with only white space before and after it, and the slice neither starts nor ends with white space. |
| Text.TrimStartEmptyIff | src/App.jsx:58 | Removing leading white space gives the empty string exactly when the input is all white space. |
| Text.TrimEndEmptyIff | src/App.jsx:58 | Removing trailing white space gives the empty string exactly when the input is all white space. |
| Text.TrimEmptyIff | src/App.jsx:58 | `!s.trim()` holds exactly when every character of `s` is white space. |
| Text.LowerChar | src/App.jsx:74 | Lowering a character changes exactly the upper-case ASCII letters, never yields an upper-case letter, and yields a lower-case letter exactly from a letter of either case. |
| Text.LowerCharSame | src/App.jsx:74 | Two characters lower to the same character exactly when they are equal or are the two cases of one ASCII letter. With `LowerChar`'s own contract this pins each capital to its own lower-case partner. |
| Text.Lower | src/App.jsx:74 | `toLowerCase` keeps the length and lowers each character in place. |
| Text.SameIgnoringCaseIff | src/App.jsx:73-75 | Two emails are equal after lowering exactly when they have the same length and agree character by character once lowered. |
| Numbers.ShowInt | src/App.jsx:137 | `toString` starts with a minus sign exactly for negative numbers and is otherwise all digits. |
| Numbers.ParseInt | src/App.jsx:116-117 | `parseInt` gives no number for text without a digit, and a negative number only for text that starts with a minus sign. |
| Numbers.ShowNatRoundTrip | src/App.jsx:137 | The decimal digits written for a natural number read back as that number. |
| Numbers.ParseShowRoundTrip | src/App.jsx:137 | `parseInt(n.toString())` is `n` for every integer. So the age text shown by the edit form parses back to the stored age. |
| EmailShape.DotFromIff | src/App.jsx:61 | The scan for the `\S+\.\S+` tail succeeds exactly when some `.` is preceded by a white-space-free run from the start point and followed by a non-space character. |
| EmailShape.AtFromIff | src/App.jsx:61 | The scan for the `@` succeeds exactly when some `@` at or after the start point has a non-space character on each side and a suitable `.` after it. |
| EmailShape.HasEmailShape | src/App.jsx:61 | The shape test only accepts text of at least five characters, the length of `a@b.c`. |
| EmailShape.HasEmailShapeIff | src/App.jsx:61 | The executable shape test answers true exactly when some substring matches `\S+@\S+\.\S+`. |
| Students.Draft.With | src/App.jsx:96-99 | Writing one input sets that input to the new text and leaves the other inputs and the id unchanged. |
| Students.EmailTaken | src/App.jsx:72-88 | The duplicate scan reports a duplicate only when some record really has the email, ignoring case. |
| Students.EmailTakenIff | src/App.jsx:72-88 | The `some` scan finds a duplicate exactly when some record other than the skipped id has the email, ignoring case. |
| Students.AgeRejected | src/App.jsx:64-66 | The age check accepts exactly the text that reads as an integer in 1..120. Its emptiness test adds nothing, because empty text reads as no number. |
| Students.Check | src/App.jsx:58-88 | Every message a failing check produces is non-empty. |
| Students.Validate | src/App.jsx:55-92 | Every message in the fresh error map is non-empty, so each one is shown under its input. |
| Students.RequiredTextChecked | src/App.jsx:58-69 | Name, course, phone and address each get their "is required" message exactly when that input is blank, whatever the other inputs hold. |
| Students.AgeChecked | src/App.jsx:64-66 | Age text that is not integer text always gets "Age must be between 1 and 120". The text written for an integer gets it exactly when the integer lies outside 1..120. |
| Students.EmailChecked | src/App.jsx:59-88 | The email gets a message exactly when it is blank, lacks the pattern, or duplicates another record's email. The message is "already exists" on a duplicate, else "required" when blank, else "invalid". |
| Students.AcceptableIffChecksPass | src/App.jsx:55-89 | Every check passes exactly when the draft meets all the written requirements together. |
| Students.NoErrorsIff | src/App.jsx:90-91 | The fresh map is empty exactly when the draft is acceptable. The age of an accepted draft parses to an integer in 1..120. |
| Students.AgeBoundaries | src/App.jsx:64 | A stored age shown as text passes exactly when it lies in 1..120. "1" and "120" pass. "0", "121" and "" fail. |
| Students.CreateRejectsTakenEmail | src/App.jsx:72-78 | When creating, an email equal to some record's email ignoring case gets "Email already exists". |
| Students.CapitalisedSeedEmailMatches | src/App.jsx:73-75 | The first seed's email typed in capitals equals the stored one ignoring case, so it counts as taken. |
| Students.OwnEmailIsNotDuplicate | src/App.jsx:79-87 | When editing a record of a roster with unique ids, the email is a duplicate exactly when some other record has it: the record being edited never counts. |
| Students.MaxId | src/App.jsx:122 | `Math.max(...ids, 0)` is at least 0, at least every id, and is either 0 or one of the ids. |
| Students.NextId | src/App.jsx:122 | A new record's id is at least 1 and larger than every id in the roster. |
| Students.NextIdExamples | src/App.jsx:122 | Ids come from the maximum, not the count. After ids 1 and 3 the next id is 4. After ids 1 and 2 it is 3. |
| Students.ReplaceById | src/App.jsx:115-119 | The edit's `map` keeps the length and order. It replaces exactly the records with that id and leaves every other record unchanged. |
| Students.WithoutId | src/App.jsx:145 | The delete's `filter` never lengthens the roster. Which records it keeps is stated by `WithoutIdMembers` and `WithoutIdConcat`. |
| Students.WithoutIdMembers | src/App.jsx:145 | A record survives the filter exactly when it was in the roster and has a different id. |
| Students.WithoutIdConcat | src/App.jsx:145 | Filtering distributes over concatenation, so the surviving records keep their relative order. |
| Students.WithoutAbsentId | src/App.jsx:145 | Deleting an id that no record has leaves the roster unchanged. |
| Students.WithoutSoleId | src/App.jsx:145 | When exactly one record has a given id, deleting that id cuts out that one record and keeps the others in order. |
| Students.WithoutPresentId | src/App.jsx:145 | With unique ids, deleting record `k`'s id gives the roster with exactly record `k` cut out, one shorter. |
| Students.WithoutIdKeepsUnique | src/App.jsx:145 | Deleting keeps ids unique and introduces no new id. |
| Students.RecordOfDraftOf | src/App.jsx:117-127 | A record built from a draft, copied back into the form, gives that draft with the id filled in and the age written as text. |
| Students.DraftOf | src/App.jsx:135-138 | Opening a record copies its id, its text fields and its age as text. That text parses back to the age, and rebuilding a record from the draft gives the original record. |
| Students.Commit | src/App.jsx:113-129 | Editing keeps the length and replaces only the records whose id equals the draft's id, using the parsed age. Creating appends one record at the end, with a larger id than every existing one and the parsed age, and keeps all earlier records in order. Ids at existing positions never change. |
| Students.CommitKeepsUnique | src/App.jsx:113-129 | A successful submit keeps the ids unique. |
| Students.EditThenSubmitRestores | src/App.jsx:110-141 | Opening a valid record and submitting it unchanged passes validation and leaves the roster exactly as it was. |
| Students.FirstSeedAdmissible | src/App.jsx:6-14 | The first seed record would pass the form's own checks. |
| Students.SecondSeedAdmissible | src/App.jsx:15-23 | The second seed record would pass the form's own checks. |
| Students.SeedEmailsDiffer | src/App.jsx:5-24 | The two seed emails differ even ignoring case. |
| Roster.RosterManager.constructor | src/App.jsx:5-38 | The start state holds the two seed records, an empty draft, both flags off and no errors. The ids are unique. |
| Roster.RosterManager.ResetForm | src/App.jsx:40-53 | `resetForm` empties the draft and the errors, clears both flags and leaves the records alone. |
| Roster.RosterManager.ValidateForm | src/App.jsx:55-92 | `validateForm` stores the fresh error map and answers true exactly when that map is empty, that is, when the draft is acceptable. Nothing else changes. |
| Roster.RosterManager.HandleInputChange | src/App.jsx:94-108 | Only the named draft input changes. Only that input's message is blanked, and the map keeps its keys. |
| Roster.RosterManager.HandleSubmit | src/App.jsx:110-132 | A rejected draft only stores the errors: records, draft and both flags are unchanged. An accepted draft sets the records to `Commit` of the old state and resets the form. Ids stay unique. |
| Roster.RosterManager.HandleEdit | src/App.jsx:134-141 | `handleEdit` copies the record into the draft, with the age as text, and raises both flags. The records and the errors are untouched. |
| Roster.RosterManager.HandleDelete | src/App.jsx:143-147 | A confirmed delete filters out that id. A declined one changes nothing. The draft, flags and errors are never touched, and ids stay unique. |
| Roster.RosterManager.HandleAddNew | src/App.jsx:149-152 | `handleAddNew` resets the form and shows it for a new record. The records are unchanged. |

## Left out

- The markup and inline styles returned from `src/App.jsx:154` on are presentation only.
- The browser's confirmation dialog (`window.confirm`, `src/App.jsx:144`) is I/O. It becomes the `confirmed` parameter of `HandleDelete`.
- React's state scheduling and batching are not modelled. Every setter is an immediate assignment to a field, in call order. For these handlers this gives the same final state as React's batched updates.
- Regular expressions in general are not modelled. Only the one email pattern is, as a predicate over characters.
- Students.AgeRejected: only integer text (an optional sign, then decimal digits) is read as a number. The source compares the text through JavaScript's `Number` coercion. Text that coerces to `NaN` slips past the source's range check, where the model rejects it. Decimal or exponent text such as `20.5` or `1e2` passes the source's check and is then truncated by `parseInt`, where the model rejects it. The number input normally supplies integer text.
- Text.LowerChar: `toLowerCase` is modelled for ASCII letters only. Unicode case mapping is not modelled.
- JavaScript numbers are IEEE doubles. The model uses unbounded integers for ids and ages, so precision loss above 2^53 is not modelled.
- The browser's own clean-up of `type="email"` input values, such as stripping line breaks, happens before the handler sees the text and is not modelled.
