# Scan intake and login checks, modelled in Dafny

This project models two pieces of the browser code of a web app (the
Hasteo Project) with a login page and a student-ID barcode scanner page.

**The scan intake pipeline of the barcode scanner page.** Each string the
barcode decoder reports goes through the same steps:

- It is trimmed and upper-cased.
- It is checked against the student-ID grammar `S` + branch + `/` + five
  digits + `/` + two digits. The branch is one of AU, CE, CV, CS, EE, CO,
  CT, EC, EV and ME.
- It is silently dropped if it repeats the last accepted ID within 3000 ms.
- It is reported as a duplicate if its ID was already scanned.
- Otherwise it is recorded. The ID is split into branch, number and year,
  the branch is looked up in the branch table, and the record is pushed
  onto a newest-first list of at most ten results. A record pushed off the
  end also leaves the set of scanned IDs, so that ID can be scanned again.

**The login page's client-side checks.** These are the e-mail and password
validators and the required-field check run when a login form is submitted.

## Files

- `js_string.dfy`, module `JsString`: the JavaScript string built-ins the
  code calls. `trim` uses the ECMAScript white-space and line-terminator
  set. The module also has ASCII `toUpperCase`, `split` on one character,
  and `length` counted in UTF-16 code units. It also has two helpers that
  neither source file calls. ASCII lower-casing is used to state that
  cleaning ignores letter case. A first-index search is used to define
  `split` and to locate the `@` of an e-mail address. It proves
  the facts the rest needs: trim's uniqueness, that it ignores padding, and
  that it commutes with lower-casing; that upper-casing is idempotent; and
  that split and join are inverses.
- `student_id.dfy`, module `StudentId`: `isValidStudentID`, `cleanStudentID`
  and `getBranchInfo`. The grammar is stated two ways, position by position
  and as a composition of pieces, and the module proves the two equivalent.
- `scanner.dfy`, module `Scanner`: the records `addScanResult` builds and the
  pipeline state. `Detect` is the state transition of `onDetected` as a
  function on state values. The invariant every call keeps is `Inv`. The
  class `ScanIntake` holds the four state variables as fields. Its methods
  `OnDetected` and `AddScanResult` update them in place and are proved
  against `Detect` and `AddResult`.
- `login.dfy`, module `Login`: `validateEmail` is proved equal to the regular
  expression it uses, and `validatePassword` is modelled. The required-field
  loop of the submit handler is a method over an array of fields.

## Model

| member | source | states |
|---|---|---|
| Scanner.ScanIntake.OnDetected | static/js/scanner.js:153-189 | Updating the fields in place has exactly the effect and outcome of `Detect` on the old state: invalid format, debounced, duplicate or accepted. It keeps the invariant. |
| Scanner.ScanIntake.AddScanResult | static/js/scanner.js:364-402 | Builds the record for the ID and puts it at the front of the list. When the list then exceeds ten, it drops the oldest record and removes that record's ID from the scanned set. Nothing else changes. |
| Scanner.ScanIntake.constructor | static/js/scanner.js:8-11 | The page starts with no last ID, time 0, no results and no scanned IDs, and that state satisfies the invariant. |
| Scanner.InitialInv | static/js/scanner.js:8-11 | The initial state satisfies the invariant. |
| Scanner.DetectPreservesInv | static/js/scanner.js:164-180 | Every detection keeps the invariant: at most ten results, the scanned set equal to the results' texts, those texts pairwise distinct, every result a well-formed record of a valid ID, and the last ID and time those of the newest result. |
| Scanner.RunPreservesInv | static/js/scanner.js:153-189 | Any sequence of detections from a valid state ends in a valid state. |
| Scanner.StoredTextsClean | static/js/scanner.js:164 | In a valid state every stored text passes `isValidStudentID` and equals its own cleaned form. |
| Scanner.OutcomeIff | static/js/scanner.js:153-189 | Gives the outcome of a detection for every input. It is invalid exactly when validation fails. It is debounced exactly when it is valid and repeats the last ID within 3000 ms. It is a duplicate exactly when it is valid, not debounced and already seen. It is accepted exactly when it is valid, not debounced and new. |
| Scanner.RejectionChangesNothing | static/js/scanner.js:158-175 | Any outcome other than acceptance leaves all four state variables unchanged. |
| Scanner.SeenIdChangesNothing | static/js/scanner.js:166-175 | A valid ID that is already in the scanned set never changes the state, at any time. It is silent inside the debounce window of the last ID and a duplicate otherwise. |
| Scanner.AcceptedShape | static/js/scanner.js:177-183 | On acceptance the ID was unseen. The record built from the cleaned ID is at index 0, followed by the old records in order, minus the oldest when there were ten. The ID becomes the last ID at time `now`, and the scanned set gains it, losing only the evicted text. |
| Scanner.AcceptFresh | static/js/scanner.js:177-183 | A student ID that is not the last one and not yet seen, with fewer than ten results kept, is accepted. Its record is put in front of the list and nothing is dropped. |
| Scanner.RepeatAfterAcceptance | static/js/scanner.js:166-175 | Presenting the just-accepted ID again changes nothing. It is silent within 3000 ms and a duplicate later. |
| Scanner.EvictionReopensOldest | static/js/scanner.js:392-396 | When an acceptance pushes out the eleventh record, the list stays at ten. The evicted ID leaves the scanned set and is accepted again if presented next. |
| Scanner.TwoFreshScans | static/js/scanner.js:153-189 | On a fresh page, two different IDs are both accepted. The list then holds their two records, newest first, and the scanned set holds both IDs. |
| Scanner.SameCleanSameDetect | static/js/scanner.js:158-164 | Two valid codes with the same cleaned form are handled identically. |
| Scanner.DetectIgnoresCaseAndBlanks | static/js/scanner.js:158-164 | A student ID read in lower case or with white space around it is handled exactly like the ID itself. |
| Scanner.MakeRecord | static/js/scanner.js:364-388 | The record keeps the ID as its text, the decoder's format, and the clock value as time and id. |
| Scanner.RecordFollowsSplit | static/js/scanner.js:365-384 | `split('/')` gives three pieces. The record's branch code is the first piece without its `S`, its number and short year are the other two, its year is `20` + short year, and its branch data is `getBranchInfo` of the branch code. |
| Scanner.RecordRoundTrip | static/js/scanner.js:365-384 | `S` + branchCode + `/` + studentNumber + `/` + shortYear reassembles the ID, and the pieces are admissible. The year is `20` + shortYear. The branch code is a table key, so the record's branch name comes from the table and not the fallback, and its class is `branch-` + the lower-cased code. |
| Scanner.SampleIdsValid | static/js/scanner.js:192-202 | SCS/12345/23 and SAU/00001/99 are distinct student IDs. |
| Scanner.SampleIdsInvalid | static/js/scanner.js:192-202 | SXX/12345/23 (unknown branch) and SCS/1234/23 (four digits) are rejected. |
| StudentId.ValidStudentIdIff | static/js/scanner.js:192-202 | `isValidStudentID` holds exactly for a string whose trimmed, upper-cased form is `S` + admissible branch + `/` + five digits + `/` + two digits. A non-string or empty input is rejected. |
| StudentId.StudentIdIff | static/js/scanner.js:199 | The position-by-position reading of the pattern admits exactly the compositions of admissible pieces. |
| StudentId.BranchPairIff | static/js/scanner.js:199 | The letter test of the branch alternation agrees with the list of ten codes. |
| StudentId.StudentIdIsValid | static/js/scanner.js:192-202 | A student ID passes `isValidStudentID` as it stands. |
| StudentId.StudentIdIsClean | static/js/scanner.js:205-207 | Cleaning a student ID leaves it unchanged. |
| StudentId.CleanIdempotent | static/js/scanner.js:205-207 | Cleaning twice is the same as cleaning once. |
| StudentId.CleanIgnoresCaseAndBlanks | static/js/scanner.js:205-207 | Cleaning ignores surrounding white space and lower-case letters. |
| StudentId.SplitStudentId | static/js/scanner.js:365 | `split('/')` cuts a student ID into `S` + branch, the number and the year. |
| StudentId.GetBranchInfoSpec | static/js/scanner.js:210-280 | For one of the ten codes, `getBranchInfo` returns its table entry, with a name, the class `branch-` + the lower-cased code, and a specific icon. For any other code it returns the name `<code> Branch`, class `branch-cs`, colour `#2196F3` and icon `fa-graduation-cap`. |
| StudentId.BranchKeys | static/js/scanner.js:211-272 | The table has an entry exactly for the ten codes of the pattern. Each entry has a name and the class `branch-` + its lower-cased key. |
| StudentId.EntryClass | static/js/scanner.js:211-272 | Each table entry has a non-empty name and the class `branch-` + its key in lower case. |
| StudentId.EntryIffPair | static/js/scanner.js:211-272 | The table's keys are exactly the letter pairs the pattern's alternation admits. |
| JsString.Trim | static/js/scanner.js:206 | The result is no longer than the input, and it is empty or starts and ends with a non-white character. |
| JsString.TrimUnique | static/js/scanner.js:206 | Any white-bordered piece with non-white ends is the trim of the string. |
| JsString.TrimEmptyIff | static/js/scanner.js:206 | Trimming gives the empty string exactly when the string is all white space. |
| JsString.TrimPadded | static/js/scanner.js:206 | White space added around a string does not change its trim. |
| JsString.TrimLower | static/js/scanner.js:206 | Trimming and lower-casing can be done in either order. |
| JsString.UpperIdempotent | static/js/scanner.js:206 | Upper-casing twice is the same as once. |
| JsString.UpperOfLower | static/js/scanner.js:206 | Upper-casing a lower-cased string is the same as upper-casing the original. |
| JsString.SplitJoin | static/js/scanner.js:365 | Splitting the join of pieces that do not contain the separator gives the pieces back. |
| Login.ValidateEmailIff | static/js/login.js:183-186 | The computed check accepts exactly the strings that `^[^\s@]+@[^\s@]+\.[^\s@]+$` matches, in some split of the string. |
| Login.ValidateEmail | static/js/login.js:183-186 | An accepted address contains `@` and starts with a character that is neither white space nor `@`. |
| Login.ValidEmailShape | static/js/login.js:183-186 | An accepted address has no white space and exactly one `@`. |
| Login.ValidatePassword | static/js/login.js:188-191 | Six or more characters always pass. A passing password has at least three characters, since one character may take two UTF-16 units. |
| Login.PasswordInBasicPlane | static/js/login.js:188-191 | Without characters beyond U+FFFF, a password passes exactly when it has at least six characters. |
| Login.CheckRequiredFields | static/js/login.js:18-45 | The form is valid exactly when no required field is all white space (blank after trimming), whatever the position of a blank one. Each field keeps its value and layout. A blank field is outlined in red and gains a message unless its next sibling already is one. A filled field loses its outline, and loses its next sibling when that is a message. |
| Login.BlankIffTrimEmpty | static/js/login.js:22 | A field counts as blank exactly when its trimmed value is empty, which is the handler's `!field.value.trim()` test. |
| Login.CheckField | static/js/login.js:22-43 | One pass of the loop body over one field, as `Checked` describes it. A blank field is outlined in red and gains a message unless its next sibling already is one. A filled field loses its outline, and loses its next sibling when that is a message. Value and layout stay the same. |
| Login.CheckedMeansBlank | static/js/login.js:22-34 | Whatever the layout, a checked field is outlined in red exactly when `!field.value.trim()` holds, and a blank field then has at least one message after it. |
| Login.PlainFieldOneMessage | static/js/login.js:22-43 | For a field with nothing else after it and at most one message, one pass leaves at most one message: one exactly when the field is blank, and then it is the field's next sibling. |
| Login.FollowedFieldMessagesPileUp | static/js/login.js:22-43 | For a field followed by another element, such as an input with its password toggle (login.js:70), the message is never the next sibling. Each blank check appends one more message, and a filled check removes none. |
| Login.HandleSubmit | static/js/login.js:18-50 | Submission is prevented exactly when some required field is blank, and every field is left as `Checked` describes. |

The grammar, cleaning and record are stated once and reused. `IsStudentId`
is the pattern read position by position, and `IsPieces`/`Compose` is the
same pattern read as a concatenation. `StudentIdIff` connects the two.
`Detect` is the reference for the class's methods, and `Inv` is the
invariant they keep.

The property that re-presenting a card after another ID is a duplicate
follows from `OutcomeIff` and `SeenIdChangesNothing`. For example, after
SCS/12345/23 then SAU/00001/99, presenting SCS/12345/23 again gives a
duplicate and leaves both records in place. The debounce window follows
only the single last accepted ID, so an ID scanned right after a different
one is never debounced.

## Left out

- The camera and decoder are not modelled: the Quagga setup, start and
  stop, and error handling. The decoder is the caller of `OnDetected`. It
  passes the decoded value as a `Code`, which is a string or not a string,
  and the format string.
- The clock is a parameter. The source reads it three times, and all three
  reads become the one integer `now`: `Date.now()` at the start of
  `onDetected` (scanner.js:154), `new Date()` for the record's `time`
  (scanner.js:386), and `Date.now()` for its `id` (scanner.js:387). The
  real later reads can differ by a few milliseconds.
- DOM and sound work is not modelled: the warnings, the results list, the
  counters, the animations, the sounds and `sendToBackend` (which only logs).
  They are visible only as the returned `Outcome`.
- `toUpperCase`/`toLowerCase` are modelled on ASCII letters only, so full
  Unicode case mapping is not captured. For example, `ſ` upper-cases to `S`
  in JavaScript, so a code containing it could pass the real check.
- `trim` is modelled over Unicode scalar values. Lone surrogate code units
  are not modelled.
- StudentId.GetBranchInfo: a code naming an inherited property of a
  JavaScript object (such as `constructor`) would find that property rather
  than the fallback. The model treats every non-key as unknown. The
  pipeline only looks up admissible branch codes.
- Login.CheckRequiredFields: a field's parent is modelled as the field,
  then at most one other element (such as the password toggle), then the
  error messages at its end. Other layouts are not modelled: elements
  before the field, several elements after it, or a message not at the end.
  Both modelled layouts are proved. Without a following element, a
  field shows one message exactly when it is blank
  (`PlainFieldOneMessage`). With one, the message is never the next
  sibling. Each blank submission then appends another message, and
  filling the field removes none (`FollowedFieldMessagesPileUp`).
- Login.ValidatePassword: is stated through a UTF-16 length model. The
  exact "at least six" equivalence is proved only for text without
  characters beyond U+FFFF.
- Not modelled in login.js: the loading state of the submit button after a
  valid submit, flash messages, remember-me storage, role switching, the
  password toggle's click handler (its element only as a following sibling
  of its input), keyboard shortcuts and the loading helpers. These are
  browser storage, timers and DOM work.
- static/js/script.js and app.py are not part of this model. They are
  service-worker registration and routes that only serve pages.
