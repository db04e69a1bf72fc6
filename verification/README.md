# Ambassador enrollment: a Dafny model

This project models the enrollment workflow of the Ambassador sign-up form.
The workflow has two parts:

- **The form** (`AmbassadorForm`) holds the form data, an errors map keyed by
  input, and the `loading` and `showSuccess` flags. Its handlers edit one text
  field, toggle one commitment label, validate, and submit.
- **The enrollment service** (`EnrollmentService`) refuses an email when its
  lookup succeeds and finds exactly one stored row with that email. A failed
  lookup, or an email already held by two or more rows, is not refused.
  Otherwise it inserts one row into the `enrollments` table. It also looks
  rows up by id.

The hosted store is replaced by an in-memory table held by the service
object. The table is a `seq` of rows, the next id to assign and a count of
inserts performed. Failures the store or the network would report are
parameters of the operations (`Option<Thrown>`).

Files:

- `wrappers.dfy`: `Option` and `Result`.
- `text.dfy`: JavaScript's `trim` and its white-space set.
- `schema.dfy`: the row shape of the `enrollments` table.
- `enrollments.dfy`: the service and its table.
- `ambassador_form.dfy`: the form's state, handlers and validator.

## Model

| member | source | states |
|---|---|---|
| `Text.Trim` | src/components/forms/AmbassadorForm.tsx:55-66 | `s.trim()` is no longer than `s`, and neither its first nor its last character is white space |
| `Text.TrimSpec` | src/components/forms/AmbassadorForm.tsx:55-66 | `s.trim()` is the slice of `s` left between a white-space prefix and a white-space suffix. It neither starts nor ends with white space, and it is empty exactly when every character of `s` is ECMAScript white space or a line terminator |
| `Enrollments.CommitmentsAccepted` | src/services/enrollments.ts:34 | `commitments_accepted` counts entries and does not look at them: on a list without repeats it holds exactly when the list names four distinct labels, whichever labels they are |
| `Enrollments.NewRow` | src/services/enrollments.ts:27-35 | the inserted row has type ambassador. It copies first name, last name, email, phone and church verbatim. `commitmentsAccepted` holds iff the submitted list has exactly 4 entries. `status` and `commitments` are the store's defaults, because the insert does not write them |
| `Enrollments.ExistingId` | src/services/enrollments.ts:15-21 | an id is found only when the lookup did not fail, and it belongs to a row with that email. A failed lookup reads as "no existing row" |
| `Enrollments.DuplicateCheckExact` | src/services/enrollments.ts:15-23 | over a table without repeated emails, the lookup refuses exactly the emails already stored (both directions) |
| `Enrollments.CreateKeepsEmailsUnique` | src/services/enrollments.ts:15-37 | appending the row of a request that passed the check keeps every email unique |
| `Enrollments.FailedLookupAdmitsDuplicate` | src/services/enrollments.ts:15-21 | when the lookup fails, an email that is already stored passes the check, and inserting it gives two rows with that email |
| `Enrollments.SharedEmailNotRefused` | src/services/enrollments.ts:15-23 | once two rows share an email, `single` no longer finds exactly one row, so the check lets that email through again |
| `Enrollments.EnrollmentService.Insert` | src/services/enrollments.ts:25-42 | a failed insert writes nothing and returns the store's error. A successful insert appends one row with the next id and the store defaults, adds one to the write count and returns the row |
| `Enrollments.EnrollmentService.CreateAmbassadorEnrollment` | src/services/enrollments.ts:13-49 | a found email gives "An enrollment with this email already exists" and no write. An insert error is re-thrown with no write. Otherwise the table grows by exactly the new row, earlier rows are unchanged, the write count rises by one and the row is returned. That row can then be read back by id. With a working lookup, unique emails stay unique |
| `Enrollments.EnrollmentService.GetEnrollmentById` | src/services/enrollments.ts:51-60 | a reported store error is thrown. Otherwise the result is the row with that id, or the store's "not exactly one row" error when no row has it |
| `AmbassadorForm.WithFieldValue` | src/components/forms/AmbassadorForm.tsx:37 | the named field takes the new value. Every other field and the commitments are unchanged |
| `AmbassadorForm.Without` | src/components/forms/AmbassadorForm.tsx:45 | the result holds exactly the labels of the list other than the removed one |
| `AmbassadorForm.WithoutCounts` | src/components/forms/AmbassadorForm.tsx:45 | filtering keeps every other label as often as it occurred, and drops every occurrence of the removed one |
| `AmbassadorForm.WithoutConcat` | src/components/forms/AmbassadorForm.tsx:45 | filtering a concatenation is the concatenation of the filtered parts, so the remaining labels keep their order |
| `AmbassadorForm.Toggled` | src/components/forms/AmbassadorForm.tsx:44-46 | a present label is removed, every occurrence of it. An absent label is appended after the unchanged list. Other labels keep their membership, and a list without repeats stays without repeats |
| `AmbassadorForm.ToggleTwice` | src/components/forms/AmbassadorForm.tsx:41-49 | toggling a label twice restores the set of labels. Starting from an absent label, it restores the exact list |
| `AmbassadorForm.MissingFrom` | src/components/forms/AmbassadorForm.tsx:68-70 | the missing labels are exactly the required labels that are not in the list |
| `AmbassadorForm.RequiredFieldErrors` | src/components/forms/AmbassadorForm.tsx:51-77 | each check adds its own message whatever the others found. First name, last name and email get an error iff they are all white space, each with its own message. `commitments` holds "Please accept all commitments to continue" iff some required label is missing. No other key is set |
| `AmbassadorForm.ValidationErrors` | src/components/forms/AmbassadorForm.tsx:51-78 | the map `validateForm` leaves has keys only among first name, last name, email and `commitments`, and it is empty exactly when the three names are non-blank after trimming and all four labels are present |
| `AmbassadorForm.ValidationIgnoresPhoneAndChurch` | src/components/forms/AmbassadorForm.tsx:51-78 | `phone` and `church` never change the validator's outcome |
| `AmbassadorForm.ValidationSeesOnlyRequiredLabels` | src/components/forms/AmbassadorForm.tsx:68-75 | only which required labels are present matters. Order, repeats and extra entries do not |
| `AmbassadorForm.FormLabelsAccepted` | src/services/enrollments.ts:34 | for a list the form can build (required labels, no repeats), the count test `length === 4` agrees with "all four labels present", in both directions |
| `AmbassadorForm.CountAcceptsArbitraryLabels` | src/services/enrollments.ts:34 | the count test alone accepts four labels that include no required one |
| `AmbassadorForm.RequestOf` | src/components/forms/AmbassadorForm.tsx:89-97 | the request carries the form's names, email and commitments unchanged. Phone and church are always passed as present strings, possibly empty, and never as absent values |
| `AmbassadorForm.SubmitMessage` | src/components/forms/AmbassadorForm.tsx:102 | an `Error` instance shows its own message. Any other thrown value shows "Failed to submit enrollment" |
| `AmbassadorForm.Form.constructor` | src/components/forms/AmbassadorForm.tsx:23-33 | all fields are empty, with no labels and no errors, and neither loading nor success is set |
| `AmbassadorForm.Form.SetError` | src/components/forms/AmbassadorForm.tsx:32 | the error hook's `setError` stores the message under its key, and every other key is unchanged |
| `AmbassadorForm.Form.ClearError` | src/components/forms/AmbassadorForm.tsx:32 | the error hook's `clearError` removes that key, and every other key is unchanged |
| `AmbassadorForm.Form.ClearAllErrors` | src/components/forms/AmbassadorForm.tsx:32 | the error hook's `clearAllErrors` leaves no error |
| `AmbassadorForm.Form.HandleInputChange` | src/components/forms/AmbassadorForm.tsx:35-39 | only the named field changes, and only that field's error is cleared |
| `AmbassadorForm.Form.HandleCommitmentToggle` | src/components/forms/AmbassadorForm.tsx:41-49 | the list becomes its toggled form and only the `commitments` error is cleared. Toggling a required label keeps the list to required labels without repeats |
| `AmbassadorForm.Form.ValidateForm` | src/components/forms/AmbassadorForm.tsx:51-78 | earlier errors are dropped and the map becomes exactly the messages of the failed checks. The result is true iff the form is submittable, iff the map is empty |
| `AmbassadorForm.Form.HandleSubmit` | src/components/forms/AmbassadorForm.tsx:80-106 | an invalid form leaves only the validation errors, makes no service call and leaves `loading` as it was. A valid form calls the service once and ends with `loading` false. A duplicate gives `submit` the duplicate message, and a store failure gives it the thrown message or the fallback; neither writes. Success sets `showSuccess`, leaves no error and appends the row. From a form built by its own toggles, that row has `commitmentsAccepted` true |

## Left out

- Rendering (src/components/forms/AmbassadorForm.tsx:108-275), the success dialog and `onClose`: presentation only.
- `console.error` logging and `e.preventDefault()`: no effect on the modelled state.
- Async/await and React's batching of state updates: each handler runs as one sequential step.
- Two overlapping submissions for the same email: concurrency is not modelled. Only the state such a race leaves behind is covered, by `SharedEmailNotRefused`.
- A second submit while `loading` is true is blocked by the rendering: the submit button is `disabled={loading}` (src/components/forms/AmbassadorForm.tsx:263). Rendering is left out, and `handleSubmit` itself has no guard. In the model `HandleSubmit` runs as one step, so two calls cannot overlap.
- The `useFormErrors` hook is not part of this model. Its errors are a map with set, clear and clear-all operations (`Form.SetError`, `Form.ClearError`, `Form.ClearAllErrors`), as the form uses them.
- Error keys are a datatype: the five input names, `commitments` and `submit`. The form's inputs carry exactly those five names, so `handleInputChange` never receives another name.
- The Supabase client, its configuration, the connection tests, the setup script and the maps constants are left out. They are I/O or configuration.
- `.single()` is modelled as "exactly one matching row, or an error". Its other behaviour is left out.
- The store's column defaults and its error for "not exactly one row" are parameters of the table, because the table's schema is not part of this model.
- Store ids are naturals assigned in insertion order, not generated strings. `created_at` is a parameter standing for the store's clock.
- The business and subscriber columns of the row are left out, because this workflow never writes them.
- A failed email lookup is not reported as a store error. The code discards that error and goes on to the insert, and the model does the same (`ExistingId`, `FailedLookupAdmitsDuplicate`).
