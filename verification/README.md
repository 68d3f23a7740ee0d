# NoteSync view logic in Dafny

NoteSync is a single-page notes application whose data lives in a hosted
backend: authentication, a relational store with `tasks` and `users`
tables, and an object store bucket `profile_image`. Nearly all of its code
calls that backend or renders markup. This project models the local logic
that sits between those calls, in three views:

- **Home** (`src/routes/Home.tsx`) holds the list of notes, the draft form and
  the optional `editTaskId`. It handles create/update submit, delete,
  edit-entry and field edits.
- **EditProfile** (`src/components/EditProfile.tsx`) handles the avatar.
  The upload path is built from the user id and the file's extension.
  The storage path to remove is cut out of the public URL with
  `split(marker)[1]`. The preview is set optimistically and is never
  reverted. Saving the profile is a two-step write.
- **ForgotPassword** (`src/routes/ForgotPassword.tsx`) is the reset-link /
  recovery-event / new-password state machine. It checks locally that the
  password and its confirmation are equal.

Each event handler is a pure transition function. It takes the view state
and the outcome of its backend call (`Ok(data)` / `Err(message)`, module
`Outcomes`). It returns the next view state and the list of backend calls
it issued, in order. Outcomes of calls the handler never reaches are
ignored. So "the second write happens only after the first succeeds" and
"no call is made" can be stated directly.

Modules:

- `Outcomes` holds `Result` and `Option`.
- `JsStrings` models the JavaScript `split` (non-empty separator) and
  `split(c).pop()` the profile view uses. `IndexOf` models the search
  `split` performs for each separator occurrence. `Join` is a
  specification device: `Split` is proved to join back to its input, in
  pieces that are free of the separator. `split(..)[1]` is proved to be the
  text between the first and the next occurrence.
- `TaskList` holds the record type and the `filter`/`map` list updates.
- `Home`, `EditProfile` and `ForgotPassword` are the three views.

Behaviours of the code that the model keeps as written (they are sharp
edges, not corrected):

- The draft is emptied after every submit, including a failed one.
- The create/update choice is JavaScript truthiness of `editTaskId`. A
  record with id `0` can only be re-inserted, never updated, and the create
  branch leaves `editTaskId` set.
- A created record is appended at the tail, although the list is fetched
  newest-first.
- A failed `users` row write leaves `saveLoading` set until a later
  save's row write succeeds. The click
  handler still runs `updateUser` while `saveLoading` is set
  (`preventDefault` on a `div` does not stop it), so a retry is not blocked.
- A failed upload or metadata update leaves the local preview in place.

## Model

| member | source | states |
|---|---|---|
| Home.Load | src/routes/Home.tsx:40-55 | fetched rows replace the list; an error keeps the list and records its message; the loading flag ends false; the draft and edit mode are untouched |
| Home.Change | src/routes/Home.tsx:57-60 | a field edit sets exactly the named draft field; the other field and the rest of the view are preserved |
| Home.Submit | src/routes/Home.tsx:62-86 | truthy `editTaskId` issues an update of that id, otherwise an insert of the draft; a successful update replaces every record of that id in place (length and other positions kept) and leaves edit mode; a successful create appends the returned record at the tail with the old list as prefix; a failure keeps the list and `editTaskId`; always the draft is empty and submitting is false |
| Home.Delete | src/routes/Home.tsx:101-108 | on success the list holds exactly the old records without that id, each as often as before and in the same relative order; on error nothing changes |
| Home.EditEntry | src/routes/Home.tsx:110-113 | the draft becomes the record's title and description and `editTaskId` its id; the list is unchanged |
| Home.ListPanel | src/routes/Home.tsx:124-133 | cards exactly when the list is non-empty; otherwise skeleton while loading, the error text when it is non-empty, else the empty state |
| Home.LabelMatchesBranch | src/routes/Home.tsx:122 | when idle, the button reads "Update Task" exactly when the submit will send an update and "Add Task" exactly when it will send an insert |
| Home.EditEntryForgetsEarlier | src/routes/Home.tsx:110-113 | editing A then B equals editing B: no merge of A's values |
| Home.EditThenSubmitUpdates | src/routes/Home.tsx:66-67 | after edit-entry on a record with non-zero id, submit updates that id with the record's own title and description |
| Home.ZeroIdSubmitInserts | src/routes/Home.tsx:66-82 | after edit-entry on a record with id 0, submit inserts instead and `editTaskId` stays `Some(0)` |
| Home.DeleteUndoesCreate | src/routes/Home.tsx:77-82 | a successful create whose returned id is new, followed by a successful delete of that id, restores the original list |
| Home.SubmitKeepsIdsUnique | src/routes/Home.tsx:66-82 | if the backend returns a fresh id on insert and the edited id on update, submit keeps the ids of the list pairwise distinct |
| Home.DeleteKeepsIdsUnique | src/routes/Home.tsx:101-107 | delete keeps the ids of the list pairwise distinct |
| Home.CreateUpdateDeleteScenario | src/routes/Home.tsx:57-113 | create "Buy milk"/"2%", edit to "whole", delete: one card, then one card with the same id and the new description, then the empty state |
| Home.SubmitLabel | src/routes/Home.tsx:122 | the caption is "adding..." exactly while a submit is in flight; otherwise "Update Task" exactly when `editTaskId` is truthy and "Add Task" exactly when it is not |
| Home.LoadThenPanel | src/routes/Home.tsx:124-133 | right after the fetch the panel shows the fetched records when there are any, the error text when the fetch fails on an empty list, the kept records when it fails on a non-empty one, and the empty state after an empty successful fetch with no recorded error |
| Home.ChangeThenSubmit | src/routes/Home.tsx:57-82 | a field edit does not change the branch of the next submit, and its call carries the new value with the other field as it was |
| Home.ChangesCombine | src/routes/Home.tsx:57-60 | the last edit of a field wins, and edits of different fields commute |
| Home.ApplyKeepsIdsUnique | src/routes/Home.tsx:40-113 | each handler keeps the ids of the list pairwise distinct when the backend's reply respects ids (distinct fetched ids, a new id on insert, the edited id on update) |
| Home.RunKeepsIdsUnique | src/routes/Home.tsx:40-113 | over any sequence of fetches, field edits, submits, deletes and edit-entries with id-respecting replies, the ids of the list stay pairwise distinct |
| Home.InitialRunKeepsIdsUnique | src/routes/Home.tsx:40-113 | from the freshly mounted view, any trace with id-respecting replies keeps the ids pairwise distinct |
| TaskList.WithoutId | src/routes/Home.tsx:106 | `filter` by id keeps exactly the records whose id differs |
| TaskList.WithoutIdSpec | src/routes/Home.tsx:106 | `filter` by id keeps each other record with its multiplicity, drops every record of that id, preserves relative order, and is the identity when the id is absent |
| TaskList.ReplaceId | src/routes/Home.tsx:71-73 | `map` replacing by id keeps the length, puts the record at every position of that id and leaves the other positions alone |
| TaskList.DeleteUndoesAppend | src/routes/Home.tsx:81 | appending a record with a new id and then filtering that id out gives back the list |
| TaskList.DeleteAfterReplace | src/routes/Home.tsx:72 | replacing the records of an id by a record with that id, then filtering the id out, equals filtering it out directly |
| TaskList.ReplaceIdempotent | src/routes/Home.tsx:72 | replacing by id twice with the same record equals replacing once |
| TaskList.WithoutIdKeepsUnique | src/routes/Home.tsx:106 | filtering by id preserves pairwise-distinct ids |
| TaskList.AppendFreshKeepsUnique | src/routes/Home.tsx:81 | appending a record whose id is new preserves pairwise-distinct ids |
| TaskList.ReplaceKeepsUnique | src/routes/Home.tsx:72 | replacing by id with a record of that id preserves pairwise-distinct ids |
| JsStrings.IndexOf | src/components/EditProfile.tsx:119 | the result is an occurrence with none before it, or none exactly when the separator does not occur |
| JsStrings.Split | src/components/EditProfile.tsx:119 | `split` yields at least one piece, and exactly one when the separator is absent |
| JsStrings.SplitJoin | src/components/EditProfile.tsx:119 | joining the pieces of a split with the separator gives back the string |
| JsStrings.SplitPiecesFree | src/components/EditProfile.tsx:119 | no piece of a split contains the separator |
| JsStrings.SplitSecondPiece | src/components/EditProfile.tsx:119 | `split(sep)[1]` exists exactly when `sep` occurs and is the text after the first occurrence up to the next one (or the end) |
| JsStrings.SecondPieceOfComposite | src/components/EditProfile.tsx:119 | for `<head><sep><tail>` with `sep` first occurring after `<head>` and `<tail>` free of it, `split(sep)[1]` is `<tail>` |
| JsStrings.NoOccurrenceWithOneMark | src/components/EditProfile.tsx:119 | a string with a character at most at one index contains no separator that has that character at two offsets |
| JsStrings.AfterLast | src/components/EditProfile.tsx:51 | `split(".").pop()` is a dot-free suffix preceded by a dot or making up the whole name; a name without a dot is returned whole |
| JsStrings.AfterLastUnique | src/components/EditProfile.tsx:51 | any suffix with those properties is the result, so they characterise it |
| EditProfile.AvatarOrNull | src/components/EditProfile.tsx:32 | the avatar URL or null: a URL is kept exactly when present and non-empty |
| EditProfile.Load | src/components/EditProfile.tsx:24-42 | a returned user sets the user, its id, the four fields from the metadata and the image (the avatar URL when truthy, else null); an error or no user changes nothing but the loading flag |
| EditProfile.Extension | src/components/EditProfile.tsx:51 | the file extension is the dot-free text after the last dot, or the whole name when there is no dot |
| EditProfile.UploadPath | src/components/EditProfile.tsx:51-53 | the upload path is the user id, then `/profile.`, then the extension |
| EditProfile.PickFile | src/components/EditProfile.tsx:44-77 | no file or no user id: no call and no change; otherwise the preview is set and the upload goes to the computed path; an upload error stops there and keeps the preview; the metadata update runs only after a successful upload; only when it also succeeds does the public URL replace the preview |
| EditProfile.RemovalPath | src/components/EditProfile.tsx:119-121 | no marker in the URL gives no path; otherwise the path is the text after the first marker up to the next marker or the end, and none when that text is empty |
| EditProfile.RemovePhoto | src/components/EditProfile.tsx:116-134 | no image or no derivable path: no call and no change; otherwise that path is removed; on success the image is cleared and the metadata avatar is set to null; on error nothing changes |
| EditProfile.Save | src/components/EditProfile.tsx:79-114 | the `users` row write of the four fields comes first; the metadata write is issued only after it succeeds and carries the same fields; a failed row write leaves `saveLoading` true; success clears it |
| EditProfile.SaveWritesAgree | src/components/EditProfile.tsx:85-107 | both writes of a successful save carry the same name, email, age and location |
| EditProfile.SaveIgnoresPendingFlag | src/components/EditProfile.tsx:245-250 | a save behaves identically whether or not `saveLoading` is set |
| EditProfile.FailedUploadPreviewCannotBeRemoved | src/components/EditProfile.tsx:44-64 | after a failed upload the preview stays, and when it holds no public-URL marker the remove button is then a no-op |
| EditProfile.RemoveTargetsUploadedObject | src/components/EditProfile.tsx:119-126 | for a public URL made of the project URL, the marker and a marker-free path, the removal targets exactly that path |
| EditProfile.UploadPathHasOneSlash | src/components/EditProfile.tsx:51-53 | when neither the user id nor the file name holds a `/`, the upload path holds exactly one, right after the user id |
| EditProfile.UploadPathFreeOfMarker | src/components/EditProfile.tsx:51-53 | such an upload path never contains the public-URL marker |
| EditProfile.RemoveUndoesUpload | src/components/EditProfile.tsx:51-121 | the storage path the remove button cuts out of the public URL of an upload path is that upload path |
| EditProfile.PickThenRemove | src/components/EditProfile.tsx:44-133 | after a fully successful pick whose public URL is that of its upload path, the remove button deletes exactly the uploaded object and clears the image locally and in the metadata |
| EditProfile.ReloadAfterUpload | src/components/EditProfile.tsx:32-76 | after a successful pick, reloading the user whose metadata carries the recorded public URL shows the image the pick left on screen |
| EditProfile.ReloadAfterRemove | src/components/EditProfile.tsx:32-133 | after a successful removal, reloading the user whose metadata carries the recorded null avatar shows no image, as the removal left it |
| EditProfile.SaveAfterLoad | src/components/EditProfile.tsx:24-107 | saving a freshly loaded profile without edits writes the loaded name, email, age and location to the loaded user's row and then the same four to the metadata |
| ForgotPassword.ScreenOf | src/routes/ForgotPassword.tsx:93-131 | the new-password form exactly when `isShow`; else the confirmation panel exactly when `isShowMessage`; else the email form |
| ForgotPassword.EditEmail | src/routes/ForgotPassword.tsx:108-111 | an email edit sets the email and clears the error, nothing else |
| ForgotPassword.EditPassword | src/routes/ForgotPassword.tsx:146-149 | a password edit sets the password and clears the error, nothing else |
| ForgotPassword.EditConfirm | src/routes/ForgotPassword.tsx:160-163 | a confirmation edit sets the confirmation and clears the error, nothing else |
| ForgotPassword.SendLink | src/routes/ForgotPassword.tsx:30-45 | sends the reset email for the typed address, redirecting to this route; success shows the confirmation panel, an error sets the message; loading ends false |
| ForgotPassword.OnAuthEvent | src/routes/ForgotPassword.tsx:47-57 | the recovery event hides the confirmation panel and shows the new-password form; any other event changes nothing |
| ForgotPassword.SubmitNewPassword | src/routes/ForgotPassword.tsx:60-84 | differing entries: message "password not matched", no call, no navigation; equal entries: the password is sent, success signs out and navigates to `/login`, an error shows the server message and stays; loading ends false |
| ForgotPassword.ServerContactedIffEqual | src/routes/ForgotPassword.tsx:64-82 | a call is made exactly when the entries are equal; navigation to `/login` happens exactly when they are equal and the update succeeds |
| ForgotPassword.NewPasswordFormStays | src/routes/ForgotPassword.tsx:30-84 | once the new-password form is up and idle, no sequence of events takes it down or leaves loading set |
| ForgotPassword.ConfirmationPanelStays | src/routes/ForgotPassword.tsx:30-84 | once the confirmation panel is up, only the recovery event takes it down |
| ForgotPassword.ResetScenario | src/routes/ForgotPassword.tsx:30-84 | send link, recovery event, matching passwords: the panels appear in order, then a password update and a sign-out, and navigation to `/login` |

## Left out

- Backend calls (auth, `tasks`/`users` queries, storage, the `onAuthStateChange` subscription) are not modelled internally. Their outcomes are parameters, and their requests appear as call values.
- The public URL from `getPublicUrl`, the preview URL from `URL.createObjectURL` and `window.location.origin` are opaque string parameters.
- Rendering, animations, theme switching, skeleton markup, `Header.tsx` and `Loading.tsx` are presentation. The model keeps only which panel and button caption the views select.
- The image `onError` handler, the password visibility toggles and the profile dialog's field setters are presentation or one-line setters.
- Session checks and redirects on mount, the route table (`main.tsx`, `App.tsx`), sign-in, sign-up and OAuth in `Login.tsx` and `SignUp.tsx`, and account deletion in `Profile.tsx` are thin wrappers around backend calls.
- `formateDate` is locale formatting (`toLocaleString`).
- `Number(...)` parsing of age is floating-point parsing. Age is an `int`.
- The `alert` after a successful password change is a browser dialog with no state effect.
- Concurrency is not modelled: each handler is one atomic transition. Interleaving of concurrent handlers, state updates after unmount and the intermediate `loading`/`submitting`/`imgChangeLoading` values seen while a call is in flight are not modelled.
- EditProfile.Load: metadata fields that are `undefined` are modelled as ordinary strings, because the model has no `undefined` value.
- JsStrings.Split: only non-empty separators are modelled, because both call sites pass constant non-empty separators.
- EditProfile.Save: the outcome of the metadata write is not a parameter, because the source only logs it.
- Strings are sequences of Unicode scalar values, where JavaScript uses UTF-16 code units. Lengths and indices differ for characters outside the Basic Multilingual Plane. The pieces `split` returns for the two ASCII separators agree on well-formed strings.
- The profile dialog's initial age is `null`. Age is an `int` here, and no initial dialog state is modelled: every property is stated for arbitrary states.
