# Admin upload form — a Dafny model

The admin page of the sound-map application lets an editor pick an audio
file, name and describe it, choose one of four regions, and "upload" it. The
upload is simulated: after a 2-second delay the upload is marked successful
while the button keeps its "uploading" label, and after another 2 seconds the
form empties itself. This project models that form as a
state machine over an immutable state record and proves its behavioural
promises:

- the MIME-prefix check on picked files;
- the default name derived from a file name (everything before the last dot);
- first-failure-wins validation (file, then name, then region);
- the idle → uploading → succeeded → idle lifecycle, which ends by emptying the form.

Modules:

- `Text` (`text.dfy`): the JavaScript string operations used: `trim`, with
  the exact ECMAScript whitespace set, `startsWith`, and `split`/`join` on one
  character.
- `FileNames` (`file_names.dfy`): `DefaultName`, checked against a reference
  "prefix before the last dot".
- `AdminForm` (`admin_form.dfy`): the state record and the handlers
  `handleFileChange`, `handleUpload` (up to its first `await`), the two delayed
  updates, `clearFile` and the field setters.
- `AdminPage` (`admin_page.dfy`): events as the rendered page allows them,
  `Step`/`Run`, the state invariant, the lifecycle lemmas and the upload
  button's label.
- `Optional` (`optional.dfy`): the option type.

The two timers are not run. The state records which simulated delay is
pending (`timer`), and its expiry is an event (`UploadDelayElapsed`,
`ResetDelayElapsed`). An expiry only has an effect while that delay is
pending. At page level, two more events are gated by what is rendered:
- a file pick has an effect only while no file is held, because the file
  input exists only then (app/admin/page.tsx:156-173);
- a click on the upload button has an effect only while the button is
  enabled (app/admin/page.tsx:190).

Two behaviours of the code are easy to miss:
- The reset after success (app/admin/page.tsx:77-84) does not clear the
  error message. The form therefore returns to exactly its initial state only
  when no error was raised during the upload. `RejectedPickSurvivesReset`
  exhibits a run that ends with the file-type message on an emptied form.
- A rejected (non-audio) pick sets the held file to none rather than leaving
  it unchanged. At page level the two agree, because a pick can only happen
  while no file is held (`PickOutcomes`).

## Model

| member | source | states |
|---|---|---|
| Text.Trim | app/admin/page.tsx:55 | `trim` returns the slice of its input that starts after the leading whitespace; the slice neither starts nor ends with whitespace, and every non-whitespace character of the input lies inside it |
| Text.LeadingWhitespace | app/admin/page.tsx:55 | the count of leading whitespace characters: all characters before it are whitespace, and the one at that index, if any, is not |
| Text.TrailingWhitespace | app/admin/page.tsx:55 | the count of trailing whitespace characters: all characters in the tail of that length are whitespace, and the one just before it, if any, is not |
| Text.BlankIffAllWhitespace | app/admin/page.tsx:55 | `!name.trim()` holds exactly when the name consists only of whitespace (both directions) |
| Text.StartsWith | app/admin/page.tsx:33 | `startsWith(p)` holds exactly when the string is `p` followed by some text |
| Text.Split | app/admin/page.tsx:44 | `split(".")` yields at least one piece, no piece contains the separator, and joining the pieces with the separator gives back the input |
| Text.JoinSnoc | app/admin/page.tsx:44 | joining n ≥ 2 pieces equals joining the first n-1, then the separator, then the last piece; this is the step behind `slice(0, -1)` |
| FileNames.LastIndexOf | app/admin/page.tsx:44 | reference for the last dot: None exactly when there is no dot; otherwise a dot's index with no dot after it |
| FileNames.LastIndexOfBeforeTail | app/admin/page.tsx:44 | a dot followed only by dot-free text is the last dot of the name |
| FileNames.DefaultName | app/admin/page.tsx:44 | a name without a dot gives ""; otherwise the result, a dot and the dot-free extension concatenate back to the file name |
| FileNames.DefaultNameIsPrefixBeforeLastDot | app/admin/page.tsx:44 | the split/slice/join derivation equals the prefix before the last dot, and "" when there is none |
| FileNames.DefaultNameKeepsInnerDots | app/admin/page.tsx:44 | "a.b.mp3" proposes "a.b", so inner dots are kept |
| FileNames.DefaultNameOfLeadingDot | app/admin/page.tsx:44 | ".mp3" proposes the empty name |
| AdminForm.HandleFileChange | app/admin/page.tsx:25-47 | an empty pick changes nothing; a non-audio pick drops the file and sets the file-type error; an audio pick stores the file, clears the error and fills the name from the file name only when the name was empty; nothing else changes |
| AdminForm.Validate | app/admin/page.tsx:50-63 | the form passes exactly when a file is held, the name is not all whitespace and a region is chosen; otherwise the first failing check's message is reported, in the order file, name, region |
| AdminForm.HandleUpload | app/admin/page.tsx:49-67 | a failed check changes only the error; a passing one sets uploading, clears the error, starts the upload delay and changes nothing else |
| AdminForm.ResetForm | app/admin/page.tsx:77-84 | the reset yields the initial state apart from the error message, and exactly the initial state when the error was empty |
| AdminForm.IsAudio | app/admin/page.tsx:33 | a picked file is accepted exactly when its MIME type is "audio/" followed by some text |
| AdminForm.CompleteUpload | app/admin/page.tsx:71-74 | when the upload delay ends the upload is marked successful and the reset delay becomes the pending one; no other field changes |
| AdminForm.ClearFile | app/admin/page.tsx:91-92 | `clearFile` leaves no file held and changes no other field |
| AdminForm.SetName | app/admin/page.tsx:135 | the name input stores the typed value and changes no other field |
| AdminForm.SetDescription | app/admin/page.tsx:146 | the description textarea stores the typed value and changes no other field |
| AdminForm.SetRegion | app/admin/page.tsx:117 | the region selector stores the chosen value and changes no other field |
| AdminForm.ButtonEnabled | app/admin/page.tsx:190 | the button is enabled exactly when a file is held and neither flag is set; while it is enabled, validation cannot fail for a missing file |
| AdminPage.Step | app/admin/page.tsx:156-190 | a pick while a file is held, a click on the disabled button and the expiry of a delay that is not pending leave the state unchanged; the end of the upload delay marks success and starts the reset delay; a clear drops the file; each edit stores its value |
| AdminPage.SuccessLabelNeverShown | app/admin/page.tsx:190-206 | as written, no consistent state shows the success label; in the succeeded phase the button reads "uploading" |
| AdminPage.SucceededUploadReadsUploading | app/admin/page.tsx:65-84 | as written, once a passing upload reaches the succeeded phase the button reads "uploading" |
| AdminPage.IntendedButtonLabel | app/admin/page.tsx:190-206 | with the success test first, the label is the upload label exactly in the idle phase, the uploading label exactly while uploading, and the success label exactly in the succeeded phase |
| AdminPage.IntendedSuccessLabelShown | app/admin/page.tsx:65-84 | with the intended label, a passing upload shows "uploading", then "success", then the upload label again |
| AdminPage.InitialIsConsistent | app/admin/page.tsx:17-23 | the initial state satisfies the invariant and is idle |
| AdminPage.StepPreservesConsistent | app/admin/page.tsx:65-84 | every event keeps the pending delay in step with `uploading`/`uploadSuccess` and keeps the region empty or one of the listed slugs |
| AdminPage.RunPreservesConsistent | app/admin/page.tsx:117-127 | the invariant holds after any sequence of events in which the selector emits only its listed regions |
| AdminPage.PhaseTransitions | app/admin/page.tsx:65-84 | the phase moves only idle → uploading (upload click), uploading → succeeded (upload delay) and succeeded → idle (reset delay) |
| AdminPage.ClickOnlyFromIdleWithFile | app/admin/page.tsx:190 | an upload click has an effect only in the idle phase with a file held and no delay pending |
| AdminPage.ClickFailureOnlySetsError | app/admin/page.tsx:50-63 | through the enabled button the missing-file message cannot occur; a failed check changes only the error and the form stays idle |
| AdminPage.PickOutcomes | app/admin/page.tsx:26-37 | an empty pick leaves the state unchanged; a non-audio pick never changes which file is held |
| AdminPage.ClearChangesOnlyFile | app/admin/page.tsx:91-92 | clearing drops the file and changes no other field |
| AdminPage.UploadLifecycle | app/admin/page.tsx:65-84 | a passing upload goes to uploading, then to succeeded, then back to exactly the initial state |
| AdminPage.InFlightHarmless | app/admin/page.tsx:65-84 | while a delay is pending, edits, clears, button clicks and accepted picks keep the phase, the pending delay and the empty error |
| AdminPage.InterleavedLifecycle | app/admin/page.tsx:65-97 | whatever harmless events occur during either delay, the upload still ends in exactly the initial state |
| AdminPage.RejectedPickSurvivesReset | app/admin/page.tsx:33-36 | clearing during the upload and then picking a non-audio file leaves the file-type error after the reset, so the final state is not the initial one |
| AdminPage.RunAppend | app/admin/page.tsx:25-97 | running two event sequences one after the other is the same as running their concatenation |

## Findings

| source | as written | input that shows it | evidently intended | confidence | as-written member | corrected member |
|---|---|---|---|---|---|---|
| app/admin/page.tsx:191-206 | the button tests `uploading` before `uploadSuccess`, and line 74 sets `uploadSuccess` without clearing `uploading` (it drops only in the reset at line 82) | a passing upload followed by the end of the upload delay: both flags are true, so the button reads 上传中... ("uploading") and 上传成功 ("uploaded") never appears | the success label shows during the 2 seconds between the upload delay and the reset | not executed | AdminPage.SucceededUploadReadsUploading | AdminPage.IntendedSuccessLabelShown |

## Left out

- Rendering, styling, icons and the home and region pages: they are static markup with no state logic the form depends on.
- Router navigation and the bottom tab bar's `activeTab` (app/admin/page.tsx:16, 243-274): UI-only, so the initial state omits `activeTab`.
- The hard-coded "uploaded" list and its edit/delete buttons (app/admin/page.tsx:215-237): the buttons have no handlers.
- The file-size display (app/admin/page.tsx:178): floating-point formatting only.
- The DOM write in `clearFile` (app/admin/page.tsx:93-96): browser plumbing. The model keeps no input element. The input is rendered only while no file is held, so a later pick is always a fresh change event.
- The `catch` branch and its "upload failed" message (app/admin/page.tsx:85-88): the awaited timeout never rejects, so it is unreachable.
- Real timers, `async`/`await` and React's batching of state updates: each handler's updates are applied together as one transition, and each delay is a discrete event.
- A `File` object keeps only its name and MIME type; its size and contents play no part in the form's logic.
- Unicode versions: the whitespace set `trim` strips is fixed at the characters Unicode category Zs holds today; a later Unicode version could add more.
- The region selector can only emit one of its four listed values. Events that pick any other region are excluded by `WellFormed` rather than modelled.
