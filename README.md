# Absence justification review, modelled in Dafny

A model of the two dialog components of the HR front end that carry logic:

- **JustificationModalComponent** reviews one absence record. It can download the
  attached justification file and validate the absence through the absence service.
  Its state is the `isValidating` flag and the absence record it shares with the dialog's
  opener. The model adds logs of what the component does to its collaborators:
  snack-bar notifications, `dialogRef.close` calls, service requests, the children of
  `document.body`, the live object URLs and anchor clicks.
- **ConfirmationDialogComponent** fills in default labels and a default kind in the
  opener's `ConfirmationDialogData`, and maps the kind to an icon name.

Modules:

- `Wrappers` (wrappers.dfy): `Option`, standing for `undefined`/`null` versus a value.
- `JsRuntime` (js_runtime.dfy): the ECMAScript behaviour the components rely on.
  This covers truthiness, `x || d`, `indexOf` from a start inside the string, `replace`
  with a string pattern and an empty replacement (first occurrence only, anywhere in the
  string) and ASCII `toUpperCase`. Each is tied to an independent definition such as
  "first occurrence" or "same letter ignoring case".
- `Browser` (browser.dfy): anchor elements, `removeChild` on a child list, object-URL
  resolution and the record of a click.
- `JustificationModal` (justification_modal.dfy): the absence record (a class, because the
  component patches `status` in place and the opener sees the change), the legacy file
  name and URL, the status allow-list, and the component class. Each `subscribe`
  callback is a handler method of its own.
- `ConfirmationDialog` (confirmation_dialog.dfy): the shared data object and the component.

## Behaviour worth knowing

- The legacy file name is built with two `replace` calls with string patterns. Each removes
  only the first occurrence of its pattern, wherever it is in the string: first `"uploads/"`,
  then `"uploads\"`. A pattern in the middle of the path is removed too
  (`LegacyFilenameRemovesInnerOccurrence`), and a second occurrence stays
  (`LegacyFilenameRemovesOnlyFirst`).
- The download guard looks only at `justificationFile`. An absence with attachments but
  no `justificationFile` gets the "No file to download" warning.
- `onValidate` does not check `isValidating`. Only `canValidate`, which the template
  uses to enable the button, looks at it. A second call while busy issues a second request.

## Model

| member | source | states |
|---|---|---|
| JsRuntime.Truthy | RSIComelitFrontend/src/app/absence-list-component/justification-modal/justification-modal.component.ts:78 | the `!x` test on a string-or-missing field: present and not empty |
| JsRuntime.TruthyId | RSIComelitFrontend/src/app/absence-list-component/justification-modal/justification-modal.component.ts:42 | the `!this.absence?.id` test: the id is present and not 0 |
| JsRuntime.Or | RSIComelitFrontend/src/app/component/confirmation-dialog/confirmation-dialog.component.ts:36-38 | `x \|\| d`: a truthy `x` is kept, otherwise the fallback is used; the result is truthy whenever the fallback is |
| JsRuntime.IndexOfFrom | RSIComelitFrontend/src/app/absence-list-component/justification-modal/justification-modal.component.ts:111 | for a start inside the string: the search finds an index at or after `from` where the pattern occurs, with no occurrence between `from` and it; "not found" means it occurs nowhere from `from` on |
| JsRuntime.IndexOf | RSIComelitFrontend/src/app/absence-list-component/justification-modal/justification-modal.component.ts:111 | found exactly when the pattern occurs, and then at its leftmost occurrence |
| JsRuntime.RemoveFirst | RSIComelitFrontend/src/app/absence-list-component/justification-modal/justification-modal.component.ts:111 | `replace(pat, '')` with a string pattern: without an occurrence the string is unchanged; otherwise exactly the leftmost occurrence is removed, and the string is shorter by the pattern's length |
| JsRuntime.RemoveLeading | RSIComelitFrontend/src/app/absence-list-component/justification-modal/justification-modal.component.ts:111 | removing a pattern that starts the string leaves exactly what follows it |
| JsRuntime.ToUpperCase | RSIComelitFrontend/src/app/absence-list-component/justification-modal/justification-modal.component.ts:162 | same length; each character upper-cased (ASCII letters) |
| JsRuntime.UpperCaseEqualsIff | RSIComelitFrontend/src/app/absence-list-component/justification-modal/justification-modal.component.ts:161-163 | upper-casing a string gives an upper-case word exactly when the string spells that word letter by letter in any case |
| Browser.Anchor.constructor | RSIComelitFrontend/src/app/absence-list-component/justification-modal/justification-modal.component.ts:119 | `createElement('a')`: a new anchor with no href, no download name, no target |
| Browser.Resolve | RSIComelitFrontend/src/app/absence-list-component/justification-modal/justification-modal.component.ts:140 | a click on an object URL gets the blob registered for it while that URL is live; any other href gets none |
| Browser.RemoveChild | RSIComelitFrontend/src/app/absence-list-component/justification-modal/justification-modal.component.ts:125 | `removeChild` takes out the first occurrence of the element; the other children keep their order |
| Browser.RemoveAppendedChild | RSIComelitFrontend/src/app/absence-list-component/justification-modal/justification-modal.component.ts:123-125 | appending a new element and then removing it gives back the original child list |
| JustificationModal.Absence.constructor | RSIComelitFrontend/src/app/absence-list-component/justification-modal/justification-modal.component.ts:25 | the shared absence record with its id, status, legacy justificationFile and files fields |
| JustificationModal.LegacyFilename | RSIComelitFrontend/src/app/absence-list-component/justification-modal/justification-modal.component.ts:111 | the cleaned name is never longer than the stored path, and a path with neither pattern is kept as it is |
| JustificationModal.LegacyFileUrl | RSIComelitFrontend/src/app/absence-list-component/justification-modal/justification-modal.component.ts:115 | the URL is the fixed "http://localhost:8080/uploads/" followed by exactly the file name |
| JustificationModal.IsValidatableStatus | RSIComelitFrontend/src/app/absence-list-component/justification-modal/justification-modal.component.ts:162-163 | the status, upper-cased, is one of "JUSTIFIED" and "PENDING_VALIDATION"; its meaning is stated by ValidatableStatusIff |
| JustificationModal.SavedFilename | RSIComelitFrontend/src/app/absence-list-component/justification-modal/justification-modal.component.ts:96 | the saved name is the attachment's original file name when truthy, else "justification-file"; never empty |
| JustificationModal.ValidatableStatusIff | RSIComelitFrontend/src/app/absence-list-component/justification-modal/justification-modal.component.ts:161-163 | a status passes the allow-list exactly when it is present and spells JUSTIFIED or PENDING_VALIDATION in any letter case |
| JustificationModal.AcceptedStatusExamples | RSIComelitFrontend/src/app/absence-list-component/justification-modal/justification-modal.component.ts:162-163 | "JUSTIFIED", "justified" and "Pending_Validation" pass |
| JustificationModal.RefusedStatusExamples | RSIComelitFrontend/src/app/absence-list-component/justification-modal/justification-modal.component.ts:162-163 | "VALID", "REJECTED", "" and a missing status do not pass |
| JustificationModal.NoOccurrenceWithoutLeadChar | RSIComelitFrontend/src/app/absence-list-component/justification-modal/justification-modal.component.ts:111 | a pattern cannot occur in a string that nowhere holds its first character |
| JustificationModal.LegacyFilenameOfSlashPath | RSIComelitFrontend/src/app/absence-list-component/justification-modal/justification-modal.component.ts:111 | "uploads/" + rest becomes rest when rest has no "uploads\" |
| JustificationModal.LegacyFilenameOfBackslashPath | RSIComelitFrontend/src/app/absence-list-component/justification-modal/justification-modal.component.ts:111 | "uploads\" + rest becomes rest when rest has no "uploads/" |
| JustificationModal.LegacyReportExample | RSIComelitFrontend/src/app/absence-list-component/justification-modal/justification-modal.component.ts:111-115 | "uploads/report.pdf" becomes "report.pdf", fetched from the fixed uploads URL followed by "report.pdf" |
| JustificationModal.LegacyFilenameRemovesInnerOccurrence | RSIComelitFrontend/src/app/absence-list-component/justification-modal/justification-modal.component.ts:111 | "docs/uploads/a.pdf" becomes "docs/a.pdf": the pattern is removed where it occurs, not only as a prefix |
| JustificationModal.LegacyFilenameRemovesOnlyFirst | RSIComelitFrontend/src/app/absence-list-component/justification-modal/justification-modal.component.ts:111 | "uploads/uploads/a.pdf" becomes "uploads/a.pdf": only the first occurrence goes |
| JustificationModal.JustificationModalComponent.constructor | RSIComelitFrontend/src/app/absence-list-component/justification-modal/justification-modal.component.ts:28-35 | the component takes the dialog's absence, starts not validating, and has issued nothing |
| JustificationModal.JustificationModalComponent.HasJustificationFile | RSIComelitFrontend/src/app/absence-list-component/justification-modal/justification-modal.component.ts:78 | the download guard: there is an absence and its justificationFile is truthy |
| JustificationModal.JustificationModalComponent.HasAttachments | RSIComelitFrontend/src/app/absence-list-component/justification-modal/justification-modal.component.ts:90 | the branch test: the absence has a non-empty files array |
| JustificationModal.JustificationModalComponent.CanValidate | RSIComelitFrontend/src/app/absence-list-component/justification-modal/justification-modal.component.ts:150-164 | false without an absence or while validating; otherwise true exactly when the status spells JUSTIFIED or PENDING_VALIDATION in any case |
| JustificationModal.JustificationModalComponent.OnClose | RSIComelitFrontend/src/app/absence-list-component/justification-modal/justification-modal.component.ts:37-39 | one close without payload; nothing else changes |
| JustificationModal.JustificationModalComponent.OnValidate | RSIComelitFrontend/src/app/absence-list-component/justification-modal/justification-modal.component.ts:41-52 | without a truthy id: one "No absence ID found" error, no request, flag and absence unchanged; with one: flag set, exactly one validate request for that id, whatever the flag was, and validation then disabled |
| JustificationModal.JustificationModalComponent.OnValidateSuccess | RSIComelitFrontend/src/app/absence-list-component/justification-modal/justification-modal.component.ts:53-65 | status becomes the response's status if truthy, else "VALID"; one success notification; one close with the validated payload holding the response; flag cleared |
| JustificationModal.JustificationModalComponent.OnValidateError | RSIComelitFrontend/src/app/absence-list-component/justification-modal/justification-modal.component.ts:66-73 | one error notification; flag cleared; no close; status unchanged, so validation is enabled again exactly when the status allows it |
| JustificationModal.JustificationModalComponent.DownloadFile | RSIComelitFrontend/src/app/absence-list-component/justification-modal/justification-modal.component.ts:77-132 | without a truthy justificationFile: one warning, no request, no click, body unchanged, even with attachments. With attachments: one fetch of files[0] by absence id and file id. Otherwise: one click on the legacy URL with the cleaned name and target "_blank", body restored, one "initiated" notification |
| JustificationModal.JustificationModalComponent.OnDownloadSuccess | RSIComelitFrontend/src/app/absence-list-component/justification-modal/justification-modal.component.ts:95-97 | saves the fetched blob under the attachment's saved name, as DownloadBlob does |
| JustificationModal.JustificationModalComponent.OnDownloadError | RSIComelitFrontend/src/app/absence-list-component/justification-modal/justification-modal.component.ts:98-104 | one download error notification, nothing else |
| JustificationModal.JustificationModalComponent.ClickThroughBody | RSIComelitFrontend/src/app/absence-list-component/justification-modal/justification-modal.component.ts:123-125 | appending an anchor that is not yet a child, clicking it and removing it records one click with its attributes, and leaves the body as it began (the same steps recur at lines 139-141) |
| JustificationModal.JustificationModalComponent.DownloadBlob | RSIComelitFrontend/src/app/absence-list-component/justification-modal/justification-modal.component.ts:134-148 | one click on a fresh object URL that resolves to the blob, with the given name; body and live object URLs end as they started; one success notification |
| ConfirmationDialog.ConfirmationDialogData.constructor | RSIComelitFrontend/src/app/component/confirmation-dialog/confirmation-dialog.component.ts:7-13 | the data record with its required title and message and optional texts and kind |
| ConfirmationDialog.ConfirmationDialogComponent.constructor | RSIComelitFrontend/src/app/component/confirmation-dialog/confirmation-dialog.component.ts:30 | the component holds the data object injected by its opener |
| ConfirmationDialog.ConfirmationDialogComponent.NgOnInit | RSIComelitFrontend/src/app/component/confirmation-dialog/confirmation-dialog.component.ts:34-39 | each of confirmText, cancelText and kind is kept when truthy, else becomes "Confirm", "Cancel" or "warning"; afterwards all three are truthy; title and message are unchanged; a second call changes nothing |
| ConfirmationDialog.ConfirmationDialogComponent.IconName | RSIComelitFrontend/src/app/component/confirmation-dialog/confirmation-dialog.component.ts:41-52 | "info" exactly when the kind is "info"; "warning" for "danger", "warning", any other kind and none |

## Left out

- `console.log` and `console.error` calls: they affect neither state nor the user.
- JsRuntime.ToUpperCase: maps only the ASCII letters. JavaScript also upper-cases other
  characters, some of them into ASCII (U+017F to "S", the ligature U+FB01 to "FI"). A status
  written with such characters would pass `canValidate` in the browser but not in the model.
- Asynchrony: the service's observables are not modelled. Their callbacks are handler methods
  that the environment may call in any order and any number of times. Nothing tracks which
  requests are still pending.
- JustificationModal.JustificationModalComponent.OnValidateSuccess: requires an absence. Its
  callback exists only after `onValidate` passed its id guard, and the component never
  reassigns `absence`.
- Material internals: what `dialogRef.close` does on a second call, how snack bars queue, and
  the HTTP client behind `AbsenceService`. The model only records calls.
- Values of unexpected JavaScript types are not modelled. Ids are numbers (falsy when missing
  or 0), and status, file names and labels are strings (falsy when missing or empty). A
  non-string status or `justificationFile` would make `toUpperCase` or `replace` throw.
- Blobs are byte sequences. Object URLs are numbered handles, not the browser's "blob:" strings.
- The dialog's raw `data` argument is modelled only through the absence it carries.
- Browser.RemoveChild: for an element that is not a child, the DOM throws `NotFoundError`,
  while the model returns the list unchanged. The component only removes the anchor it has
  just appended.
- JsRuntime.IndexOfFrom: a start beyond the string is not modelled. JavaScript clamps it to
  the length. The component only searches from the start.
- JsRuntime.RemoveFirst: JavaScript's `replace` also expands `$&`, `$$`, `` $` `` and `$'`
  patterns in a replacement string. The model has no replacement parameter, because the
  component only removes text.
- AbsenceController.java, the dashboard components and `_nav.ts` are not part of this model.
