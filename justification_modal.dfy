/**
 * The justification modal of the absence list: it shows one absence, lets
 * the reviewer download its justification file and validate it.
 *
 * The collaborators it is handed (snack bar, dialog reference, absence
 * service) and the parts of the page it touches (`document.body`, object
 * URLs, anchor clicks) are recorded as logs on the component. Each
 * `subscribe` callback is a separate handler method that the environment
 * calls when the observable emits or fails.
 */
module JustificationModal {
  import opened Wrappers
  import opened JsRuntime
  import opened Browser

  /** One entry of `absence.files`. */
  datatype AbsenceFile = AbsenceFile(id: Option<int>, originalFilename: Option<string>)

  /** The absence record shared with the opener of the dialog. */
  class Absence {
    var id: Option<int>
    var status: Option<string>
    var justificationFile: Option<string>
    var files: Option<seq<AbsenceFile>>

    constructor (id: Option<int>, status: Option<string>, justificationFile: Option<string>,
                 files: Option<seq<AbsenceFile>>)
      ensures this.id == id && this.status == status
      ensures this.justificationFile == justificationFile && this.files == files
    {
      this.id := id;
      this.status := status;
      this.justificationFile := justificationFile;
      this.files := files;
    }
  }

  /** The payload `{ action: 'validated', absence }` handed back on close. */
  datatype DialogResult = Validated(absence: Absence)

  /** A call made on the absence service. */
  datatype Request =
    | ValidateAbsence(absenceId: int)
    | DownloadAbsenceFile(ofAbsence: Option<int>, fileId: Option<int>)

  /** A `snackBar.open(message, action, { duration, panelClass })` call. */
  datatype Notification = Notification(message: string, action: string, durationMs: nat, panelClass: string)

  const NoAbsenceIdError := Notification("Error: No absence ID found", "Close", 3000, "error-snackbar")
  const AbsenceValidated := Notification("Absence validated successfully!", "Close", 3000, "success-snackbar")
  const ValidationFailed := Notification("Error validating absence. Please try again.", "Close", 3000, "error-snackbar")
  const NoFileWarning := Notification("No file to download", "Close", 2000, "warning-snackbar")
  const DownloadFailed := Notification("Error downloading file. Please try again.", "Close", 3000, "error-snackbar")
  const DownloadInitiated := Notification("File download initiated!", "Close", 2000, "success-snackbar")
  const DownloadSucceeded := Notification("File downloaded successfully!", "Close", 2000, "success-snackbar")

  /** Status written into the absence when the server's response carries none. */
  const DefaultValidatedStatus := "VALID"
  /** Name a structured attachment is saved under when it has no original name. */
  const DefaultSavedFilename := "justification-file"
  /** Fixed origin and route of the legacy direct download. */
  const LegacyUploadsUrl := "http://localhost:8080/uploads/"
  /** The two statuses from which an absence may be validated. */
  const ValidatableStatuses: set<string> := {"JUSTIFIED", "PENDING_VALIDATION"}

  /** How `downloadFile` proceeded. */
  datatype DownloadStart =
    | NothingToDownload
    | FetchingAttachment(file: AbsenceFile)
    | DirectDownload(url: string, filename: string)

  /** The legacy file name: the first "uploads/" removed, then the first "uploads\". */
  function LegacyFilename(justificationFile: string): (filename: string)
    ensures |filename| <= |justificationFile|
    ensures !Occurs(justificationFile, "uploads/") && !Occurs(justificationFile, "uploads\\") ==>
              filename == justificationFile
  {
    RemoveFirst(RemoveFirst(justificationFile, "uploads/"), "uploads\\")
  }

  /** The direct URL of a legacy file on the backend. */
  function LegacyFileUrl(filename: string): (url: string)
    ensures |url| == |LegacyUploadsUrl| + |filename|
    ensures url[..|LegacyUploadsUrl|] == LegacyUploadsUrl && url[|LegacyUploadsUrl|..] == filename
  {
    LegacyUploadsUrl + filename
  }

  /** The name a downloaded attachment is saved under. */
  function SavedFilename(file: AbsenceFile): (name: string)
    ensures name != ""
    ensures Truthy(file.originalFilename) ==> name == file.originalFilename.value
    ensures !Truthy(file.originalFilename) ==> name == DefaultSavedFilename
  {
    Or(file.originalFilename, DefaultSavedFilename)
  }

  /** The status part of `canValidate`: upper-cased, it is one of the two allowed values. */
  predicate IsValidatableStatus(status: Option<string>)
  {
    status.Some? && ToUpperCase(status.value) in ValidatableStatuses
  }

  /** A status is validatable exactly when it spells an allowed status in any letter case. */
  lemma ValidatableStatusIff(status: Option<string>)
    ensures IsValidatableStatus(status) <==>
              status.Some? &&
              (MatchesIgnoringCase(status.value, "JUSTIFIED") ||
               MatchesIgnoringCase(status.value, "PENDING_VALIDATION"))
  {
    if status.Some? {
      UpperCaseEqualsIff(status.value, "JUSTIFIED");
      UpperCaseEqualsIff(status.value, "PENDING_VALIDATION");
    }
  }

  /** Statuses the reviewer may validate, in any letter case. */
  lemma AcceptedStatusExamples()
    ensures IsValidatableStatus(Some("JUSTIFIED"))
    ensures IsValidatableStatus(Some("justified"))
    ensures IsValidatableStatus(Some("Pending_Validation"))
  {
    ValidatableStatusIff(Some("JUSTIFIED"));
    assert MatchesIgnoringCase("JUSTIFIED", "JUSTIFIED");
    ValidatableStatusIff(Some("justified"));
    assert MatchesIgnoringCase("justified", "JUSTIFIED");
    ValidatableStatusIff(Some("Pending_Validation"));
    assert MatchesIgnoringCase("Pending_Validation", "PENDING_VALIDATION");
  }

  /** Statuses outside the allow-list, the empty one and a missing one are refused. */
  lemma RefusedStatusExamples()
    ensures !IsValidatableStatus(Some("VALID"))
    ensures !IsValidatableStatus(Some("REJECTED"))
    ensures !IsValidatableStatus(Some(""))
    ensures !IsValidatableStatus(None)
  {
    ValidatableStatusIff(Some("VALID"));
    ValidatableStatusIff(Some("REJECTED"));
    ValidatableStatusIff(Some(""));
  }

  // ---------------------------------------------------------------------
  // Legacy file names
  // ---------------------------------------------------------------------

  /** No index of `s` from `from` on holds the first character of `pat`, so `pat` does not occur there. */
  lemma NoOccurrenceWithoutLead(s: string, pat: string, from: nat)
    requires |pat| > 0
    requires forall j :: from <= j < |s| ==> s[j] != pat[0]
    ensures forall j: nat :: from <= j ==> !OccursAt(s, pat, j)
  {
    forall j: nat | from <= j && j + |pat| <= |s| ensures !OccursAt(s, pat, j) {
      assert s[j..j + |pat|][0] == s[j];
    }
  }

  /** A path under "uploads/" loses exactly that prefix. */
  lemma LegacyFilenameOfSlashPath(rest: string)
    requires !Occurs(rest, "uploads\\")
    ensures LegacyFilename("uploads/" + rest) == rest
  {
    RemoveLeading("uploads/", rest);
  }

  /** A path under "uploads\" loses exactly that prefix. */
  lemma LegacyFilenameOfBackslashPath(rest: string)
    requires !Occurs(rest, "uploads/")
    ensures LegacyFilename("uploads\\" + rest) == rest
  {
    var s := "uploads\\" + rest;
    var pat := "uploads/";
    forall j: nat | j + 8 <= |s| ensures !OccursAt(s, pat, j) {
      if j == 0 {
        assert s[j..j + 8][7] == '\\';
      } else if j < 8 {
        assert s[j..j + 8][0] == s[j];
      } else {
        assert s[j..j + 8] == rest[j - 8..j];
        assert !OccursAt(rest, pat, j - 8);
      }
    }
    assert RemoveFirst(s, pat) == s;
    RemoveLeading("uploads\\", rest);
  }

  /** Nothing in `s` is the first character of `pat`, so `pat` does not occur in `s`. */
  lemma NoOccurrenceWithoutLeadChar(s: string, pat: string)
    requires |pat| > 0
    requires forall j :: 0 <= j < |s| ==> s[j] != pat[0]
    ensures !Occurs(s, pat)
  {
    NoOccurrenceWithoutLead(s, pat, 0);
  }

  /** The worked example: "uploads/report.pdf" is fetched as "report.pdf" under the uploads route. */
  lemma LegacyReportExample(path: string)
    requires path == "uploads/report.pdf"
    ensures LegacyFilename(path) == "report.pdf"
    ensures LegacyFileUrl(LegacyFilename(path)) == LegacyUploadsUrl + "report.pdf"
  {
    var rest := "report.pdf";
    assert path == "uploads/" + rest;
    NoOccurrenceWithoutLeadChar(rest, "uploads\\");
    LegacyFilenameOfSlashPath(rest);
  }

  /** The first "uploads/" is removed even when it is not a prefix. */
  lemma LegacyFilenameRemovesInnerOccurrence(path: string)
    requires path == "docs/uploads/a.pdf"
    ensures LegacyFilename(path) == "docs/a.pdf"
  {
    var pat := "uploads/";
    assert OccursAt(path, pat, 5);
    forall j: nat | j < 5 && j + 8 <= |path| ensures !OccursAt(path, pat, j) {
      assert path[j..j + 8][0] == path[j];
    }
    assert IsFirstOccurrence(path, pat, 5);
    var once := RemoveFirst(path, pat);
    assert once == path[..5] + path[13..];
    assert once == "docs/a.pdf";
    NoOccurrenceWithoutLeadChar(once, "uploads\\");
  }

  /** Only the first "uploads/" is removed. */
  lemma LegacyFilenameRemovesOnlyFirst(path: string)
    requires path == "uploads/uploads/a.pdf"
    ensures LegacyFilename(path) == "uploads/a.pdf"
  {
    var rest := "uploads/a.pdf";
    assert path == "uploads/" + rest;
    forall j: nat | j + 8 <= |rest| ensures !OccursAt(rest, "uploads\\", j) {
      if j == 0 {
        assert rest[j..j + 8][7] == '/';
      } else {
        assert rest[j..j + 8][0] == rest[j];
      }
    }
    LegacyFilenameOfSlashPath(rest);
  }

  // ---------------------------------------------------------------------
  // The component
  // ---------------------------------------------------------------------

  class JustificationModalComponent {
    /** `data.absence`, shared with the opener. */
    var absence: Absence?
    var isValidating: bool

    /** Calls of `snackBar.open`, oldest first. */
    var notifications: seq<Notification>
    /** Calls of `dialogRef.close`, with their payloads. */
    var closeCalls: seq<Option<DialogResult>>
    /** Calls made on the absence service. */
    var requests: seq<Request>
    /** Children of `document.body`. */
    var body: seq<object>
    /** Object URLs created and not yet revoked, by handle. */
    var objectUrls: map<nat, Blob>
    /** The handle the next `URL.createObjectURL` returns. */
    var nextObjectUrl: nat
    /** Anchor clicks, oldest first. */
    var clicks: seq<Click>

    /** Handles of live object URLs were all handed out before the next one. */
    ghost predicate Valid()
      reads this
    {
      forall h :: h in objectUrls ==> h < nextObjectUrl
    }

    constructor (dialogAbsence: Absence?, pageBody: seq<object>, liveUrls: map<nat, Blob>, nextUrl: nat)
      requires forall h :: h in liveUrls ==> h < nextUrl
      ensures Valid()
      ensures absence == dialogAbsence && !isValidating
      ensures notifications == [] && closeCalls == [] && requests == [] && clicks == []
      ensures body == pageBody && objectUrls == liveUrls && nextObjectUrl == nextUrl
    {
      absence := dialogAbsence;
      isValidating := false;
      notifications, closeCalls, requests, clicks := [], [], [], [];
      body, objectUrls, nextObjectUrl := pageBody, liveUrls, nextUrl;
    }

    /** No `dialogRef.close` call has been made yet. */
    predicate IsOpen()
      reads this
    {
      closeCalls == []
    }

    /** The absence carries a truthy `justificationFile`: the guard of `downloadFile`. */
    predicate HasJustificationFile()
      reads this, absence
    {
      absence != null && Truthy(absence.justificationFile)
    }

    /** The absence carries a non-empty `files` array. */
    predicate HasAttachments()
      reads this, absence
    {
      absence != null && absence.files.Some? && |absence.files.value| > 0
    }

    /** `canValidate()`. */
    function CanValidate(): (r: bool)
      reads this, absence
      ensures r <==> absence != null && !isValidating && absence.status.Some? &&
                     (MatchesIgnoringCase(absence.status.value, "JUSTIFIED") ||
                      MatchesIgnoringCase(absence.status.value, "PENDING_VALIDATION"))
      ensures absence == null || isValidating ==> !r
    {
      if absence == null || isValidating then false
      else
        ValidatableStatusIff(absence.status);
        IsValidatableStatus(absence.status)
    }

    /** `onClose()`: close without a payload. */
    method OnClose()
      modifies this`closeCalls
      ensures closeCalls == old(closeCalls) + [None]
    {
      closeCalls := closeCalls + [None];
    }

    /**
     * `onValidate()` up to the request: without a truthy absence id it only
     * reports the error; otherwise it marks the component busy and asks the
     * service to validate that id. It does not look at `isValidating`.
     */
    method OnValidate() returns (issued: bool)
      modifies this`isValidating, this`notifications, this`requests
      ensures issued <==> absence != null && TruthyId(absence.id)
      ensures !issued ==> notifications == old(notifications) + [NoAbsenceIdError] &&
                          isValidating == old(isValidating) && requests == old(requests)
      ensures issued ==> isValidating && notifications == old(notifications) &&
                         requests == old(requests) + [ValidateAbsence(absence.id.value)]
      ensures issued ==> !CanValidate()
      ensures IsOpen() == old(IsOpen())
    {
      if absence == null || !TruthyId(absence.id) {
        notifications := notifications + [NoAbsenceIdError];
        issued := false;
        return;
      }
      isValidating := true;
      requests := requests + [ValidateAbsence(absence.id.value)];
      issued := true;
    }

    /** The `next` callback of the validation request. */
    method OnValidateSuccess(validated: Absence)
      requires absence != null
      modifies this`notifications, this`closeCalls, this`isValidating, absence`status
      ensures notifications == old(notifications) + [AbsenceValidated]
      ensures absence.status == Some(Or(old(validated.status), DefaultValidatedStatus))
      ensures closeCalls == old(closeCalls) + [Some(Validated(validated))]
      ensures !isValidating
    {
      notifications := notifications + [AbsenceValidated];
      absence.status := Some(Or(validated.status, DefaultValidatedStatus));
      closeCalls := closeCalls + [Some(Validated(validated))];
      isValidating := false;
    }

    /** The `error` callback of the validation request: the dialog stays open. */
    method OnValidateError()
      modifies this`notifications, this`isValidating
      ensures notifications == old(notifications) + [ValidationFailed]
      ensures !isValidating
      ensures closeCalls == old(closeCalls) && IsOpen() == old(IsOpen())
      ensures CanValidate() <==> absence != null && IsValidatableStatus(absence.status)
    {
      notifications := notifications + [ValidationFailed];
      isValidating := false;
    }

    /**
     * `downloadFile()`: the guard on `justificationFile`, then either a fetch
     * of the first structured attachment or the legacy direct download.
     */
    method DownloadFile() returns (start: DownloadStart)
      requires Valid()
      modifies this`notifications, this`requests, this`body, this`clicks
      ensures Valid()
      ensures body == old(body) && IsOpen() == old(IsOpen())
      ensures !HasJustificationFile() ==>
                start == NothingToDownload && notifications == old(notifications) + [NoFileWarning] &&
                requests == old(requests) && clicks == old(clicks)
      ensures HasJustificationFile() && HasAttachments() ==>
                start == FetchingAttachment(absence.files.value[0]) &&
                requests == old(requests) + [DownloadAbsenceFile(absence.id, absence.files.value[0].id)] &&
                notifications == old(notifications) && clicks == old(clicks)
      ensures HasJustificationFile() && !HasAttachments() ==>
                var name := LegacyFilename(absence.justificationFile.value);
                start == DirectDownload(LegacyFileUrl(name), name) &&
                clicks == old(clicks) + [Click(Address(LegacyFileUrl(name)), name, "_blank", None)] &&
                notifications == old(notifications) + [DownloadInitiated] && requests == old(requests)
    {
      if absence == null || !Truthy(absence.justificationFile) {
        notifications := notifications + [NoFileWarning];
        return NothingToDownload;
      }
      if absence.files.Some? && |absence.files.value| > 0 {
        var file := absence.files.value[0];
        requests := requests + [DownloadAbsenceFile(absence.id, file.id)];
        return FetchingAttachment(file);
      }
      var filename := LegacyFilename(absence.justificationFile.value);
      var fileUrl := LegacyFileUrl(filename);
      var link := new Anchor();
      link.href := Address(fileUrl);
      link.download := filename;
      link.target := "_blank";
      ClickThroughBody(link);
      notifications := notifications + [DownloadInitiated];
      start := DirectDownload(fileUrl, filename);
    }

    /** The `next` callback of the attachment fetch for `file`. */
    method OnDownloadSuccess(file: AbsenceFile, blob: Blob)
      requires Valid()
      modifies this`objectUrls, this`nextObjectUrl, this`body, this`clicks, this`notifications
      ensures Valid()
      ensures objectUrls == old(objectUrls) && body == old(body)
      ensures nextObjectUrl == old(nextObjectUrl) + 1
      ensures clicks == old(clicks) + [Click(ObjectUrl(old(nextObjectUrl)), SavedFilename(file), "", Some(blob))]
      ensures notifications == old(notifications) + [DownloadSucceeded]
    {
      DownloadBlob(blob, SavedFilename(file));
    }

    /** The `error` callback of the attachment fetch. */
    method OnDownloadError()
      modifies this`notifications
      ensures notifications == old(notifications) + [DownloadFailed]
    {
      notifications := notifications + [DownloadFailed];
    }

    /**
     * `document.body.appendChild(link); link.click(); document.body.removeChild(link)`:
     * the click is recorded with the anchor's attributes and the body ends as it began.
     */
    method ClickThroughBody(link: Anchor)
      requires link !in body
      modifies this`body, this`clicks
      ensures body == old(body)
      ensures clicks == old(clicks) + [Click(link.href, link.download, link.target, Resolve(link.href, objectUrls))]
    {
      body := body + [link];
      clicks := clicks + [Click(link.href, link.download, link.target, Resolve(link.href, objectUrls))];
      RemoveAppendedChild(old(body), link);
      body := RemoveChild(body, link);
    }

    /**
     * `downloadBlob(blob, filename)`: save `blob` through a temporary object
     * URL and a temporary anchor, both gone again at the end.
     */
    method DownloadBlob(blob: Blob, filename: string)
      requires Valid()
      modifies this`objectUrls, this`nextObjectUrl, this`body, this`clicks, this`notifications
      ensures Valid()
      ensures objectUrls == old(objectUrls) && body == old(body)
      ensures nextObjectUrl == old(nextObjectUrl) + 1
      ensures clicks == old(clicks) + [Click(ObjectUrl(old(nextObjectUrl)), filename, "", Some(blob))]
      ensures notifications == old(notifications) + [DownloadSucceeded]
    {
      var url := nextObjectUrl;
      nextObjectUrl := nextObjectUrl + 1;
      objectUrls := objectUrls[url := blob];
      var link := new Anchor();
      link.href := ObjectUrl(url);
      link.download := filename;
      ClickThroughBody(link);
      assert url !in old(objectUrls);
      objectUrls := objectUrls - {url};
      assert objectUrls == old(objectUrls);
      notifications := notifications + [DownloadSucceeded];
    }
  }
}
