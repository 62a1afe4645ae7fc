/**
 * The POST branch of the `upload` route (app.py) as a function from the
 * current table and files to an outcome and the new table and files.
 *
 * The route validates the form, saves the file under a canonical name in the
 * current folder, builds the row and commits it. It then calls
 * `self._archive_old_versions`, where `self` is not defined. The NameError
 * lands in the route's `except`, so every upload that gets that far ends in
 * the error branch after its row is committed, and archiving is never reached.
 */
module Upload {
  import opened Wrappers
  import opened Text
  import opened Paths
  import opened Versions
  import opened Archive

  type Form = map<string, string>

  /** The uploaded file part: the client's file name and the bytes sent. */
  datatype FilePart = FilePart(filename: string, content: Bytes)

  /** A POST request: form fields, file parts by field name, and the size of the body. */
  datatype Request = Request(form: Form, files: map<string, FilePart>, bodySize: nat)

  /**
   * int() and datetime.fromisoformat() on a string, supplied by the caller:
   * None stands for the ValueError they raise. Timestamps are seconds.
   */
  datatype Parsers = Parsers(toInt: string -> Option<int>, fromIsoFormat: string -> Option<int>)

  /** MAX_CONTENT_LENGTH of config.py: 200 MiB. */
  const MaxContentLength: nat := 200 * 1024 * 1024

  /** The eight fields the route requires, in the order it checks them. */
  const RequiredFields: seq<string> := [
    "software_name", "version", "update_notes", "test_description",
    "test_result", "test_completed_at", "test_id", "developer_dri"]

  /** The field name of the file part. */
  const FileField: string := "dll_file"

  /** request.form.get(key, ''). */
  function FormValue(form: Form, key: string): string {
    if key in form then form[key] else ""
  }

  /** A missing, empty or whitespace-only field. */
  predicate Blank(form: Form, key: string) {
    AllSpace(FormValue(form, key))
  }

  /** Blank is the route's test `not request.form.get(field, '').strip()`. */
  lemma BlankIsEmptyAfterStrip(form: Form, key: string)
    ensures Blank(form, key) <==> Strip(FormValue(form, key)) == []
  {
    StripSpec(FormValue(form, key));
  }

  /** The position of the first blank field, scanning in order; None when all are filled in. */
  function FirstBlank(form: Form, fields: seq<string>): (r: Option<nat>)
    ensures r.None? ==> forall i :: 0 <= i < |fields| ==> !Blank(form, fields[i])
    ensures r.Some? ==> r.value < |fields| && Blank(form, fields[r.value])
    ensures r.Some? ==> forall j :: 0 <= j < r.value ==> !Blank(form, fields[j])
  {
    if fields == [] then None
    else if Blank(form, fields[0]) then Some(0)
    else
      match FirstBlank(form, fields[1..])
        case None => None
        case Some(k) => Some(k + 1)
  }

  /** The loop of app.py over required_fields: the position of the first blank field, if any. */
  method FindBlankField(form: Form) returns (missing: Option<nat>)
    ensures missing == FirstBlank(form, RequiredFields)
  {
    var i := 0;
    while i < |RequiredFields|
      invariant 0 <= i <= |RequiredFields|
      invariant forall j :: 0 <= j < i ==> !Blank(form, RequiredFields[j])
    {
      var value := FormValue(form, RequiredFields[i]);
      BlankIsEmptyAfterStrip(form, RequiredFields[i]);
      if Strip(value) == [] {
        FirstBlankIsFirst(form, RequiredFields, i);
        return Some(i);
      }
      i := i + 1;
    }
    FirstBlankIsFirst(form, RequiredFields, |RequiredFields|);
    return None;
  }

  /** FirstBlank finds position i exactly when i is blank and every earlier field is not. */
  lemma {:induction false} FirstBlankIsFirst(form: Form, fields: seq<string>, i: nat)
    requires i <= |fields| && forall j :: 0 <= j < i ==> !Blank(form, fields[j])
    ensures i < |fields| && Blank(form, fields[i]) ==> FirstBlank(form, fields) == Some(i)
    ensures i == |fields| ==> FirstBlank(form, fields) == None
  {
    if fields != [] && i > 0 {
      FirstBlankIsFirst(form, fields[1..], i - 1);
    }
  }

  /** The ASCII letters lower-cased, everything else kept. */
  function Lower(s: string): (r: string)
    ensures |r| == |s| && forall i :: 0 <= i < |s| ==> r[i] == LowerChar(s[i])
  {
    seq(|s|, i requires 0 <= i < |s| => LowerChar(s[i]))
  }

  /** filename.lower().endswith('.dll'). */
  predicate IsDllName(filename: string) {
    var l := Lower(filename);
    |l| >= 4 && l[|l| - 4..] == ".dll"
  }

  /** The extension test accepts exactly the names ending in '.', 'd' or 'D', then 'l' or 'L' twice. */
  lemma DllNameCharacterised(filename: string)
    ensures IsDllName(filename) <==>
      var n := |filename|;
      && n >= 4 && filename[n - 4] == '.'
      && (filename[n - 3] == 'd' || filename[n - 3] == 'D')
      && (filename[n - 2] == 'l' || filename[n - 2] == 'L')
      && (filename[n - 1] == 'l' || filename[n - 1] == 'L')
  {
    var l := Lower(filename);
    var n := |filename|;
    if n >= 4 {
      assert l[n - 4..] == ".dll" <==> l[n - 4] == '.' && l[n - 3] == 'd' && l[n - 2] == 'l' && l[n - 1] == 'l' by {
        if l[n - 4] == '.' && l[n - 3] == 'd' && l[n - 2] == 'l' && l[n - 1] == 'l' {
          assert l[n - 4..] == [l[n - 4], l[n - 3], l[n - 2], l[n - 1]];
        }
      }
    }
  }

  /** request.form['version'].strip().replace('v', ''): every lower-case v goes, not only a leading one. */
  function NormalizeVersion(version: string): (r: string)
    ensures 'v' !in r && |r| <= |version|
  {
    RemoveAll(Strip(version), 'v')
  }

  /**
   * The stored version is the stripped one with every 'v' deleted and every
   * other character kept, in order: scanning the stripped input left to right,
   * each character other than 'v' is appended.
   */
  lemma NormalizeVersionSpec(version: string)
    ensures var r := NormalizeVersion(version);
      var t := Strip(version);
      && (forall c :: c != 'v' ==> multiset(r)[c] == multiset(t)[c])
      && |r| == |t| - multiset(t)['v']
      && ('v' !in t ==> r == t)
      && RemoveAll([], 'v') == []
      && (forall i :: 0 <= i < |t| ==>
            RemoveAll(t[..i + 1], 'v') == RemoveAll(t[..i], 'v') + (if t[i] == 'v' then [] else [t[i]]))
      && r == RemoveAll(t[..|t|], 'v')
  {
    var t := Strip(version);
    RemoveAllSpec(t, 'v');
    assert t[..|t|] == t;
  }

  /** The name of the saved file: secure_filename(name.strip()) + "_v" + version + ".dll". */
  function StoredName(form: Form): string {
    FileNameOf(SecureFilename(Strip(FormValue(form, "software_name"))),
               NormalizeVersion(FormValue(form, "version")))
  }

  /** Where the file is saved: os.path.join(UPLOAD_FOLDER_CURRENT, filename). */
  function StoredPath(current: string, form: Form): string {
    Join(current, StoredName(form))
  }

  /** The stored name holds a '/' exactly when the normalized version does. */
  lemma StoredNameSlash(form: Form)
    ensures '/' in StoredName(form) <==> '/' in NormalizeVersion(FormValue(form, "version"))
  {
    var name := SecureFilename(Strip(FormValue(form, "software_name")));
    var v := NormalizeVersion(FormValue(form, "version"));
    SafeNameSlash(name, v);
  }

  lemma SafeNameSlash(name: string, version: string)
    requires AllSafe(name)
    ensures '/' in FileNameOf(name, version) <==> '/' in version
  {
    assert '/' !in name by {
      forall i | 0 <= i < |name| ensures name[i] != '/' {
        assert IsSafe(name[i]);
      }
    }
  }

  /** int(request.form.get('test_duration', 0) or 0): absent and empty both give 0. */
  function Duration(form: Form, p: Parsers): Option<int> {
    if "test_duration" !in form || form["test_duration"] == [] then Some(0)
    else p.toInt(form["test_duration"])
  }

  /** The row built by app.py from the form, the saved file and the clock. */
  function NewRow(id: nat, current: string, form: Form, content: Bytes, duration: int, completedAt: int, now: int): Version {
    Version(
      id := id,
      softwareName := SecureFilename(Strip(FormValue(form, "software_name"))),
      version := NormalizeVersion(FormValue(form, "version")),
      filePath := StoredPath(current, form),
      fileSize := |content|,
      updateNotes := Strip(FormValue(form, "update_notes")),
      testDescription := Strip(FormValue(form, "test_description")),
      testResult := Strip(FormValue(form, "test_result")),
      testDuration := Some(duration),
      testCompletedAt := completedAt,
      testId := Strip(FormValue(form, "test_id")),
      developerDri := Strip(FormValue(form, "developer_dri")),
      uploadedBy := "admin",
      uploadedAt := now,
      downloadedCount := 0)
  }

  /** Answers the route gives after redirecting back to the form with a message. */
  datatype Rejection = MissingField(field: string) | NoFileSelected | NotDll

  /** Exceptions the route's `except Exception` turns into an error message. */
  datatype Failure =
    | RequestTooLarge   // werkzeug refuses to parse a body over MAX_CONTENT_LENGTH
    | NoFilePart        // request.files['dll_file'] raises KeyError
    | SaveError         // file.save into a sub-directory of the current folder that does not exist
    | BadDuration       // int() raises ValueError
    | BadTimestamp      // datetime.fromisoformat() raises ValueError
    | ArchiveNameError  // `self` is undefined in the route

  datatype Outcome = Rejected(rejection: Rejection) | Failed(failure: Failure) | Uploaded

  datatype Response = Response(outcome: Outcome, after: Snapshot)

  /** A request that gets past every check before the save and can be saved. */
  predicate Admissible(req: Request) {
    && req.bodySize <= MaxContentLength
    && (forall i :: 0 <= i < |RequiredFields| ==> !Blank(req.form, RequiredFields[i]))
    && FileField in req.files && req.files[FileField].filename != []
    && IsDllName(req.files[FileField].filename)
    && '/' !in StoredName(req.form)
  }

  /** The checks up to and including file.save, in the route's order: the first that fails. */
  function Precheck(req: Request): (r: Option<Outcome>)
    ensures r.None? <==> Admissible(req)
    ensures r.Some? ==> r.value != Uploaded
  {
    if req.bodySize > MaxContentLength then Some(Failed(RequestTooLarge))
    else match FirstBlank(req.form, RequiredFields)
      case Some(i) => Some(Rejected(MissingField(RequiredFields[i])))
      case None =>
        if FileField !in req.files then Some(Failed(NoFilePart))
        else if req.files[FileField].filename == [] then Some(Rejected(NoFileSelected))
        else if !IsDllName(req.files[FileField].filename) then Some(Rejected(NotDll))
        else if '/' in StoredName(req.form) then Some(Failed(SaveError))
        else None
  }

  /**
   * After the save: the file is on disk; the row is built, which can fail in
   * int() or fromisoformat(); the row is committed; then `self` raises.
   */
  function SaveAndRecord(s: Snapshot, current: string, req: Request, p: Parsers, now: int): (r: Response)
    requires Admissible(req)
    ensures r.after.files == s.files[StoredPath(current, req.form) := req.files[FileField].content]
    ensures r.outcome in {Failed(BadDuration), Failed(BadTimestamp), Failed(ArchiveNameError)}
    ensures Duration(req.form, p).None? ==> r.outcome == Failed(BadDuration)
    ensures Duration(req.form, p).Some? && p.fromIsoFormat(FormValue(req.form, "test_completed_at")).None? ==>
      r.outcome == Failed(BadTimestamp)
    ensures Duration(req.form, p).Some? && p.fromIsoFormat(FormValue(req.form, "test_completed_at")).Some? ==>
      r.outcome == Failed(ArchiveNameError)
    ensures r.outcome == Failed(ArchiveNameError) <==> |r.after.versions| == |s.versions| + 1
    ensures r.outcome != Failed(ArchiveNameError) <==> r.after.versions == s.versions
    ensures |r.after.versions| == |s.versions| + 1 ==> r.after.versions[..|s.versions|] == s.versions
  {
    var saved := s.files[StoredPath(current, req.form) := req.files[FileField].content];
    match Duration(req.form, p)
      case None => Response(Failed(BadDuration), Snapshot(s.versions, saved))
      case Some(duration) =>
        match p.fromIsoFormat(FormValue(req.form, "test_completed_at"))
          case None => Response(Failed(BadTimestamp), Snapshot(s.versions, saved))
          case Some(completedAt) =>
            var row := NewRow(|s.versions| + 1, current, req.form, req.files[FileField].content, duration, completedAt, now);
            assert (s.versions + [row])[..|s.versions|] == s.versions;
            Response(Failed(ArchiveNameError), Snapshot(s.versions + [row], saved))
  }

  /**
   * The POST branch of `upload`. Rows get the next id, |versions| + 1 (ids are
   * row numbers and rows are never deleted); `now` is the insert time. The
   * route never reports success, and it changes nothing unless the request
   * gets past every check up to the save.
   */
  function HandleUpload(s: Snapshot, current: string, req: Request, p: Parsers, now: int): (r: Response)
    ensures r.outcome != Uploaded
    ensures !Admissible(req) ==> r.after == s
  {
    match Precheck(req)
      case Some(outcome) => Response(outcome, s)
      case None => SaveAndRecord(s, current, req, p, now)
  }

  // ---------------------------------------------------------------------
  // What the route promises, and where it falls short

  /** A blank required field stops the request before anything is saved or recorded. */
  lemma BlankFieldRejected(s: Snapshot, current: string, req: Request, p: Parsers, now: int, k: nat)
    requires req.bodySize <= MaxContentLength
    requires k < |RequiredFields| && Blank(req.form, RequiredFields[k])
    ensures var r := HandleUpload(s, current, req, p, now);
      r.outcome.Rejected? && r.outcome.rejection.MissingField? && r.after == s
  {
    var first := FirstBlank(req.form, RequiredFields);
    assert first.Some?;
  }

  /**
   * The row SaveAndRecord commits: the sanitised name, the normalised version,
   * the stripped text fields, the parsed duration and completion time, the
   * canonical path and the byte size, with a zero counter, uploader "admin"
   * and insert time `now`.
   */
  lemma CommittedRow(s: Snapshot, current: string, req: Request, p: Parsers, now: int)
    requires Admissible(req)
    requires |SaveAndRecord(s, current, req, p, now).after.versions| == |s.versions| + 1
    ensures var r := SaveAndRecord(s, current, req, p, now);
      var row := r.after.versions[|s.versions|];
      && row.id == |s.versions| + 1
      && row.softwareName == SecureFilename(Strip(FormValue(req.form, "software_name")))
      && row.version == NormalizeVersion(FormValue(req.form, "version"))
      && row.filePath == StoredPath(current, req.form)
      && row.FileName() == StoredName(req.form)
      && row.fileSize == |req.files[FileField].content|
      && row.updateNotes == Strip(FormValue(req.form, "update_notes"))
      && row.testDescription == Strip(FormValue(req.form, "test_description"))
      && row.testResult == Strip(FormValue(req.form, "test_result"))
      && row.testDuration.Some? && row.testDuration == Duration(req.form, p)
      && p.fromIsoFormat(FormValue(req.form, "test_completed_at")) == Some(row.testCompletedAt)
      && row.testId == Strip(FormValue(req.form, "test_id"))
      && row.developerDri == Strip(FormValue(req.form, "developer_dri"))
      && row.downloadedCount == 0 && row.uploadedBy == "admin" && row.uploadedAt == now
  {
  }

  /**
   * The route commits a row exactly when the request passes every check up to
   * the save and both int() and fromisoformat() succeed.
   */
  lemma UploadCommitsExactlyParsed(s: Snapshot, current: string, req: Request, p: Parsers, now: int)
    ensures var r := HandleUpload(s, current, req, p, now);
      |r.after.versions| == |s.versions| + 1 <==>
        && Admissible(req)
        && Duration(req.form, p).Some?
        && p.fromIsoFormat(FormValue(req.form, "test_completed_at")).Some?
  {
    if Admissible(req) {
      assert Precheck(req).None?;
    }
  }

  /**
   * A row is committed only for a request that passed every check, and the
   * row is the one app.py builds: stored at the canonical path, with the
   * uploaded bytes there, a zero download count and uploader "admin". The
   * route still reports an error, and no older row is touched.
   */
  lemma CommitOnlyAfterChecks(s: Snapshot, current: string, req: Request, p: Parsers, now: int)
    requires |HandleUpload(s, current, req, p, now).after.versions| != |s.versions|
    ensures var r := HandleUpload(s, current, req, p, now);
      && Admissible(req)
      && r.outcome == Failed(ArchiveNameError)
      && |r.after.versions| == |s.versions| + 1
      && r.after.versions[..|s.versions|] == s.versions
      && var row := r.after.versions[|s.versions|];
         && row.id == |s.versions| + 1
         && row.filePath == StoredPath(current, req.form)
         && row.filePath in r.after.files
         && r.after.files[row.filePath] == req.files[FileField].content
         && row.fileSize == |req.files[FileField].content|
         && row.downloadedCount == 0 && row.uploadedBy == "admin" && row.uploadedAt == now
  {
    CommittedRow(s, current, req, p, now);
  }

  /**
   * The file is saved before the row is built: when int() or fromisoformat()
   * fails, the file is on disk (overwriting whatever was at that path) and no
   * row refers to it.
   */
  lemma FailureAfterSaveLeavesFile(s: Snapshot, current: string, req: Request, p: Parsers, now: int)
    requires var r := HandleUpload(s, current, req, p, now);
      r.outcome == Failed(BadDuration) || r.outcome == Failed(BadTimestamp)
    ensures var r := HandleUpload(s, current, req, p, now);
      && r.after.versions == s.versions
      && FileField in req.files
      && StoredPath(current, req.form) in r.after.files
      && r.after.files[StoredPath(current, req.form)] == req.files[FileField].content
  {
  }

  /** Whatever the outcome, no file other than the one at the stored path is touched. */
  lemma UploadTouchesOnlyStoredPath(s: Snapshot, current: string, req: Request, p: Parsers, now: int)
    ensures var r := HandleUpload(s, current, req, p, now);
      forall q :: q != StoredPath(current, req.form) ==>
        (q in r.after.files <==> q in s.files) && (q in s.files ==> r.after.files[q] == s.files[q])
  {
  }

  /** Appending a row with the next id, stored under its own name, keeps both table invariants. */
  lemma AppendKeepsStoredNames(vs: seq<Version>, row: Version)
    requires StoredUnderOwnName(vs) && IdsAreRowNumbers(vs)
    requires Basename(row.filePath) == row.FileName() && row.id == |vs| + 1
    ensures StoredUnderOwnName(vs + [row]) && IdsAreRowNumbers(vs + [row])
  {
    assert forall i :: 0 <= i < |vs| ==> (vs + [row])[i] == vs[i];
  }

  /** A committed row is stored under the name it is offered for download as. */
  lemma UploadKeepsStoredNames(s: Snapshot, current: string, req: Request, p: Parsers, now: int)
    requires StoredUnderOwnName(s.versions) && IdsAreRowNumbers(s.versions)
    ensures var r := HandleUpload(s, current, req, p, now);
      StoredUnderOwnName(r.after.versions) && IdsAreRowNumbers(r.after.versions)
  {
    if Admissible(req) {
      var r := SaveAndRecord(s, current, req, p, now);
      if |r.after.versions| == |s.versions| + 1 {
        CommittedRow(s, current, req, p, now);
        var row := r.after.versions[|s.versions|];
        BasenameOfJoin(current, StoredName(req.form));
        assert r.after.versions == s.versions + [row] by {
          assert r.after.versions == r.after.versions[..|s.versions|] + [row];
        }
        AppendKeepsStoredNames(s.versions, row);
      }
    }
  }

  /**
   * A version holding '/' never produces a row or a file: the save targets a
   * folder inside the current folder, which the app never creates.
   */
  lemma SlashInVersionFailsSave(s: Snapshot, current: string, req: Request, p: Parsers, now: int)
    requires '/' in NormalizeVersion(FormValue(req.form, "version"))
    ensures HandleUpload(s, current, req, p, now).after == s
  {
    StoredNameSlash(req.form);
  }

  /**
   * Re-uploading the same name and version writes to the same path: after two
   * committed uploads both rows share one file_path, and the file holds the
   * second upload's bytes.
   */
  lemma ReuploadSharesPath(s: Snapshot, current: string, req1: Request, req2: Request, p: Parsers, now1: int, now2: int)
    requires FormValue(req1.form, "software_name") == FormValue(req2.form, "software_name")
    requires FormValue(req1.form, "version") == FormValue(req2.form, "version")
    requires |HandleUpload(s, current, req1, p, now1).after.versions| != |s.versions|
    requires var s1 := HandleUpload(s, current, req1, p, now1).after;
      |HandleUpload(s1, current, req2, p, now2).after.versions| != |s1.versions|
    ensures var s1 := HandleUpload(s, current, req1, p, now1).after;
      var s2 := HandleUpload(s1, current, req2, p, now2).after;
      && |s2.versions| == |s.versions| + 2
      && s2.versions[|s.versions|].filePath == s2.versions[|s.versions| + 1].filePath
      && s2.files[s2.versions[|s.versions|].filePath] == req2.files[FileField].content
  {
    var s1 := HandleUpload(s, current, req1, p, now1).after;
    CommitOnlyAfterChecks(s, current, req1, p, now1);
    CommitOnlyAfterChecks(s1, current, req2, p, now2);
    var s2 := HandleUpload(s1, current, req2, p, now2).after;
    assert s2.versions[|s.versions|] == s2.versions[..|s1.versions|][|s.versions|];
  }

  /** "v1.0" and " 1.0 " name the same file, and "2.0-dev" loses the v inside "dev". */
  lemma VersionNormalizationExamples()
    ensures NormalizeVersion("v1.0") == NormalizeVersion(" 1.0 ") == "1.0"
    ensures NormalizeVersion("2.0-dev") == "2.0-de"
  {
    LeadingVDropped();
    SurroundingSpacesDropped();
    InnerVDropped();
  }

  lemma LeadingVDropped()
    ensures NormalizeVersion("v1.0") == "1.0"
  {
    assert Strip("v1.0") == "v1.0";
    assert RemoveAll("1.0", 'v') == "1.0";
  }

  lemma SurroundingSpacesDropped()
    ensures NormalizeVersion(" 1.0 ") == "1.0"
  {
    assert StripLeft(" 1.0 ") == "1.0 ";
    assert Strip(" 1.0 ") == "1.0";
    assert RemoveAll("1.0", 'v') == "1.0";
  }

  lemma InnerVDropped()
    ensures NormalizeVersion("2.0-dev") == "2.0-de"
  {
    assert Strip("2.0-dev") == "2.0-dev";
    assert RemoveAll("dev", 'v') == "de";
  }
}
