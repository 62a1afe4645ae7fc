/**
 * The version store as the app keeps it: the versions table and the files
 * under the storage folders, with the three operations that change them
 * (the upload route, `_archive_old_versions` and the download route).
 */
module Storage {
  import opened Wrappers
  import opened Text
  import opened Paths
  import opened Versions
  import opened Listing
  import opened Archive
  import opened Upload

  /** What the download route answers. */
  datatype DownloadResult =
    | NotFound                                   // get_or_404 finds no row
    | FileMissing                                // send_file raises: the path does not exist
    | Sent(content: Bytes, downloadName: string) // the file, offered as get_filename()

  datatype Served = Served(result: DownloadResult, after: Snapshot)

  /** Version.query.get(id): the position of the row whose primary key is id. */
  function FindRow(vs: seq<Version>, id: nat): (r: Option<nat>)
    ensures r.Some? ==> r.value < |vs| && vs[r.value].id == id
    ensures r.None? ==> forall i :: 0 <= i < |vs| ==> vs[i].id != id
  {
    if vs == [] then None
    else if vs[0].id == id then Some(0)
    else
      match FindRow(vs[1..], id)
        case None => None
        case Some(k) => Some(k + 1)
  }

  /** With ids as row numbers, row id sits at position id - 1. */
  lemma FindRowByNumber(vs: seq<Version>, id: nat)
    requires IdsAreRowNumbers(vs)
    ensures FindRow(vs, id) == if 1 <= id <= |vs| then Some(id - 1) else None
  {
    if 1 <= id <= |vs| {
      assert vs[id - 1].id == id;
    }
  }

  /**
   * The download route: an unknown id is a 404; a known id has its counter
   * raised and committed before send_file, which fails when the file is gone.
   */
  function HandleDownload(s: Snapshot, id: nat): Served {
    match FindRow(s.versions, id)
      case None => Served(NotFound, s)
      case Some(i) =>
        var row := s.versions[i].(downloadedCount := s.versions[i].downloadedCount + 1);
        var after := Snapshot(s.versions[i := row], s.files);
        if row.filePath in s.files then Served(Sent(s.files[row.filePath], row.FileName()), after)
        else Served(FileMissing, after)
  }

  /** Downloading an unknown id answers 404 and changes nothing. */
  lemma DownloadUnknownChangesNothing(s: Snapshot, id: nat)
    requires forall i :: 0 <= i < |s.versions| ==> s.versions[i].id != id
    ensures HandleDownload(s, id) == Served(NotFound, s)
  {
    FindRowAbsent(s.versions, id);
  }

  lemma {:induction false} FindRowAbsent(vs: seq<Version>, id: nat)
    requires forall i :: 0 <= i < |vs| ==> vs[i].id != id
    ensures FindRow(vs, id) == None
  {
    if vs != [] {
      assert vs[0].id != id;
      FindRowAbsent(vs[1..], id);
    }
  }

  /**
   * Downloading a known id raises its counter by one and changes no other
   * field, row or file; the answer is the file under get_filename(), or a
   * failure when the file is gone (after the counter was raised).
   */
  lemma DownloadRaisesCounter(s: Snapshot, id: nat)
    requires FindRow(s.versions, id).Some?
    ensures var i := FindRow(s.versions, id).value;
      var r := HandleDownload(s, id);
      && r.after.files == s.files
      && |r.after.versions| == |s.versions|
      && r.after.versions[i] == s.versions[i].(downloadedCount := s.versions[i].downloadedCount + 1)
      && (forall j :: 0 <= j < |s.versions| && j != i ==> r.after.versions[j] == s.versions[j])
      && (s.versions[i].filePath in s.files ==> r.result == Sent(s.files[s.versions[i].filePath], s.versions[i].FileName()))
      && (s.versions[i].filePath !in s.files ==> r.result == FileMissing)
  {
  }

  /** With ids as row numbers, downloading a known id raises row id - 1's counter. */
  lemma DownloadStep(s: Snapshot, id: nat, vs: seq<Version>, result: DownloadResult)
    requires IdsAreRowNumbers(s.versions) && 1 <= id <= |s.versions|
    requires var row := s.versions[id - 1].(downloadedCount := s.versions[id - 1].downloadedCount + 1);
      && vs == s.versions[id - 1 := row]
      && result == (if row.filePath in s.files then Sent(s.files[row.filePath], row.FileName()) else FileMissing)
    ensures Served(result, Snapshot(vs, s.files)) == HandleDownload(s, id)
  {
    FindRowByNumber(s.versions, id);
  }

  /** n downloads of the same id in a row. */
  function DownloadTimes(s: Snapshot, id: nat, n: nat): Snapshot {
    if n == 0 then s else HandleDownload(DownloadTimes(s, id, n - 1), id).after
  }

  /** n downloads of a known row raise its counter by exactly n and change nothing else. */
  lemma {:induction false} DownloadsCount(s: Snapshot, id: nat, n: nat)
    requires FindRow(s.versions, id).Some?
    ensures var i := FindRow(s.versions, id).value;
      var t := DownloadTimes(s, id, n);
      && t.files == s.files && |t.versions| == |s.versions|
      && t.versions[i] == s.versions[i].(downloadedCount := s.versions[i].downloadedCount + n)
      && forall j :: 0 <= j < |s.versions| && j != i ==> t.versions[j] == s.versions[j]
  {
    if n > 0 {
      DownloadsCount(s, id, n - 1);
      var i := FindRow(s.versions, id).value;
      var t := DownloadTimes(s, id, n - 1);
      FindRowSameIds(s.versions, t.versions, id);
      DownloadRaisesCounter(t, id);
      var u := HandleDownload(t, id).after;
      DownloadTimesStep(s, id, n);
      forall j | 0 <= j < |s.versions| && j != i ensures u.versions[j] == s.versions[j] {
        assert t.versions[j] == s.versions[j];
      }
    }
  }

  lemma DownloadTimesStep(s: Snapshot, id: nat, n: nat)
    requires n > 0
    ensures DownloadTimes(s, id, n) == HandleDownload(DownloadTimes(s, id, n - 1), id).after
  {
  }

  /** FindRow depends only on the ids. */
  lemma {:induction false} FindRowSameIds(vs: seq<Version>, ws: seq<Version>, id: nat)
    requires |vs| == |ws| && forall j :: 0 <= j < |vs| ==> vs[j].id == ws[j].id
    ensures FindRow(vs, id) == FindRow(ws, id)
  {
    if vs != [] {
      FindRowSameIds(vs[1..], ws[1..], id);
    }
  }

  /** A row stored under its own name is sent under the name of the file on disk. */
  lemma DownloadSendsStoredName(s: Snapshot, id: nat)
    requires StoredUnderOwnName(s.versions)
    requires HandleDownload(s, id).result.Sent?
    ensures var i := FindRow(s.versions, id).value;
      HandleDownload(s, id).result.downloadName == Basename(s.versions[i].filePath)
  {
    DownloadRaisesCounter(s, id);
  }

  /** A download changes only a counter, so both table invariants hold afterwards. */
  lemma DownloadKeepsStoredNames(s: Snapshot, id: nat)
    requires IdsAreRowNumbers(s.versions) && StoredUnderOwnName(s.versions)
    ensures var t := HandleDownload(s, id).after;
      IdsAreRowNumbers(t.versions) && StoredUnderOwnName(t.versions)
  {
    if FindRow(s.versions, id).Some? {
      DownloadRaisesCounter(s, id);
    }
  }

  /**
   * The versions table and the storage folders. The folders come from the
   * application directory as in config.py; the table keeps ids equal to row
   * numbers and every row under the file name it is downloaded as.
   */
  class Store {
    const base: string
    const current: string
    const history: string
    var versions: seq<Version>
    var files: map<string, Bytes>

    ghost predicate Valid()
      reads this
    {
      Folders(base, current, history) && IdsAreRowNumbers(versions) && StoredUnderOwnName(versions)
    }

    function State(): Snapshot
      reads this
    {
      Snapshot(versions, files)
    }

    /** An empty table over storage folders that may already hold files. */
    constructor (base: string, files: map<string, Bytes>)
      ensures Valid()
      ensures this.base == base && versions == [] && this.files == files
    {
      this.base := base;
      current := Folder(base, "current");
      history := Folder(base, "history");
      versions := [];
      this.files := files;
    }

    /** POST /upload. */
    method Upload(req: Request, p: Parsers, now: int) returns (outcome: Outcome)
      requires Valid()
      modifies this
      ensures Valid()
      ensures Response(outcome, State()) == HandleUpload(old(State()), current, req, p, now)
    {
      UploadKeepsStoredNames(State(), current, req, p, now);
      if req.bodySize > MaxContentLength {
        return Failed(RequestTooLarge);
      }
      var missing := FindBlankField(req.form);
      if missing.Some? {
        return Rejected(MissingField(RequiredFields[missing.value]));
      }
      if FileField !in req.files {
        return Failed(NoFilePart);
      }
      var part := req.files[FileField];
      if part.filename == [] {
        return Rejected(NoFileSelected);
      }
      if !IsDllName(part.filename) {
        return Rejected(NotDll);
      }
      var softwareName := SecureFilename(Strip(FormValue(req.form, "software_name")));
      var version := NormalizeVersion(FormValue(req.form, "version"));
      var filename := FileNameOf(softwareName, version);
      if '/' in filename {
        return Failed(SaveError);
      }
      assert Precheck(req).None?;
      outcome := SaveAndRecordRow(req, p, now);
    }

    /** The save, the row construction and the commit for a request that passed every check. */
    method SaveAndRecordRow(req: Request, p: Parsers, now: int) returns (outcome: Outcome)
      requires Admissible(req)
      modifies this
      ensures Response(outcome, State()) == SaveAndRecord(old(State()), current, req, p, now)
    {
      var content := req.files[FileField].content;
      var filePath := Join(current, StoredName(req.form));
      files := files[filePath := content];
      var duration := Duration(req.form, p);
      if duration.None? {
        return Failed(BadDuration);
      }
      var completedAt := p.fromIsoFormat(FormValue(req.form, "test_completed_at"));
      if completedAt.None? {
        return Failed(BadTimestamp);
      }
      var row := NewRow(|versions| + 1, current, req.form, content, duration.value, completedAt.value, now);
      versions := versions + [row];
      return Failed(ArchiveNameError);
    }

    /** _archive_old_versions(name): every row of name but the newest goes through the loop. */
    method ArchiveOldVersions(name: string)
      requires Valid()
      modifies this
      ensures Valid()
      ensures State() == Archived(old(State()), name, current, history)
    {
      ArchiveKeepsStoredNames(State(), name, base, current, history);
      var listing := NewestFirst(versions, name);
      if |listing| > 1 {
        ArchiveRows(listing[1..]);
      }
    }

    /** The loop `for version in versions[1:]` over the rows ids, in order. */
    method ArchiveRows(ids: seq<nat>)
      requires InRange(versions, ids)
      modifies this
      ensures State() == ArchiveAll(old(State()), ids, current, history)
    {
      var k := 0;
      while k < |ids|
        invariant 0 <= k <= |ids|
        invariant |versions| == |old(versions)|
        invariant ArchiveAll(State(), ids[k..], current, history) == ArchiveAll(old(State()), ids, current, history)
      {
        ghost var before := State();
        MoveToHistory(ids[k]);
        ArchiveAllStep(before, ids[k..], current, history);
        assert ids[k..][1..] == ids[k + 1..];
        k := k + 1;
      }
      assert ids[k..] == [];
    }

    /** The loop body of _archive_old_versions for row i. */
    method MoveToHistory(i: nat)
      requires i < |versions|
      modifies this
      ensures State() == MoveOne(old(State()), i, current, history)
    {
      var oldPath := versions[i].filePath;
      if Contains(oldPath, current) {
        var newPath := Join(history, Basename(oldPath));
        if oldPath in files {
          files := Rename(files, oldPath, newPath);
          versions := versions[i := versions[i].(filePath := newPath)];
        }
      }
    }

    /** GET /download/<id>. */
    method Download(id: nat) returns (result: DownloadResult)
      requires Valid()
      modifies this
      ensures Valid()
      ensures Served(result, State()) == HandleDownload(old(State()), id)
    {
      if !(1 <= id <= |versions|) {
        FindRowByNumber(versions, id);
        return NotFound;
      }
      ghost var s := State();
      result := CountAndSend(id);
      DownloadKeepsStoredNames(s, id);
    }

    /** The download of a known row: the counter is raised and committed, then the file is sent. */
    method CountAndSend(id: nat) returns (result: DownloadResult)
      requires IdsAreRowNumbers(versions) && 1 <= id <= |versions|
      modifies this
      ensures Served(result, State()) == HandleDownload(old(State()), id)
    {
      var i := id - 1;
      var row := versions[i].(downloadedCount := versions[i].downloadedCount + 1);
      if row.filePath in files {
        result := Sent(files[row.filePath], row.FileName());
      } else {
        result := FileMissing;
      }
      DownloadStep(State(), id, versions[i := row], result);
      versions := versions[i := row];
    }
  }
}
