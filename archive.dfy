/**
 * `_archive_old_versions(name)` (app.py) as a function of the versions table
 * and the files on disk. It reads the rows of one software name newest first,
 * keeps the first, and sends every other row through the loop body. The body
 * moves the row's file to the history folder and rewrites its file_path, but
 * only when the path contains the current folder's path and the file exists.
 */
module Archive {
  import opened Text
  import opened Paths
  import opened Versions
  import opened Listing

  /** The versions table together with the files on disk (path to content). */
  datatype Snapshot = Snapshot(versions: seq<Version>, files: map<string, Bytes>)

  /** The two storage folders config.py derives from one application directory. */
  predicate Folders(base: string, current: string, history: string) {
    current == Folder(base, "current") && history == Folder(base, "history")
  }

  /** os.rename(src, dst) on POSIX: the content moves, and an existing dst is replaced. */
  function Rename(files: map<string, Bytes>, src: string, dst: string): (r: map<string, Bytes>)
    requires src in files
    ensures dst in r && r[dst] == files[src]
    ensures src != dst ==> src !in r
    ensures forall p :: p != src && p != dst ==> (p in r <==> p in files)
    ensures forall p :: p != src && p != dst && p in files ==> r[p] == files[p]
  {
    (files - {src})[dst := files[src]]
  }

  /** Where the loop body moves a file: os.path.join(HISTORY, os.path.basename(path)). */
  function HistoryPath(history: string, path: string): string {
    Join(history, Basename(path))
  }

  /** The guard of the loop body: the path contains the current folder and the file exists. */
  predicate Movable(s: Snapshot, i: nat, current: string)
    requires i < |s.versions|
  {
    Contains(s.versions[i].filePath, current) && s.versions[i].filePath in s.files
  }

  /** One pass of the loop body for row i. */
  function MoveOne(s: Snapshot, i: nat, current: string, history: string): (r: Snapshot)
    requires i < |s.versions|
    ensures |r.versions| == |s.versions|
  {
    if Movable(s, i, current) then
      var src := s.versions[i].filePath;
      var dst := HistoryPath(history, src);
      Snapshot(s.versions[i := s.versions[i].(filePath := dst)], Rename(s.files, src, dst))
    else s
  }

  /** The loop body applied to the rows ids, in order. */
  function ArchiveAll(s: Snapshot, ids: seq<nat>, current: string, history: string): (r: Snapshot)
    requires InRange(s.versions, ids)
    ensures |r.versions| == |s.versions|
    decreases |ids|
  {
    if ids == [] then s
    else
      var s1 := MoveOne(s, ids[0], current, history);
      assert InRange(s1.versions, ids[1..]);
      ArchiveAll(s1, ids[1..], current, history)
  }

  /** One turn of the loop: the first row is handled, then the rest. */
  lemma ArchiveAllStep(s: Snapshot, ids: seq<nat>, current: string, history: string)
    requires InRange(s.versions, ids) && ids != []
    ensures InRange(MoveOne(s, ids[0], current, history).versions, ids[1..])
    ensures ArchiveAll(s, ids, current, history) == ArchiveAll(MoveOne(s, ids[0], current, history), ids[1..], current, history)
  {
  }

  /** _archive_old_versions(name): all rows of name except the newest, when there are two or more. */
  function Archived(s: Snapshot, name: string, current: string, history: string): Snapshot {
    var listing := NewestFirst(s.versions, name);
    if |listing| > 1 then ArchiveAll(s, listing[1..], current, history) else s
  }

  // ---------------------------------------------------------------------
  // Single steps

  /** A row the loop body would leave alone: its path is outside the current folder or its file is gone. */
  predicate Settled(s: Snapshot, j: nat, current: string)
    requires j < |s.versions|
  {
    !Movable(s, j, current)
  }

  lemma MovedPathLeavesCurrent(base: string, current: string, history: string, path: string)
    requires Folders(base, current, history)
    ensures !Contains(HistoryPath(history, path), current)
  {
    HistoryPathAvoidsCurrent(base, Basename(path));
  }

  lemma MovedKeepsBasename(history: string, path: string)
    ensures Basename(HistoryPath(history, path)) == Basename(path)
  {
    BasenameOfJoin(history, Basename(path));
  }

  /** A path inside the current folder that is absent stays absent: moves only create history paths. */
  lemma StepKeepsAbsent(s: Snapshot, k: nat, p: string, base: string, current: string, history: string)
    requires Folders(base, current, history) && k < |s.versions|
    requires Contains(p, current) && p !in s.files
    ensures p !in MoveOne(s, k, current, history).files
  {
    if Movable(s, k, current) {
      MovedPathLeavesCurrent(base, current, history, s.versions[k].filePath);
    }
  }

  lemma StepSettles(s: Snapshot, i: nat, base: string, current: string, history: string)
    requires Folders(base, current, history) && i < |s.versions|
    ensures Settled(MoveOne(s, i, current, history), i, current)
  {
    if Movable(s, i, current) {
      MovedPathLeavesCurrent(base, current, history, s.versions[i].filePath);
    }
  }

  lemma StepKeepsSettled(s: Snapshot, k: nat, j: nat, base: string, current: string, history: string)
    requires Folders(base, current, history) && k < |s.versions| && j < |s.versions| && k != j
    requires Settled(s, j, current)
    ensures Settled(MoveOne(s, k, current, history), j, current)
  {
    var p := s.versions[j].filePath;
    if Contains(p, current) {
      StepKeepsAbsent(s, k, p, base, current, history);
    }
  }

  /** A row other than k that can be moved after the step on k could be moved before it. */
  lemma StepMovableBefore(s: Snapshot, k: nat, m: nat, base: string, current: string, history: string)
    requires Folders(base, current, history) && k < |s.versions| && m < |s.versions| && k != m
    requires Movable(MoveOne(s, k, current, history), m, current)
    ensures Movable(s, m, current) && MoveOne(s, k, current, history).versions[m] == s.versions[m]
  {
    if Movable(s, k, current) {
      MovedPathLeavesCurrent(base, current, history, s.versions[k].filePath);
    }
  }

  // ---------------------------------------------------------------------
  // Whole loops

  /** One step on row k leaves every file other than k's path and its history path as it was. */
  lemma StepFrame(s: Snapshot, k: nat, q: string, current: string, history: string)
    requires k < |s.versions|
    requires q != s.versions[k].filePath && q != HistoryPath(history, s.versions[k].filePath)
    ensures var s1 := MoveOne(s, k, current, history);
      (q in s1.files <==> q in s.files) && (q in s.files ==> s1.files[q] == s.files[q])
  {
  }

  /** Rows differ at most in their file_path. */
  predicate OnlyPathsDiffer(vs: seq<Version>, ws: seq<Version>) {
    |vs| == |ws| && forall j :: 0 <= j < |vs| ==> ws[j] == vs[j].(filePath := ws[j].filePath)
  }

  lemma {:induction false} AllOnlyPaths(s: Snapshot, ids: seq<nat>, current: string, history: string)
    requires InRange(s.versions, ids)
    ensures OnlyPathsDiffer(s.versions, ArchiveAll(s, ids, current, history).versions)
    decreases |ids|
  {
    if ids != [] {
      var s1 := MoveOne(s, ids[0], current, history);
      assert InRange(s1.versions, ids[1..]);
      AllOnlyPaths(s1, ids[1..], current, history);
    }
  }

  lemma {:induction false} AllUntouched(s: Snapshot, ids: seq<nat>, j: nat, current: string, history: string)
    requires InRange(s.versions, ids) && j < |s.versions| && j !in ids
    ensures ArchiveAll(s, ids, current, history).versions[j] == s.versions[j]
    decreases |ids|
  {
    if ids != [] {
      var s1 := MoveOne(s, ids[0], current, history);
      assert InRange(s1.versions, ids[1..]);
      assert j !in ids[1..];
      AllUntouched(s1, ids[1..], j, current, history);
    }
  }

  /**
   * The loop leaves every file alone except the visited rows' paths and the
   * history paths they move to.
   */
  lemma {:induction false} AllFrame(s: Snapshot, ids: seq<nat>, q: string, current: string, history: string)
    requires InRange(s.versions, ids) && Distinct(ids)
    requires forall k :: k in ids ==> q != s.versions[k].filePath && q != HistoryPath(history, s.versions[k].filePath)
    ensures var r := ArchiveAll(s, ids, current, history);
      (q in r.files <==> q in s.files) && (q in s.files ==> r.files[q] == s.files[q])
    decreases |ids|
  {
    if ids != [] {
      var s1 := MoveOne(s, ids[0], current, history);
      var rest := ids[1..];
      assert ids[0] in ids;
      StepFrame(s, ids[0], q, current, history);
      StepTouchesOnlyItsRow(s, ids[0], current, history);
      assert InRange(s1.versions, rest) && Distinct(rest);
      forall m | m in rest
        ensures q != s1.versions[m].filePath && q != HistoryPath(history, s1.versions[m].filePath)
      {
        assert m in ids && m != ids[0];
      }
      AllFrame(s1, rest, q, current, history);
    }
  }

  lemma {:induction false} AllKeepsAbsent(s: Snapshot, ids: seq<nat>, p: string, base: string, current: string, history: string)
    requires Folders(base, current, history) && InRange(s.versions, ids)
    requires Contains(p, current) && p !in s.files
    ensures p !in ArchiveAll(s, ids, current, history).files
    decreases |ids|
  {
    if ids != [] {
      var s1 := MoveOne(s, ids[0], current, history);
      assert InRange(s1.versions, ids[1..]);
      StepKeepsAbsent(s, ids[0], p, base, current, history);
      AllKeepsAbsent(s1, ids[1..], p, base, current, history);
    }
  }

  lemma {:induction false} AllKeepsSettled(s: Snapshot, ids: seq<nat>, j: nat, base: string, current: string, history: string)
    requires Folders(base, current, history) && InRange(s.versions, ids)
    requires j < |s.versions| && j !in ids && Settled(s, j, current)
    ensures Settled(ArchiveAll(s, ids, current, history), j, current)
    decreases |ids|
  {
    if ids != [] {
      var s1 := MoveOne(s, ids[0], current, history);
      assert InRange(s1.versions, ids[1..]);
      StepKeepsSettled(s, ids[0], j, base, current, history);
      assert j !in ids[1..];
      AllKeepsSettled(s1, ids[1..], j, base, current, history);
    }
  }

  /** After the loop, no row it visited both points into the current folder and has its file there. */
  lemma {:induction false} AllSettles(s: Snapshot, ids: seq<nat>, base: string, current: string, history: string)
    requires Folders(base, current, history) && InRange(s.versions, ids) && Distinct(ids)
    ensures forall j :: j in ids ==> Settled(ArchiveAll(s, ids, current, history), j, current)
    decreases |ids|
  {
    if ids != [] {
      var s1 := MoveOne(s, ids[0], current, history);
      var rest := ids[1..];
      assert InRange(s1.versions, rest);
      assert Distinct(rest);
      AllSettles(s1, rest, base, current, history);
      StepSettles(s, ids[0], base, current, history);
      assert ids[0] !in rest;
      AllKeepsSettled(s1, rest, ids[0], base, current, history);
      assert forall j :: j in ids ==> j == ids[0] || j in rest;
    }
  }

  lemma {:induction false} AllOfSettledIsIdentity(s: Snapshot, ids: seq<nat>, current: string, history: string)
    requires InRange(s.versions, ids)
    requires forall j :: j in ids ==> Settled(s, j, current)
    ensures ArchiveAll(s, ids, current, history) == s
    decreases |ids|
  {
    if ids != [] {
      assert ids[0] in ids;
      assert MoveOne(s, ids[0], current, history) == s;
      assert forall j :: j in ids[1..] ==> j in ids;
      AllOfSettledIsIdentity(s, ids[1..], current, history);
    }
  }

  lemma {:induction false} AllLeavesSettled(s: Snapshot, ids: seq<nat>, j: nat, base: string, current: string, history: string)
    requires Folders(base, current, history) && InRange(s.versions, ids) && Distinct(ids)
    requires j < |s.versions| && Settled(s, j, current)
    ensures ArchiveAll(s, ids, current, history).versions[j] == s.versions[j]
    decreases |ids|
  {
    if ids != [] {
      var s1 := MoveOne(s, ids[0], current, history);
      var rest := ids[1..];
      assert InRange(s1.versions, rest);
      assert Distinct(rest);
      if ids[0] == j {
        assert ids[0] !in rest;
        AllUntouched(s1, rest, j, current, history);
      } else {
        StepKeepsSettled(s, ids[0], j, base, current, history);
        AllLeavesSettled(s1, rest, j, base, current, history);
      }
    }
  }

  /** One step on another row k leaves the rows other than k as they were. */
  lemma StepTouchesOnlyItsRow(s: Snapshot, k: nat, current: string, history: string)
    requires k < |s.versions|
    ensures forall m :: 0 <= m < |s.versions| && m != k ==>
      MoveOne(s, k, current, history).versions[m] == s.versions[m]
  {
  }

  /** One step on row k keeps row j's file at q when k's file name differs from q's. */
  lemma StepKeepsMoved(s: Snapshot, k: nat, q: string, base: string, current: string, history: string)
    requires Folders(base, current, history) && k < |s.versions|
    requires q in s.files
    requires Movable(s, k, current) ==> Basename(s.versions[k].filePath) != Basename(q)
    ensures var s1 := MoveOne(s, k, current, history);
      q in s1.files && s1.files[q] == s.files[q]
  {
    if Movable(s, k, current) {
      var src := s.versions[k].filePath;
      MovedKeepsBasename(history, src);
      assert src != q && HistoryPath(history, src) != q;
    }
  }

  /**
   * Row j has already been moved to q (with the given content) and its old
   * path p is gone. Later rows whose file names differ from q's keep it so.
   */
  lemma {:induction false} AllKeepsMoved(s: Snapshot, ids: seq<nat>, j: nat, p: string, content: Bytes,
                                         base: string, current: string, history: string)
    requires Folders(base, current, history) && InRange(s.versions, ids) && Distinct(ids)
    requires j < |s.versions| && j !in ids
    requires s.versions[j].filePath in s.files && s.files[s.versions[j].filePath] == content
    requires Contains(p, current) && p !in s.files
    requires forall k :: k in ids && Movable(s, k, current) ==>
      Basename(s.versions[k].filePath) != Basename(s.versions[j].filePath)
    ensures var r := ArchiveAll(s, ids, current, history);
      r.versions[j] == s.versions[j] && s.versions[j].filePath in r.files
      && r.files[s.versions[j].filePath] == content && p !in r.files
    decreases |ids|
  {
    if ids != [] {
      var k := ids[0];
      var s1 := MoveOne(s, k, current, history);
      var rest := ids[1..];
      assert InRange(s1.versions, rest) && Distinct(rest) && j !in rest;
      StepKeepsAbsent(s, k, p, base, current, history);
      StepKeepsMoved(s, k, s.versions[j].filePath, base, current, history);
      StepTouchesOnlyItsRow(s, k, current, history);
      forall m | m in rest && Movable(s1, m, current)
        ensures Basename(s1.versions[m].filePath) != Basename(s1.versions[j].filePath)
      {
        assert m in ids && m != k;
        StepMovableBefore(s, k, m, base, current, history);
      }
      AllKeepsMoved(s1, rest, j, p, content, base, current, history);
    }
  }

  /** The step that moves row j itself. */
  lemma StepMoves(s: Snapshot, j: nat, base: string, current: string, history: string)
    requires Folders(base, current, history) && j < |s.versions| && Movable(s, j, current)
    ensures var p := s.versions[j].filePath;
      var q := HistoryPath(history, p);
      var s1 := MoveOne(s, j, current, history);
      && s1.versions[j] == s.versions[j].(filePath := q)
      && q in s1.files && s1.files[q] == s.files[p]
      && p !in s1.files
      && Basename(q) == Basename(p)
  {
    var p := s.versions[j].filePath;
    MovedPathLeavesCurrent(base, current, history, p);
    assert p != HistoryPath(history, p);
    MovedKeepsBasename(history, p);
  }

  /** A step on another row k keeps row j movable, with its content, when their file names differ. */
  lemma StepKeepsMovable(s: Snapshot, k: nat, j: nat, base: string, current: string, history: string)
    requires Folders(base, current, history) && k < |s.versions| && j < |s.versions| && k != j
    requires Movable(s, j, current)
    requires Movable(s, k, current) ==> Basename(s.versions[k].filePath) != Basename(s.versions[j].filePath)
    ensures var s1 := MoveOne(s, k, current, history);
      s1.versions[j] == s.versions[j] && Movable(s1, j, current)
      && s1.files[s.versions[j].filePath] == s.files[s.versions[j].filePath]
  {
    var q := s.versions[j].filePath;
    var s1 := MoveOne(s, k, current, history);
    StepKeepsMoved(s, k, q, base, current, history);
    assert s1.versions[j] == s.versions[j] by {
      StepTouchesOnlyItsRow(s, k, current, history);
    }
    assert q in s1.files && s1.files[q] == s.files[q];
  }

  /**
   * Row j is visited with its file present in the current folder, and no other
   * visited row has a file of the same name: it ends in the history folder
   * under its own file name, with its content, and the old path is gone.
   */
  lemma {:induction false} AllMoves(s: Snapshot, ids: seq<nat>, j: nat, base: string, current: string, history: string)
    requires Folders(base, current, history) && InRange(s.versions, ids) && Distinct(ids)
    requires j in ids && Movable(s, j, current)
    requires forall k :: k in ids && k != j && Movable(s, k, current) ==>
      Basename(s.versions[k].filePath) != Basename(s.versions[j].filePath)
    ensures var p := s.versions[j].filePath;
      var q := HistoryPath(history, p);
      var r := ArchiveAll(s, ids, current, history);
      && r.versions[j] == s.versions[j].(filePath := q)
      && q in r.files && r.files[q] == s.files[p]
      && p !in r.files
    decreases |ids|
  {
    var k := ids[0];
    if k == j {
      AllMovesFirst(s, ids, base, current, history);
    } else {
      var s1 := MoveOne(s, k, current, history);
      var rest := ids[1..];
      assert InRange(s1.versions, rest) && Distinct(rest);
      assert j in rest;
      StepTouchesOnlyItsRow(s, k, current, history);
      StepKeepsMovable(s, k, j, base, current, history);
      forall m | m in rest && m != j && Movable(s1, m, current)
        ensures Basename(s1.versions[m].filePath) != Basename(s1.versions[j].filePath)
      {
        assert m in ids && m != k;
        StepMovableBefore(s, k, m, base, current, history);
      }
      AllMoves(s1, rest, j, base, current, history);
    }
  }

  /** AllMoves when row j is the first one visited. */
  lemma AllMovesFirst(s: Snapshot, ids: seq<nat>, base: string, current: string, history: string)
    requires Folders(base, current, history) && InRange(s.versions, ids) && Distinct(ids)
    requires ids != [] && Movable(s, ids[0], current)
    requires forall k :: k in ids && k != ids[0] && Movable(s, k, current) ==>
      Basename(s.versions[k].filePath) != Basename(s.versions[ids[0]].filePath)
    ensures var p := s.versions[ids[0]].filePath;
      var q := HistoryPath(history, p);
      var r := ArchiveAll(s, ids, current, history);
      && r.versions[ids[0]] == s.versions[ids[0]].(filePath := q)
      && q in r.files && r.files[q] == s.files[p]
      && p !in r.files
  {
    var j := ids[0];
    var p := s.versions[j].filePath;
    var s1 := MoveOne(s, j, current, history);
    var rest := ids[1..];
    assert InRange(s1.versions, rest) && Distinct(rest) && j !in rest;
    StepMoves(s, j, base, current, history);
    StepTouchesOnlyItsRow(s, j, current, history);
    var q := s1.versions[j].filePath;
    assert Basename(q) == Basename(p);
    forall m | m in rest && Movable(s1, m, current)
      ensures Basename(s1.versions[m].filePath) != Basename(q)
    {
      assert m in ids && m != j;
      StepMovableBefore(s, j, m, base, current, history);
    }
    AllKeepsMoved(s1, rest, j, p, s.files[p], base, current, history);
  }

  /** Once any visited row points at p (inside the current folder), p is gone after the loop. */
  lemma {:induction false} AllRemovesSharedPath(s: Snapshot, ids: seq<nat>, k: nat, p: string,
                                                base: string, current: string, history: string)
    requires Folders(base, current, history) && InRange(s.versions, ids) && Distinct(ids)
    requires k in ids && s.versions[k].filePath == p && Contains(p, current)
    ensures p !in ArchiveAll(s, ids, current, history).files
    decreases |ids|
  {
    var s1 := MoveOne(s, ids[0], current, history);
    var rest := ids[1..];
    assert InRange(s1.versions, rest) && Distinct(rest);
    if ids[0] == k {
      if Movable(s, k, current) {
        MovedPathLeavesCurrent(base, current, history, p);
      }
      AllKeepsAbsent(s1, rest, p, base, current, history);
    } else {
      assert k in rest;
      AllRemovesSharedPath(s1, rest, k, p, base, current, history);
    }
  }

  lemma {:induction false} AllKeepsBasenames(s: Snapshot, ids: seq<nat>, base: string, current: string, history: string)
    requires Folders(base, current, history) && InRange(s.versions, ids)
    ensures var r := ArchiveAll(s, ids, current, history);
      forall j :: 0 <= j < |s.versions| ==> Basename(r.versions[j].filePath) == Basename(s.versions[j].filePath)
    decreases |ids|
  {
    if ids != [] {
      var s1 := MoveOne(s, ids[0], current, history);
      assert InRange(s1.versions, ids[1..]);
      StepKeepsBasenames(s, ids[0], current, history);
      AllKeepsBasenames(s1, ids[1..], base, current, history);
    }
  }

  /** One step keeps every row's file name. */
  lemma StepKeepsBasenames(s: Snapshot, k: nat, current: string, history: string)
    requires k < |s.versions|
    ensures var s1 := MoveOne(s, k, current, history);
      forall j :: 0 <= j < |s.versions| ==> Basename(s1.versions[j].filePath) == Basename(s.versions[j].filePath)
  {
    var s1 := MoveOne(s, k, current, history);
    forall j | 0 <= j < |s.versions|
      ensures Basename(s1.versions[j].filePath) == Basename(s.versions[j].filePath)
    {
      if j == k && Movable(s, k, current) {
        assert s1.versions[j].filePath == HistoryPath(history, s.versions[j].filePath);
        MovedKeepsBasename(history, s.versions[j].filePath);
      } else {
        assert s1.versions[j] == s.versions[j];
      }
    }
  }

  // ---------------------------------------------------------------------
  // What _archive_old_versions promises, and where it falls short

  /** The newest row of the name is never touched. */
  lemma ArchiveKeepsNewest(s: Snapshot, name: string, current: string, history: string)
    requires |NewestFirst(s.versions, name)| > 0
    ensures var newest := NewestFirst(s.versions, name)[0];
      Archived(s, name, current, history).versions[newest] == s.versions[newest]
  {
    var listing := NewestFirst(s.versions, name);
    if |listing| > 1 {
      assert listing[0] !in listing[1..];
      AllUntouched(s, listing[1..], listing[0], current, history);
    }
  }

  /** Rows of other software names are untouched. */
  lemma ArchiveLeavesOtherNames(s: Snapshot, name: string, j: nat, current: string, history: string)
    requires j < |s.versions| && s.versions[j].softwareName != name
    ensures Archived(s, name, current, history).versions[j] == s.versions[j]
  {
    var listing := NewestFirst(s.versions, name);
    if |listing| > 1 {
      assert j !in listing[1..];
      AllUntouched(s, listing[1..], j, current, history);
    }
  }

  /**
   * The files frame: a path that is neither a row of the name's path nor the
   * history path that row would move to keeps its presence and its content.
   */
  lemma ArchiveFrame(s: Snapshot, name: string, q: string, current: string, history: string)
    requires forall k :: 0 <= k < |s.versions| && s.versions[k].softwareName == name ==>
      q != s.versions[k].filePath && q != HistoryPath(history, s.versions[k].filePath)
    ensures var r := Archived(s, name, current, history);
      (q in r.files <==> q in s.files) && (q in s.files ==> r.files[q] == s.files[q])
  {
    var listing := NewestFirst(s.versions, name);
    if |listing| > 1 {
      var rest := listing[1..];
      forall k | k in rest
        ensures q != s.versions[k].filePath && q != HistoryPath(history, s.versions[k].filePath)
      {
        assert k in listing;
      }
      AllFrame(s, rest, q, current, history);
    }
  }

  /**
   * Files in the current folder that no row of the name points at, such as
   * another software's files, are still there afterwards with the same content.
   */
  lemma ArchiveKeepsOtherCurrentFiles(s: Snapshot, name: string, q: string, base: string, current: string, history: string)
    requires Folders(base, current, history) && Contains(q, current)
    requires forall k :: 0 <= k < |s.versions| && s.versions[k].softwareName == name ==> q != s.versions[k].filePath
    ensures var r := Archived(s, name, current, history);
      (q in r.files <==> q in s.files) && (q in s.files ==> r.files[q] == s.files[q])
  {
    forall k | 0 <= k < |s.versions| && s.versions[k].softwareName == name
      ensures q != HistoryPath(history, s.versions[k].filePath)
    {
      MovedPathLeavesCurrent(base, current, history, s.versions[k].filePath);
    }
    ArchiveFrame(s, name, q, current, history);
  }

  /** A row whose path is outside the current folder, or whose file does not exist, keeps its path. */
  lemma ArchiveLeavesSettledRow(s: Snapshot, name: string, j: nat, base: string, current: string, history: string)
    requires Folders(base, current, history)
    requires j < |s.versions| && Settled(s, j, current)
    ensures Archived(s, name, current, history).versions[j] == s.versions[j]
  {
    var listing := NewestFirst(s.versions, name);
    if |listing| > 1 {
      AllLeavesSettled(s, listing[1..], j, base, current, history);
    }
  }

  /**
   * An older row of the name whose file exists in the current folder is moved
   * to the history folder under its own file name, provided no other older row
   * of the name that can still be moved has a file of the same name. Rows already
   * in the history folder are never moved again, so they do not stand in the way.
   */
  lemma ArchiveMovesOlder(s: Snapshot, name: string, j: nat, base: string, current: string, history: string)
    requires Folders(base, current, history)
    requires var listing := NewestFirst(s.versions, name);
      j in listing && j != listing[0] && j < |s.versions| && Movable(s, j, current)
    requires var listing := NewestFirst(s.versions, name);
      forall k :: k in listing && k != listing[0] && k != j && Movable(s, k, current) ==>
        Basename(s.versions[k].filePath) != Basename(s.versions[j].filePath)
    ensures var p := s.versions[j].filePath;
      var q := HistoryPath(history, p);
      var r := Archived(s, name, current, history);
      && r.versions[j] == s.versions[j].(filePath := q)
      && q in r.files && r.files[q] == s.files[p]
      && p !in r.files
  {
    var listing := NewestFirst(s.versions, name);
    assert Archived(s, name, current, history) == ArchiveAll(s, listing[1..], current, history);
    TailMoves(s, listing, j, base, current, history);
  }

  /** ArchiveMovesOlder for any listing whose tail holds j: the loop over the tail moves row j. */
  lemma TailMoves(s: Snapshot, listing: seq<nat>, j: nat, base: string, current: string, history: string)
    requires Folders(base, current, history) && InRange(s.versions, listing) && Distinct(listing)
    requires j in listing && j != listing[0] && j < |s.versions| && Movable(s, j, current)
    requires forall k :: k in listing && k != listing[0] && k != j && Movable(s, k, current) ==>
      Basename(s.versions[k].filePath) != Basename(s.versions[j].filePath)
    ensures var p := s.versions[j].filePath;
      var q := HistoryPath(history, p);
      var r := ArchiveAll(s, listing[1..], current, history);
      && r.versions[j] == s.versions[j].(filePath := q)
      && q in r.files && r.files[q] == s.files[p]
      && p !in r.files
  {
    var rest := listing[1..];
    var b :| 0 <= b < |listing| && listing[b] == j;
    assert b > 0 && rest[b - 1] == j;
    assert InRange(s.versions, rest) && Distinct(rest);
    forall k | k in rest && k != j && Movable(s, k, current)
      ensures Basename(s.versions[k].filePath) != Basename(s.versions[j].filePath)
    {
      assert k in listing && k != listing[0];
    }
    AllMoves(s, rest, j, base, current, history);
  }

  /**
   * A row already in the history folder at the path where row j is archived is
   * left as it is, but its file is overwritten: afterwards it points at row j's
   * content (os.rename replaces an existing destination).
   */
  lemma ArchiveOverwritesArchived(s: Snapshot, name: string, j: nat, k: nat, base: string, current: string, history: string)
    requires Folders(base, current, history)
    requires var listing := NewestFirst(s.versions, name);
      j in listing && j != listing[0] && j < |s.versions| && Movable(s, j, current)
    requires var listing := NewestFirst(s.versions, name);
      forall m :: m in listing && m != listing[0] && m != j && Movable(s, m, current) ==>
        Basename(s.versions[m].filePath) != Basename(s.versions[j].filePath)
    requires k < |s.versions| && s.versions[k].filePath == HistoryPath(history, s.versions[j].filePath)
    ensures var r := Archived(s, name, current, history);
      && r.versions[k] == s.versions[k]
      && s.versions[k].filePath in r.files
      && r.files[s.versions[k].filePath] == s.files[s.versions[j].filePath]
  {
    MovedPathLeavesCurrent(base, current, history, s.versions[j].filePath);
    ArchiveLeavesSettledRow(s, name, k, base, current, history);
    ArchiveMovesOlder(s, name, j, base, current, history);
  }

  /** After archiving, no older row of the name points into the current folder at an existing file. */
  lemma ArchiveSettlesOlder(s: Snapshot, name: string, base: string, current: string, history: string)
    requires Folders(base, current, history)
    ensures var listing := NewestFirst(s.versions, name);
      var r := Archived(s, name, current, history);
      forall j :: j in listing && j != listing[0] ==> j < |r.versions| && Settled(r, j, current)
  {
    var listing := NewestFirst(s.versions, name);
    if |listing| > 1 {
      AllSettles(s, listing[1..], base, current, history);
      forall j | j in listing && j != listing[0] ensures j in listing[1..] {
        var b :| 0 <= b < |listing| && listing[b] == j;
        assert listing[1..][b - 1] == j;
      }
    }
  }

  /** Archiving twice leaves the same table and files as archiving once. */
  lemma ArchiveIdempotent(s: Snapshot, name: string, base: string, current: string, history: string)
    requires Folders(base, current, history)
    ensures var once := Archived(s, name, current, history);
      Archived(once, name, current, history) == once
  {
    var listing := NewestFirst(s.versions, name);
    if |listing| > 1 {
      var rest := listing[1..];
      var once := ArchiveAll(s, rest, current, history);
      AllOnlyPaths(s, rest, current, history);
      NewestFirstKeysOnly(s.versions, once.versions, name);
      AllSettles(s, rest, base, current, history);
      AllOfSettledIsIdentity(once, rest, current, history);
    }
  }

  /**
   * When an older row shares the newest row's path (a re-upload of the same
   * name and version), archiving moves that file away: the newest row still
   * points at its old path, and no file is there any more.
   */
  lemma ArchiveOrphansNewestOnSharedPath(s: Snapshot, name: string, k: nat, base: string, current: string, history: string)
    requires Folders(base, current, history)
    requires var listing := NewestFirst(s.versions, name);
      |listing| > 0 && k in listing && k != listing[0]
      && s.versions[k].filePath == s.versions[listing[0]].filePath
      && Contains(s.versions[k].filePath, current)
    ensures var newest := NewestFirst(s.versions, name)[0];
      var r := Archived(s, name, current, history);
      r.versions[newest] == s.versions[newest] && s.versions[newest].filePath !in r.files
  {
    var listing := NewestFirst(s.versions, name);
    ArchiveKeepsNewest(s, name, current, history);
    assert Archived(s, name, current, history) == ArchiveAll(s, listing[1..], current, history);
    TailRemovesSharedPath(s, listing, k, base, current, history);
  }

  lemma TailRemovesSharedPath(s: Snapshot, listing: seq<nat>, k: nat, base: string, current: string, history: string)
    requires Folders(base, current, history) && InRange(s.versions, listing) && Distinct(listing)
    requires |listing| > 0 && k in listing && k != listing[0]
    requires s.versions[k].filePath == s.versions[listing[0]].filePath && Contains(s.versions[k].filePath, current)
    ensures s.versions[listing[0]].filePath !in ArchiveAll(s, listing[1..], current, history).files
  {
    var b :| 0 <= b < |listing| && listing[b] == k;
    assert listing[1..][b - 1] == k;
    assert InRange(s.versions, listing[1..]) && Distinct(listing[1..]);
    AllRemovesSharedPath(s, listing[1..], k, s.versions[k].filePath, base, current, history);
  }

  /**
   * Archiving changes only file paths, and keeps each file's name, so ids stay
   * row numbers and every row is still stored under its download name.
   */
  lemma ArchiveKeepsStoredNames(s: Snapshot, name: string, base: string, current: string, history: string)
    requires Folders(base, current, history)
    requires IdsAreRowNumbers(s.versions) && StoredUnderOwnName(s.versions)
    ensures var r := Archived(s, name, current, history);
      OnlyPathsDiffer(s.versions, r.versions)
      && IdsAreRowNumbers(r.versions) && StoredUnderOwnName(r.versions)
  {
    var listing := NewestFirst(s.versions, name);
    if |listing| > 1 {
      var r := ArchiveAll(s, listing[1..], current, history);
      AllOnlyPaths(s, listing[1..], current, history);
      AllKeepsBasenames(s, listing[1..], base, current, history);
      forall j | 0 <= j < |r.versions| ensures r.versions[j].id == j + 1 && Basename(r.versions[j].filePath) == r.versions[j].FileName() {
        assert r.versions[j] == s.versions[j].(filePath := r.versions[j].filePath);
      }
    }
  }
}
