/** The `versions` table of models.py: one row per uploaded build. */
module Versions {
  import opened Wrappers
  import opened Paths

  newtype byte = x: int | 0 <= x < 256

  /** The content of a stored file. */
  type Bytes = seq<byte>

  /**
   * One Version row. Every field is NOT NULL except testDuration. uploaded_at and
   * downloaded_count are nullable columns, but their defaults (insert time, 0)
   * always fill them. Timestamps are seconds.
   */
  datatype Version = Version(
    id: nat,
    softwareName: string,
    version: string,
    filePath: string,
    fileSize: nat,
    updateNotes: string,
    testDescription: string,
    testResult: string,
    testDuration: Option<int>,
    testCompletedAt: int,
    testId: string,
    developerDri: string,
    uploadedBy: string,
    uploadedAt: int,
    downloadedCount: nat)
  {
    /** get_filename(): the name a download is offered under. */
    function FileName(): string {
      FileNameOf(softwareName, version)
    }
  }

  /**
   * The "{name}_v{version}.dll" pattern shared by upload and get_filename. It
   * holds a '/' exactly when the name or the version does.
   */
  function FileNameOf(name: string, version: string): (r: string)
    ensures |r| == |name| + |version| + 6
    ensures '/' in r <==> '/' in name || '/' in version
  {
    var r := name + "_v" + version + ".dll";
    assert r[|name| + 2..|name| + 2 + |version|] == version;
    assert '/' in r ==> '/' in name || '/' in version by {
      if '/' in r {
        var i :| 0 <= i < |r| && r[i] == '/';
        if i < |name| {
          assert name[i] == '/';
        } else if |name| + 2 <= i < |name| + 2 + |version| {
          assert version[i - |name| - 2] == '/';
        }
      }
    }
    r
  }

  /** The download name starts with the software name and ends in ".dll". */
  lemma FileNameShape(name: string, version: string)
    ensures var r := FileNameOf(name, version);
      r[..|name|] == name && r[|r| - 4..] == ".dll"
  {
  }

  /** Row ids are 1, 2, 3, ... in insertion order; rows are never deleted. */
  predicate IdsAreRowNumbers(vs: seq<Version>) {
    forall i :: 0 <= i < |vs| ==> vs[i].id == i + 1
  }

  /** Every row is stored under the name get_filename() offers it for download as. */
  predicate StoredUnderOwnName(vs: seq<Version>) {
    forall i :: 0 <= i < |vs| ==> Basename(vs[i].filePath) == vs[i].FileName()
  }
}
