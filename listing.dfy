/**
 * The queries that read the versions table newest first: the per-name query
 * `_archive_old_versions` runs (filter_by(software_name).order_by(uploaded_at
 * desc)) and the JSON listing of /api/versions. The order is a stable
 * insertion sort on uploaded_at, so rows with equal timestamps keep their
 * insertion order. The database leaves that tie order unspecified.
 */
module Listing {
  import opened Versions

  /** Every entry of ids indexes a row of vs. */
  predicate InRange(vs: seq<Version>, ids: seq<nat>) {
    forall k :: 0 <= k < |ids| ==> ids[k] < |vs|
  }

  predicate Distinct(ids: seq<nat>) {
    forall a, b :: 0 <= a < b < |ids| ==> ids[a] != ids[b]
  }

  /** The rows ids name are ordered by uploaded_at, newest first. */
  predicate NewestFirstOrder(vs: seq<Version>, ids: seq<nat>)
    requires InRange(vs, ids)
  {
    forall a, b :: 0 <= a < b < |ids| ==> vs[ids[a]].uploadedAt >= vs[ids[b]].uploadedAt
  }

  /** The indices below n of the rows named name, ascending (filter_by(software_name=name)). */
  function Matching(vs: seq<Version>, name: string, n: nat): (r: seq<nat>)
    requires n <= |vs|
    ensures forall i: nat :: i in r <==> i < n && vs[i].softwareName == name
    ensures InRange(vs, r) && Distinct(r)
  {
    if n == 0 then []
    else
      var front := Matching(vs, name, n - 1);
      front + (if vs[n - 1].softwareName == name then [n - 1] else [])
  }

  /** All row indices, ascending (the unfiltered query of /api/versions). */
  function Rows(n: nat): (r: seq<nat>)
    ensures |r| == n && forall i :: 0 <= i < n ==> r[i] == i
  {
    seq(n, i requires 0 <= i < n => i as nat)
  }

  /** Puts row i after every row at least as new, before the first older one. */
  function Insert(vs: seq<Version>, s: seq<nat>, i: nat): (r: seq<nat>)
    requires InRange(vs, s) && i < |vs|
    ensures |r| == |s| + 1 && InRange(vs, r)
    ensures forall x :: x in r <==> x in s || x == i
  {
    if s == [] then [i]
    else if vs[s[0]].uploadedAt >= vs[i].uploadedAt then [s[0]] + Insert(vs, s[1..], i)
    else [i] + s
  }

  lemma {:induction false} InsertKeepsOrder(vs: seq<Version>, s: seq<nat>, i: nat)
    requires InRange(vs, s) && i < |vs| && NewestFirstOrder(vs, s)
    ensures NewestFirstOrder(vs, Insert(vs, s, i))
  {
    if s != [] && vs[s[0]].uploadedAt >= vs[i].uploadedAt {
      assert InRange(vs, s[1..]) && NewestFirstOrder(vs, s[1..]);
      InsertKeepsOrder(vs, s[1..], i);
      InsertBehindOrdered(vs, s, i);
    } else if s != [] {
      InsertInFrontOrdered(vs, s, i);
    }
  }

  /** Row i goes behind s[0]: the order holds when it holds for the tail. */
  lemma InsertBehindOrdered(vs: seq<Version>, s: seq<nat>, i: nat)
    requires InRange(vs, s) && i < |vs| && NewestFirstOrder(vs, s)
    requires s != [] && vs[s[0]].uploadedAt >= vs[i].uploadedAt
    requires NewestFirstOrder(vs, Insert(vs, s[1..], i))
    ensures NewestFirstOrder(vs, Insert(vs, s, i))
  {
    var r := Insert(vs, s, i);
    var tail := Insert(vs, s[1..], i);
    assert r == [s[0]] + tail;
    forall a, b | 0 <= a < b < |r| ensures vs[r[a]].uploadedAt >= vs[r[b]].uploadedAt {
      assert r[b] == tail[b - 1];
      if a > 0 {
        assert r[a] == tail[a - 1];
      } else if tail[b - 1] != i {
        assert tail[b - 1] in s;
        var c :| 0 <= c < |s| && s[c] == tail[b - 1];
        assert c == 0 || vs[s[0]].uploadedAt >= vs[s[c]].uploadedAt;
      }
    }
  }

  /** Row i goes in front: it is newer than s[0] and so than all of s. */
  lemma InsertInFrontOrdered(vs: seq<Version>, s: seq<nat>, i: nat)
    requires InRange(vs, s) && i < |vs| && NewestFirstOrder(vs, s)
    requires s != [] && vs[s[0]].uploadedAt < vs[i].uploadedAt
    ensures NewestFirstOrder(vs, Insert(vs, s, i))
  {
    var r := Insert(vs, s, i);
    assert r == [i] + s;
    forall a, b | 0 <= a < b < |r| ensures vs[r[a]].uploadedAt >= vs[r[b]].uploadedAt {
      assert r[b] == s[b - 1];
      if a > 0 {
        assert r[a] == s[a - 1];
      } else if b > 1 {
        assert vs[s[0]].uploadedAt >= vs[s[b - 1]].uploadedAt;
      }
    }
  }

  lemma {:induction false} InsertKeepsDistinct(vs: seq<Version>, s: seq<nat>, i: nat)
    requires InRange(vs, s) && i < |vs| && Distinct(s) && i !in s
    ensures Distinct(Insert(vs, s, i))
  {
    if s != [] && vs[s[0]].uploadedAt >= vs[i].uploadedAt {
      var tail := Insert(vs, s[1..], i);
      assert i !in s[1..];
      InsertKeepsDistinct(vs, s[1..], i);
      assert forall b :: 0 < b < |s| ==> s[b] != s[0];
      assert s[0] !in tail;
    }
  }

  /** Orders ids newest first; a permutation of ids. */
  function SortNewestFirst(vs: seq<Version>, ids: seq<nat>): (r: seq<nat>)
    requires InRange(vs, ids)
    ensures |r| == |ids| && InRange(vs, r)
    ensures forall x :: x in r <==> x in ids
    ensures NewestFirstOrder(vs, r)
    ensures Distinct(ids) ==> Distinct(r)
    decreases |ids|
  {
    if ids == [] then []
    else
      var front := ids[..|ids| - 1];
      var last := ids[|ids| - 1];
      assert ids == front + [last];
      assert Distinct(ids) ==> last !in front by {
        if Distinct(ids) {
          assert forall a :: 0 <= a < |front| ==> front[a] == ids[a] != ids[|ids| - 1];
        }
      }
      var sorted := SortNewestFirst(vs, front);
      InsertKeepsOrder(vs, sorted, last);
      if Distinct(ids) then
        InsertKeepsDistinct(vs, sorted, last);
        Insert(vs, sorted, last)
      else
        Insert(vs, sorted, last)
  }

  /**
   * Version.query.filter_by(software_name=name).order_by(uploaded_at.desc()):
   * each row of that name exactly once, newest first.
   */
  function NewestFirst(vs: seq<Version>, name: string): (r: seq<nat>)
    ensures InRange(vs, r) && Distinct(r) && NewestFirstOrder(vs, r)
    ensures forall i: nat :: i in r <==> i < |vs| && vs[i].softwareName == name
  {
    SortNewestFirst(vs, Matching(vs, name, |vs|))
  }

  /** The first row of the query is at least as new as every row of that name. */
  lemma NewestFirstHeadIsLatest(vs: seq<Version>, name: string, j: nat)
    requires j < |vs| && vs[j].softwareName == name
    ensures var r := NewestFirst(vs, name); |r| > 0 && vs[r[0]].uploadedAt >= vs[j].uploadedAt
  {
    var r := NewestFirst(vs, name);
    assert j in r;
    var b :| 0 <= b < |r| && r[b] == j;
    if b > 0 {
      assert vs[r[0]].uploadedAt >= vs[r[b]].uploadedAt;
    }
  }

  /** Two row sequences that agree on names and upload times. */
  predicate SameKeys(vs: seq<Version>, ws: seq<Version>) {
    && |vs| == |ws|
    && forall i :: 0 <= i < |vs| ==>
         vs[i].softwareName == ws[i].softwareName && vs[i].uploadedAt == ws[i].uploadedAt
  }

  lemma {:induction false} MatchingKeysOnly(vs: seq<Version>, ws: seq<Version>, name: string, n: nat)
    requires SameKeys(vs, ws) && n <= |vs|
    ensures Matching(vs, name, n) == Matching(ws, name, n)
  {
    if n > 0 {
      MatchingKeysOnly(vs, ws, name, n - 1);
    }
  }

  lemma {:induction false} InsertKeysOnly(vs: seq<Version>, ws: seq<Version>, s: seq<nat>, i: nat)
    requires SameKeys(vs, ws) && InRange(vs, s) && i < |vs|
    ensures Insert(vs, s, i) == Insert(ws, s, i)
  {
    if s != [] {
      InsertKeysOnly(vs, ws, s[1..], i);
    }
  }

  lemma {:induction false} SortKeysOnly(vs: seq<Version>, ws: seq<Version>, ids: seq<nat>)
    requires SameKeys(vs, ws) && InRange(vs, ids)
    ensures SortNewestFirst(vs, ids) == SortNewestFirst(ws, ids)
    decreases |ids|
  {
    if ids != [] {
      var front := ids[..|ids| - 1];
      SortKeysOnly(vs, ws, front);
      InsertKeysOnly(vs, ws, SortNewestFirst(vs, front), ids[|ids| - 1]);
    }
  }

  /** The query's answer depends only on names and upload times, not on paths or counters. */
  lemma NewestFirstKeysOnly(vs: seq<Version>, ws: seq<Version>, name: string)
    requires SameKeys(vs, ws)
    ensures NewestFirst(vs, name) == NewestFirst(ws, name)
  {
    MatchingKeysOnly(vs, ws, name, |vs|);
    SortKeysOnly(vs, ws, Matching(vs, name, |vs|));
  }

  // ---------------------------------------------------------------------
  // /api/versions

  /** One element of the JSON array /api/versions returns. */
  datatype ApiEntry = ApiEntry(
    id: nat,
    software: string,
    version: string,
    testResult: string,
    testId: string,
    developerDri: string,
    fileSize: nat,
    uploadedAt: int,
    downloadedCount: nat)

  function Entry(v: Version): ApiEntry {
    ApiEntry(v.id, v.softwareName, v.version, v.testResult, v.testId, v.developerDri,
             v.fileSize, v.uploadedAt, v.downloadedCount)
  }

  /**
   * api_versions(): every row once, newest first. The entries are the rows'
   * summaries in some order (a permutation when ids are distinct, since the
   * lengths agree and every row appears).
   */
  function ApiListing(vs: seq<Version>): (r: seq<ApiEntry>)
    ensures |r| == |vs|
    ensures forall a, b :: 0 <= a < b < |r| ==> r[a].uploadedAt >= r[b].uploadedAt
    ensures forall i :: 0 <= i < |vs| ==> Entry(vs[i]) in r
    ensures forall j :: 0 <= j < |r| ==> exists i :: 0 <= i < |vs| && r[j] == Entry(vs[i])
  {
    var order := SortNewestFirst(vs, Rows(|vs|));
    var r := seq(|order|, j requires 0 <= j < |order| => Entry(vs[order[j]]));
    EntriesCoverRows(vs, order, r);
    r
  }

  /** Listing the rows in any order that visits each of them gives every row an entry. */
  lemma EntriesCoverRows(vs: seq<Version>, order: seq<nat>, r: seq<ApiEntry>)
    requires InRange(vs, order) && forall x :: x in order <==> x in Rows(|vs|)
    requires |r| == |order| && forall j :: 0 <= j < |r| ==> r[j] == Entry(vs[order[j]])
    ensures forall i :: 0 <= i < |vs| ==> Entry(vs[i]) in r
  {
    forall i | 0 <= i < |vs| ensures Entry(vs[i]) in r {
      assert i in Rows(|vs|) by { assert Rows(|vs|)[i] == i; }
      var b :| 0 <= b < |order| && order[b] == i;
      assert r[b] == Entry(vs[i]);
    }
  }
}
