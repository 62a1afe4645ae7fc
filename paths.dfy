/**
 * POSIX path handling as the app uses it (os.path.join with two arguments,
 * os.path.basename) and the storage folders config.py derives from the
 * application directory.
 */
module Paths {
  import opened Text

  predicate EndsWithSlash(p: string) {
    p != [] && p[|p| - 1] == '/'
  }

  /** os.path.join(a, b) on POSIX: an absolute b wins, otherwise one '/' between the parts. */
  function Join(a: string, b: string): string {
    if b != [] && b[0] == '/' then b
    else if a == [] || EndsWithSlash(a) then a + b
    else a + "/" + b
  }

  /** os.path.basename(p): everything after the last '/'. */
  function Basename(p: string): (r: string)
    ensures '/' !in r
    ensures |r| <= |p|
    ensures '/' !in p ==> r == p
  {
    if p == [] || p[|p| - 1] == '/' then []
    else
      var r := Basename(p[..|p| - 1]) + [p[|p| - 1]];
      assert p[..|p| - 1] + [p[|p| - 1]] == p;
      r
  }

  /** basename is the part after the last '/': a suffix of the path, preceded by a '/' when shorter. */
  lemma {:induction false} BasenameIsSuffix(p: string)
    ensures var r := Basename(p);
      r == p[|p| - |r|..] && (|r| < |p| ==> p[|p| - |r| - 1] == '/')
  {
    if p != [] && p[|p| - 1] != '/' {
      var front := p[..|p| - 1];
      BasenameIsSuffix(front);
      var r0 := Basename(front);
      assert Basename(p) == r0 + [p[|p| - 1]];
      assert front[|front| - |r0|..] + [p[|p| - 1]] == p[|p| - |r0| - 1..];
    }
  }

  lemma {:induction false} BasenameAfterSlash(x: string, b: string)
    requires x == [] || EndsWithSlash(x)
    requires '/' !in b
    ensures Basename(x + b) == b
    decreases |b|
  {
    if b == [] {
      assert x + b == x;
    } else {
      var front := b[..|b| - 1];
      var last := b[|b| - 1];
      var p := x + b;
      assert last in b;
      assert p[|p| - 1] == last;
      assert p[..|p| - 1] == x + front;
      assert '/' !in front by {
        forall i | 0 <= i < |front| ensures front[i] != '/' {
          assert front[i] == b[i];
        }
      }
      assert Basename(p) == Basename(x + front) + [last];
      BasenameAfterSlash(x, front);
      assert front + [last] == b;
    }
  }

  /** The last component of join(dir, name) is name itself when name holds no '/'. */
  lemma BasenameOfJoin(dir: string, name: string)
    requires '/' !in name
    ensures Basename(Join(dir, name)) == name
  {
    assert name == [] || name[0] != '/' by {
      if name != [] { assert name[0] in name; }
    }
    if dir == [] || EndsWithSlash(dir) {
      BasenameAfterSlash(dir, name);
    } else {
      assert dir + "/" + name == (dir + "/") + name;
      BasenameAfterSlash(dir + "/", name);
    }
  }

  /** The folder config.py builds: os.path.join(base, 'storage', sub). */
  function Folder(base: string, sub: string): string {
    Join(Join(base, "storage"), sub)
  }

  /** What join puts in front of a relative part: base itself, or base and a '/'. */
  function DirPrefix(base: string): (p: string)
    ensures p == [] || EndsWithSlash(p)
  {
    if base == [] || EndsWithSlash(base) then base else base + "/"
  }

  lemma FolderShape(base: string, sub: string)
    requires sub != [] && sub[0] != '/'
    ensures Folder(base, sub) == DirPrefix(base) + "storage/" + sub
  {
    var p := DirPrefix(base);
    assert Join(base, "storage") == p + "storage";
    assert !EndsWithSlash(p + "storage");
    assert p + "storage" + "/" + sub == p + "storage/" + sub;
  }

  /** The characters of p + "storage/history/" + name, region by region. */
  lemma HistoryPathChars(p: string, name: string, i: nat)
    requires i < |p| + 16 + |name|
    ensures i < |p| ==> (p + "storage/history/" + name)[i] == p[i]
    ensures |p| <= i < |p| + 16 ==> (p + "storage/history/" + name)[i] == "storage/history/"[i - |p|]
    ensures |p| + 16 <= i ==> (p + "storage/history/" + name)[i] == name[i - |p| - 16]
  {
    assert p + "storage/history/" + name == p + ("storage/history/" + name);
  }

  /** "storage/current" does not start at offset k of p + "storage/history/" + name. */
  lemma NotAtOffset(p: string, name: string, k: nat)
    requires '/' !in name
    ensures !OccursAt(p + "storage/history/" + name, p + "storage/current", k)
  {
    var s := p + "storage/history/" + name;
    var c := p + "storage/current";
    var n := |p|;
    if k + |c| <= |s| {
      // a position j where s and c disagree when c is laid at offset k
      if k == 0 {
        HistoryPathChars(p, name, n + 8);
        assert s[n + 8] == 'h' && c[n + 8] == 'c';
        Mismatch(s, c, k, n + 8);
      } else if k == 8 {
        HistoryPathChars(p, name, n + 8);
        assert s[n + 8] == 'h' && c[n] == 's';
        Mismatch(s, c, k, n);
      } else {
        SlashMisaligned(p, name, k);
        Mismatch(s, c, k, n + 7);
      }
    }
  }

  /** Where the '/' of "storage/current" lands at an offset other than 0 and 8, the history path has no '/'. */
  lemma SlashMisaligned(p: string, name: string, k: nat)
    requires '/' !in name && k != 0 && k != 8
    requires k + |p| + 15 <= |p| + 16 + |name|
    ensures (p + "storage/history/" + name)[k + |p| + 7] != (p + "storage/current")[|p| + 7]
  {
    var s := p + "storage/history/" + name;
    var n := |p|;
    var lit := "storage/history/";
    HistoryPathChars(p, name, k + n + 7);
    assert (p + "storage/current")[n + 7] == '/';
    if k + n + 7 >= n + 16 {
      assert s[k + n + 7] == name[k - 9];
      assert name[k - 9] in name;
    } else {
      assert lit[8..15] == "history";
      assert forall i :: 0 <= i < 7 ==> "history"[i] != '/';
      assert s[k + n + 7] == lit[8..15][k - 1];
    }
  }

  /** One differing character rules out an occurrence. */
  lemma Mismatch(s: string, t: string, k: nat, j: nat)
    requires k + |t| <= |s| && j < |t| && s[k + j] != t[j]
    ensures !OccursAt(s, t, k)
  {
    assert s[k..k + |t|][j] == s[k + j];
  }

  lemma NoCurrentInHistoryPath(p: string, name: string)
    requires '/' !in name
    ensures !Contains(p + "storage/history/" + name, p + "storage/current")
  {
    forall k: nat ensures !OccursAt(p + "storage/history/" + name, p + "storage/current", k) {
      NotAtOffset(p, name, k);
    }
  }

  /**
   * A file moved into the history folder never has a path that contains the
   * current folder's path: the '/' of "storage/current" can only line up with
   * one of the two '/' in "storage/history/", and neither alignment matches.
   */
  lemma HistoryPathAvoidsCurrent(base: string, name: string)
    requires '/' !in name
    ensures !Contains(Join(Folder(base, "history"), name), Folder(base, "current"))
  {
    var p := DirPrefix(base);
    HistoryJoinShape(base, name);
    FolderShape(base, "current");
    assert "storage/" + "current" == "storage/current";
    Associative(p, "storage/", "current");
    NoCurrentInHistoryPath(p, name);
  }

  lemma Associative(a: string, b: string, c: string)
    ensures a + b + c == a + (b + c)
  {
  }

  /** join(HISTORY, name) spelled out: the prefix, "storage/history/", then name. */
  lemma HistoryJoinShape(base: string, name: string)
    requires '/' !in name
    ensures Join(Folder(base, "history"), name) == DirPrefix(base) + "storage/history/" + name
  {
    var p := DirPrefix(base);
    FolderShape(base, "history");
    var h := p + "storage/history";
    assert "storage/" + "history" == "storage/history";
    Associative(p, "storage/", "history");
    assert h[|h| - 1] == 'y';
    assert name == [] || name[0] != '/' by {
      if name != [] { assert name[0] in name; }
    }
    assert Join(h, name) == h + "/" + name;
    assert "storage/history" + "/" == "storage/history/";
    Associative(p, "storage/history", "/");
  }
}
