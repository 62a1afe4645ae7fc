/**
 * The string operations the upload route applies to form input: Python's
 * str.strip(), str.replace(c, ''), str.lower() as used in the ".dll" test,
 * the substring test `t in s`, and werkzeug's secure_filename.
 */
module Text {

  /** Python's str.isspace(): the characters str.strip() and str.split() treat as whitespace. */
  predicate IsSpace(c: char) {
    || c == ' '
    || ('\t' <= c <= '\r')
    || ('\U{1c}' <= c <= '\U{1f}')
    || c == '\U{85}' || c == '\U{a0}' || c == '\U{1680}'
    || ('\U{2000}' <= c <= '\U{200a}')
    || c == '\U{2028}' || c == '\U{2029}' || c == '\U{202f}' || c == '\U{205f}'
    || c == '\U{3000}'
  }

  predicate AllSpace(s: string) {
    forall i :: 0 <= i < |s| ==> IsSpace(s[i])
  }

  /** str.lstrip(): drops leading whitespace. */
  function StripLeft(s: string): (r: string)
    ensures |r| <= |s|
  {
    if s != [] && IsSpace(s[0]) then StripLeft(s[1..]) else s
  }

  /** lstrip leaves a suffix of the input, drops only whitespace, and stops at the first non-whitespace. */
  lemma {:induction false} StripLeftSpec(s: string)
    ensures var r := StripLeft(s);
      r == s[|s| - |r|..] && AllSpace(s[..|s| - |r|]) && (r == [] || !IsSpace(r[0]))
  {
    if s != [] && IsSpace(s[0]) {
      StripLeftSpec(s[1..]);
      var r := StripLeft(s);
      assert s[..|s| - |r|] == [s[0]] + s[1..][..|s[1..]| - |r|];
    }
  }

  /** str.rstrip(): drops trailing whitespace. */
  function StripRight(s: string): (r: string)
    ensures |r| <= |s|
  {
    if s != [] && IsSpace(s[|s| - 1]) then StripRight(s[..|s| - 1]) else s
  }

  /** rstrip leaves a prefix of the input, drops only whitespace, and stops at the last non-whitespace. */
  lemma {:induction false} StripRightSpec(s: string)
    ensures var r := StripRight(s);
      r == s[..|r|] && AllSpace(s[|r|..]) && (r == [] || !IsSpace(r[|r| - 1]))
  {
    if s != [] && IsSpace(s[|s| - 1]) {
      var t := s[..|s| - 1];
      StripRightSpec(t);
      var r := StripRight(s);
      assert s[|r|..] == t[|r|..] + [s[|s| - 1]];
      assert t[..|r|] == s[..|r|];
    }
  }

  /** str.strip(). */
  function Strip(s: string): (r: string)
    ensures |r| <= |s|
  {
    StripRight(StripLeft(s))
  }

  /**
   * strip() leaves a slice of the input with no whitespace at either end; the
   * slice is empty exactly when the input is blank (empty or whitespace only).
   */
  lemma StripSpec(s: string)
    ensures var r := Strip(s);
      && (r == [] <==> AllSpace(s))
      && (r != [] ==> !IsSpace(r[0]) && !IsSpace(r[|r| - 1]))
      && r == s[|s| - |StripLeft(s)|..][..|r|]
  {
    var l := StripLeft(s);
    var r := Strip(s);
    StripLeftSpec(s);
    StripRightSpec(l);
    var i := |s| - |l|;
    if r == [] {
      assert l[|r|..] == l;
      assert l == [];
      assert s[..i] == s;
    } else {
      assert r[0] == l[0];
    }
    if AllSpace(s) {
      AllSpaceSuffix(s, i);
    }
  }

  lemma AllSpaceSuffix(s: string, i: nat)
    requires AllSpace(s) && i <= |s|
    ensures AllSpace(s[i..])
  {
    forall k | 0 <= k < |s| - i ensures IsSpace(s[i..][k]) {
      assert s[i..][k] == s[i + k];
    }
  }

  /** str.replace(c, ''): deletes every occurrence of c. */
  function RemoveAll(s: string, c: char): (r: string)
    ensures c !in r && |r| <= |s|
  {
    if s == [] then []
    else
      var rest := RemoveAll(s[1..], c);
      if s[0] == c then rest else [s[0]] + rest
  }

  /** Removing c from a concatenation removes it from each part, so the kept characters stay in order. */
  lemma {:induction false} RemoveAllAppend(a: string, b: string, c: char)
    ensures RemoveAll(a + b, c) == RemoveAll(a, c) + RemoveAll(b, c)
  {
    if a != [] {
      var ab := a + b;
      assert ab[0] == a[0];
      assert ab[1..] == a[1..] + b;
      RemoveAllAppend(a[1..], b, c);
      if a[0] != c {
        var x, y, z := [a[0]], RemoveAll(a[1..], c), RemoveAll(b, c);
        assert x + (y + z) == (x + y) + z;
      }
    } else {
      assert a + b == b;
    }
  }

  /** The characters other than c keep their counts; the c's go. */
  lemma {:induction false} RemoveAllCounts(s: string, c: char)
    ensures var r := RemoveAll(s, c);
      && (forall d :: d != c ==> multiset(r)[d] == multiset(s)[d])
      && |r| == |s| - multiset(s)[c]
  {
    if s != [] {
      RemoveAllCounts(s[1..], c);
      assert s == [s[0]] + s[1..];
    }
  }

  /** Without a c in s, nothing is removed. */
  lemma {:induction false} RemoveAllNone(s: string, c: char)
    requires c !in s
    ensures RemoveAll(s, c) == s
  {
    if s != [] {
      assert c !in s[1..];
      RemoveAllNone(s[1..], c);
      assert s == [s[0]] + s[1..];
    }
  }

  /** A left-to-right scan: each prefix extends the shorter one by its last character unless that is c. */
  lemma RemoveAllScan(s: string, c: char)
    ensures forall i :: 0 <= i < |s| ==>
      RemoveAll(s[..i + 1], c) == RemoveAll(s[..i], c) + (if s[i] == c then [] else [s[i]])
  {
    forall i | 0 <= i < |s|
      ensures RemoveAll(s[..i + 1], c) == RemoveAll(s[..i], c) + (if s[i] == c then [] else [s[i]])
    {
      assert s[..i + 1] == s[..i] + [s[i]];
      RemoveAllAppend(s[..i], [s[i]], c);
      assert [s[i]][1..] == [];
    }
  }

  /**
   * Every other character is kept, as often as it occurred, in the same order;
   * only the c's go. The last clause is a left-to-right scan: each prefix's
   * result is the shorter prefix's result, extended by its last character
   * unless that character is c.
   */
  lemma RemoveAllSpec(s: string, c: char)
    ensures var r := RemoveAll(s, c);
      && (forall d :: d != c ==> multiset(r)[d] == multiset(s)[d])
      && |r| == |s| - multiset(s)[c]
      && (c !in s ==> r == s)
      && RemoveAll([], c) == []
      && (forall i :: 0 <= i < |s| ==>
            RemoveAll(s[..i + 1], c) == RemoveAll(s[..i], c) + (if s[i] == c then [] else [s[i]]))
  {
    RemoveAllCounts(s, c);
    if c !in s {
      RemoveAllNone(s, c);
    }
    RemoveAllScan(s, c);
  }

  /** Lower-casing of one character as str.lower() does it for ASCII letters. */
  function LowerChar(c: char): char {
    if 'A' <= c <= 'Z' then (c as int + 32) as char else c
  }

  /** The pattern t occurs in s starting at index k. */
  predicate OccursAt(s: string, t: string, k: nat) {
    k + |t| <= |s| && s[k..k + |t|] == t
  }

  /** Python's substring test `t in s`. */
  predicate Contains(s: string, t: string) {
    exists k: nat | k <= |s| :: OccursAt(s, t, k)
  }

  // ---------------------------------------------------------------------
  // werkzeug.utils.secure_filename, step by step

  /** The characters secure_filename keeps: ASCII letters, digits, '_', '.', '-'. */
  predicate IsSafe(c: char) {
    ('A' <= c <= 'Z') || ('a' <= c <= 'z') || ('0' <= c <= '9') || c == '_' || c == '.' || c == '-'
  }

  /** Replaces the path separator '/' by a blank (the POSIX host has no alternative separator). */
  function SeparatorsToBlanks(s: string): (r: string)
    ensures |r| == |s|
    ensures forall i :: 0 <= i < |r| ==> r[i] != '/'
  {
    if s == [] then [] else [if s[0] == '/' then ' ' else s[0]] + SeparatorsToBlanks(s[1..])
  }

  predicate NoSpace(s: string) {
    forall i :: 0 <= i < |s| ==> !IsSpace(s[i])
  }

  /** The longest prefix of s without whitespace. */
  function Word(s: string): (r: string)
    ensures |r| <= |s| && r == s[..|r|]
    ensures NoSpace(r)
    ensures |r| < |s| ==> IsSpace(s[|r|])
  {
    if s == [] || IsSpace(s[0]) then [] else [s[0]] + Word(s[1..])
  }

  lemma NoSpaceJoin(a: string, b: string)
    requires NoSpace(a) && NoSpace(b)
    ensures NoSpace(a + "_" + b)
  {
    var j := a + "_" + b;
    forall i | 0 <= i < |j| ensures !IsSpace(j[i]) {
      if i < |a| {
        assert j[i] == a[i];
      } else if i > |a| {
        assert j[i] == b[i - |a| - 1];
      } else {
        assert j[i] == '_';
      }
    }
  }

  /** "_".join(s.split()): whitespace runs become one '_' and vanish at both ends. */
  function JoinWords(s: string): (r: string)
    ensures NoSpace(r)
    decreases |s|
  {
    var t := StripLeft(s);
    StripLeftSpec(s);
    if t == [] then []
    else
      var w := Word(t);
      assert |w| > 0;
      var rest := t[|w|..];
      assert |rest| < |s|;
      if StripLeft(rest) == [] then w
      else
        var tail := JoinWords(rest);
        NoSpaceJoin(w, tail);
        w + "_" + tail
  }

  predicate AllSafe(s: string) {
    forall i :: 0 <= i < |s| ==> IsSafe(s[i])
  }

  /** Drops every character outside the safe set. */
  function KeepSafe(s: string): (r: string)
    ensures AllSafe(r)
  {
    if s == [] then []
    else
      var tail := KeepSafe(s[1..]);
      var head := if IsSafe(s[0]) then [s[0]] else [];
      assert AllSafe(head + tail) by {
        forall i | 0 <= i < |head + tail| ensures IsSafe((head + tail)[i]) {
          if i >= |head| {
            assert (head + tail)[i] == tail[i - |head|];
          }
        }
      }
      head + tail
  }

  predicate IsDotOrUnderscore(c: char) {
    c == '.' || c == '_'
  }

  /** str.strip("._"). */
  function TrimDotsAndUnderscores(s: string): (r: string)
    ensures |r| <= |s|
    ensures AllSafe(s) ==> AllSafe(r)
    ensures r == [] || (!IsDotOrUnderscore(r[0]) && !IsDotOrUnderscore(r[|r| - 1]))
    decreases |s|
  {
    if s == [] then []
    else if IsDotOrUnderscore(s[0]) then TrimDotsAndUnderscores(s[1..])
    else if IsDotOrUnderscore(s[|s| - 1]) then TrimDotsAndUnderscores(s[..|s| - 1])
    else s
  }

  /**
   * secure_filename: the result is made of safe characters only (so it holds
   * no path separator) and neither starts nor ends with '.' or '_' (so it is
   * never "." or "..").
   */
  function SecureFilename(s: string): (r: string)
    ensures AllSafe(r)
    ensures r == [] || (!IsDotOrUnderscore(r[0]) && !IsDotOrUnderscore(r[|r| - 1]))
  {
    TrimDotsAndUnderscores(KeepSafe(JoinWords(SeparatorsToBlanks(s))))
  }
}
