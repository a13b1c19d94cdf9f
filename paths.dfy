/** The parts of Python's `os.path` (POSIX flavour) that the capture code
    relies on: `join`, `basename` and `splitext`, plus ASCII `str.lower`. */
module Paths {

  /** The index of the last `c` in `s`, or -1 (`str.rfind`). */
  function LastIndexOf(s: string, c: char): (k: int)
    ensures -1 <= k < |s|
    ensures k >= 0 ==> s[k] == c
    ensures forall i :: k < i < |s| ==> s[i] != c
  {
    if s == [] then -1
    else if s[|s| - 1] == c then |s| - 1
    else LastIndexOf(s[..|s| - 1], c)
  }

  /** The last `c` of `a + b` is in `b` when `b` has one, else in `a`. */
  lemma {:induction false} LastIndexOfConcat(a: string, b: string, c: char)
    ensures c in b ==> LastIndexOf(a + b, c) == |a| + LastIndexOf(b, c)
    ensures c !in b ==> LastIndexOf(a + b, c) == LastIndexOf(a, c)
  {
    if b == [] {
      assert a + b == a;
    } else {
      var b' := b[..|b| - 1];
      assert (a + b)[..|a + b| - 1] == a + b';
      assert b == b' + [b[|b| - 1]];
      LastIndexOfConcat(a, b', c);
    }
  }

  /** `LastIndexOf` is characterised by its postconditions. */
  lemma LastIndexUnique(s: string, c: char, k: int)
    requires -1 <= k < |s|
    requires k >= 0 ==> s[k] == c
    requires forall i :: k < i < |s| ==> s[i] != c
    ensures LastIndexOf(s, c) == k
  {
  }

  /** `os.path.basename(p)`: the text after the last '/'. */
  function Basename(p: string): (b: string)
    ensures '/' !in b
    ensures |b| <= |p| && p[|p| - |b|..] == b
    ensures |b| < |p| ==> p[|p| - |b| - 1] == '/'
  {
    p[LastIndexOf(p, '/') + 1..]
  }

  /** `os.path.join(a, b)` for two components. */
  function JoinPath(a: string, b: string): (r: string)
    ensures |b| > 0 && b[0] == '/' ==> r == b
    ensures |b| <= |r| && r[|r| - |b|..] == b
    ensures !(|b| > 0 && b[0] == '/') ==> |a| + |b| <= |r| && r[..|a|] == a
    ensures !(|b| > 0 && b[0] == '/') && a != [] ==> r[|r| - |b| - 1] == '/'
    ensures !(|b| > 0 && b[0] == '/') ==> |r| <= |a| + 1 + |b|
    ensures !(|b| > 0 && b[0] == '/') ==>
      (|r| == |a| + |b| <==> a == [] || a[|a| - 1] == '/')
  {
    if |b| > 0 && b[0] == '/' then b
    else if a == [] || a[|a| - 1] == '/' then a + b
    else a + "/" + b
  }

  /** A plain file name joined onto a directory is what `basename` returns. */
  lemma BasenameOfJoin(dir: string, name: string)
    requires '/' !in name
    ensures Basename(JoinPath(dir, name)) == name
  {
    var p := JoinPath(dir, name);
    var front := if dir == [] || dir[|dir| - 1] == '/' then dir else dir + "/";
    assert p == front + name;
    LastIndexOfConcat(front, name, '/');
    if dir != [] {
      assert front[|front| - 1] == '/';
    }
    if front != [] {
      LastIndexUnique(front, '/', |front| - 1);
    }
    assert p[|front|..] == name;
  }

  /** Joining onto a directory and then appending is appending to the join. */
  lemma JoinPathAppend(dir: string, name: string, more: string)
    requires |name| > 0 && name[0] != '/'
    ensures JoinPath(dir, name + more) == JoinPath(dir, name) + more
  {
    assert (name + more)[0] == name[0];
    if !(dir == [] || dir[|dir| - 1] == '/') {
      assert dir + "/" + (name + more) == (dir + "/" + name) + more;
    } else {
      assert dir + (name + more) == (dir + name) + more;
    }
  }

  /** `filenameIndex < dotIndex` finds a character other than '.' in
      `p[lo..hi]`: the loop in `genericpath._splitext`. */
  predicate HasNonDot(p: string, lo: int, hi: int)
    requires 0 <= lo <= hi <= |p|
  {
    exists k :: lo <= k < hi && p[k] != '.'
  }

  /** `os.path.splitext(p)`: the extension runs from the last '.' of the base
      name, unless that base name has nothing but dots before it. */
  function SplitExt(p: string): (r: (string, string))
    ensures r.0 + r.1 == p
    ensures r.1 == [] || (r.1[0] == '.' && '/' !in r.1 && '.' !in r.1[1..])
    ensures r.1 != [] ==> LastIndexOf(p, '/') < |r.0|
    ensures r.1 != [] ==> HasNonDot(p, LastIndexOf(p, '/') + 1, |r.0|)
    ensures r.1 == [] ==> forall k :: LastIndexOf(p, '/') < k < |p| && p[k] == '.' ==>
      !HasNonDot(p, LastIndexOf(p, '/') + 1, k)
  {
    var sepIndex := LastIndexOf(p, '/');
    var dotIndex := LastIndexOf(p, '.');
    if dotIndex > sepIndex && HasNonDot(p, sepIndex + 1, dotIndex) then
      assert forall i :: 0 <= i < |p[dotIndex..]| ==> p[dotIndex..][i] == p[dotIndex + i];
      (p[..dotIndex], p[dotIndex..])
    else
      assert forall k :: sepIndex < k < |p| && p[k] == '.' ==> !HasNonDot(p, sepIndex + 1, k) by {
        if dotIndex > sepIndex {
          assert forall j :: sepIndex + 1 <= j < dotIndex ==> p[j] == '.';
          forall k | sepIndex < k < |p| && p[k] == '.'
            ensures !HasNonDot(p, sepIndex + 1, k)
          {
            assert k <= dotIndex;
          }
        } else {
          assert forall k :: sepIndex < k < |p| ==> p[k] != '.';
        }
      }
      (p, [])
  }

  /** The extension of `stem + ext`, when `ext` is a dot and a dot-free,
      slash-free text and `stem` ends in a character other than '/' or '.'. */
  lemma SplitExtOfSuffix(stem: string, ext: string)
    requires |stem| > 0 && stem[|stem| - 1] != '/' && stem[|stem| - 1] != '.'
    requires |ext| > 0 && ext[0] == '.' && '/' !in ext && '.' !in ext[1..]
    ensures SplitExt(stem + ext).1 == ext
  {
    var p := stem + ext;
    LastIndexOfConcat(stem, ext, '/');
    LastIndexOfConcat(stem, ext, '.');
    LastIndexUnique(ext, '.', 0);
    assert LastIndexOf(p, '.') == |stem|;
    assert LastIndexOf(p, '/') < |stem| - 1 by {
      var s := LastIndexOf(stem, '/');
      assert s >= 0 ==> stem[s] == '/';
    }
    assert p[|stem| - 1] != '.';
    assert HasNonDot(p, LastIndexOf(p, '/') + 1, |stem|);
    assert p[|stem|..] == ext;
  }

  function AsciiLowerChar(c: char): char
  {
    if 'A' <= c <= 'Z' then (c as int - 'A' as int + 'a' as int) as char else c
  }

  /** `str.lower()` on ASCII letters. */
  function AsciiLower(s: string): (r: string)
    ensures |r| == |s|
    ensures forall i :: 0 <= i < |s| ==> r[i] == AsciiLowerChar(s[i])
  {
    if s == [] then [] else [AsciiLowerChar(s[0])] + AsciiLower(s[1..])
  }
}
