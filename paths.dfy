/**
 * The path operations the commands use: `split("/").pop()` and the POSIX
 * forms of node's `path.dirname`, `path.join` and `path.basename`, for the
 * absolute, normalised paths that git reports (no `.` or `..` segments, no
 * doubled or trailing `/`).
 */
module Paths {
  import opened Wrappers

  /** `s.split("/").pop()`: the text after the last `/`, or all of `s` when it has none. */
  function LastSegment(s: string): (r: string)
    ensures |r| <= |s| && s[|s| - |r|..] == r
    ensures '/' !in r
    ensures |r| < |s| ==> s[|s| - |r| - 1] == '/'
  {
    if s == [] then []
    else if s[|s| - 1] == '/' then []
    else LastSegment(s[..|s| - 1]) + [s[|s| - 1]]
  }

  /** The index of the last `/` in `s`, if any. */
  function LastSlash(s: string): (r: Option<nat>)
    ensures r.Some? ==> r.value < |s| && s[r.value] == '/' && '/' !in s[r.value + 1..]
    ensures r.None? ==> '/' !in s
  {
    if s == [] then None
    else if s[|s| - 1] == '/' then Some(|s| - 1)
    else
      var r := LastSlash(s[..|s| - 1]);
      assert r.Some? ==> s[r.value + 1..] == s[..|s| - 1][r.value + 1..] + [s[|s| - 1]];
      r
  }

  /** `path.dirname(p)`: everything before the last `/`; `/` for a top-level entry. */
  function Dirname(p: string): string
  {
    match LastSlash(p)
    case None => "."
    case Some(0) => "/"
    case Some(k) => p[..k]
  }

  /** `path.join(dir, name)` for a relative `name`: one `/` between the two parts. */
  function Join(dir: string, name: string): string
  {
    if dir == "" then name
    else if dir[|dir| - 1] == '/' then dir + name
    else dir + "/" + name
  }

  /** `p` with every trailing `/` removed. */
  function TrimTrailingSlashes(p: string): (r: string)
    ensures |r| <= |p| && r == p[..|r|]
    ensures r == [] || r[|r| - 1] != '/'
  {
    if p != [] && p[|p| - 1] == '/' then TrimTrailingSlashes(p[..|p| - 1]) else p
  }

  /** `path.basename(p)`: the last segment, ignoring trailing slashes. */
  function Basename(p: string): string
  {
    LastSegment(TrimTrailingSlashes(p))
  }

  /** A path is absolute and normalised the way git prints a directory:
      `parent + "/" + name` with a non-empty last segment and no trailing `/`
      on the parent. */
  predicate IsChild(parent: string, name: string) {
    name != "" && '/' !in name && (parent == "" || parent[|parent| - 1] != '/')
  }

  /** The last segment of `parent/name` is `name`. */
  lemma {:induction false} LastSegmentOfChild(parent: string, name: string)
    requires '/' !in name
    ensures LastSegment(parent + "/" + name) == name
  {
    var p := parent + "/" + name;
    var r := LastSegment(p);
    assert p[|parent|] == '/';
    assert |r| == |name|;
    assert p[|p| - |name|..] == name;
  }

  /** The last `/` of `parent/name` is the one just before `name`. */
  lemma LastSlashOfChild(parent: string, name: string)
    requires '/' !in name
    ensures LastSlash(parent + "/" + name) == Some(|parent|)
  {
    var p := parent + "/" + name;
    var r := LastSlash(p);
    assert p[|parent|] == '/';
    assert p[|parent| + 1..] == name;
    assert r.Some?;
  }

  /** The directory of `parent/name` is `parent`, or `/` when that is empty. */
  lemma DirnameOfChild(parent: string, name: string)
    requires '/' !in name
    ensures Dirname(parent + "/" + name) == (if parent == "" then "/" else parent)
  {
    var p := parent + "/" + name;
    LastSlashOfChild(parent, name);
    if parent != "" {
      assert p[..|parent|] == parent;
    }
  }

  /** The parent directory of a child path, joined with another name, gives the
      sibling `parent/other`. */
  lemma SiblingJoin(parent: string, name: string, other: string)
    requires IsChild(parent, name)
    ensures Dirname(parent + "/" + name) == (if parent == "" then "/" else parent)
    ensures Join(Dirname(parent + "/" + name), other) == parent + "/" + other
  {
    DirnameOfChild(parent, name);
    if parent == "" {
      assert Join("/", other) == "/" + other;
      assert parent + "/" + other == "/" + other;
    } else {
      assert Join(parent, other) == parent + "/" + other;
    }
  }

  /** The base name of a child path is its last segment. */
  lemma BasenameOfChild(parent: string, name: string)
    requires name != "" && '/' !in name
    ensures Basename(parent + "/" + name) == name
  {
    var p := parent + "/" + name;
    assert p[|p| - 1] == name[|name| - 1];
    assert TrimTrailingSlashes(p) == p;
    LastSegmentOfChild(parent, name);
  }
}
