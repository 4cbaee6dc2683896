/** The parts of Node's `path` module the archivers rely on, for the
    '/'-separated relative paths a walk from `.` produces: `path.extname`
    of a directory-entry name, `path.join` of a directory and a name, and
    the `replace(/\\/g, '/')` display form of a path. */
module Paths {
  import opened Strings

  /** Index of the last '.' in `s`, or -1 when there is none. */
  function LastDot(s: string): (k: int)
    ensures -1 <= k < |s|
    ensures k >= 0 ==> s[k] == '.'
    ensures forall j :: k < j < |s| ==> s[j] != '.'
  {
    if |s| == 0 then -1
    else if s[|s| - 1] == '.' then |s| - 1
    else LastDot(s[..|s| - 1])
  }

  /** `path.extname(name)` for a name without '/': the suffix from the last
      '.', or "" when there is no dot, when the last dot is the first
      character (a dotfile such as `.gitignore`), or for the name `..`. */
  function Extname(name: string): (r: string)
    ensures r != [] ==> r[0] == '.' && EndsWith(name, r) && |r| < |name|
    ensures forall j :: 1 <= j < |r| ==> r[j] != '.'
    ensures r == [] <==>
      || (forall j :: 0 <= j < |name| ==> name[j] != '.')
      || (name[0] == '.' && forall j :: 1 <= j < |name| ==> name[j] != '.')
      || name == ".."
  {
    var k := LastDot(name);
    if k <= 0 || name == ".." then "" else name[k..]
  }

  /** A name whose only dot is its first character, such as `.gitignore`. */
  predicate IsPlainDotfile(name: string) {
    |name| > 0 && name[0] == '.' && forall j :: 1 <= j < |name| ==> name[j] != '.'
  }

  /** A plain dotfile has no extension. */
  lemma PlainDotfileHasNoExtension(name: string)
    requires IsPlainDotfile(name)
    ensures Extname(name) == ""
  {
  }

  /** `path.join(dir, name)` as seen relative to the walk root, where the
      root itself is "" (`path.join('.', name)` is `name`). */
  function Join(dir: string, name: string): (r: string)
    ensures StartsWith(r, dir) && EndsWith(r, name)
    ensures dir == "" ==> r == name
    ensures dir != "" ==> |r| == |dir| + 1 + |name| && r[|dir|] == '/'
  {
    if dir == "" then name else dir + "/" + name
  }

  /** The relative path of the directory reached through `dirs` from the root. */
  function JoinAll(dirs: seq<string>): (r: string)
    ensures |dirs| == 0 ==> r == ""
    ensures |dirs| > 0 ==> EndsWith(r, dirs[|dirs| - 1])
  {
    if |dirs| == 0 then "" else Join(JoinAll(dirs[..|dirs| - 1]), dirs[|dirs| - 1])
  }

  lemma JoinExtends(dir: string, name: string)
    ensures StartsWith(Join(dir, name), dir)
  {
    if dir != "" {
      StartsWithAppend(dir, "/" + name);
      assert dir + "/" + name == dir + ("/" + name);
    }
  }

  /** A path below a directory extends that directory's path as a string:
      the reason a string-prefix test on an ancestor also holds of its
      descendants. */
  lemma {:induction false} JoinAllExtends(dirs: seq<string>, more: seq<string>)
    ensures StartsWith(JoinAll(dirs + more), JoinAll(dirs))
    decreases |more|
  {
    if |more| == 0 {
      assert dirs + more == dirs;
    } else {
      var all := dirs + more;
      var init := more[..|more| - 1];
      assert all[..|all| - 1] == dirs + init;
      assert all[|all| - 1] == more[|more| - 1];
      JoinAllExtends(dirs, init);
      JoinExtends(JoinAll(dirs + init), more[|more| - 1]);
      StartsWithTransitive(JoinAll(all), JoinAll(dirs + init), JoinAll(dirs));
    }
  }

  /** `s.replace(/\\/g, '/')`: every backslash becomes a slash. */
  function ToSlashes(s: string): (r: string)
    ensures |r| == |s|
    ensures forall j :: 0 <= j < |s| ==> r[j] == (if s[j] == '\\' then '/' else s[j])
  {
    if s == [] then [] else ToSlashes(s[..|s| - 1]) + [if s[|s| - 1] == '\\' then '/' else s[|s| - 1]]
  }

  /** The `./`-prefixed, slash-separated path written in both the header
      and the footer of an archive entry. */
  function DisplayPath(rel: string): (p: string)
    ensures |p| == |rel| + 2
    ensures StartsWith(p, "./")
    ensures forall j :: 0 <= j < |rel| ==> p[j + 2] == (if rel[j] == '\\' then '/' else rel[j])
  {
    "./" + ToSlashes(rel)
  }

  /** A path that already uses only '/' is displayed as itself after `./`. */
  lemma DisplayPathOfSlashPath(rel: string)
    requires forall j :: 0 <= j < |rel| ==> rel[j] != '\\'
    ensures DisplayPath(rel) == "./" + rel
  {
  }
}
