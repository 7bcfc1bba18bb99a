/**
 * Unix path handling as `std::path::Path` does it for the operations the
 * core uses: the last component test behind `Path::ends_with`, `parent`
 * and `join`. Paths are strings keyed exactly as spelled.
 */
module Paths {
  import opened Strings

  /** The pieces of a path that are `Normal` components: empty pieces (repeated or
      trailing separators) and `.` pieces are not components. */
  function Components(pieces: seq<string>): (r: seq<string>)
    ensures forall k :: 0 <= k < |r| ==> r[k] != "" && r[k] != "."
    decreases |pieces|
  {
    if pieces == [] then []
    else
      var rest := Components(pieces[..|pieces| - 1]);
      var last := pieces[|pieces| - 1];
      if last == "" || last == "." then rest else rest + [last]
  }

  /** `Path::new(path).ends_with(name)` for a one-component `name`. */
  predicate EndsWithComponent(path: string, name: string) {
    var cs := Components(Split(path, '/'));
    |cs| > 0 && cs[|cs| - 1] == name
  }

  function TrimTrailingSlashes(s: string): (r: string)
    ensures |r| <= |s| && s[..|r|] == r
    ensures r == [] || r[|r| - 1] != '/'
    decreases |s|
  {
    if |s| > 0 && s[|s| - 1] == '/' then TrimTrailingSlashes(s[..|s| - 1]) else s
  }

  /** `Path::parent` of a path whose final piece names a file: what precedes the last
      separator, without trailing separators; "/" for a file at the root, "" for a bare name. */
  function Parent(path: string): (r: string)
  {
    var k := LastIndexOf(path, '/');
    if k < 0 then ""
    else
      var d := TrimTrailingSlashes(path[..k]);
      if d == "" then "/" else d
  }

  /** `Path::join` (`PathBuf::push`): an absolute `name` replaces the base; otherwise one
      separator is inserted unless the base is empty or already ends with one. */
  function JoinPath(dir: string, name: string): (r: string)
    ensures !StartsWith(name, "/") && dir != "" && !EndsWith(dir, "/") ==> r == dir + "/" + name
    ensures StartsWith(name, "/") ==> r == name
  {
    if StartsWith(name, "/") then name
    else if dir == "" || EndsWith(dir, "/") then dir + name
    else dir + "/" + name
  }

  /** A plain file name joined onto a directory without a trailing separator:
      the two with one `/` between them. */
  lemma JoinPlain(dir: string, name: string)
    requires dir != "" && dir[|dir| - 1] != '/'
    requires '/' !in name
    ensures JoinPath(dir, name) == dir + "/" + name
  {
    assert !StartsWith(name, "/") by {
      if |name| > 0 {
        assert name[..1][0] == name[0] && name[0] in name;
      }
    }
    assert !EndsWith(dir, "/") by {
      assert dir[|dir| - 1..][0] == dir[|dir| - 1];
    }
  }

  /** A file name joined onto a directory is that directory's child again. */
  lemma {:induction false} ParentOfJoin(dir: string, name: string)
    requires dir != "" && dir[|dir| - 1] != '/'
    requires '/' !in name
    ensures Parent(JoinPath(dir, name)) == dir
  {
    var p := JoinPath(dir, name);
    JoinPlain(dir, name);
    assert p[|dir|] == '/';
    var k := LastIndexOf(p, '/');
    assert forall j :: |dir| < j < |p| ==> p[j] == name[j - |dir| - 1];
    assert k == |dir|;
    assert p[..k] == dir;
  }
}
