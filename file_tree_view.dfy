/**
 * The sidebar's behaviour over the file tree data the generator writes:
 * which nodes a search keeps visible, how a directory's expanded state is
 * flipped, which directories are opened for the current page, and which
 * ones a search opens. Rendering is not modelled; the set of expanded
 * paths and the search term are values the operations take and return.
 */
module FileTreeView {
  import opened Wrappers
  import opened Strings
  import opened FileTree

  // ---------------------------------------------------------------------
  // Visibility
  // ---------------------------------------------------------------------

  /** The node's name or its title holds the term, ignoring ASCII case. */
  predicate Matches(node: Node, searchTerm: string) {
    var searchLower := ToLower(searchTerm);
    Contains(ToLower(node.name), searchLower)
    || (node.title.Some? && Contains(ToLower(node.title.value), searchLower))
  }

  /** `isNodeVisible`: every node with no search term; else a node that matches, or
      a directory one of whose children is visible. The expanded set is not read. */
  predicate IsNodeVisible(node: Node, searchTerm: string, expandedNodes: set<string>)
    decreases node
  {
    if searchTerm == "" then true
    else if Matches(node, searchTerm) then true
    else if node.isDirectory then
      exists k :: 0 <= k < |node.children| && IsNodeVisible(node.children[k], searchTerm, expandedNodes)
    else false
  }

  /** The node reached by following child indexes `route` down through directories. */
  function Descend(node: Node, route: seq<nat>): Option<Node>
    decreases |route|
  {
    if route == [] then Some(node)
    else if node.isDirectory && route[0] < |node.children| then Descend(node.children[route[0]], route[1..])
    else None
  }

  /** Some node at or below `node`, reached through directories, matches the term. */
  ghost predicate MatchBelow(node: Node, searchTerm: string) {
    exists route :: Descend(node, route).Some? && Matches(Descend(node, route).value, searchTerm)
  }

  /** A match below a node makes it visible: every ancestor of a match is shown. */
  lemma {:induction false} MatchMakesVisible(node: Node, route: seq<nat>, searchTerm: string, expandedNodes: set<string>)
    requires Descend(node, route).Some? && Matches(Descend(node, route).value, searchTerm)
    ensures IsNodeVisible(node, searchTerm, expandedNodes)
    decreases |route|
  {
    if route != [] && searchTerm != "" && !Matches(node, searchTerm) {
      var k := route[0];
      MatchMakesVisible(node.children[k], route[1..], searchTerm, expandedNodes);
    }
  }

  /** A visible node is shown for a reason: the term is empty or a match lies below. */
  lemma {:induction false} VisibleHasMatch(node: Node, searchTerm: string, expandedNodes: set<string>)
    returns (route: seq<nat>)
    requires searchTerm != "" && IsNodeVisible(node, searchTerm, expandedNodes)
    ensures Descend(node, route).Some? && Matches(Descend(node, route).value, searchTerm)
    decreases node
  {
    if Matches(node, searchTerm) {
      route := [];
    } else {
      var k :| 0 <= k < |node.children| && IsNodeVisible(node.children[k], searchTerm, expandedNodes);
      var below := VisibleHasMatch(node.children[k], searchTerm, expandedNodes);
      route := [k] + below;
      assert route[1..] == below;
    }
  }

  /** With a search term, a node is visible exactly when it or a node below it
      matches; without one, every node is visible. */
  lemma VisibleIffMatchBelow(node: Node, searchTerm: string, expandedNodes: set<string>)
    ensures searchTerm == "" ==> IsNodeVisible(node, searchTerm, expandedNodes)
    ensures searchTerm != "" ==> (IsNodeVisible(node, searchTerm, expandedNodes) <==> MatchBelow(node, searchTerm))
  {
    if searchTerm != "" {
      if IsNodeVisible(node, searchTerm, expandedNodes) {
        var route := VisibleHasMatch(node, searchTerm, expandedNodes);
      }
      if MatchBelow(node, searchTerm) {
        var route :| Descend(node, route).Some? && Matches(Descend(node, route).value, searchTerm);
        MatchMakesVisible(node, route, searchTerm, expandedNodes);
      }
    }
  }

  /** A file is visible exactly when it matches itself. */
  lemma FileVisibleIffMatches(node: Node, searchTerm: string, expandedNodes: set<string>)
    requires !node.isDirectory && searchTerm != ""
    ensures IsNodeVisible(node, searchTerm, expandedNodes) <==> Matches(node, searchTerm)
  {
  }

  /** Visibility does not depend on which directories are expanded. */
  lemma {:induction false} VisibleIgnoresExpanded(node: Node, searchTerm: string, e1: set<string>, e2: set<string>)
    ensures IsNodeVisible(node, searchTerm, e1) == IsNodeVisible(node, searchTerm, e2)
    decreases node
  {
    forall k | 0 <= k < |node.children|
      ensures IsNodeVisible(node.children[k], searchTerm, e1) == IsNodeVisible(node.children[k], searchTerm, e2)
    {
      VisibleIgnoresExpanded(node.children[k], searchTerm, e1, e2);
    }
  }

  // ---------------------------------------------------------------------
  // Toggling
  // ---------------------------------------------------------------------

  /** The expanded set with `path`'s membership flipped. */
  function Toggled(expanded: set<string>, path: string): (r: set<string>)
    ensures path in r <==> path !in expanded
    ensures forall q :: q != path ==> (q in r <==> q in expanded)
  {
    if path in expanded then expanded - {path} else expanded + {path}
  }

  /** Toggling a path twice gives back the set. */
  lemma ToggleTwice(expanded: set<string>, path: string)
    ensures Toggled(Toggled(expanded, path), path) == expanded
  {
    var r := Toggled(Toggled(expanded, path), path);
    assert forall q :: q in r <==> q in expanded;
  }

  /** `handleToggle`'s updater: copy the set, then delete or add the path. */
  method HandleToggle(prev: set<string>, path: string) returns (newSet: set<string>)
    ensures newSet == Toggled(prev, path)
  {
    newSet := prev;
    if path in newSet {
      newSet := newSet - {path};
    } else {
      newSet := newSet + {path};
    }
  }

  // ---------------------------------------------------------------------
  // Opening the current page's directories
  // ---------------------------------------------------------------------

  /** One step of the auto-expand loop: the directory so far, then the next part. */
  function NextDir(currentDir: string, part: string): string {
    if currentDir != "" then currentDir + "/" + part else part
  }

  /** The loop's directory after its first i parts. */
  function DirAfter(parts: seq<string>, i: nat): string
    requires i <= |parts|
  {
    if i == 0 then "" else NextDir(DirAfter(parts, i - 1), parts[i - 1])
  }

  /** The directories after each of the first n parts. */
  function DirsUpTo(parts: seq<string>, n: nat): set<string>
    requires n <= |parts|
  {
    if n == 0 then {} else DirsUpTo(parts, n - 1) + {DirAfter(parts, n)}
  }

  lemma {:induction false} DirsUpToHas(parts: seq<string>, n: nat, j: nat)
    requires 1 <= j <= n <= |parts|
    ensures DirAfter(parts, j) in DirsUpTo(parts, n)
  {
    if j < n {
      DirsUpToHas(parts, n - 1, j);
    }
  }

  lemma {:induction false} DirsUpToFrom(parts: seq<string>, n: nat, x: string) returns (j: nat)
    requires n <= |parts| && x in DirsUpTo(parts, n)
    ensures 1 <= j <= n && x == DirAfter(parts, j)
  {
    if x == DirAfter(parts, n) {
      j := n;
    } else {
      j := DirsUpToFrom(parts, n - 1, x);
    }
  }

  /** What the loop adds: the directory after each of the first |parts| - 1 parts. */
  function ExpandedFor(parts: seq<string>): set<string>
    requires |parts| >= 1
  {
    DirsUpTo(parts, |parts| - 1)
  }

  /** The parts of the current path: its first `.html` removed, split on `/`. */
  function PathParts(currentPath: string): seq<string> {
    Split(ReplaceFirst(currentPath, ".html", ""), '/')
  }

  /** The auto-expand of `loadData`: every proper prefix of the split path. */
  method AutoExpand(currentPath: string) returns (newExpanded: set<string>)
    ensures newExpanded == ExpandedFor(PathParts(currentPath))
  {
    var pathParts := Split(ReplaceFirst(currentPath, ".html", ""), '/');
    newExpanded := {};
    var currentDir := "";
    var i := 0;
    while i < |pathParts| - 1
      invariant 0 <= i <= |pathParts| - 1
      invariant currentDir == DirAfter(pathParts, i)
      invariant newExpanded == DirsUpTo(pathParts, i)
    {
      currentDir := if currentDir != "" then currentDir + "/" + pathParts[i] else pathParts[i];
      newExpanded := newExpanded + {currentDir};
      i := i + 1;
    }
  }

  lemma {:induction false} JoinAppend(a: seq<string>, b: seq<string>, sep: string)
    requires a != [] && b != []
    ensures Join(a + b, sep) == Join(a, sep) + sep + Join(b, sep)
    decreases |a|
  {
    if |a| == 1 {
      assert (a + b)[1..] == b;
    } else {
      assert (a + b)[1..] == a[1..] + b;
      JoinAppend(a[1..], b, sep);
    }
  }

  /** When the first part is not empty the loop's directories are the joined
      prefixes of the parts. */
  lemma {:induction false} DirAfterIsPrefix(parts: seq<string>, i: nat)
    requires 1 <= i <= |parts| && parts[0] != ""
    ensures DirAfter(parts, i) == Join(parts[..i], "/")
    ensures DirAfter(parts, i) != ""
  {
    if i == 1 {
      assert parts[..1] == [parts[0]];
    } else {
      DirAfterIsPrefix(parts, i - 1);
      assert parts[..i] == parts[..i - 1] + [parts[i - 1]];
      JoinSnoc(parts[..i - 1], parts[i - 1], "/");
    }
  }

  /** A path that does not start with `/` opens exactly the directories above it:
      each is the path up to one of its separators, and there is one per separator
      of the split, so |parts| - 1 of them. */
  lemma AutoExpandOpensAncestors(currentPath: string)
    requires var s := ReplaceFirst(currentPath, ".html", ""); s != "" && s[0] != '/'
    ensures var s := ReplaceFirst(currentPath, ".html", "");
      var parts := PathParts(currentPath);
      && ExpandedFor(parts) == (set i | 1 <= i < |parts| :: Join(parts[..i], "/"))
      && (forall d :: d in ExpandedFor(parts) ==> StartsWith(s, d + "/"))
      && |ExpandedFor(parts)| == |parts| - 1
  {
    var s := ReplaceFirst(currentPath, ".html", "");
    var parts := PathParts(currentPath);
    FirstPartNonEmpty(s);
    ExpandedForIsPrefixes(parts);
    forall d | d in ExpandedFor(parts)
      ensures StartsWith(s, d + "/")
    {
      var i := DirsUpToFrom(parts, |parts| - 1, d);
      DirAfterIsPrefix(parts, i);
      PrefixFollowedBySlash(s, i);
    }
    PrefixesDistinct(parts, |parts| - 1);
  }

  lemma ExpandedForIsPrefixes(parts: seq<string>)
    requires |parts| >= 1 && parts[0] != ""
    ensures ExpandedFor(parts) == (set i | 1 <= i < |parts| :: Join(parts[..i], "/"))
  {
    var joined := set i | 1 <= i < |parts| :: Join(parts[..i], "/");
    forall x | x in ExpandedFor(parts)
      ensures x in joined
    {
      var j := DirsUpToFrom(parts, |parts| - 1, x);
      DirAfterIsPrefix(parts, j);
    }
    forall x | x in joined
      ensures x in ExpandedFor(parts)
    {
      var j :| 1 <= j < |parts| && x == Join(parts[..j], "/");
      DirAfterIsPrefix(parts, j);
      DirsUpToHas(parts, |parts| - 1, j);
    }
  }

  /** The first i parts joined, then a separator, start the string. */
  lemma PrefixFollowedBySlash(s: string, i: nat)
    requires 1 <= i < |Split(s, '/')|
    ensures StartsWith(s, Join(Split(s, '/')[..i], "/") + "/")
  {
    var parts := Split(s, '/');
    var d := Join(parts[..i], "/");
    JoinSplit(s, '/');
    assert parts == parts[..i] + parts[i..];
    JoinAppend(parts[..i], parts[i..], "/");
    assert s == d + "/" + Join(parts[i..], "/");
    assert (d + "/" + Join(parts[i..], "/"))[..|d + "/"|] == d + "/";
  }

  lemma FirstPartNonEmpty(s: string)
    requires s != "" && s[0] != '/'
    ensures Split(s, '/')[0] != ""
  {
  }

  /** The loop's directories grow strictly, so the first n of them are n set members. */
  lemma {:induction false} PrefixesDistinct(parts: seq<string>, n: nat)
    requires n < |parts| && parts[0] != ""
    ensures |DirsUpTo(parts, n)| == n
    ensures forall i :: 1 <= i < n ==> |DirAfter(parts, i)| < |DirAfter(parts, n)|
  {
    if n >= 1 {
      PrefixesDistinct(parts, n - 1);
      if n > 1 {
        DirAfterIsPrefix(parts, n - 1);
        assert |DirAfter(parts, n)| > |DirAfter(parts, n - 1)|;
      }
      if DirAfter(parts, n) in DirsUpTo(parts, n - 1) {
        var j := DirsUpToFrom(parts, n - 1, DirAfter(parts, n));
        assert false;
      }
    }
  }

  // ---------------------------------------------------------------------
  // Opening directories when searching
  // ---------------------------------------------------------------------

  /** The paths of the flat list's directories that are visible for the term. */
  function VisibleDirPaths(flatList: seq<Node>, term: string, expanded: set<string>): set<string> {
    set k | 0 <= k < |flatList| && flatList[k].isDirectory && IsNodeVisible(flatList[k], term, expanded) :: flatList[k].path
  }

  /** What a search leaves expanded: with a term and loaded data, the expanded set
      plus every visible directory; otherwise the set as it was. */
  function SearchExpanded(term: string, data: Option<FileTreeData>, expanded: set<string>): set<string> {
    if term != "" && data.Some? then expanded + VisibleDirPaths(data.value.flatList, term, expanded)
    else expanded
  }

  /** `handleSearch`'s expansion: copy the set, then add the path of every visible
      directory of the flat list. */
  method HandleSearch(term: string, data: Option<FileTreeData>, expandedNodes: set<string>)
    returns (newExpanded: set<string>)
    ensures newExpanded == SearchExpanded(term, data, expandedNodes)
  {
    newExpanded := expandedNodes;
    if term != "" && data.Some? {
      var flat := data.value.flatList;
      for k := 0 to |flat|
        invariant newExpanded == expandedNodes + VisibleDirPaths(flat[..k], term, expandedNodes)
      {
        assert flat[..k + 1][..k] == flat[..k] && flat[..k + 1][k] == flat[k];
        if flat[k].isDirectory && IsNodeVisible(flat[k], term, expandedNodes) {
          newExpanded := newExpanded + {flat[k].path};
        }
        VisibleDirPathsSnoc(flat[..k + 1], term, expandedNodes);
      }
      assert flat[..|flat|] == flat;
    }
  }

  lemma VisibleDirPathsSnoc(flat: seq<Node>, term: string, expanded: set<string>)
    requires flat != []
    ensures var n := |flat| - 1;
      VisibleDirPaths(flat, term, expanded) ==
        VisibleDirPaths(flat[..n], term, expanded)
        + (if flat[n].isDirectory && IsNodeVisible(flat[n], term, expanded) then {flat[n].path} else {})
  {
    var n := |flat| - 1;
    var prefix := flat[..n];
    assert forall k :: 0 <= k < n ==> prefix[k] == flat[k];
  }

  /** A search only opens directories: it never closes one, each path it adds is a
      visible directory of the flat list, and every such directory ends up open. */
  lemma SearchOnlyAdds(term: string, data: Option<FileTreeData>, expanded: set<string>)
    ensures expanded <= SearchExpanded(term, data, expanded)
    ensures forall p :: p in SearchExpanded(term, data, expanded) && p !in expanded ==>
      exists k :: 0 <= k < |data.value.flatList| && data.value.flatList[k].isDirectory
        && data.value.flatList[k].path == p && IsNodeVisible(data.value.flatList[k], term, expanded)
    ensures term != "" && data.Some? ==>
      forall k :: (0 <= k < |data.value.flatList| && data.value.flatList[k].isDirectory
        && IsNodeVisible(data.value.flatList[k], term, expanded)) ==>
        data.value.flatList[k].path in SearchExpanded(term, data, expanded)
  {
  }

  /** Searching again for the same term opens nothing more: which directories are
      visible does not depend on the expanded set the first search produced. */
  lemma SearchIdempotent(term: string, data: Option<FileTreeData>, expanded: set<string>)
    ensures SearchExpanded(term, data, SearchExpanded(term, data, expanded)) == SearchExpanded(term, data, expanded)
  {
    if term != "" && data.Some? {
      var flat := data.value.flatList;
      var once := SearchExpanded(term, data, expanded);
      forall k | 0 <= k < |flat|
        ensures IsNodeVisible(flat[k], term, once) == IsNodeVisible(flat[k], term, expanded)
      {
        VisibleIgnoresExpanded(flat[k], term, once, expanded);
      }
      assert VisibleDirPaths(flat, term, once) == VisibleDirPaths(flat, term, expanded);
    }
  }
}
