/**
 * The navigation tree of the site: a scan of the content directory into
 * nodes (directories and `.adoc` pages), each level kept in the order the
 * directory listing gives and a flat list of every node, then a recursive
 * sort of the tree with directories first and names in order.
 *
 * The content directory is an abstract tree of entries: the order of a
 * listing, whether a listing can be read and a page's text are inputs.
 */
module FileTree {
  import opened Wrappers
  import opened Strings
  import opened Paths

  datatype Node = Node(
    name: string,
    title: Option<string>,
    path: string,
    url: Option<string>,
    isDirectory: bool,
    children: seq<Node>,
    level: nat)

  datatype FileTreeData = FileTreeData(root: seq<Node>, flatList: seq<Node>)

  // ---------------------------------------------------------------------
  // Sorting
  // ---------------------------------------------------------------------

  /** The comparator of `sort_tree_nodes` says Less: `a` is a directory and `b` is
      not, or both are of one kind and `a`'s name is smaller. */
  predicate Before(a: Node, b: Node) {
    (a.isDirectory && !b.isDirectory) || (a.isDirectory == b.isDirectory && LexLess(a.name, b.name))
  }

  /** No node is strictly before one that precedes it. */
  predicate Sorted(s: seq<Node>) {
    forall i, j :: 0 <= i < j < |s| ==> !Before(s[j], s[i])
  }

  lemma BeforeAsymmetric(a: Node, b: Node)
    requires Before(a, b)
    ensures !Before(b, a)
  {
    if a.isDirectory == b.isDirectory {
      LexLessAsymmetric(a.name, b.name);
    }
  }

  /** "Not before" is transitive: the comparator is a total preorder. */
  lemma NotBeforeTransitive(a: Node, b: Node, c: Node)
    requires !Before(a, b) && !Before(b, c)
    ensures !Before(a, c)
  {
    if Before(a, c) && a.isDirectory == c.isDirectory {
      assert b.isDirectory == a.isDirectory;
      if a.name != b.name {
        LexLessTotal(a.name, b.name);
        if b.name != c.name {
          LexLessTotal(b.name, c.name);
          LexLessTransitive(c.name, b.name, a.name);
          LexLessAsymmetric(a.name, c.name);
        }
      }
    }
  }

  /** Inserting `x` into a sorted level, after every node it is not before:
      the step of a stable insertion sort. */
  function Insert(x: Node, t: seq<Node>): (r: seq<Node>)
    ensures multiset(r) == multiset(t) + multiset{x}
    decreases |t|
  {
    if t == [] then [x]
    else
      var n := |t| - 1;
      assert multiset(t) == multiset(t[..n]) + multiset{t[n]} by {
        assert t == t[..n] + [t[n]];
      }
      if Before(x, t[n]) then Insert(x, t[..n]) + [t[n]] else t + [x]
  }

  /** `sort_by` with that comparator on one level: a stable sort. */
  function SortLevel(s: seq<Node>): (r: seq<Node>)
    ensures multiset(r) == multiset(s)
    ensures |r| == |s|
    decreases |s|
  {
    if s == [] then []
    else
      var n := |s| - 1;
      assert multiset(s) == multiset(s[..n]) + multiset{s[n]} by {
        assert s == s[..n] + [s[n]];
      }
      Insert(s[n], SortLevel(s[..n]))
  }

  lemma {:induction false} InsertSorted(x: Node, t: seq<Node>)
    requires Sorted(t)
    ensures Sorted(Insert(x, t))
    decreases |t|
  {
    if t != [] {
      var n := |t| - 1;
      var last := t[n];
      if Before(x, last) {
        var p := t[..n];
        InsertSorted(x, p);
        var q := Insert(x, p);
        BeforeAsymmetric(x, last);
        forall i | 0 <= i < |q|
          ensures !Before(last, q[i])
        {
          assert q[i] in multiset(q);
          if q[i] != x {
            assert q[i] in multiset(p);
            var k :| 0 <= k < |p| && p[k] == q[i];
            assert t[k] == q[i];
          }
        }
        var r := q + [last];
        forall i, j | 0 <= i < j < |r|
          ensures !Before(r[j], r[i])
        {
          if j < |q| {
            assert r[i] == q[i] && r[j] == q[j];
          } else {
            assert r[i] == q[i];
          }
        }
      } else {
        var r := t + [x];
        forall i, j | 0 <= i < j < |r|
          ensures !Before(r[j], r[i])
        {
          if j < |t| {
            assert r[i] == t[i] && r[j] == t[j];
          } else if i < n {
            assert r[i] == t[i];
            NotBeforeTransitive(x, last, t[i]);
          }
        }
      }
    }
  }

  /** Each level comes out sorted. */
  lemma {:induction false} SortLevelSorted(s: seq<Node>)
    ensures Sorted(SortLevel(s))
    decreases |s|
  {
    if s != [] {
      var n := |s| - 1;
      SortLevelSorted(s[..n]);
      InsertSorted(s[n], SortLevel(s[..n]));
    }
  }

  /** The sorted tree: every level sorted, and every node's children sorted in turn. */
  function SortTree(nodes: seq<Node>): (r: seq<Node>)
    decreases nodes, |nodes| + 1
  {
    var s := SortLevel(nodes);
    SortLevelMembers(nodes);
    SortEach(s, nodes)
  }

  /** The nodes of `s`, in order, each with its children sorted; `bound` holds them all. */
  function SortEach(s: seq<Node>, bound: seq<Node>): (r: seq<Node>)
    requires forall k :: 0 <= k < |s| ==> s[k] in bound
    ensures |r| == |s|
    ensures forall k :: 0 <= k < |s| ==> r[k] == s[k].(children := SortTree(s[k].children))
    decreases bound, |s|
  {
    seq(|s|, k requires 0 <= k < |s| => s[k].(children := SortTree(s[k].children)))
  }

  /** Every level of a tree is sorted. */
  predicate TreeSorted(nodes: seq<Node>)
    decreases nodes
  {
    Sorted(nodes) && forall k :: 0 <= k < |nodes| ==> TreeSorted(nodes[k].children)
  }

  /** Only the children change when child lists are sorted, so a sorted level stays sorted. */
  lemma SortedIgnoresChildren(s: seq<Node>, r: seq<Node>)
    requires |r| == |s| && Sorted(s)
    requires forall k :: 0 <= k < |s| ==> r[k].name == s[k].name && r[k].isDirectory == s[k].isDirectory
    ensures Sorted(r)
  {
    forall i, j | 0 <= i < j < |r|
      ensures !Before(r[j], r[i])
    {
      assert !Before(s[j], s[i]);
    }
  }

  /** After sorting, no file precedes a directory and names within a kind are in order,
      at every level of the tree. */
  lemma {:induction false} SortTreeSorted(nodes: seq<Node>)
    ensures TreeSorted(SortTree(nodes))
    decreases nodes
  {
    var s := SortLevel(nodes);
    var r := SortTree(nodes);
    SortLevelSorted(nodes);
    SortedIgnoresChildren(s, r);
    forall k | 0 <= k < |r|
      ensures TreeSorted(r[k].children)
    {
      assert s[k] in multiset(nodes);
      assert s[k] in nodes;
      SortTreeSorted(s[k].children);
    }
  }

  /** Directories first, then files, each group by name. */
  lemma SortedMeans(s: seq<Node>, i: int, j: int)
    requires Sorted(s) && 0 <= i < j < |s|
    ensures s[j].isDirectory ==> s[i].isDirectory
    ensures s[i].isDirectory == s[j].isDirectory ==> !LexLess(s[j].name, s[i].name)
  {
  }

  /** `f` applied to every element. */
  function Apply<T>(s: seq<T>, f: T -> T): (r: seq<T>)
    ensures |r| == |s|
    ensures forall k :: 0 <= k < |s| ==> r[k] == f(s[k])
  {
    seq(|s|, k requires 0 <= k < |s| => f(s[k]))
  }

  lemma MultisetCancel<T>(a: multiset<T>, b: multiset<T>, x: T)
    requires a + multiset{x} == b + multiset{x}
    ensures a == b
  {
    forall y
      ensures a[y] == b[y]
    {
      assert (a + multiset{x})[y] == a[y] + multiset{x}[y];
      assert (b + multiset{x})[y] == b[y] + multiset{x}[y];
    }
  }

  /** Taking out the element at `j` takes one occurrence out of the multiset. */
  lemma RemoveAt<T>(t: seq<T>, j: int)
    requires 0 <= j < |t|
    ensures multiset(t) == multiset(t[..j] + t[j + 1..]) + multiset{t[j]}
  {
    assert t == t[..j] + [t[j]] + t[j + 1..];
    assert multiset(t[..j] + t[j + 1..]) == multiset(t[..j]) + multiset(t[j + 1..]);
  }

  /** Mapping a sequence with one element taken out maps the rest. */
  lemma ApplyWithout<T>(t: seq<T>, j: int, f: T -> T)
    requires 0 <= j < |t|
    ensures Apply(t, f)[..j] + Apply(t, f)[j + 1..] == Apply(t[..j] + t[j + 1..], f)
  {
    var t' := t[..j] + t[j + 1..];
    var a, b := Apply(t, f), Apply(t', f);
    forall k | 0 <= k < |b|
      ensures (a[..j] + a[j + 1..])[k] == b[k]
    {
      if k < j { assert t'[k] == t[k]; } else { assert t'[k] == t[k + 1]; }
    }
    assert a[..j] + a[j + 1..] == b;
  }

  /** Taking out the element at `j` takes its image out of the mapped sequence. */
  lemma ApplyRemove<T>(t: seq<T>, j: int, f: T -> T)
    requires 0 <= j < |t|
    ensures multiset(t) == multiset(t[..j] + t[j + 1..]) + multiset{t[j]}
    ensures multiset(Apply(t, f)) == multiset(Apply(t[..j] + t[j + 1..], f)) + multiset{f(t[j])}
  {
    RemoveAt(t, j);
    RemoveAt(Apply(t, f), j);
    ApplyWithout(t, j, f);
  }

  /** Mapping commutes with reordering. */
  lemma {:induction false} ApplyPermutes<T>(s: seq<T>, t: seq<T>, f: T -> T)
    requires multiset(s) == multiset(t)
    ensures multiset(Apply(s, f)) == multiset(Apply(t, f))
    decreases |s|
  {
    if s != [] {
      var n := |s| - 1;
      var x := s[n];
      assert x in multiset(t);
      var j :| 0 <= j < |t| && t[j] == x;
      var t' := t[..j] + t[j + 1..];
      ApplyRemove(s, n, f);
      assert s[..n] + s[n + 1..] == s[..n];
      ApplyRemove(t, j, f);
      MultisetCancel(multiset(s[..n]), multiset(t'), x);
      ApplyPermutes(s[..n], t', f);
    }
  }

  /** A node with its children sorted. */
  function SortChildren(n: Node): Node {
    n.(children := SortTree(n.children))
  }

  /** Sorting reorders each level without losing or adding a node: the sorted tree is
      a permutation of the original nodes, each with its own children sorted. */
  lemma SortTreePermutes(nodes: seq<Node>)
    ensures multiset(SortTree(nodes)) == multiset(Apply(nodes, SortChildren))
  {
    var s := SortLevel(nodes);
    assert SortTree(nodes) == Apply(s, SortChildren);
    ApplyPermutes(s, nodes, SortChildren);
  }

  /** `sort_tree_nodes`: sort the level, then sort every node's children in place. */
  method SortTreeNodes(nodes: seq<Node>) returns (r: seq<Node>)
    ensures r == SortTree(nodes)
    decreases nodes
  {
    r := SortLevel(nodes);
    SortLevelMembers(nodes);
    ghost var s := r;
    for i := 0 to |r|
      invariant |r| == |s|
      invariant forall k :: 0 <= k < i ==> r[k] == s[k].(children := SortTree(s[k].children))
      invariant forall k :: i <= k < |r| ==> r[k] == s[k]
    {
      assert s[i] in nodes;
      var children := SortTreeNodes(r[i].children);
      r := r[i := r[i].(children := children)];
    }
    ghost var e := SortEach(s, nodes);
    assert forall k :: 0 <= k < |r| ==> r[k] == e[k];
  }

  /** The sorted level holds only nodes of the level. */
  lemma SortLevelMembers(nodes: seq<Node>)
    ensures forall k :: 0 <= k < |SortLevel(nodes)| ==> SortLevel(nodes)[k] in nodes
  {
    var s := SortLevel(nodes);
    forall k | 0 <= k < |s|
      ensures s[k] in nodes
    {
      assert s[k] in multiset(nodes);
    }
  }

  // ---------------------------------------------------------------------
  // Titles
  // ---------------------------------------------------------------------

  /** A line that does not end the search for a title: blank, an attribute entry
      (`:`) or a comment (`//`). */
  predicate Skippable(line: string) {
    var t := Trim(line);
    t == "" || t[0] == ':' || (|t| >= 2 && t[0] == '/' && t[1] == '/')
  }

  /** The title a line gives: a level-0 heading (`=` but not `==`) with the `=`
      and the surrounding whitespace removed, when that leaves something. */
  function HeadingTitle(line: string): (r: Option<string>)
    ensures r.Some? ==> r.value != "" && Trimmed(r.value)
  {
    var t := Trim(line);
    if |t| > 0 && t[0] == '=' && !(|t| >= 2 && t[1] == '=') && Trim(TrimStartChar(t, '=')) != "" then
      Some(Trim(TrimStartChar(t, '=')))
    else None
  }

  /** No skippable line gives a title. */
  lemma SkippableHasNoTitle(line: string)
    requires Skippable(line)
    ensures HeadingTitle(line).None?
  {
  }

  /** The line loop of `extract_title`. */
  function TitleOf(lines: seq<string>): (r: Option<string>)
    ensures r.Some? ==> r.value != ""
    decreases |lines|
  {
    if lines == [] then None
    else if HeadingTitle(lines[0]).Some? then HeadingTitle(lines[0])
    else if !Skippable(lines[0]) then None
    else TitleOf(lines[1..])
  }

  /** Line j gives title x and every line before it is skippable. */
  predicate TitleAt(lines: seq<string>, j: int, x: string) {
    0 <= j < |lines| && (forall i :: 0 <= i < j ==> Skippable(lines[i])) && HeadingTitle(lines[j]) == Some(x)
  }

  /** A title found is the heading title of a line after skippable lines only. */
  lemma {:induction false} TitleOfFound(lines: seq<string>, x: string) returns (j: nat)
    requires TitleOf(lines) == Some(x)
    ensures TitleAt(lines, j, x)
    decreases |lines|
  {
    if HeadingTitle(lines[0]).Some? {
      j := 0;
    } else {
      var k := TitleOfFound(lines[1..], x);
      TitleAtCons(lines, k, x);
      j := k + 1;
    }
  }

  /** A skippable line in front of a title keeps it. */
  lemma TitleAtCons(lines: seq<string>, k: nat, x: string)
    requires lines != [] && Skippable(lines[0])
    requires TitleAt(lines[1..], k, x)
    ensures TitleAt(lines, k + 1, x)
  {
    var rest := lines[1..];
    assert lines[k + 1] == rest[k];
    assert HeadingTitle(lines[k + 1]) == HeadingTitle(rest[k]);
    forall i | 0 <= i < k + 1
      ensures Skippable(lines[i])
    {
      if i > 0 {
        assert lines[i] == rest[i - 1];
      }
    }
  }

  /** Conversely, a heading title after skippable lines only is the title. */
  lemma TitleAtIsTitle(lines: seq<string>, j: nat, x: string)
    requires TitleAt(lines, j, x)
    ensures TitleOf(lines) == Some(x)
  {
    SkipToLine(lines, 0, j);
    assert lines[0..] == lines;
    assert lines[j..][0] == lines[j];
    TitleOfHead(lines[j..]);
  }

  /** Skippable lines i..j-1 do not change the title of the lines from i on. */
  lemma {:induction false} SkipToLine(lines: seq<string>, i: nat, j: nat)
    requires i <= j < |lines|
    requires forall k :: i <= k < j ==> Skippable(lines[k])
    ensures TitleOf(lines[i..]) == TitleOf(lines[j..])
    decreases j - i
  {
    if i < j {
      var from := lines[i..];
      assert from[0] == lines[i];
      assert from[1..] == lines[i + 1..];
      TitleOfSkip(from);
      SkipToLine(lines, i + 1, j);
    }
  }

  /** A skippable first line is passed over. */
  lemma TitleOfSkip(lines: seq<string>)
    requires lines != [] && Skippable(lines[0])
    ensures TitleOf(lines) == TitleOf(lines[1..])
  {
    SkippableHasNoTitle(lines[0]);
  }

  /** A heading on the first line is the title. */
  lemma TitleOfHead(lines: seq<string>)
    requires lines != [] && HeadingTitle(lines[0]).Some?
    ensures TitleOf(lines) == HeadingTitle(lines[0])
  {
  }

  /** Before a title found further down, the first line is skippable and the
      title is found one line earlier in the rest. */
  lemma TitleAtTail(lines: seq<string>, j: nat, x: string)
    requires TitleAt(lines, j, x) && j > 0
    ensures Skippable(lines[0])
    ensures TitleAt(lines[1..], j - 1, x)
  {
    var rest := lines[1..];
    forall i | 0 <= i < j - 1
      ensures Skippable(rest[i])
    {
      assert rest[i] == lines[i + 1];
    }
    assert rest[j - 1] == lines[j];
  }

  /** The title is the heading title of the first line that is not skippable;
      there is none when every line is skippable or that line is no title. */
  lemma TitleOfFirstLine(lines: seq<string>, x: string)
    ensures TitleOf(lines) == Some(x) <==> exists j :: TitleAt(lines, j, x)
  {
    if TitleOf(lines) == Some(x) {
      var j := TitleOfFound(lines, x);
    }
    if exists j :: TitleAt(lines, j, x) {
      var j :| TitleAt(lines, j, x);
      TitleAtIsTitle(lines, j, x);
    }
  }

  /** `extract_title`: None for a file that cannot be read, else the title of its lines. */
  function ExtractTitle(contents: Option<string>): (r: Option<string>)
    ensures r.Some? ==> contents.Some? && r.value != ""
  {
    if contents.None? then None else TitleOf(Lines(contents.value))
  }

  // ---------------------------------------------------------------------
  // Scanning
  // ---------------------------------------------------------------------

  /** An entry of a directory listing. A file's text is None when it cannot be read
      as text. */
  datatype Entry =
    | File(name: string, contents: Option<string>)
    | Dir(name: string, listing: Listing)

  /** What reading a directory gives: its entries in listing order, or a failure. */
  datatype Listing = Unreadable | Listing(entries: seq<Entry>)

  /** `Path::extension`: what follows the last `.` of the name, unless the name has
      no `.` or its only `.` is the first character. */
  function Extension(name: string): (r: Option<string>)
    ensures r.Some? ==> '.' !in r.value
  {
    var k := LastIndexOf(name, '.');
    if k <= 0 then None else Some(name[k + 1..])
  }

  /** `strip_prefix("content")`, or the path itself when it is not under `content`. */
  function RelativePath(path: string): string {
    if path == "content" then ""
    else if StartsWith(path, "content/") then TrimStartChar(path[8..], '/')
    else path
  }

  function PageUrl(relativePath: string): string {
    ReplaceAll(relativePath, ".adoc", ".html")
  }

  /** What scanning one directory gives: its nodes in listing order and, appended to
      the flat list, every node found below it; None when some listing fails. */
  function ScanEntries(entries: seq<Entry>, dirPath: string, level: nat): Option<(seq<Node>, seq<Node>)>
    decreases entries
  {
    if entries == [] then Some(([], []))
    else
      var n := |entries| - 1;
      match ScanEntries(entries[..n], dirPath, level)
      case None => None
      case Some(before) =>
        match ScanEntry(entries[n], dirPath, level)
        case None => None
        case Some(here) => Some((before.0 + here.0, before.1 + here.1))
  }

  /** One entry: skipped when hidden; a directory becomes a node after all nodes of
      its own scan; a page becomes a node with its title and url; anything else is
      ignored. */
  function ScanEntry(e: Entry, dirPath: string, level: nat): Option<(seq<Node>, seq<Node>)>
    decreases e
  {
    var path := JoinPath(dirPath, e.name);
    var relativePath := RelativePath(path);
    if StartsWith(e.name, ".") then Some(([], []))
    else match e
      case Dir(name, listing) =>
        if listing.Unreadable? then None
        else
          (match ScanEntries(listing.entries, path, level + 1)
           case None => None
           case Some(below) =>
             var node := Node(name, None, relativePath, None, true, below.0, level);
             Some(([node], below.1 + [node])))
      case File(name, contents) =>
        if Extension(name) == Some("adoc") then
          var node := Node(name, ExtractTitle(contents), relativePath, Some(PageUrl(relativePath)), false, [], level);
          Some(([node], [node]))
        else Some(([], []))
  }

  /** The scan of a listing's first i + 1 entries extends that of its first i. */
  lemma ScanEntriesStep(entries: seq<Entry>, i: nat, dirPath: string, level: nat,
                        sofar: (seq<Node>, seq<Node>), here: (seq<Node>, seq<Node>))
    requires i < |entries|
    requires ScanEntries(entries[..i], dirPath, level) == Some(sofar)
    requires ScanEntry(entries[i], dirPath, level) == Some(here)
    ensures ScanEntries(entries[..i + 1], dirPath, level) == Some((sofar.0 + here.0, sofar.1 + here.1))
  {
    assert entries[..i + 1][..i] == entries[..i] && entries[..i + 1][i] == entries[i];
  }

  /** An entry that gives no node leaves the scan as it was. */
  lemma ScanEntriesSkip(entries: seq<Entry>, i: nat, dirPath: string, level: nat, sofar: (seq<Node>, seq<Node>))
    requires i < |entries|
    requires ScanEntries(entries[..i], dirPath, level) == Some(sofar)
    requires ScanEntry(entries[i], dirPath, level) == Some(([], []))
    ensures ScanEntries(entries[..i + 1], dirPath, level) == Some(sofar)
  {
    ScanEntriesStep(entries, i, dirPath, level, sofar, ([], []));
    assert sofar.0 + [] == sofar.0 && sofar.1 + [] == sofar.1;
  }

  /** Once a listing below fails, the whole scan fails. */
  lemma {:induction false} ScanFailsFromPrefix(entries: seq<Entry>, i: nat, dirPath: string, level: nat)
    requires i <= |entries|
    requires ScanEntries(entries[..i], dirPath, level).None?
    ensures ScanEntries(entries, dirPath, level).None?
    decreases |entries| - i
  {
    if i < |entries| {
      var n := |entries| - 1;
      assert entries[..n][..i] == entries[..i];
      ScanFailsFromPrefix(entries[..n], i, dirPath, level);
      ScanFailsOneMore(entries, dirPath, level);
    } else {
      assert entries[..i] == entries;
    }
  }

  /** A last entry whose own scan fails fails the scan of them all. */
  lemma ScanFailsAtLast(entries: seq<Entry>, dirPath: string, level: nat)
    requires entries != [] && ScanEntry(entries[|entries| - 1], dirPath, level).None?
    ensures ScanEntries(entries, dirPath, level).None?
  {
  }

  /** A failed scan of all entries but the last fails the scan of them all. */
  lemma ScanFailsOneMore(entries: seq<Entry>, dirPath: string, level: nat)
    requires entries != [] && ScanEntries(entries[..|entries| - 1], dirPath, level).None?
    ensures ScanEntries(entries, dirPath, level).None?
  {
  }

  /** Scanning a listing into a flat list that already holds `flatList`. */
  function ScanInto(listing: Listing, dirPath: string, level: nat, flatList: seq<Node>): Option<(seq<Node>, seq<Node>)> {
    if listing.Unreadable? then None
    else match ScanEntries(listing.entries, dirPath, level)
      case None => None
      case Some(found) => Some((found.0, flatList + found.1))
  }

  /** One turn of `ScanDirectory`'s walk keeps the scan of the prefix in step. */
  lemma ScanWalkStep(entries: seq<Entry>, i: nat, dirPath: string, level: nat, flatList: seq<Node>,
                     nodes: seq<Node>, added: seq<Node>, step: Option<(seq<Node>, seq<Node>)>)
    requires i < |entries|
    requires ScanEntries(entries[..i], dirPath, level) == Some((nodes, added))
    requires match ScanEntry(entries[i], dirPath, level)
      case None => step.None?
      case Some(here) => step == Some((here.0, flatList + added + here.1))
    ensures step.None? ==> ScanEntries(entries, dirPath, level).None?
    ensures step.Some? ==>
      var here := ScanEntry(entries[i], dirPath, level).value;
      && ScanEntries(entries[..i + 1], dirPath, level) == Some((nodes + step.value.0, added + here.1))
      && step.value.1 == flatList + (added + here.1)
  {
    match ScanEntry(entries[i], dirPath, level)
    case None =>
      ScanFailsAtEntry(entries, i, dirPath, level);
    case Some(here) =>
      assert step.value == (here.0, flatList + added + here.1);
      ScanEntriesStep(entries, i, dirPath, level, (nodes, added), here);
      assert flatList + (added + here.1) == flatList + added + here.1;
  }

  /** An entry whose own scan fails fails the scan of the whole listing. */
  lemma ScanFailsAtEntry(entries: seq<Entry>, i: nat, dirPath: string, level: nat)
    requires i < |entries| && ScanEntry(entries[i], dirPath, level).None?
    ensures ScanEntries(entries, dirPath, level).None?
  {
    ScanFailsThroughEntry(entries, i, dirPath, level);
    ScanFailsFromPrefix(entries, i + 1, dirPath, level);
  }

  /** The scan of the listing up to and including a failing entry fails. */
  lemma ScanFailsThroughEntry(entries: seq<Entry>, i: nat, dirPath: string, level: nat)
    requires i < |entries| && ScanEntry(entries[i], dirPath, level).None?
    ensures ScanEntries(entries[..i + 1], dirPath, level).None?
  {
    var prefix := entries[..i + 1];
    assert prefix[i] == entries[i];
    ScanFailsAtLast(prefix, dirPath, level);
  }

  /** `scan_directory`: reads the listing, then walks it, appending to this level's
      nodes and to the shared flat list. */
  method ScanDirectory(listing: Listing, dirPath: string, level: nat, flatList: seq<Node>)
    returns (r: Option<(seq<Node>, seq<Node>)>)
    ensures r == ScanInto(listing, dirPath, level, flatList)
    decreases listing
  {
    if listing.Unreadable? {
      return None;
    }
    var entries := listing.entries;
    var nodes: seq<Node> := [];
    var flat := flatList;
    ghost var added: seq<Node> := [];
    var i := 0;
    assert entries[..0] == [];
    while i < |entries|
      invariant 0 <= i <= |entries|
      invariant flat == flatList + added
      invariant ScanEntries(entries[..i], dirPath, level) == Some((nodes, added))
    {
      var step := ScanOne(entries[i], dirPath, level, flat);
      ScanWalkStep(entries, i, dirPath, level, flatList, nodes, added, step);
      if step.None? {
        return None;
      }
      nodes := nodes + step.value.0;
      flat := step.value.1;
      added := added + ScanEntry(entries[i], dirPath, level).value.1;
      i := i + 1;
    }
    assert entries[..i] == entries;
    r := Some((nodes, flat));
  }

  /** The body of the walk for one entry: the nodes it adds to this level and the
      flat list after it. */
  method ScanOne(e: Entry, dirPath: string, level: nat, flat: seq<Node>) returns (r: Option<(seq<Node>, seq<Node>)>)
    ensures match ScanEntry(e, dirPath, level)
      case None => r.None?
      case Some(here) => r == Some((here.0, flat + here.1))
    decreases e
  {
    var path := JoinPath(dirPath, e.name);
    var relativePath := RelativePath(path);
    assert flat + [] == flat;
    if StartsWith(e.name, ".") {
      return Some(([], flat));
    }
    if e.Dir? {
      var below := ScanDirectory(e.listing, path, level + 1, flat);
      if below.None? {
        return None;
      }
      var node := Node(e.name, None, relativePath, None, true, below.value.0, level);
      ghost var found := ScanEntries(e.listing.entries, path, level + 1).value;
      assert below.value.1 + [node] == flat + (found.1 + [node]);
      r := Some(([node], below.value.1 + [node]));
    } else if Extension(e.name) == Some("adoc") {
      var title := ExtractTitle(e.contents);
      var node := Node(e.name, title, relativePath, Some(PageUrl(relativePath)), false, [], level);
      r := Some(([node], flat + [node]));
    } else {
      r := Some(([], flat));
    }
  }

  // ---------------------------------------------------------------------
  // What the scan promises
  // ---------------------------------------------------------------------

  /** A node found in directory `dirPath` at depth `level`: not hidden, with the path
      of its entry; a directory has no title and no url, a page is an `.adoc` file
      without children whose url is its path with `.html` for `.adoc`. */
  predicate NodeShape(n: Node, dirPath: string, level: nat) {
    && n.level == level
    && !StartsWith(n.name, ".")
    && n.path == RelativePath(JoinPath(dirPath, n.name))
    && (n.isDirectory ==> n.title.None? && n.url.None?)
    && (!n.isDirectory ==> n.children == [] && Extension(n.name) == Some("adoc") && n.url == Some(PageUrl(n.path)))
  }

  /** Every node of the tree has its shape, children one level further down. */
  predicate WellFormed(nodes: seq<Node>, dirPath: string, level: nat)
    decreases nodes
  {
    forall k :: 0 <= k < |nodes| ==>
      NodeShape(nodes[k], dirPath, level) && WellFormed(nodes[k].children, JoinPath(dirPath, nodes[k].name), level + 1)
  }

  /** Every node of the tree, at any depth, is in `flat`. */
  predicate Listed(nodes: seq<Node>, flat: seq<Node>)
    decreases nodes
  {
    forall k :: 0 <= k < |nodes| ==> nodes[k] in flat && Listed(nodes[k].children, flat)
  }

  /** The number of nodes of a tree, at every depth. */
  function Count(nodes: seq<Node>): nat
    decreases nodes
  {
    if nodes == [] then 0
    else
      var n := |nodes| - 1;
      Count(nodes[..n]) + 1 + Count(nodes[n].children)
  }

  lemma WellFormedAppend(a: seq<Node>, b: seq<Node>, dirPath: string, level: nat)
    requires WellFormed(a, dirPath, level) && WellFormed(b, dirPath, level)
    ensures WellFormed(a + b, dirPath, level)
  {
    var c := a + b;
    forall k | 0 <= k < |c|
      ensures NodeShape(c[k], dirPath, level) && WellFormed(c[k].children, JoinPath(dirPath, c[k].name), level + 1)
    {
      if k < |a| { assert c[k] == a[k]; } else { assert c[k] == b[k - |a|]; }
    }
  }

  /** Listing survives a flat list that holds at least what it held. */
  lemma {:induction false} ListedGrow(nodes: seq<Node>, flat: seq<Node>, flat': seq<Node>)
    requires Listed(nodes, flat)
    requires forall x :: x in flat ==> x in flat'
    ensures Listed(nodes, flat')
    decreases nodes
  {
    forall k | 0 <= k < |nodes|
      ensures nodes[k] in flat' && Listed(nodes[k].children, flat')
    {
      ListedGrow(nodes[k].children, flat, flat');
    }
  }

  lemma ListedAppend(a: seq<Node>, fa: seq<Node>, b: seq<Node>, fb: seq<Node>)
    requires Listed(a, fa) && Listed(b, fb)
    ensures Listed(a + b, fa + fb)
  {
    ListedGrow(a, fa, fa + fb);
    ListedGrow(b, fb, fa + fb);
    var c := a + b;
    forall k | 0 <= k < |c|
      ensures c[k] in fa + fb && Listed(c[k].children, fa + fb)
    {
      if k < |a| { assert c[k] == a[k]; } else { assert c[k] == b[k - |a|]; }
    }
  }

  lemma CountSingle(n: Node)
    ensures Count([n]) == 1 + Count(n.children)
  {
    assert [n][..0] == [];
  }

  lemma {:induction false} CountAppend(a: seq<Node>, b: seq<Node>)
    ensures Count(a + b) == Count(a) + Count(b)
    decreases |b|
  {
    if b == [] {
      assert a + b == a;
    } else {
      var n := |b| - 1;
      assert (a + b)[..|a + b| - 1] == a + b[..n];
      assert (a + b)[|a + b| - 1] == b[n];
      CountAppend(a, b[..n]);
    }
  }

  /** What one listing's scan gives is well formed, every node of its tree is in the
      flat list, and the flat list has one entry per node of the tree. */
  lemma {:induction false} ScanEntriesShape(entries: seq<Entry>, dirPath: string, level: nat)
    requires ScanEntries(entries, dirPath, level).Some?
    ensures var found := ScanEntries(entries, dirPath, level).value;
      WellFormed(found.0, dirPath, level) && Listed(found.0, found.1) && |found.1| == Count(found.0)
    decreases entries
  {
    if entries != [] {
      var n := |entries| - 1;
      var before := ScanEntries(entries[..n], dirPath, level).value;
      var here := ScanEntry(entries[n], dirPath, level).value;
      ScanEntriesShape(entries[..n], dirPath, level);
      ScanEntryShape(entries[n], dirPath, level);
      WellFormedAppend(before.0, here.0, dirPath, level);
      ListedAppend(before.0, before.1, here.0, here.1);
      CountAppend(before.0, here.0);
    }
  }

  lemma {:induction false} ScanEntryShape(e: Entry, dirPath: string, level: nat)
    requires ScanEntry(e, dirPath, level).Some?
    ensures var here := ScanEntry(e, dirPath, level).value;
      WellFormed(here.0, dirPath, level) && Listed(here.0, here.1) && |here.1| == Count(here.0)
    decreases e
  {
    var here := ScanEntry(e, dirPath, level).value;
    if here.0 != [] {
      var node := here.0[0];
      assert here.0 == [node];
      CountSingle(node);
      if e.Dir? {
        var path := JoinPath(dirPath, e.name);
        var below := ScanEntries(e.listing.entries, path, level + 1).value;
        ScanEntriesShape(e.listing.entries, path, level + 1);
        assert here.1 == below.1 + [node];
        ListedGrow(below.0, below.1, here.1);
      } else {
        assert Count(node.children) == 0;
      }
    }
  }

  /** Sorting keeps the tree well formed. */
  lemma {:induction false} SortTreeWellFormed(nodes: seq<Node>, dirPath: string, level: nat)
    requires WellFormed(nodes, dirPath, level)
    ensures WellFormed(SortTree(nodes), dirPath, level)
    decreases nodes
  {
    var s := SortLevel(nodes);
    var r := SortTree(nodes);
    forall k | 0 <= k < |r|
      ensures NodeShape(r[k], dirPath, level) && WellFormed(r[k].children, JoinPath(dirPath, r[k].name), level + 1)
    {
      assert s[k] in multiset(nodes);
      assert s[k] in nodes;
      var j :| 0 <= j < |nodes| && nodes[j] == s[k];
      SortTreeWellFormed(s[k].children, JoinPath(dirPath, s[k].name), level + 1);
      if !s[k].isDirectory {
        assert SortTree(s[k].children) == [];
      }
    }
  }

  // ---------------------------------------------------------------------
  // The whole tree
  // ---------------------------------------------------------------------

  /** `generate`: no tree for a missing content directory, a failure when some
      listing fails, else the sorted scan and the flat list in scan order. */
  function FileTreeOf(contentDir: string, contentExists: bool, listing: Listing): Option<FileTreeData> {
    if !contentExists then Some(FileTreeData([], []))
    else match ScanInto(listing, contentDir, 0, [])
      case None => None
      case Some(found) => Some(FileTreeData(SortTree(found.0), found.1))
  }

  method Generate(contentDir: string, contentExists: bool, listing: Listing) returns (r: Option<FileTreeData>)
    ensures r == FileTreeOf(contentDir, contentExists, listing)
  {
    if !contentExists {
      return Some(FileTreeData([], []));
    }
    var found := ScanDirectory(listing, contentDir, 0, []);
    if found.None? {
      return None;
    }
    var root := SortTreeNodes(found.value.0);
    r := Some(FileTreeData(root, found.value.1));
  }

  /** The tree fails exactly when the content directory exists and some listing in
      it cannot be read. Otherwise the root is sorted at every level, well formed,
      a permutation of the scanned top level (each node with sorted children), and the
      flat list holds every scanned node, one entry per node. */
  lemma FileTreeOfMeans(contentDir: string, contentExists: bool, listing: Listing)
    ensures FileTreeOf(contentDir, contentExists, listing).None? <==>
      contentExists && ScanInto(listing, contentDir, 0, []).None?
    ensures !contentExists ==> FileTreeOf(contentDir, contentExists, listing) == Some(FileTreeData([], []))
    ensures contentExists && listing.Listing? && ScanEntries(listing.entries, contentDir, 0).Some? ==>
      var found := ScanEntries(listing.entries, contentDir, 0).value;
      var data := FileTreeOf(contentDir, contentExists, listing).value;
      && TreeSorted(data.root)
      && WellFormed(data.root, contentDir, 0)
      && multiset(data.root) == multiset(Apply(found.0, SortChildren))
      && data.flatList == found.1
      && Listed(found.0, data.flatList)
      && |data.flatList| == Count(found.0)
  {
    if contentExists && listing.Listing? && ScanEntries(listing.entries, contentDir, 0).Some? {
      var found := ScanEntries(listing.entries, contentDir, 0).value;
      assert [] + found.1 == found.1;
      ScanEntriesShape(listing.entries, contentDir, 0);
      SortTreeSorted(found.0);
      SortTreeWellFormed(found.0, contentDir, 0);
      SortTreePermutes(found.0);
    }
  }
}
