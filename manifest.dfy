/**
 * Manifest resolution (`parse_index_file`): starting from a document, follow
 * every `xref:<target>[<label>]` link of each manifest (a file whose last path
 * component is `index.adoc`), depth first, and list the documents in post-order:
 * a manifest comes after everything it references.
 *
 * The file system is a map from path spelling to entry. The walk has no cycle
 * check, so the model carries a fuel bound on the manifest nesting depth.
 */
module Manifest {
  import opened Wrappers
  import opened Strings
  import opened Paths

  /** What a path names. `File(None)` is a file whose bytes are not UTF-8 text. */
  datatype Entry = File(text: Option<string>) | Directory
  type FileSystem = map<string, Entry>

  /** Outcome of a resolution: the document list, the path whose read made the
      program panic, or fuel exhausted (the real walk would go on recursing). */
  datatype Outcome = Done(paths: seq<string>) | Panic(at: string) | OutOfFuel

  const ManifestName: string := "index.adoc"
  const XrefMarker: string := "xref:"

  // ----- the link pattern `xref:(.*)\[.*\]` -----

  predicate OccursAt(s: string, sub: string, p: int) {
    0 <= p && p + |sub| <= |s| && s[p..p + |sub|] == sub
  }

  /** The first position at or after `from` where `sub` occurs, or -1. */
  function FindFirst(s: string, sub: string, from: nat): (k: int)
    ensures k == -1 || (from <= k && OccursAt(s, sub, k))
    ensures forall j :: from <= j && (k == -1 || j < k) ==> !OccursAt(s, sub, j)
    decreases |s| - from
  {
    if from + |sub| > |s| then -1
    else if OccursAt(s, sub, from) then from
    else FindFirst(s, sub, from + 1)
  }

  /**
   * The capture of the link pattern on one line (`.` does not match a newline,
   * so matches never span lines): the text after the first "xref:" up to the
   * last '[' that is followed, later on the line, by a ']'.
   */
  function XrefCapture(line: string): Option<string> {
    var p := FindFirst(line, XrefMarker, 0);
    if p < 0 then None
    else
      var rest := line[p + |XrefMarker|..];
      var e := LastIndexOf(rest, ']');
      if e < 0 then None
      else
        var q := LastIndexOf(rest[..e], '[');
        if q < 0 then None else Some(rest[..q])
  }

  /** A match of the pattern: "xref:" at p, the '[' at q and the final ']' at e. */
  ghost predicate IsMatch(line: string, p: int, q: int, e: int) {
    OccursAt(line, XrefMarker, p) && p + |XrefMarker| <= q < e < |line| && line[q] == '[' && line[e] == ']'
  }

  /** `XrefCapture` is the leftmost match with the greedy (longest) capture. */
  lemma XrefCaptureIsLeftmostGreedy(line: string)
    ensures XrefCapture(line).None? <==> !exists p, q, e :: IsMatch(line, p, q, e)
    ensures XrefCapture(line).Some? ==>
      exists p, q, e :: IsMatch(line, p, q, e) && XrefCapture(line).value == line[p + |XrefMarker|..q]
        && forall p', q', e' :: IsMatch(line, p', q', e') ==> p <= p' && (p' == p ==> q' <= q)
  {
    var p := FindFirst(line, XrefMarker, 0);
    if p >= 0 {
      var b := p + |XrefMarker|;
      var rest := line[b..];
      var e := LastIndexOf(rest, ']');
      forall p', q', e' | IsMatch(line, p', q', e')
        ensures p <= p' && e >= 0 && q' - b < e && q' - b >= 0
      {
        assert rest[e' - b] == ']';
      }
      if e >= 0 {
        var q := LastIndexOf(rest[..e], '[');
        forall p', q', e' | IsMatch(line, p', q', e')
          ensures q >= 0 && (p' == p ==> q' <= b + q)
        {
          assert rest[..e][q' - b] == '[';
        }
        if q >= 0 {
          assert IsMatch(line, p, b + q, b + e);
          assert XrefCapture(line).value == line[b..b + q];
        }
      }
    }
  }

  /** The captures of all lines, in order of appearance. */
  function CapturesOf(lines: seq<string>): (r: seq<string>)
    ensures |r| <= |lines|
    decreases |lines|
  {
    if lines == [] then []
    else
      CapturesOf(lines[..|lines| - 1])
      + match XrefCapture(lines[|lines| - 1]) case Some(c) => [c] case None => []
  }

  /** The link targets of a manifest: each capture with every "{cpp}" replaced by
      "c++", joined onto the manifest's directory. */
  function Targets(dir: string, content: string): (r: seq<string>)
    ensures |r| <= |Split(content, '\n')|
  {
    TargetsOf(dir, CapturesOf(Split(content, '\n')))
  }

  /** Each capture with every "{cpp}" replaced by "c++", joined onto `dir`. */
  function TargetsOf(dir: string, caps: seq<string>): (r: seq<string>)
    ensures |r| == |caps|
    decreases |caps|
  {
    if caps == [] then []
    else
      var n := |caps| - 1;
      TargetsOf(dir, caps[..n]) + [JoinPath(dir, ReplaceAll(caps[n], "{cpp}", "c++"))]
  }

  predicate IsManifest(path: string) {
    EndsWithComponent(path, ManifestName)
  }

  // ----- the walk -----

  function Prepend(prefix: seq<string>, o: Outcome): Outcome {
    if o.Done? then Done(prefix + o.paths) else o
  }

  /** The documents reached from `path`, in post-order. */
  function Resolve(fs: FileSystem, path: string, fuel: nat): Outcome
    decreases fuel, 0
  {
    if path !in fs then Done([])
    else if !IsManifest(path) then Done([path])
    else match fs[path]
      case Directory => Panic(path)
      case File(None) => Panic(path)
      case File(Some(text)) =>
        if fuel == 0 then OutOfFuel
        else
          var sub := ResolveAll(fs, Targets(Parent(path), text), fuel - 1);
          if sub.Done? then Done(sub.paths + [path]) else sub
  }

  /** The resolutions of `targets`, concatenated in order; the first failure stops the walk. */
  function ResolveAll(fs: FileSystem, targets: seq<string>, fuel: nat): Outcome
    decreases fuel, 1, |targets|
  {
    if targets == [] then Done([])
    else
      var head := Resolve(fs, targets[0], fuel);
      if head.Done? then Prepend(head.paths, ResolveAll(fs, targets[1..], fuel)) else head
  }

  lemma PrependAssoc(a: seq<string>, b: seq<string>, o: Outcome)
    ensures Prepend(a, Prepend(b, o)) == Prepend(a + b, o)
  {
    if o.Done? {
      assert a + (b + o.paths) == (a + b) + o.paths;
    }
  }

  lemma ResolveAllStep(fs: FileSystem, targets: seq<string>, i: nat, fuel: nat)
    requires i < |targets|
    ensures var head := Resolve(fs, targets[i], fuel);
      ResolveAll(fs, targets[i..], fuel)
      == if head.Done? then Prepend(head.paths, ResolveAll(fs, targets[i + 1..], fuel)) else head
  {
    assert targets[i..][0] == targets[i];
    assert targets[i..][1..] == targets[i + 1..];
  }

  lemma ResolveManifest(fs: FileSystem, path: string, fuel: nat)
    requires path in fs && IsManifest(path) && fs[path].File? && fs[path].text.Some? && fuel > 0
    ensures var sub := ResolveAll(fs, Targets(Parent(path), fs[path].text.value), fuel - 1);
      Resolve(fs, path, fuel) == if sub.Done? then Done(sub.paths + [path]) else sub
  {
  }

  /** `parse_index_file`: a manifest's targets are resolved first, in order, and
      the path itself is pushed last. */
  method ParseIndexFile(fs: FileSystem, path: string, fuel: nat) returns (r: Outcome)
    ensures r == Resolve(fs, path, fuel)
    decreases fuel, 0
  {
    if path !in fs {
      return Done([]);
    }
    var result: seq<string> := [];
    if IsManifest(path) {
      var entry := fs[path];
      if entry.Directory? || entry.text.None? {
        return Panic(path);
      }
      if fuel == 0 {
        return OutOfFuel;
      }
      ResolveManifest(fs, path, fuel);
      var sub := AppendTargets(fs, Targets(Parent(path), entry.text.value), fuel - 1);
      if !sub.Done? {
        return sub;
      }
      result := sub.paths;
    }
    result := result + [path];
    return Done(result);
  }

  /** The loop of `parse_index_file` over the captured targets, appending each
      target's documents to the result. */
  method AppendTargets(fs: FileSystem, targets: seq<string>, fuel: nat) returns (r: Outcome)
    ensures r == ResolveAll(fs, targets, fuel)
    decreases fuel, 1
  {
    var result: seq<string> := [];
    var i := 0;
    while i < |targets|
      invariant 0 <= i <= |targets|
      invariant ResolveAll(fs, targets, fuel) == Prepend(result, ResolveAll(fs, targets[i..], fuel))
    {
      ResolveAllStep(fs, targets, i, fuel);
      var sub := ParseIndexFile(fs, targets[i], fuel);
      if !sub.Done? {
        return sub;
      }
      PrependAssoc(result, sub.paths, ResolveAll(fs, targets[i + 1..], fuel));
      result := result + sub.paths;
      i := i + 1;
    }
    assert targets[i..] == [];
    return Done(result);
  }

  // ----- properties of the walk -----

  /** A completed resolution is empty exactly when the path does not exist, ends with
      the path itself otherwise, and lists only paths that existed when checked. */
  lemma {:induction false} ResolveShape(fs: FileSystem, path: string, fuel: nat)
    ensures var o := Resolve(fs, path, fuel);
      o.Done? ==>
        && (o.paths == [] <==> path !in fs)
        && (o.paths != [] ==> o.paths[|o.paths| - 1] == path)
        && forall x :: x in o.paths ==> x in fs
    decreases fuel, 0
  {
    if path in fs && IsManifest(path) && fs[path].File? && fs[path].text.Some? && fuel > 0 {
      ResolveAllShape(fs, Targets(Parent(path), fs[path].text.value), fuel - 1);
    }
  }

  lemma {:induction false} ResolveAllShape(fs: FileSystem, targets: seq<string>, fuel: nat)
    ensures var o := ResolveAll(fs, targets, fuel);
      o.Done? ==> forall x :: x in o.paths ==> x in fs
    decreases fuel, 1, |targets|
  {
    if targets != [] {
      ResolveShape(fs, targets[0], fuel);
      ResolveAllShape(fs, targets[1..], fuel);
    }
  }

  /** More fuel never changes a resolution that did not run out of fuel. */
  lemma {:induction false} ResolveFuelMonotone(fs: FileSystem, path: string, fuel: nat, more: nat)
    requires fuel <= more
    requires !Resolve(fs, path, fuel).OutOfFuel?
    ensures Resolve(fs, path, more) == Resolve(fs, path, fuel)
    decreases fuel, 1
  {
    if ReadableManifest(fs, path) {
      ManifestNeedsFuel(fs, path, fuel);
      ManifestFuelMonotone(fs, path, fuel, more);
    } else {
      OtherPathsIgnoreFuel(fs, path, fuel, more);
    }
  }

  lemma {:induction false} ManifestFuelMonotone(fs: FileSystem, path: string, fuel: nat, more: nat)
    requires 0 < fuel <= more && ReadableManifest(fs, path)
    requires !ResolveAll(fs, Targets(Parent(path), fs[path].text.value), fuel - 1).OutOfFuel?
    ensures Resolve(fs, path, more) == Resolve(fs, path, fuel)
    decreases fuel, 0
  {
    ResolveAllFuelMonotone(fs, Targets(Parent(path), fs[path].text.value), fuel - 1, more - 1);
    SameTargetsSameResolve(fs, path, fuel, more);
  }

  predicate ReadableManifest(fs: FileSystem, path: string) {
    path in fs && IsManifest(path) && fs[path].File? && fs[path].text.Some?
  }

  /** A readable manifest resolved within a bound had fuel left for its targets,
      and they did not run out of it either. */
  lemma ManifestNeedsFuel(fs: FileSystem, path: string, fuel: nat)
    requires ReadableManifest(fs, path) && !Resolve(fs, path, fuel).OutOfFuel?
    ensures fuel > 0 && !ResolveAll(fs, Targets(Parent(path), fs[path].text.value), fuel - 1).OutOfFuel?
  {
    if fuel > 0 {
      ResolveManifest(fs, path, fuel);
    }
  }

  /** A path that is not a readable manifest resolves without looking at the fuel. */
  lemma OtherPathsIgnoreFuel(fs: FileSystem, path: string, fuel: nat, more: nat)
    requires !ReadableManifest(fs, path)
    ensures Resolve(fs, path, more) == Resolve(fs, path, fuel)
  {
  }

  /** A readable manifest whose targets resolve alike under two bounds resolves alike. */
  lemma SameTargetsSameResolve(fs: FileSystem, path: string, fuel: nat, more: nat)
    requires ReadableManifest(fs, path) && fuel > 0 && more > 0
    requires var targets := Targets(Parent(path), fs[path].text.value);
      ResolveAll(fs, targets, more - 1) == ResolveAll(fs, targets, fuel - 1)
    ensures Resolve(fs, path, more) == Resolve(fs, path, fuel)
  {
    ResolveManifest(fs, path, fuel);
    ResolveManifest(fs, path, more);
  }

  lemma {:induction false} ResolveAllFuelMonotone(fs: FileSystem, targets: seq<string>, fuel: nat, more: nat)
    requires fuel <= more
    requires !ResolveAll(fs, targets, fuel).OutOfFuel?
    ensures ResolveAll(fs, targets, more) == ResolveAll(fs, targets, fuel)
    decreases fuel, 2, |targets|
  {
    if targets != [] {
      ResolveFuelMonotone(fs, targets[0], fuel, more);
      if Resolve(fs, targets[0], fuel).Done? {
        ResolveAllFuelMonotone(fs, targets[1..], fuel, more);
      }
    }
  }

  /** A manifest whose first link leads back to itself is never resolved: the walk has
      no cycle check, so every fuel bound runs out. */
  lemma {:induction false} SelfReferenceNeverResolves(fs: FileSystem, path: string, fuel: nat)
    requires path in fs && IsManifest(path) && fs[path].File? && fs[path].text.Some?
    requires var ts := Targets(Parent(path), fs[path].text.value); |ts| > 0 && ts[0] == path
    ensures Resolve(fs, path, fuel) == OutOfFuel
    decreases fuel
  {
    if fuel > 0 {
      var ts := Targets(Parent(path), fs[path].text.value);
      SelfReferenceNeverResolves(fs, path, fuel - 1);
      ResolveAllStopsAtHead(fs, ts, path, fuel - 1);
      ResolveManifest(fs, path, fuel);
    }
  }

  /** A first target that does not resolve is the outcome of the whole list. */
  lemma ResolveAllStopsAtHead(fs: FileSystem, targets: seq<string>, head: string, fuel: nat)
    requires targets != [] && targets[0] == head && !Resolve(fs, head, fuel).Done?
    ensures ResolveAll(fs, targets, fuel) == Resolve(fs, head, fuel)
  {
  }

  /** Links to existing non-manifest documents resolve to themselves, in link order and
      without deduplication: a document linked twice is listed twice. */
  lemma {:induction false} LeafTargetsResolveInOrder(fs: FileSystem, targets: seq<string>, fuel: nat)
    requires forall k :: 0 <= k < |targets| ==> targets[k] in fs && !IsManifest(targets[k])
    ensures ResolveAll(fs, targets, fuel) == Done(targets)
    decreases |targets|
  {
    if targets != [] {
      LeafTargetsResolveInOrder(fs, targets[1..], fuel);
      assert targets == [targets[0]] + targets[1..];
    }
  }

  lemma {:induction false} LeafManifestResolves(fs: FileSystem, path: string, fuel: nat)
    requires path in fs && IsManifest(path) && fs[path].File? && fs[path].text.Some? && fuel > 0
    requires var ts := Targets(Parent(path), fs[path].text.value);
      forall k :: 0 <= k < |ts| ==> ts[k] in fs && !IsManifest(ts[k])
    ensures Resolve(fs, path, fuel) == Done(Targets(Parent(path), fs[path].text.value) + [path])
  {
    ResolveManifest(fs, path, fuel);
    LeafTargetsResolveInOrder(fs, Targets(Parent(path), fs[path].text.value), fuel - 1);
  }

  lemma CaptureOfLink(name: string, caption: string)
    requires '[' !in name && ']' !in name && '[' !in caption && ']' !in caption
    ensures XrefCapture(XrefMarker + name + "[" + caption + "]") == Some(name)
  {
    var line := XrefMarker + name + "[" + caption + "]";
    assert OccursAt(line, XrefMarker, 0);
    var rest := line[|XrefMarker|..];
    assert rest == name + "[" + caption + "]";
    var e := |rest| - 1;
    assert LastIndexOf(rest, ']') == e;
    assert rest[..e] == name + "[" + caption;
    var s := rest[..e];
    assert s == name + "[" + caption;
    assert s[|name|] == '[';
    assert forall j :: |name| < j < |s| ==> s[j] == caption[j - |name| - 1];
    assert LastIndexOf(s, '[') == |name|;
    assert rest[..|name|] == name;
  }

  lemma SimpleComponents(dir: string, name: string)
    requires dir != "" && dir != "." && name != "" && name != "." && '/' !in dir && '/' !in name
    ensures Components(Split(dir + "/" + name, '/')) == [dir, name]
  {
    assert dir + "/" + name == Join([dir, name], "/");
    SplitJoin([dir, name], '/');
    var pieces := [dir, name];
    assert pieces[..1] == [dir];
    assert Components([dir]) == Components([]) + [dir];
  }

  /** Characters a link name or caption in the examples below avoids. */
  predicate PlainName(s: string) {
    '[' !in s && ']' !in s && '\n' !in s && '{' !in s
  }

  lemma CapturesOfTwo(l0: string, l1: string, c0: string, c1: string)
    requires XrefCapture(l0) == Some(c0) && XrefCapture(l1) == Some(c1)
    ensures CapturesOf([l0, l1]) == [c0, c1]
  {
    var lines := [l0, l1];
    assert lines[..1] == [l0];
    assert [l0][..0] == [];
  }

  /** A manifest of two link lines yields both targets, in order, under its directory. */
  lemma TwoLinkTargets(dir: string, a: string, capA: string, b: string, capB: string)
    requires PlainName(a) && PlainName(capA) && PlainName(b) && PlainName(capB)
    ensures Targets(dir, XrefMarker + a + "[" + capA + "]\n" + XrefMarker + b + "[" + capB + "]")
         == [JoinPath(dir, a), JoinPath(dir, b)]
  {
    var l0 := XrefMarker + a + "[" + capA + "]";
    var l1 := XrefMarker + b + "[" + capB + "]";
    var text := XrefMarker + a + "[" + capA + "]\n" + XrefMarker + b + "[" + capB + "]";
    assert Split(text, '\n') == [l0, l1] by {
      assert text == Join([l0, l1], "\n");
      SplitJoin([l0, l1], '\n');
    }
    CaptureOfLink(a, capA);
    CaptureOfLink(b, capB);
    CapturesOfTwo(l0, l1, a, b);
    NotContainsWithoutFirst(a, "{cpp}");
    ReplaceAllAbsent(a, "{cpp}", "c++");
    NotContainsWithoutFirst(b, "{cpp}");
    ReplaceAllAbsent(b, "{cpp}", "c++");
    TargetsOfTwo(dir, a, b);
  }

  lemma TargetsOfTwo(dir: string, a: string, b: string)
    requires ReplaceAll(a, "{cpp}", "c++") == a && ReplaceAll(b, "{cpp}", "c++") == b
    ensures TargetsOf(dir, [a, b]) == [JoinPath(dir, a), JoinPath(dir, b)]
  {
    var caps := [a, b];
    assert caps[..1] == [a];
    assert [a][..0] == [];
  }

  /** A manifest linking two plain documents resolves to both documents, then itself. */
  lemma TwoLinkManifestResolves(fs: FileSystem, root: string, a: string, capA: string, b: string, capB: string, fuel: nat)
    requires PlainName(a) && PlainName(capA) && PlainName(b) && PlainName(capB)
    requires IsManifest(root) && fuel > 0
    requires root in fs
    requires fs[root] == File(Some(XrefMarker + a + "[" + capA + "]\n" + XrefMarker + b + "[" + capB + "]"))
    requires forall t :: t in {JoinPath(Parent(root), a), JoinPath(Parent(root), b)} ==>
      t in fs && fs[t].File? && fs[t].text.Some? && !IsManifest(t)
    ensures Resolve(fs, root, fuel) == Done([JoinPath(Parent(root), a), JoinPath(Parent(root), b), root])
  {
    TwoLinkTargets(Parent(root), a, capA, b, capB);
    LeafManifestResolves(fs, root, fuel);
  }

  /** A plain file name within a directory that has no further structure. */
  predicate SimpleName(name: string) {
    name != "" && name != "." && '/' !in name && PlainName(name)
  }

  /** `dir/index.adoc` linking `dir/a` and `dir/b` (two leaf documents) resolves to both
      documents in link order, then the manifest itself. */
  lemma DirectoryManifestResolves(fs: FileSystem, dir: string, a: string, capA: string, b: string, capB: string)
    requires SimpleName(dir) && SimpleName(a) && SimpleName(b) && PlainName(capA) && PlainName(capB)
    requires a != ManifestName && b != ManifestName
    requires dir + "/" + ManifestName in fs
    requires fs[dir + "/" + ManifestName] == File(Some(XrefMarker + a + "[" + capA + "]\n" + XrefMarker + b + "[" + capB + "]"))
    requires forall n :: n in {a, b} ==> dir + "/" + n in fs && fs[dir + "/" + n].File? && fs[dir + "/" + n].text.Some?
    ensures Resolve(fs, dir + "/" + ManifestName, 1) == Done([dir + "/" + a, dir + "/" + b, dir + "/" + ManifestName])
  {
    var root := dir + "/" + ManifestName;
    SimpleComponents(dir, ManifestName);
    SimpleComponents(dir, a);
    SimpleComponents(dir, b);
    ParentOfJoin(dir, ManifestName);
    assert JoinPath(dir, a) == dir + "/" + a && JoinPath(dir, b) == dir + "/" + b;
    TwoLinkManifestResolves(fs, root, a, capA, b, capB, 1);
  }
}
