/**
 * The page generator's own logic: where a converted page and its assets
 * go, which file-system effects `generate_html` has for one source file,
 * the converter arguments built from the configuration, and the breadcrumb
 * trail shown above a page.
 *
 * The file system is a map from path to kind; the converter's output, the
 * HTML it is parsed into and the template rendering are foreign and appear
 * only as effects (`Convert`, `Write`) and as inputs (the image URLs found
 * in the converted page).
 */
module Generator {
  import opened Strings
  import opened Paths
  import CommandLine
  import Config
  import Builder

  // ---------------------------------------------------------------------
  // Breadcrumbs
  // ---------------------------------------------------------------------

  /** The pieces of a destination path once every `public/` is removed. */
  function Segments(destFile: string): (r: seq<string>)
    ensures |r| >= 1
  {
    Split(ReplaceAll(destFile, "public/", ""), '/')
  }

  /** One entry per segment but the last: a segment and the absolute URL of
      the directory it names. */
  function Ancestors(segs: seq<string>): (r: seq<(string, string)>)
    ensures |r| == if segs == [] then 0 else |segs| - 1
    decreases |segs|
  {
    if |segs| < 2 then []
    else
      var n := |segs| - 1;
      Ancestors(segs[..n]) + [(segs[n - 1], "/" + Join(segs[..n], "/"))]
  }

  /** Entry i names segment i and links to "/" followed by segments 0..i. */
  lemma {:induction false} AncestorsAt(segs: seq<string>, i: nat)
    requires i + 1 < |segs|
    ensures Ancestors(segs)[i] == (segs[i], "/" + Join(segs[..i + 1], "/"))
    decreases |segs|
  {
    var n := |segs| - 1;
    if i + 1 < n {
      AncestorsAt(segs[..n], i);
      assert segs[..n][..i + 1] == segs[..i + 1];
    }
  }

  /** Every URL is absolute. */
  lemma AncestorsAbsolute(segs: seq<string>, i: nat)
    requires i + 1 < |segs|
    ensures StartsWith(Ancestors(segs)[i].1, "/")
  {
    AncestorsAt(segs, i);
    var u := "/" + Join(segs[..i + 1], "/");
    assert u[..1] == "/";
  }

  /** Each URL continues the previous one by one segment. */
  lemma AncestorsChain(segs: seq<string>, i: nat)
    requires i + 2 < |segs|
    ensures Ancestors(segs)[i + 1].1 == Ancestors(segs)[i].1 + "/" + segs[i + 1]
  {
    AncestorsAt(segs, i);
    AncestorsAt(segs, i + 1);
    UrlStep(segs, i);
  }

  /** The URL of the first i + 2 segments is the URL of the first i + 1, then one more. */
  lemma UrlStep(segs: seq<string>, i: nat)
    requires i + 2 < |segs|
    ensures "/" + Join(segs[..i + 2], "/") == ("/" + Join(segs[..i + 1], "/")) + "/" + segs[i + 1]
  {
    var p, x := segs[..i + 1], segs[i + 1];
    var u := Join(p, "/");
    assert segs[..i + 2] == p + [x];
    assert Join(p + [x], "/") == u + "/" + x by {
      JoinSnoc(p, x, "/");
    }
    assert "/" + (u + "/" + x) == ("/" + u) + "/" + x by {
      ConcatAssoc("/", u + "/", x);
      ConcatAssoc("/", u, "/");
    }
  }

  lemma ConcatAssoc(a: string, b: string, c: string)
    ensures a + (b + c) == (a + b) + c
  {
  }

  /** The last breadcrumb followed by the page's own name is the whole stripped path:
      the trail leads to the page and the page itself is never an entry. */
  lemma AncestorsLeadToPage(destFile: string)
    requires |Segments(destFile)| >= 2
    ensures var segs := Segments(destFile);
      Ancestors(segs)[|segs| - 2].1 + "/" + segs[|segs| - 1] == "/" + ReplaceAll(destFile, "public/", "")
  {
    var segs := Segments(destFile);
    var n := |segs| - 1;
    AncestorsAt(segs, n - 1);
    assert segs == segs[..n] + [segs[n]];
    JoinSnoc(segs[..n], segs[n], "/");
    JoinSplit(ReplaceAll(destFile, "public/", ""), '/');
  }

  /** A page directly under the site root has no breadcrumbs. */
  lemma TopLevelPage(destFile: string)
    requires '/' !in ReplaceAll(destFile, "public/", "")
    ensures Ancestors(Segments(destFile)) == []
  {
    SplitWithoutSeparator(ReplaceAll(destFile, "public/", ""), '/');
  }

  /** `generate_pathes`, one push per prefix of the segments. */
  method GeneratePathes(destFile: string) returns (res: seq<(string, string)>)
    ensures res == Ancestors(Segments(destFile))
  {
    var pathes := Split(ReplaceAll(destFile, "public/", ""), '/');
    res := [];
    var idx := 1;
    while idx < |pathes|
      invariant 1 <= idx <= |pathes|
      invariant res == Ancestors(pathes[..idx])
    {
      var v := "/" + Join(pathes[..idx], "/");
      assert pathes[..idx + 1][..idx] == pathes[..idx];
      res := res + [(pathes[idx - 1], v)];
      idx := idx + 1;
    }
    assert pathes[..idx] == pathes;
  }

  // ---------------------------------------------------------------------
  // Source to destination
  // ---------------------------------------------------------------------

  /** The output directory of a source directory: every `content` becomes `public`. */
  function DestDir(sourceDir: string): string {
    ReplaceAll(sourceDir, "content", "public")
  }

  /** The output page of a source file: every `content` becomes `public`, then
      every `.adoc` becomes `.html`. */
  function DestFile(sourceFile: string): string {
    ReplaceAll(ReplaceAll(sourceFile, "content", "public"), ".adoc", ".html")
  }

  /** A rewritten file name stays a single component. */
  lemma DestNameIsComponent(name: string)
    requires '/' !in name
    ensures '/' !in DestFile(name)
  {
    ReplaceAllKeepsAbsent(name, "content", "public", '/');
    ReplaceAllKeepsAbsent(ReplaceAll(name, "content", "public"), ".adoc", ".html", '/');
  }

  /** The page of a file `dir/name` is written into the output directory of `dir`,
      which is the directory `generate_html` creates, as long as that
      directory's own path has no `.adoc` for the second rewrite to touch. */
  lemma DestFileInDestDir(dir: string, name: string)
    requires dir != "" && dir[|dir| - 1] != '/'
    requires '/' !in name
    requires !Contains(DestDir(dir), ".adoc")
    ensures Parent(JoinPath(dir, name)) == dir
    ensures Parent(DestFile(JoinPath(dir, name))) == DestDir(dir)
  {
    ParentOfJoin(dir, name);
    var d, f := DestDir(dir), DestFile(name);
    assert DestFile(JoinPath(dir, name)) == d + "/" + f by {
      DestFileOfJoin(dir, name);
    }
    assert d != "" && d[|d| - 1] != '/' by {
      ReplaceAllLastChar(dir, "content", "public", '/');
    }
    assert '/' !in f by {
      DestNameIsComponent(name);
    }
    assert Parent(d + "/" + f) == d by {
      JoinPlain(d, f);
      ParentOfJoin(d, f);
    }
  }

  /** Both rewrites act on the directory and the file name separately. */
  lemma DestFileOfJoin(dir: string, name: string)
    requires dir != "" && dir[|dir| - 1] != '/'
    requires '/' !in name
    requires !Contains(DestDir(dir), ".adoc")
    ensures DestFile(JoinPath(dir, name)) == DestDir(dir) + ['/'] + DestFile(name)
  {
    JoinPlain(dir, name);
    ReplaceAllAround(dir, '/', name, "content", "public");
    ReplaceAllAround(DestDir(dir), '/', ReplaceAll(name, "content", "public"), ".adoc", ".html");
    ReplaceAllAbsent(DestDir(dir), ".adoc", ".html");
  }

  // ---------------------------------------------------------------------
  // Effects of one page
  // ---------------------------------------------------------------------

  datatype Kind = RegularFile | Directory

  type FileSystem = map<string, Kind>

  /** What generating a page does outside the process. */
  datatype Effect =
    | CreateDirAll(dir: string)
    | Convert(argv: seq<string>)
    | Write(file: string)
    | Copy(from: string, to: string)

  /** The image URLs that are copied: generated diagrams (`diag-…`) are already
      in the output directory. */
  function Assets(images: seq<string>): (r: seq<string>)
    ensures |r| <= |images|
    ensures forall x :: x in r <==> x in images && !StartsWith(x, "diag-")
    decreases |images|
  {
    if images == [] then []
    else
      var n := |images| - 1;
      Assets(images[..n]) + (if StartsWith(images[n], "diag-") then [] else [images[n]])
  }

  /** `move_assets`: nothing when the asset is missing; otherwise the destination's
      directory is created when it does not exist yet, and the asset is copied. */
  function MoveAssets(fs: FileSystem, item: string, source: string, des: string): seq<Effect> {
    var sourceFile := JoinPath(source, item);
    if sourceFile !in fs then []
    else
      var desFile := JoinPath(des, item);
      var desPath := Parent(desFile);
      (if desPath in fs then [] else [CreateDirAll(desPath)]) + [Copy(sourceFile, desFile)]
  }

  /** All moves of a page, one after the other. */
  function MoveAll(fs: FileSystem, items: seq<string>, source: string, des: string): seq<Effect>
    decreases |items|
  {
    if items == [] then []
    else
      var n := |items| - 1;
      MoveAll(fs, items[..n], source, des) + MoveAssets(fs, items[n], source, des)
  }

  /** The effect right before position `i` creates `dir`. */
  predicate CreatedJustBefore(effects: seq<Effect>, i: int, dir: string)
    requires i < |effects|
  {
    i > 0 && effects[i - 1] == CreateDirAll(dir)
  }

  /** A copy's destination directory exists beforehand or is created right before it. */
  predicate CopyTargetsReady(fs: FileSystem, effects: seq<Effect>) {
    forall i :: 0 <= i < |effects| && effects[i].Copy? ==>
      Parent(effects[i].to) in fs || CreatedJustBefore(effects, i, Parent(effects[i].to))
  }

  /** Splitting the moves of a page at its last asset. */
  lemma MoveAllSnoc(fs: FileSystem, items: seq<string>, source: string, des: string)
    requires items != []
    ensures var n := |items| - 1;
      MoveAll(fs, items, source, des) == MoveAll(fs, items[..n], source, des) + MoveAssets(fs, items[n], source, des)
  {
  }

  /** One move copies only into a directory that exists or that it has just created. */
  lemma MoveAssetsReady(fs: FileSystem, item: string, source: string, des: string)
    ensures CopyTargetsReady(fs, MoveAssets(fs, item, source, des))
  {
  }

  /** Every copy of the moves has its target directory in place. */
  lemma {:induction false} MoveAllReady(fs: FileSystem, items: seq<string>, source: string, des: string)
    ensures CopyTargetsReady(fs, MoveAll(fs, items, source, des))
    decreases |items|
  {
    if items != [] {
      var n := |items| - 1;
      MoveAllReady(fs, items[..n], source, des);
      var a: seq<Effect> := MoveAll(fs, items[..n], source, des);
      var b: seq<Effect> := MoveAssets(fs, items[n], source, des);
      var c: seq<Effect> := a + b;
      MoveAllSnoc(fs, items, source, des);
      MoveAssetsReady(fs, items[n], source, des);
      forall i | 0 <= i < |c| && c[i].Copy?
        ensures Parent(c[i].to) in fs || CreatedJustBefore(c, i, Parent(c[i].to))
      {
        if i < |a| {
          assert c[i] == a[i];

          if i > 0 {
            assert c[i - 1] == a[i - 1];
          }
        } else {
          var k := i - |a|;
          assert c[i] == b[k];

          if k > 0 {
            assert c[i - 1] == b[k - 1];
          }
        }
      }
    }
  }

  /** A copy comes from an existing asset of the page to the same relative place under `des`. */
  lemma {:induction false} MoveAllSound(fs: FileSystem, items: seq<string>, source: string, des: string)
    ensures forall e :: e in MoveAll(fs, items, source, des) && e.Copy? ==>
      exists item :: item in items && JoinPath(source, item) in fs &&
        e == Copy(JoinPath(source, item), JoinPath(des, item))
    decreases |items|
  {
    if items != [] {
      var n := |items| - 1;
      MoveAllSound(fs, items[..n], source, des);
      MoveAllSnoc(fs, items, source, des);
      assert items[n] in items;
      assert forall x :: x in items[..n] ==> x in items;
    }
  }

  /** Every existing asset of the page is copied. */
  lemma {:induction false} MoveAllComplete(fs: FileSystem, items: seq<string>, source: string, des: string)
    ensures forall item :: item in items && JoinPath(source, item) in fs ==>
      Copy(JoinPath(source, item), JoinPath(des, item)) in MoveAll(fs, items, source, des)
    decreases |items|
  {
    if items != [] {
      var n := |items| - 1;
      MoveAllComplete(fs, items[..n], source, des);
      MoveAllSnoc(fs, items, source, des);
      assert items == items[..n] + [items[n]];
    }
  }

  /** The argument texts `key=value` of the attributes, in iteration order `order`:
      a string value is written as is, every other value as TOML prints it. */
  function AttrText(key: string, v: Config.TomlValue): string {
    key + "=" + (if v.Str? then v.text else Config.Display(v))
  }

  function AttrTexts(order: seq<string>, attributes: map<string, Config.TomlValue>): (r: seq<string>)
    requires forall k :: k in order ==> k in attributes
    ensures |r| == |order|
    ensures forall i :: 0 <= i < |order| ==> r[i] == AttrText(order[i], attributes[order[i]])
    decreases |order|
  {
    if order == [] then []
    else
      var n := |order| - 1;
      AttrTexts(order[..n], attributes) + [AttrText(order[n], attributes[order[n]])]
  }

  /** The `outdir=` attributes that loading the extensions adds: one per diagram extension. */
  function Outdirs(extensions: seq<string>, des: string): (r: seq<string>)
    ensures |r| <= |extensions|
    ensures forall x :: x in r ==> x == Builder.OutdirAttr(des)
    ensures Builder.DiagramPlugin in extensions <==> r != []
    decreases |extensions|
  {
    if extensions == [] then []
    else
      var n := |extensions| - 1;
      Outdirs(extensions[..n], des)
        + (if extensions[n] == Builder.DiagramPlugin then [Builder.OutdirAttr(des)] else [])
  }

  /** `order` enumerates the keys of a map, each exactly once: one iteration order of it. */
  predicate Enumerates(order: seq<string>, keys: set<string>) {
    (forall k :: k in order ==> k in keys) && (forall k :: k in keys ==> k in order)
    && (forall i, j :: 0 <= i < j < |order| ==> order[i] != order[j])
  }

  /** The converter arguments for a page, given the order the attribute map is walked in. */
  function RawPageArgv(order: seq<string>, attributes: map<string, Config.TomlValue>, extensions: seq<string>,
                       sourceFile: string, des: string): seq<string>
    requires forall k :: k in order ==> k in attributes
  {
    CommandLine.Argv(sourceFile, des, AttrTexts(order, attributes) + Outdirs(extensions, des), extensions)
  }

  /** Whatever the iteration order, every configured attribute is passed exactly
      once as `key=value` and nothing else precedes the outdir attributes. */
  lemma OneArgumentPerAttribute(order: seq<string>, attributes: map<string, Config.TomlValue>)
    requires Enumerates(order, attributes.Keys)
    ensures |AttrTexts(order, attributes)| == |attributes|
    ensures forall k :: k in attributes ==> AttrText(k, attributes[k]) in AttrTexts(order, attributes)
  {
    var texts := AttrTexts(order, attributes);
    forall k | k in attributes
      ensures AttrText(k, attributes[k]) in texts
    {
      var i :| 0 <= i < |order| && order[i] == k;
      assert texts[i] == AttrText(k, attributes[k]);
    }
    DistinctCard(order, attributes.Keys);
  }

  /** A sequence without repeats has as many elements as the set it enumerates. */
  lemma {:induction false} DistinctCard(order: seq<string>, keys: set<string>)
    requires Enumerates(order, keys)
    ensures |order| == |keys|
    decreases |order|
  {
    if order != [] {
      var n := |order| - 1;
      var last := order[n];
      assert Enumerates(order[..n], keys - {last}) by {
        forall k
          ensures k in order[..n] <==> k in keys - {last}
        {
          if k in order[..n] {
            var i :| 0 <= i < n && order[..n][i] == k;
            assert order[i] == k;
          }
        }
      }
      DistinctCard(order[..n], keys - {last});
    } else {
      assert forall k :: k !in keys;
      assert keys == {};
    }
  }

  /** The attribute loop of `generate_raw_page`: one `key=value` per entry of the
      map, in the map's (unspecified) iteration order, reported as `order`. */
  method AddAttributes(output: Builder.AsciidoctorBuilder, attributes: map<string, Config.TomlValue>)
    returns (ghost order: seq<string>)
    modifies output
    ensures Enumerates(order, attributes.Keys)
    ensures output.attrs == old(output.attrs) + AttrTexts(order, attributes)
    ensures output.plugins == old(output.plugins)
  {
    var todo := attributes.Keys;
    order := [];
    while todo != {}
      invariant Walked(order, todo, attributes.Keys)
      invariant output.attrs == old(output.attrs) + AttrTexts(order, attributes)
      invariant output.plugins == old(output.plugins)
      decreases |todo|
    {
      var key :| key in todo;
      output.Attr(AttrText(key, attributes[key]));
      AttrStep(old(output.attrs), order, key, attributes);
      WalkStep(order, todo, attributes.Keys, key);
      order := order + [key];
      todo := todo - {key};
    }
    WalkDone(order, attributes.Keys);
  }

  /** Part way through walking `keys`: `order` holds, once each, the keys
      already taken, and `todo` the ones still to take. */
  ghost predicate Walked(order: seq<string>, todo: set<string>, keys: set<string>) {
    todo <= keys
    && (forall k :: k in order <==> k in keys && k !in todo)
    && (forall i, j :: 0 <= i < j < |order| ==> order[i] != order[j])
  }

  /** Taking one more key keeps the walk consistent. */
  lemma WalkStep(order: seq<string>, todo: set<string>, keys: set<string>, key: string)
    requires Walked(order, todo, keys) && key in todo
    ensures key in keys
    ensures Walked(order + [key], todo - {key}, keys)
  {
    assert key !in order;
  }

  /** A walk with nothing left to take enumerates the keys. */
  lemma WalkDone(order: seq<string>, keys: set<string>)
    requires Walked(order, {}, keys)
    ensures Enumerates(order, keys)
  {
  }

  /** One more attribute extends the attribute texts by its own text. */
  lemma AttrStep(start: seq<string>, order: seq<string>, key: string, attributes: map<string, Config.TomlValue>)
    requires forall k :: k in order ==> k in attributes
    requires key in attributes
    ensures start + AttrTexts(order, attributes) + [AttrText(key, attributes[key])]
            == start + AttrTexts(order + [key], attributes)
  {
    assert (order + [key])[..|order|] == order;
  }

  /** The extension loop of `generate_raw_page`: one plugin per extension, in order. */
  method AddPlugins(output: Builder.AsciidoctorBuilder, extensions: seq<string>)
    modifies output
    ensures output.attrs == old(output.attrs) + Outdirs(extensions, output.destinationDir)
    ensures output.plugins == old(output.plugins) + extensions
  {
    var i := 0;
    while i < |extensions|
      invariant 0 <= i <= |extensions|
      invariant output.attrs == old(output.attrs) + Outdirs(extensions[..i], output.destinationDir)
      invariant output.plugins == old(output.plugins) + extensions[..i]
    {
      output.Plugin(extensions[i]);
      PluginStep(old(output.attrs), old(output.plugins), extensions, i, output.destinationDir);
      i := i + 1;
    }
    assert extensions[..i] == extensions;
  }

  /** One more extension extends the plugins by itself and the attributes by
      its output directory when it is the diagram plugin. */
  lemma PluginStep(attrs: seq<string>, plugins: seq<string>, extensions: seq<string>, i: nat, des: string)
    requires i < |extensions|
    ensures attrs + Outdirs(extensions[..i], des)
              + (if extensions[i] == Builder.DiagramPlugin then [Builder.OutdirAttr(des)] else [])
            == attrs + Outdirs(extensions[..i + 1], des)
    ensures plugins + extensions[..i] + [extensions[i]] == plugins + extensions[..i + 1]
  {
    assert extensions[..i + 1][..i] == extensions[..i];
  }

  /** `generate_raw_page`: a builder for the page gets the configured attributes,
      then the configured extensions, and builds the converter's arguments. */
  method GenerateRawPage(config: Config.Asciidoc, sourceFile: string, des: string) returns (argv: seq<string>)
    ensures exists order :: (Enumerates(order, config.attributes.Keys) &&
      argv == RawPageArgv(order, config.attributes, config.extensions, sourceFile, des))
  {
    var output := new Builder.AsciidoctorBuilder(sourceFile, des);
    ghost var order := AddAttributes(output, config.attributes);
    AddPlugins(output, config.extensions);
    assert output.attrs == AttrTexts(order, config.attributes) + Outdirs(config.extensions, des);
    assert output.plugins == config.extensions;
    argv := output.Build();
    assert argv == RawPageArgv(order, config.attributes, config.extensions, sourceFile, des);
  }

  /** The effects of `generate_html` for one source file. A missing source or one
      that is not a regular file has none; when the output directory cannot be
      created, that attempt is the only one. Otherwise the page is converted with
      the arguments `generate_raw_page` builds from the configuration's
      `extensions` and `attributes` (walked in the map's iteration order `order`)
      for this source file and output directory, then written, and the
      non-diagram images are moved, checked against the file system once the
      output directory exists. `mkdirOk` is the outcome of creating the output
      directory. */
  function HtmlEffects(fs: FileSystem, sourceFile: string, mkdirOk: bool,
                       extensions: seq<string>, attributes: map<string, Config.TomlValue>, order: seq<string>,
                       images: seq<string>)
    : (r: seq<Effect>)
    requires Enumerates(order, attributes.Keys)
    ensures (sourceFile !in fs || fs[sourceFile] != RegularFile) <==> r == []
    ensures r != [] ==> r[0] == CreateDirAll(DestDir(Parent(sourceFile)))
    ensures r != [] && !mkdirOk ==> |r| == 1
    ensures r != [] && mkdirOk ==>
      |r| >= 3 && r[1] == Convert(RawPageArgv(order, attributes, extensions, sourceFile, DestDir(Parent(sourceFile))))
    ensures forall i :: 0 <= i < |r| && r[i].Write? ==> mkdirOk && i == 2 && r[i] == Write(DestFile(sourceFile))
    ensures forall i :: 0 <= i < |r| && r[i].Convert? ==> mkdirOk && i == 1
  {
    if sourceFile !in fs || fs[sourceFile] != RegularFile then []
    else
      var sourceDir := Parent(sourceFile);
      var desDir := DestDir(sourceDir);
      if !mkdirOk then [CreateDirAll(desDir)]
      else
        MoveAllHasNoWrite(fs[desDir := Directory], Assets(images), sourceDir, desDir);
        [CreateDirAll(desDir), Convert(RawPageArgv(order, attributes, extensions, sourceFile, desDir)),
         Write(DestFile(sourceFile))]
          + MoveAll(fs[desDir := Directory], Assets(images), sourceDir, desDir)
  }

  /** `generate_html`: the guards, the output directory, the conversion through
      `generate_raw_page` with the configuration, the write and the asset moves,
      as the sequence of effects they have. */
  method GenerateHtml(fs: FileSystem, sourceFile: string, mkdirOk: bool, config: Config.Asciidoc, images: seq<string>)
    returns (effects: seq<Effect>)
    ensures exists order ::
      Enumerates(order, config.attributes.Keys) && effects == HtmlEffects(fs, sourceFile, mkdirOk, config.extensions, config.attributes, order, images)
  {
    ghost var order := EnumerationOf(config.attributes.Keys);
    if sourceFile !in fs || fs[sourceFile] != RegularFile {
      return [];
    }
    var sourceDir := Parent(sourceFile);
    var desDir := DestDir(sourceDir);
    if !mkdirOk {
      return [CreateDirAll(desDir)];
    }
    var argv := GenerateRawPage(config, sourceFile, desDir);
    order :| Enumerates(order, config.attributes.Keys) &&
      argv == RawPageArgv(order, config.attributes, config.extensions, sourceFile, desDir);
    effects := [CreateDirAll(desDir), Convert(argv), Write(DestFile(sourceFile))]
      + MoveAll(fs[desDir := Directory], Assets(images), sourceDir, desDir);
  }

  /** Every finite set of keys has an iteration order. */
  lemma {:induction false} EnumerationOf(keys: set<string>) returns (order: seq<string>)
    ensures Enumerates(order, keys)
    decreases |keys|
  {
    if keys == {} {
      order := [];
    } else {
      var k :| k in keys;
      var rest := EnumerationOf(keys - {k});
      order := rest + [k];
      forall i, j | 0 <= i < j < |order|
        ensures order[i] != order[j]
      {
        if j < |rest| {
          assert order[i] == rest[i] && order[j] == rest[j];
        } else {
          assert order[i] == rest[i] && rest[i] in keys - {k};
        }
      }
    }
  }

  lemma {:induction false} MoveAllHasNoWrite(fs: FileSystem, items: seq<string>, source: string, des: string)
    ensures forall e :: e in MoveAll(fs, items, source, des) ==> !e.Write? && !e.Convert?
    decreases |items|
  {
    if items != [] {
      MoveAllHasNoWrite(fs, items[..|items| - 1], source, des);
    }
  }

  /** A page whose source sits in a directory `dir` lands in the directory created
      first, and the only assets copied are its existing non-diagram images, each
      into a directory that exists by then. */
  lemma PageEffects(fs: FileSystem, dir: string, name: string,
                    extensions: seq<string>, attributes: map<string, Config.TomlValue>, order: seq<string>,
                    images: seq<string>)
    requires dir != "" && dir[|dir| - 1] != '/' && '/' !in name
    requires !Contains(DestDir(dir), ".adoc")
    requires JoinPath(dir, name) in fs && fs[JoinPath(dir, name)] == RegularFile
    requires Enumerates(order, attributes.Keys)
    ensures var r := HtmlEffects(fs, JoinPath(dir, name), true, extensions, attributes, order, images);
      && |r| >= 3
      && r[0] == CreateDirAll(DestDir(dir))
      && r[1] == Convert(RawPageArgv(order, attributes, extensions, JoinPath(dir, name), DestDir(dir)))
      && r[2] == Write(DestFile(JoinPath(dir, name))) && Parent(r[2].file) == DestDir(dir)
      && CopyTargetsReady(fs[DestDir(dir) := Directory], r[3..])
      && (forall e :: e in r && e.Copy? ==> exists item :: (item in images && !StartsWith(item, "diag-")
            && e == Copy(JoinPath(dir, item), JoinPath(DestDir(dir), item))))
  {
    DestFileInDestDir(dir, name);
    var fs' := fs[DestDir(dir) := Directory];
    var moves := MoveAll(fs', Assets(images), dir, DestDir(dir));
    MoveAllReady(fs', Assets(images), dir, DestDir(dir));
    MoveAllSound(fs', Assets(images), dir, DestDir(dir));
    var r := HtmlEffects(fs, JoinPath(dir, name), true, extensions, attributes, order, images);
    assert r[3..] == moves;
  }
}
