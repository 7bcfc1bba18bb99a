# asphinx build core in Dafny

asphinx is a static-site generator for AsciiDoc documents. Starting from the
`index.adoc` manifests of a `content` tree, it collects the documents to build.
It takes each page's last modification time from git. It converts every page
with the `asciidoctor` command into `public`, moves the page's images beside it,
and writes a navigation tree (`filetree.json`). A sidebar in the browser then
filters and expands that tree. This project models that logic and proves what
it promises:

- `Manifest`: manifest resolution. Every `xref:target[label]` link is followed
  depth first, and the documents come out in post-order.
- `Git` and `AsyncGit`: the two git scanners. Each gives every file the time of
  the newest commit that touched it, plus a fallback time.
- `Config`, `Converter`, `Builder` and `CommandLine`: the converter
  configuration (defaults and merge), and the two command builders with the
  argument vector they produce.
- `Generator`: what `generate_html` does for one source file. That is, where the
  page goes, the converter arguments, the breadcrumb trail, and the copy
  effects of its assets.
- `FileTree`: the scan of the content directory into a tree and a flat list,
  the title taken from a page's first heading, and the recursive sort
  (directories first, then by name).
- `FileTreeView`: the sidebar's search visibility, expand and collapse
  toggle, auto-expand of the current page's ancestors, and search-driven
  expansion.
- `Duration`: the build-time formatter `1m 20s 30ms`, with a parser proved to
  be its inverse.
- `History`, `Paths`, `Strings` and `Wrappers`: shared inputs and helpers.
  They hold the walked commits and tree diffs, `Path` operations, and text
  helpers.

Things the program gets from its environment are parameters of the model:

- the file system: a map from path to entry, or an abstract tree of directory
  listings;
- the git walk and the tree diff;
- the output of the converter;
- the image URLs found in the converted page;
- the current time;
- the order in which a hash map is iterated.

For the git walk, see `History.Commit` and `History.Diff`.

## Model

| member | source | states |
|---|---|---|
| Manifest.FindFirst | src/main.rs:36 | the result is -1 or a position at or after `from` where the substring occurs; no earlier such position exists |
| Manifest.XrefCaptureIsLeftmostGreedy | src/main.rs:36-38 | a line has a capture exactly when the pattern `xref:(.*)\[.*\]` matches it somewhere; the capture starts at the leftmost `xref:` and is the longest one that still leaves a `[`…`]` after it |
| Manifest.CapturesOf | src/main.rs:37 | one capture at most per line, in line order |
| Manifest.Targets | src/main.rs:37-39 | at most one target per line of the manifest |
| Manifest.ParseIndexFile | src/main.rs:22-47 | the recursive walk equals `Resolve`. A missing path gives nothing. A non-manifest gives itself. A manifest that is a directory or not text panics. Otherwise a manifest gives its targets' documents in order, then itself |
| Manifest.AppendTargets | src/main.rs:37-41 | the loop over the targets equals `ResolveAll`: each target's documents are appended in order, and the first failure stops the loop |
| Manifest.ResolveAllStep | src/main.rs:37-41 | one iteration of the target loop: the head target's documents, then the rest |
| Manifest.ResolveManifest | src/main.rs:32-44 | a readable manifest resolves to its targets' documents followed by its own path |
| Manifest.ResolveShape | src/main.rs:22-47 | a completed resolution is empty exactly when the path does not exist; otherwise it ends with the path; and it lists only existing paths |
| Manifest.ResolveAllShape | src/main.rs:37-41 | every document listed for a target list exists |
| Manifest.ResolveFuelMonotone | src/main.rs:40 | a resolution that finishes within a depth bound gives the same result for every larger bound |
| Manifest.ResolveAllFuelMonotone | src/main.rs:40 | the same for a target list |
| Manifest.SelfReferenceNeverResolves | src/main.rs:40 | a manifest whose first link names itself never finishes, whatever the depth bound |
| Manifest.LeafTargetsResolveInOrder | src/main.rs:37-44 | links to existing non-manifest documents resolve to exactly those documents, in link order |
| Manifest.LeafManifestResolves | src/main.rs:32-44 | a manifest that links only such documents resolves to its targets, then itself |
| Manifest.CaptureOfLink | src/main.rs:36-38 | the line `xref:name[caption]` captures `name` |
| Manifest.TwoLinkTargets | src/main.rs:36-39 | a manifest with two link lines yields both targets in order, joined to its directory |
| Manifest.TwoLinkManifestResolves | src/main.rs:22-47 | a manifest that links two plain documents resolves to them, then itself |
| Manifest.DirectoryManifestResolves | src/main.rs:22-47 | `dir/index.adoc` that links `a` and `b` resolves to `dir/a`, `dir/b`, `dir/index.adoc` |
| Paths.Components | src/main.rs:32 | the normal components of a path, the ones `Path::ends_with` compares, are never empty or `.` |
| Paths.JoinPath | src/main.rs:39 | a relative name is joined with one `/`; an absolute name replaces the base |
| Paths.ParentOfJoin | src/main.rs:33 | the parent of `dir/name` is `dir` |
| History.ChangedPathsMember | src/git.rs:87-97 | a path is recorded for a diff exactly when some change at that path is not a deletion |
| History.FileChanges | src/utils/git.rs:132-148 | the recorded file names, without repeats, are exactly the non-deleted locations |
| History.Pairs | src/git.rs:25-37 | the walk of n commits gives n-1 consecutive pairs (newer, older), in walk order |
| Git.ChangeFromCommit | src/git.rs:77-106 | the newer commit's time and the non-deleted paths of the diff; nothing when the diff fails |
| Git.InsertAll | src/git.rs:30-32 | `or_insert_with` for each file: new files get the time, and files already in the map keep theirs, in any order |
| Git.New | src/git.rs:18-53 | no result exactly when the walk is empty, the newest commit cannot be loaded, or the oldest commit's time cannot be read; otherwise the map built pair by pair and the oldest commit's time as the fallback |
| Git.FirstWinsCharacterization | src/git.rs:26-37 | a file is in the map exactly when some pair lists it, and its time is the newer commit's time of the first such pair in walk order |
| Git.FirstWinsStable | src/git.rs:31 | once a file has a time, later pairs never change it |
| Git.LastCommitTime | src/git.rs:55-68 | a lookup always answers: the recorded time, or else the fallback |
| Git.LastCommitTimeAfterScan | src/git.rs:18-68 | after a scan, a file has the time of the newest commit whose diff lists it, or the oldest commit's time when none does |
| Git.SingleCommit | src/git.rs:25-46 | a walk of one commit records no file, and every file gets that commit's time |
| AsyncGit.Cont | src/utils/git.rs:41-47 | the loop cuts the walk into its consecutive pairs; an empty walk has none, because `unwrap` panics |
| AsyncGit.ChangeFromCommit | src/utils/git.rs:125-156 | the newer commit's time and its changed files without repeats; nothing when the diff fails or the time does not fit in `u32` |
| AsyncGit.PairEntries | src/utils/git.rs:69-86 | one (file, time) entry per changed file of the pair, all with the pair's time; none for a failed pair |
| AsyncGit.Reverse | src/utils/git.rs:89 | element i of the result is element n-1-i of the input |
| AsyncGit.PairLists | src/utils/git.rs:67-87 | one entry list per pair, in walk order |
| AsyncGit.CollectAppend | src/utils/git.rs:90 | collecting the join of two lists is the map of the first, overridden by the map of the second |
| AsyncGit.CollectUniform | src/utils/git.rs:76-82 | entries that all carry one time collect to that time on their files, whatever their order |
| AsyncGit.PairMap | src/utils/git.rs:69-90 | one pair puts exactly its changed files into the map, all with its time |
| AsyncGit.MtimesSnoc | src/utils/git.rs:67-90 | one more pair at the end of the walk only adds files that no earlier pair listed |
| AsyncGit.MtimesIsFirstWins | src/utils/git.rs:67-90 | with every time in `u32` range, flatten, reverse and collect give the same map as the synchronous scanner's first-wins insertion |
| AsyncGit.OutOfRangePairIgnored | src/utils/git.rs:154-155 | a pair whose time does not fit in `u32` contributes nothing |
| AsyncGit.New | src/utils/git.rs:22-104 | empty defaults for an empty walk (the blocking task panics); otherwise the collected map, and the fallback shown at UTC+8 |
| AsyncGit.LastCommitTime | src/utils/git.rs:106-119 | a lookup always answers: a recorded time is shown in UTC, and otherwise the stored default text is returned |
| AsyncGit.CompareWithSynchronous | src/utils/git.rs:49-57 | both scanners record the same files with the same times. For an unrecorded file they differ. The synchronous one gives the oldest commit, this one the commit before it (or "now" for a one-commit walk), at UTC+8 |
| Config.Asciidoc.Default | src/config/asciidoc.rs:21-37 | the five default attributes (icons=font, toc=1, experimental="", source-highlighter=highlight.js, plantuml-format=svg) and the extensions asciidoctor-mathematical and asciidoctor-diagram, in that order |
| Config.Asciidoc.constructor | src/config/asciidoc.rs:7-11 | a configuration holds exactly the given extensions and attributes |
| Config.Asciidoc.Extend | src/config/asciidoc.rs:14-17 | the other side's extensions are appended in order. The attribute keys are the union of both. The other side's value wins on a shared key, and every other value is kept. An empty other side changes nothing |
| Converter.Asciidoctor.constructor | src/asciidoctor.rs:11-18 | a new command has the given input and destination and no attributes or plugins |
| Converter.Asciidoctor.Attr | src/asciidoctor.rs:19-22 | appends one attribute; plugins unchanged |
| Converter.Asciidoctor.Plugin | src/asciidoctor.rs:23-26 | appends one plugin; attributes unchanged |
| Converter.Asciidoctor.EnableToc | src/asciidoctor.rs:27-30 | appends `toc=1`; plugins unchanged |
| Converter.Asciidoctor.EnableDiagram | src/asciidoctor.rs:31-35 | appends `outdir=<destination>` to the attributes and the diagram plugin to the plugins |
| Converter.Asciidoctor.Build | src/asciidoctor.rs:36-51 | the argument vector, with its length of 5 + 2·attributes + 2·plugins |
| Builder.AsciidoctorBuilder.constructor | src/utils/asciidoctor_builder.rs:11-18 | a new builder has the given input and destination and no attributes or plugins |
| Builder.AsciidoctorBuilder.Attr | src/utils/asciidoctor_builder.rs:20-23 | appends one attribute; plugins unchanged |
| Builder.AsciidoctorBuilder.Plugin | src/utils/asciidoctor_builder.rs:25-31 | appends the plugin; exactly the diagram plugin also appends `outdir=<destination>` |
| Builder.AsciidoctorBuilder.Build | src/utils/asciidoctor_builder.rs:33-48 | the argument vector, with its length of 5 + 2·attributes + 2·plugins |
| CommandLine.Options | src/utils/asciidoctor_builder.rs:42-47 | `flag x` for every x: twice as many words, the flag at even positions and each x after it |
| CommandLine.ArgvLayout | src/utils/asciidoctor_builder.rs:34-47 | `input -D dest -o -`, then `-a attr` per attribute, then `-r plugin` per plugin, each at its computed position |
| CommandLine.ArgvInjective | src/asciidoctor.rs:36-51 | two builders with as many attributes give the same vector only when input, destination, attributes and plugins agree |
| CommandLine.Assemble | src/asciidoctor.rs:45-50 | the two loops of `build` produce exactly that layout |
| Generator.Segments | src/generator.rs:129-133 | splitting the path always gives at least one segment |
| Generator.Ancestors | src/generator.rs:134-142 | one breadcrumb per segment except the last |
| Generator.AncestorsAt | src/generator.rs:135-140 | breadcrumb i is segment i, with the URL "/" followed by segments 0..i joined by `/` |
| Generator.AncestorsAbsolute | src/generator.rs:137-138 | every breadcrumb URL starts with `/` |
| Generator.AncestorsChain | src/generator.rs:136-139 | each breadcrumb URL extends the previous one by `/` and one segment |
| Generator.AncestorsLeadToPage | src/generator.rs:128-143 | the last breadcrumb URL followed by the page's own name is "/" plus the whole path with `public/` removed |
| Generator.TopLevelPage | src/generator.rs:128-143 | a page directly under the site root has no breadcrumbs |
| Generator.GeneratePathes | src/generator.rs:128-143 | the push loop produces exactly `Ancestors` of the segments |
| Generator.DestNameIsComponent | src/generator.rs:55-57 | renaming a file name (`content`→`public`, `.adoc`→`.html`) keeps it free of `/` |
| Generator.DestFileInDestDir | src/generator.rs:47-57 | the page of `dir/name` is written into the output directory of `dir` that `generate_html` creates |
| Generator.Assets | src/generator.rs:82-86 | the copied images are exactly the images that do not start with `diag-` |
| Generator.MoveAssetsReady | src/generator.rs:90-108 | one move copies only into a directory that exists or that it has just created |
| Generator.MoveAllReady | src/generator.rs:83-87 | across all moves of a page, every copy's target directory exists or is created right before the copy |
| Generator.MoveAllSound | src/generator.rs:90-107 | every copy takes an existing asset of the page to the same relative place in the output directory |
| Generator.MoveAllComplete | src/generator.rs:83-107 | every existing asset of the page is copied |
| Generator.AttrTexts | src/generator.rs:116-121 | one `key=value` per key in iteration order: string values bare, other values as TOML prints them |
| Generator.Outdirs | src/generator.rs:122-124 | the `outdir=` attributes that the extensions add; there are some exactly when the diagram extension is configured |
| Generator.OneArgumentPerAttribute | src/generator.rs:116-121 | whatever the iteration order, there is exactly one argument per configured attribute, and each attribute's `key=value` is among them |
| Generator.AddAttributes | src/generator.rs:116-121 | the attribute loop appends one `key=value` per map entry in some enumeration of the keys; plugins unchanged |
| Generator.AddPlugins | src/generator.rs:122-124 | the extension loop appends every extension in order, and an outdir attribute per diagram extension |
| Generator.GenerateRawPage | src/generator.rs:110-126 | the argument vector is the builder layout: every configured attribute once (in some enumeration order), then the outdirs, then the extensions in order |
| Generator.HtmlEffects | src/generator.rs:37-88 | no effect when the source is missing or not a file. The first effect creates the output directory, and it is the only effect when that fails. Otherwise the second effect is the conversion with the arguments `generate_raw_page` builds from the configuration for this source file and output directory. The only write is the page's destination, right after the conversion |
| Generator.GenerateHtml | src/generator.rs:37-88 | the guards, the output directory, the call to `generate_raw_page` with the configuration, the write and the asset moves have exactly the effects `HtmlEffects` lists, for some iteration order of the attributes |
| Generator.PageEffects | src/generator.rs:37-88 | for `dir/name`: create the output directory, convert with this page's arguments into that directory, and write the page into it. Then the copies, each from a non-diagram image into a directory that exists by then |
| FileTree.Insert | src/filetree.rs:43-50 | inserting adds exactly one element (multiset) |
| FileTree.SortLevel | src/filetree.rs:43-50 | sorting one level is a permutation |
| FileTree.InsertSorted | src/filetree.rs:43-50 | inserting into a sorted level keeps it sorted under the comparator |
| FileTree.SortLevelSorted | src/filetree.rs:43-50 | a sorted level puts directories first, and names in order within each kind |
| FileTree.BeforeAsymmetric | src/filetree.rs:45-48 | the comparator never says Less both ways |
| FileTree.NotBeforeTransitive | src/filetree.rs:45-48 | "not Less" is transitive |
| FileTree.SortedMeans | src/filetree.rs:45-48 | in a sorted level, no file precedes a directory, and names of one kind are in order |
| FileTree.SortTreeSorted | src/filetree.rs:42-56 | every level of the sorted tree is sorted |
| FileTree.SortTreePermutes | src/filetree.rs:42-56 | the sorted top level is a permutation of the nodes, each with sorted children |
| FileTree.SortTreeNodes | src/filetree.rs:42-56 | the in-order sort followed by the recursive loop equals `SortTree` |
| FileTree.HeadingTitle | src/filetree.rs:133-139 | a title is non-empty and has no surrounding whitespace |
| FileTree.SkippableHasNoTitle | src/filetree.rs:141-144 | blank, attribute and comment lines never give a title |
| FileTree.TitleOf | src/filetree.rs:132-146 | a found title is non-empty |
| FileTree.TitleOfFound | src/filetree.rs:132-146 | a found title comes from a level-0 heading line that only skippable lines precede |
| FileTree.TitleAtIsTitle | src/filetree.rs:132-146 | such a heading line is the title found |
| FileTree.TitleOfFirstLine | src/filetree.rs:132-146 | the title is x exactly when some line gives x and only skippable lines precede it |
| FileTree.ExtractTitle | src/filetree.rs:128-153 | an unreadable file has no title; a title is non-empty |
| FileTree.Extension | src/filetree.rs:105 | an extension has no `.` |
| FileTree.ScanEntriesStep | src/filetree.rs:70-122 | one listed entry appends its nodes and its flat-list entries |
| FileTree.ScanEntriesSkip | src/filetree.rs:78-81 | a hidden or ignored entry changes nothing |
| FileTree.ScanFailsFromPrefix | src/filetree.rs:68-70 | once some entry's listing fails, the whole scan fails |
| FileTree.ScanWalkStep | src/filetree.rs:70-122 | one step of the entry loop: a failure ends the scan, and otherwise the nodes and the flat list grow by the entry's share |
| FileTree.ScanDirectory | src/filetree.rs:60-126 | the entry loop equals the scan specification `ScanInto` |
| FileTree.ScanOne | src/filetree.rs:71-121 | one entry: skipped if hidden. A directory's node is pushed after its own scan; an `.adoc` page's node carries its title and url; other files are ignored |
| FileTree.ScanEntriesShape | src/filetree.rs:60-126 | a successful scan is well formed: level, path, no title or url for a directory, `.adoc` and url for a page, children one level down. Every tree node is in the flat list, which has one entry per node |
| FileTree.ScanEntryShape | src/filetree.rs:83-121 | the same for one entry |
| FileTree.SortTreeWellFormed | src/filetree.rs:42-56 | sorting keeps the tree well formed |
| FileTree.Generate | src/filetree.rs:24-40 | the method equals `FileTreeOf`: empty for a missing content directory, a failure when a listing fails, else the sorted tree and the flat list |
| FileTree.FileTreeOfMeans | src/filetree.rs:24-40 | failure exactly when the directory exists and a listing fails. The root is sorted, well formed, and a permutation of the scanned top level. The flat list holds every scanned node, one entry per node |
| FileTreeView.MatchMakesVisible | theme/src/components/file-tree.tsx:152-163 | a match anywhere below a node makes the node visible |
| FileTreeView.VisibleHasMatch | theme/src/components/file-tree.tsx:145-166 | with a term, a visible node has a matching node at or below it, and the lemma returns the route to it |
| FileTreeView.VisibleIffMatchBelow | theme/src/components/file-tree.tsx:145-166 | everything is visible without a term; with a term, a node is visible exactly when a node at or below it matches |
| FileTreeView.FileVisibleIffMatches | theme/src/components/file-tree.tsx:159-165 | a page is visible exactly when it matches |
| FileTreeView.VisibleIgnoresExpanded | theme/src/components/file-tree.tsx:145-166 | visibility does not depend on the expanded set |
| FileTreeView.Toggled | theme/src/components/file-tree.tsx:276-286 | the toggled path flips; every other path is unchanged |
| FileTreeView.ToggleTwice | theme/src/components/file-tree.tsx:276-286 | toggling twice restores the set |
| FileTreeView.HandleToggle | theme/src/components/file-tree.tsx:276-286 | the copy-and-flip equals `Toggled` |
| FileTreeView.AutoExpand | theme/src/components/file-tree.tsx:219-231 | the loop adds the directory after each of the first n-1 parts of the path |
| FileTreeView.DirAfterIsPrefix | theme/src/components/file-tree.tsx:224-228 | the directory after i parts is the first i parts joined by `/` |
| FileTreeView.AutoExpandOpensAncestors | theme/src/components/file-tree.tsx:219-231 | for a relative path, the expanded set is exactly its proper prefix directories. Each is followed by `/` in the path, and there are one fewer of them than parts |
| FileTreeView.ExpandedForIsPrefixes | theme/src/components/file-tree.tsx:224-229 | the expanded set is the set of the `/`-joined proper prefixes |
| FileTreeView.PrefixesDistinct | theme/src/components/file-tree.tsx:224-229 | the prefixes are distinct: n of them for n steps |
| FileTreeView.HandleSearch | theme/src/components/file-tree.tsx:288-305 | the loop over the flat list equals `SearchExpanded` |
| FileTreeView.SearchOnlyAdds | theme/src/components/file-tree.tsx:294-301 | a search never collapses anything. Every path it adds is a visible directory of the flat list, and every visible directory ends up expanded |
| FileTreeView.SearchIdempotent | theme/src/components/file-tree.tsx:294-301 | searching again for the same term expands nothing more |
| Duration.New | src/duration.rs:8-11 | only a non-zero duration is accepted; it is kept, and it formats to non-empty text |
| Duration.Fmt | src/duration.rs:15-31 | the formatter's conditional pushes equal `Format` |
| Duration.Decompose | src/duration.rs:17-25 | minutes·60000 + seconds·1000 + milliseconds is the duration, with seconds below 60 and milliseconds below 1000 |
| Duration.ParseFormat | src/duration.rs:15-31 | parsing the text of a non-zero duration gives that duration back |
| Duration.FormatInjective | src/duration.rs:15-31 | different non-zero durations have different texts |
| Duration.FormatNonEmpty | src/duration.rs:17-30 | a duration has a component exactly when it is non-zero; zero formats to empty text |
| Duration.ExampleOneMinute | src/duration.rs:39-42 | 60000 ms formats to `1m` |
| Duration.ExampleMinuteAndSeconds | src/duration.rs:45-48 | 80000 ms formats to `1m 20s` |
| Duration.ExampleAllUnits | src/duration.rs:51-54 | 80030 ms formats to `1m 20s 30ms` |
| Duration.ExampleSeconds | src/duration.rs:57-60 | 20000 ms formats to `20s` |
| Duration.ExampleSecondsAndMillis | src/duration.rs:63-66 | 20030 ms formats to `20s 30ms` |
| Duration.ExampleMillis | src/duration.rs:69-72 | 30 ms formats to `30ms` |

## Left out

- Repository discovery, the rev-walk and the tree diffing of the git library: the walk is a sequence of commits and the diff a function input. In `src/git.rs`, failing to load the newest commit or to read the oldest commit's time gives no result (`Git.New` takes both outcomes as inputs). A failed lookup of any later commit panics at its `unwrap` and is left out. A commit time that cannot be read inside `change_from_commit` is folded into a failed diff. In `src/utils/git.rs` every failed lookup is folded into a failed diff.
- AsyncGit.New: when looking up the commit behind the fallback fails, the real task returns early and leaves both defaults untouched. The model treats commit lookups as always succeeding.
- The blocking task, the `RwLock`s and the progress bar of `src/utils/git.rs`: the model gives the state once the task has finished. `join_all` over the asset moves is modelled as the moves in sequence.
- Date formatting with chrono: a time is kept as seconds plus the UTC offset it is shown in. Its `%Y-%m-%d %H:%M:%S` text is not modelled.
- Git.New: the map's times are unbounded integers. The source stores `u32` times, which the git library already gives as `u32`.
- The `main` entry point: argument parsing, the worker pool, index generation, the HTML parser (`src/html.rs`), templates and minification. These are not part of this model. The page's image URLs and converter output are inputs.
- Spawning `asciidoctor` and reading its output: `Build` returns the argument vector the process would get.
- Manifest.ParseIndexFile: the walk carries a depth bound (fuel). The source has no cycle check and recurses until the stack overflows; running out of fuel is `OutOfFuel`.
- Manifest: reading a manifest that is a directory or is not UTF-8 panics in the source. That is modelled as `Panic(path)`, which ends the whole walk.
- Paths: `Path::parent`, `join` and `ends_with` are modelled for slash-separated strings. Normalisation of `.`, `..` and repeated separators beyond what these functions do is not modelled.
- FileTree: a listing that cannot be read, or a failing `next_entry`, is `Unreadable`. A file that cannot be read as text has contents None. Non-UTF-8 file names and `to_string_lossy` are not modelled.
- FileTree.RelativePath: `strip_prefix("content")` is modelled for paths spelled as `content` or `content/…`.
- FileTree.SortTreeNodes: the stable merge sort of the standard library is modelled as a stable insertion sort. `Insert` places a node after every node it does not sort before, so ties keep their order as in `sort_by`. Sorted order and permutation are proved. Stability itself is not stated as a lemma.
- FileTree.ScanEntriesShape: the flat list is proved to hold every node, one entry per node. The post-order position of each directory after its descendants is not stated.
- Generator.HtmlEffects: `create_dir_all` is one effect. The ancestor directories it creates are not added to the file system the later moves consult. The panics of the `unwrap`s in `move_assets`, and a failed page write, are not modelled.
- Generator.GenerateRawPage: the iteration order of the attribute `HashMap` is unspecified. The contract holds for some enumeration of its keys.
- Config.Display: TOML's printing of non-string values is modelled for integers and booleans. Other values carry their printed text, and string escapes are not modelled.
- The React component's rendering, `localStorage` persistence, the mobile layout, `highlightText` and the data fetch: the view model is the visibility and expansion logic only.
- FileTreeView.Matches: `toLowerCase` is modelled for ASCII letters only.
- Duration: the `u128` field is a bounded newtype. `Display` output is the `Fmt` text.
