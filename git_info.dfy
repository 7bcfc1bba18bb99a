/**
 * The synchronous git scanner: for every file, the time of the newest commit
 * that touched it, plus a fallback time for files git knows nothing about.
 * The walk goes newest first; each consecutive pair (newer, older) is diffed
 * and every non-deleted path of the diff is recorded with the newer commit's
 * time, unless the path already has a time.
 */
module Git {
  import opened Wrappers
  import opened History

  datatype GitInfo = GitInfo(mtimes: map<string, int>, defaultTime: int)

  /** What one pair of the walk contributes: the newer commit's time and the
      non-deleted paths of the diff, or nothing when the diff fails. */
  function PairChange(newer: Commit, older: Commit, diff: Diff): Option<(int, set<string>)> {
    if diff(newer, older).None? then None
    else Some((newer.seconds, ChangedPaths(diff(newer, older).value)))
  }

  /** The pair (newer, older) records `k`. */
  ghost predicate Lists(newer: Commit, older: Commit, diff: Diff, k: string) {
    PairChange(newer, older, diff).Some? && k in PairChange(newer, older, diff).value.1
  }

  /** Pair `j` is the first pair of the walk that records `k`. */
  ghost predicate FirstLister(pairs: seq<(Commit, Commit)>, diff: Diff, k: string, j: int) {
    0 <= j < |pairs| && Lists(pairs[j].0, pairs[j].1, diff, k)
    && forall i :: 0 <= i < j ==> !Lists(pairs[i].0, pairs[i].1, diff, k)
  }

  /** `entry(k).or_insert(t)` for every k of `keys`: new keys get `t`, existing keys keep their time. */
  function OrInsert(m: map<string, int>, keys: set<string>, t: int): map<string, int> {
    map k | k in m.Keys + keys :: if k in m then m[k] else t
  }

  /** The map after processing `pairs` in walk order. */
  function FirstWins(pairs: seq<(Commit, Commit)>, diff: Diff): map<string, int>
    decreases |pairs|
  {
    if pairs == [] then map[]
    else
      var n := |pairs| - 1;
      var m := FirstWins(pairs[..n], diff);
      match PairChange(pairs[n].0, pairs[n].1, diff)
      case None => m
      case Some(change) => OrInsert(m, change.1, change.0)
  }

  /** A file is recorded exactly when some pair lists it, and then with the time
      of the first pair in walk order that lists it. */
  lemma {:induction false} FirstWinsCharacterization(pairs: seq<(Commit, Commit)>, diff: Diff, k: string)
    ensures k in FirstWins(pairs, diff) <==> exists j :: 0 <= j < |pairs| && Lists(pairs[j].0, pairs[j].1, diff, k)
    ensures k in FirstWins(pairs, diff) ==>
      exists j :: FirstLister(pairs, diff, k, j) && FirstWins(pairs, diff)[k] == pairs[j].0.seconds
    decreases |pairs|
  {
    if pairs != [] {
      var n := |pairs| - 1;
      var prefix := pairs[..n];
      FirstWinsCharacterization(prefix, diff, k);
      assert forall i :: 0 <= i < n ==> prefix[i] == pairs[i];
      if k in FirstWins(prefix, diff) {
        var j :| FirstLister(prefix, diff, k, j) && FirstWins(prefix, diff)[k] == prefix[j].0.seconds;
        assert FirstLister(pairs, diff, k, j);
      } else if Lists(pairs[n].0, pairs[n].1, diff, k) {
        assert FirstLister(pairs, diff, k, n);
      }
    }
  }

  /** Once a file has a time, later pairs never change it. */
  lemma {:induction false} FirstWinsStable(pairs: seq<(Commit, Commit)>, n: nat, diff: Diff)
    requires n <= |pairs|
    ensures forall k :: k in FirstWins(pairs[..n], diff) ==>
      k in FirstWins(pairs, diff) && FirstWins(pairs, diff)[k] == FirstWins(pairs[..n], diff)[k]
    decreases |pairs| - n
  {
    if n < |pairs| {
      var m := |pairs| - 1;
      assert pairs[..m][..n] == pairs[..n];
      FirstWinsStable(pairs[..m], n, diff);
      assert pairs[..|pairs|] == pairs;
    } else {
      assert pairs[..n] == pairs;
    }
  }

  /** `change_from_commit`: the diff's non-deleted paths are collected one change at a time. */
  method ChangeFromCommit(last: Commit, next: Commit, diff: Diff) returns (r: Option<(int, set<string>)>)
    ensures r == PairChange(last, next, diff)
  {
    var d := diff(last, next);
    if d.None? {
      return None;
    }
    var changes := d.value;
    var filenames: set<string> := {};
    var i := 0;
    while i < |changes|
      invariant 0 <= i <= |changes|
      invariant filenames == ChangedPaths(changes[..i])
    {
      assert changes[..i + 1][..i] == changes[..i];
      if IsFileChange(changes[i]) {
        filenames := filenames + {changes[i].location};
      }
      i := i + 1;
    }
    assert changes[..i] == changes;
    r := Some((last.seconds, filenames));
  }

  lemma OrInsertPointwise(m0: map<string, int>, keys: set<string>, t: int, m: map<string, int>)
    requires forall k :: k in m <==> k in m0 || k in keys
    requires forall k :: k in m ==> m[k] == (if k in m0 then m0[k] else t)
    ensures m == OrInsert(m0, keys, t)
  {
    var r := OrInsert(m0, keys, t);
    assert m.Keys == r.Keys;
  }

  /** `entry(name).or_insert_with(|| time)` for each name of the set, in any order. */
  method InsertAll(m0: map<string, int>, keys: set<string>, t: int) returns (m: map<string, int>)
    ensures m == OrInsert(m0, keys, t)
  {
    m := m0;
    var todo := keys;
    while todo != {}
      invariant todo <= keys
      invariant forall k :: k in m <==> k in m0 || (k in keys && k !in todo)
      invariant forall k :: k in m ==> m[k] == (if k in m0 then m0[k] else t)
      decreases |todo|
    {
      var name :| name in todo;
      if name !in m {
        m := m[name := t];
      }
      todo := todo - {name};
    }
    OrInsertPointwise(m0, keys, t, m);
  }

  /** `GitInfo::new` over a given walk. `firstLoads` says whether the newest
      walked commit can be loaded, and `oldestTimeReads` whether the oldest
      commit's time can be read; when either fails, or the walk is empty, there
      is no result. Otherwise the first-wins map of all pairs, and the oldest
      commit's time as fallback. */
  method New(walk: seq<Commit>, diff: Diff, firstLoads: bool, oldestTimeReads: bool) returns (r: Option<GitInfo>)
    ensures r.None? <==> walk == [] || !firstLoads || !oldestTimeReads
    ensures r.Some? ==> r.value.mtimes == FirstWins(Pairs(walk), diff)
    ensures r.Some? ==> r.value.defaultTime == walk[|walk| - 1].seconds
  {
    if walk == [] || !firstLoads {
      return None;
    }
    var mtimes: map<string, int> := map[];
    var last := walk[0];
    var i := 1;
    assert Pairs(walk[..1]) == [];
    while i < |walk|
      invariant 1 <= i <= |walk|
      invariant last == walk[i - 1]
      invariant mtimes == FirstWins(Pairs(walk[..i]), diff)
    {
      var next := walk[i];
      var change := ChangeFromCommit(last, next, diff);
      ghost var before := Pairs(walk[..i]);
      assert walk[..i + 1] == walk[..i] + [next];
      PairsSnoc(walk[..i], next);
      assert Pairs(walk[..i + 1]) == before + [(last, next)];
      assert (before + [(last, next)])[..|before|] == before;
      if change.Some? {
        mtimes := InsertAll(mtimes, change.value.1, change.value.0);
      }
      last := next;
      i := i + 1;
    }
    assert walk[..i] == walk;
    if !oldestTimeReads {
      return None;
    }
    r := Some(GitInfo(mtimes, last.seconds));
  }

  /** `get_last_commit_time_of_file`: the recorded time, else the fallback. */
  function LastCommitTime(info: GitInfo, file: string): (r: Option<int>)
    ensures r.Some?
    ensures file !in info.mtimes ==> r == Some(info.defaultTime)
  {
    if file in info.mtimes then Some(info.mtimes[file]) else Some(info.defaultTime)
  }

  /** After scanning a walk, a file's time is the time of the newest commit whose
      diff towards its predecessor lists it, and otherwise the oldest commit's time. */
  lemma LastCommitTimeAfterScan(walk: seq<Commit>, diff: Diff, info: GitInfo, file: string)
    requires walk != []
    requires info == GitInfo(FirstWins(Pairs(walk), diff), walk[|walk| - 1].seconds)
    ensures (forall j :: 0 <= j < |walk| - 1 ==> !Lists(walk[j], walk[j + 1], diff, file))
      ==> LastCommitTime(info, file) == Some(walk[|walk| - 1].seconds)
    ensures forall j :: FirstLister(Pairs(walk), diff, file, j) ==> LastCommitTime(info, file) == Some(walk[j].seconds)
  {
    FirstWinsCharacterization(Pairs(walk), diff, file);
  }

  /** A single commit has no pairs: nothing is recorded and every file gets that commit's time. */
  lemma SingleCommit(c: Commit, diff: Diff, file: string)
    ensures FirstWins(Pairs([c]), diff) == map[]
    ensures LastCommitTime(GitInfo(FirstWins(Pairs([c]), diff), c.seconds), file) == Some(c.seconds)
  {
  }
}
