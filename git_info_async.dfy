/**
 * The second git scanner, which runs the walk in a blocking task. The walk is
 * first cut into consecutive pairs; each pair's changed files are listed with
 * the newer commit's time; the lists are flattened, reversed and collected
 * into a map, so the entry of the earliest pair in walk order wins. The
 * fallback time comes from the older-but-one end of the walk.
 */
module AsyncGit {
  import opened Wrappers
  import opened History
  import Git

  const U32Limit: int := 0x1_0000_0000

  /** A formatted time: the instant and the UTC offset (in hours) it is shown in,
      or the empty string the shared state starts with. */
  datatype TimeText = Blank | Stamp(seconds: int, utcOffsetHours: int)

  datatype GitInfo = GitInfo(mtimes: map<string, int>, defaultTime: TimeText)

  /** The walk cut into (last, next) pairs by a loop; None when the walk is empty,
      where `unwrap` panics inside the task. */
  method Cont(walk: seq<Commit>) returns (cont: Option<seq<(Commit, Commit)>>)
    ensures walk == [] <==> cont.None?
    ensures cont.Some? ==> cont.value == Pairs(walk)
  {
    if walk == [] {
      return None;
    }
    var last := walk[0];
    var pairs: seq<(Commit, Commit)> := [];
    var i := 1;
    assert Pairs(walk[..1]) == [];
    while i < |walk|
      invariant 1 <= i <= |walk|
      invariant last == walk[i - 1]
      invariant pairs == Pairs(walk[..i])
    {
      assert walk[..i + 1] == walk[..i] + [walk[i]];
      PairsSnoc(walk[..i], walk[i]);
      pairs := pairs + [(last, walk[i])];
      last := walk[i];
      i := i + 1;
    }
    assert walk[..i] == walk;
    cont := Some(pairs);
  }

  /** The default instant: the time of the first commit of the last pair, unless it
      cannot be added to the epoch (a negative time); "now" without any pair. */
  function Fallback(cont: seq<(Commit, Commit)>, now: int): int {
    if cont == [] then now
    else if cont[|cont| - 1].0.seconds >= 0 then cont[|cont| - 1].0.seconds
    else now
  }

  /** `change_from_commit`: the newer commit's time and the changed files, or nothing
      when the diff fails or the time does not convert to `u32`. */
  function PairChange(newer: Commit, older: Commit, diff: Diff): Option<(int, seq<string>)> {
    if diff(newer, older).None? || !(0 <= newer.seconds < U32Limit) then None
    else Some((newer.seconds, FileChanges(diff(newer, older).value)))
  }

  /** The callback inserts every non-deleted location into the set of file names;
      the set is kept as a list without repeats in insertion order. */
  method ChangeFromCommit(last: Commit, next: Commit, diff: Diff) returns (r: Option<(int, seq<string>)>)
    ensures r == PairChange(last, next, diff)
  {
    var d := diff(last, next);
    if d.None? {
      return None;
    }
    var changes := d.value;
    var filenames: seq<string> := [];
    var i := 0;
    while i < |changes|
      invariant 0 <= i <= |changes|
      invariant filenames == FileChanges(changes[..i])
    {
      assert changes[..i + 1][..i] == changes[..i];
      if IsFileChange(changes[i]) && changes[i].location !in filenames {
        filenames := filenames + [changes[i].location];
      }
      i := i + 1;
    }
    assert changes[..i] == changes;
    if !(0 <= last.seconds < U32Limit) {
      return None;
    }
    r := Some((last.seconds, filenames));
  }

  /** The `(file, time)` list of one pair. */
  function PairEntries(p: (Commit, Commit), diff: Diff): (r: seq<(string, int)>)
    ensures PairChange(p.0, p.1, diff).None? ==> r == []
    ensures PairChange(p.0, p.1, diff).Some? ==>
      |r| == |PairChange(p.0, p.1, diff).value.1|
      && forall j :: 0 <= j < |r| ==> r[j] == (PairChange(p.0, p.1, diff).value.1[j], p.0.seconds)
  {
    var c := PairChange(p.0, p.1, diff);
    if c.None? then []
    else seq(|c.value.1|, j requires 0 <= j < |c.value.1| => (c.value.1[j], c.value.0))
  }

  function Flatten<T>(xss: seq<seq<T>>): seq<T>
    decreases |xss|
  {
    if xss == [] then [] else Flatten(xss[..|xss| - 1]) + xss[|xss| - 1]
  }

  function Reverse<T>(s: seq<T>): (r: seq<T>)
    ensures |r| == |s|
    ensures forall i :: 0 <= i < |s| ==> r[i] == s[|s| - 1 - i]
    decreases |s|
  {
    if s == [] then [] else [s[|s| - 1]] + Reverse(s[..|s| - 1])
  }

  /** `collect` into a map: entries are inserted in order, a later one overwriting. */
  function Collect(entries: seq<(string, int)>): map<string, int>
    decreases |entries|
  {
    if entries == [] then map[]
    else
      var e := entries[|entries| - 1];
      Collect(entries[..|entries| - 1])[e.0 := e.1]
  }

  function PairLists(cont: seq<(Commit, Commit)>, diff: Diff): (r: seq<seq<(string, int)>>)
    ensures |r| == |cont| && forall i :: 0 <= i < |cont| ==> r[i] == PairEntries(cont[i], diff)
  {
    seq(|cont|, i requires 0 <= i < |cont| => PairEntries(cont[i], diff))
  }

  /** The map the task stores: map, flatten, reverse, collect. */
  function Mtimes(cont: seq<(Commit, Commit)>, diff: Diff): map<string, int> {
    Collect(Reverse(Flatten(PairLists(cont, diff))))
  }

  lemma {:induction false} ReverseAppend<T>(a: seq<T>, b: seq<T>)
    ensures Reverse(a + b) == Reverse(b) + Reverse(a)
  {
    var l, r := Reverse(a + b), Reverse(b) + Reverse(a);
    assert |l| == |r|;
    forall i | 0 <= i < |l|
      ensures l[i] == r[i]
    {
      if i < |b| {
        assert r[i] == b[|b| - 1 - i];
      } else {
        assert r[i] == Reverse(a)[i - |b|] == a[|a| - 1 - (i - |b|)];
      }
    }
  }

  /** Collecting a concatenation: the second part overrides the first. */
  lemma {:induction false} CollectAppend(a: seq<(string, int)>, b: seq<(string, int)>)
    ensures Collect(a + b) == Collect(a) + Collect(b)
    decreases |b|
  {
    if b == [] {
      assert a + b == a;
    } else {
      var n := |b| - 1;
      assert (a + b)[..|a + b| - 1] == a + b[..n];
      CollectAppend(a, b[..n]);
    }
  }

  /** Every key of `entries`, mapped to `t`. */
  function UniformMap(entries: seq<(string, int)>, t: int): map<string, int> {
    map i | 0 <= i < |entries| :: entries[i].0 := t
  }

  lemma UniformSnoc(prefix: seq<(string, int)>, e: (string, int), t: int)
    ensures UniformMap(prefix + [e], t) == UniformMap(prefix, t)[e.0 := t]
  {
    var s := prefix + [e];
    var l, r := UniformMap(s, t), UniformMap(prefix, t)[e.0 := t];
    forall k
      ensures k in l <==> k in r
    {
      if k in l && k != e.0 {
        var i :| 0 <= i < |s| && s[i].0 == k;
        assert i < |prefix| && prefix[i].0 == k;
      }
      if k in UniformMap(prefix, t) {
        var i :| 0 <= i < |prefix| && prefix[i].0 == k;
        assert s[i].0 == k;
      }
    }
    assert s[|prefix|] == e;
    assert l == r;
  }

  /** Entries that all carry the same time collect to that time on their keys,
      whatever their order and repetition. */
  lemma {:induction false} CollectUniform(entries: seq<(string, int)>, t: int)
    requires forall i :: 0 <= i < |entries| ==> entries[i].1 == t
    ensures Collect(entries) == UniformMap(entries, t)
    decreases |entries|
  {
    if entries != [] {
      var n := |entries| - 1;
      var prefix := entries[..n];
      assert entries == prefix + [entries[n]];
      CollectUniform(prefix, t);
      UniformSnoc(prefix, entries[n], t);
    }
  }

  /** What one pair puts in the map: its files, all with its time. */
  lemma PairMap(p: (Commit, Commit), diff: Diff)
    ensures PairChange(p.0, p.1, diff).None? ==> Collect(Reverse(PairEntries(p, diff))) == map[]
    ensures PairChange(p.0, p.1, diff).Some? ==>
      Collect(Reverse(PairEntries(p, diff)))
        == map f | f in PairChange(p.0, p.1, diff).value.1 :: p.0.seconds
  {
    var e := Reverse(PairEntries(p, diff));
    if PairChange(p.0, p.1, diff).Some? {
      var fs := PairChange(p.0, p.1, diff).value.1;
      CollectUniform(e, p.0.seconds);
      var l, r := UniformMap(e, p.0.seconds), map f | f in fs :: p.0.seconds;
      assert forall f :: f in l <==> f in r by {
        forall f
          ensures f in l <==> f in r
        {
          if f in fs {
            var j :| 0 <= j < |fs| && fs[j] == f;
            assert e[|e| - 1 - j].0 == f;
          }
        }
      }
      assert l == r;
    } else {
      assert e == [];
    }
  }

  /** One more pair at the end of the walk only adds files no earlier pair listed. */
  lemma MtimesSnoc(cont: seq<(Commit, Commit)>, p: (Commit, Commit), diff: Diff)
    ensures Mtimes(cont + [p], diff) == Collect(Reverse(PairEntries(p, diff))) + Mtimes(cont, diff)
  {
    var lists := PairLists(cont + [p], diff);
    assert lists[..|cont|] == PairLists(cont, diff);
    assert Flatten(lists) == Flatten(PairLists(cont, diff)) + PairEntries(p, diff);
    ReverseAppend(Flatten(PairLists(cont, diff)), PairEntries(p, diff));
    CollectAppend(Reverse(PairEntries(p, diff)), Reverse(Flatten(PairLists(cont, diff))));
  }

  predicate TimesFitU32(cont: seq<(Commit, Commit)>) {
    forall i :: 0 <= i < |cont| ==> 0 <= cont[i].0.seconds < U32Limit
  }

  /** Adding a uniform map under an existing one is `or_insert` of its keys. */
  lemma UnderlayIsOrInsert(m: map<string, int>, files: seq<string>, keys: set<string>, t: int)
    requires forall f :: f in files <==> f in keys
    ensures (map f | f in files :: t) + m == Git.OrInsert(m, keys, t)
  {
    var l, r := (map f | f in files :: t) + m, Git.OrInsert(m, keys, t);
    assert l.Keys == r.Keys;
  }

  /** With every time representable, the reverse-then-collect map is exactly the
      first-wins map of the synchronous scanner. */
  lemma {:induction false} MtimesIsFirstWins(cont: seq<(Commit, Commit)>, diff: Diff)
    requires TimesFitU32(cont)
    ensures Mtimes(cont, diff) == Git.FirstWins(cont, diff)
    decreases |cont|
  {
    if cont == [] {
      assert Flatten(PairLists(cont, diff)) == [];
    } else {
      var n := |cont| - 1;
      var prefix, p := cont[..n], cont[n];
      assert cont == prefix + [p];
      assert TimesFitU32(prefix) by {
        assert forall i :: 0 <= i < n ==> prefix[i] == cont[i];
      }
      MtimesIsFirstWins(prefix, diff);
      MtimesSnoc(prefix, p, diff);
      PairMap(p, diff);
      if diff(p.0, p.1).Some? {
        var changes := diff(p.0, p.1).value;
        UnderlayIsOrInsert(Git.FirstWins(prefix, diff), FileChanges(changes), ChangedPaths(changes), p.0.seconds);
      }
    }
  }

  /** A pair whose time does not fit in `u32` contributes nothing. */
  lemma OutOfRangePairIgnored(cont: seq<(Commit, Commit)>, p: (Commit, Commit), diff: Diff)
    requires !(0 <= p.0.seconds < U32Limit)
    ensures Mtimes(cont + [p], diff) == Mtimes(cont, diff)
  {
    MtimesSnoc(cont, p, diff);
    PairMap(p, diff);
  }

  /** The state the task leaves behind: untouched defaults for an empty walk;
      otherwise the collected map and the fallback shown at UTC+8. */
  method New(walk: seq<Commit>, diff: Diff, now: int) returns (info: GitInfo)
    ensures walk == [] ==> info == GitInfo(map[], Blank)
    ensures walk != [] ==>
      info == GitInfo(Mtimes(Pairs(walk), diff), Stamp(Fallback(Pairs(walk), now), 8))
  {
    var cont := Cont(walk);
    if cont.None? {
      return GitInfo(map[], Blank);
    }
    var systime := Fallback(cont.value, now);
    info := GitInfo(Mtimes(cont.value, diff), Stamp(systime, 8));
  }

  /** `get_last_commit_time_of_file`: the recorded time shown in UTC, else the default text. */
  function LastCommitTime(info: GitInfo, file: string): (r: Option<TimeText>)
    ensures r.Some?
    ensures file in info.mtimes ==> r.value.Stamp? && r.value.utcOffsetHours == 0
    ensures file !in info.mtimes ==> r == Some(info.defaultTime)
  {
    if file in info.mtimes then Some(Stamp(info.mtimes[file], 0)) else Some(info.defaultTime)
  }

  /** The two scanners agree on every recorded file, and differ on the fallback:
      the synchronous one uses the oldest commit, this one the commit before it
      (or "now" for a single commit). */
  lemma CompareWithSynchronous(walk: seq<Commit>, diff: Diff, now: int, file: string)
    requires walk != [] && TimesFitU32(Pairs(walk))
    ensures var sync := Git.GitInfo(Git.FirstWins(Pairs(walk), diff), walk[|walk| - 1].seconds);
      var async := GitInfo(Mtimes(Pairs(walk), diff), Stamp(Fallback(Pairs(walk), now), 8));
      (file in sync.mtimes <==> file in async.mtimes)
      && (file in sync.mtimes ==>
            LastCommitTime(async, file) == Some(Stamp(Git.LastCommitTime(sync, file).value, 0)))
      && (file !in sync.mtimes && |walk| >= 2 ==>
            LastCommitTime(async, file) == Some(Stamp(walk[|walk| - 2].seconds, 8))
            && Git.LastCommitTime(sync, file) == Some(walk[|walk| - 1].seconds))
      && (file !in sync.mtimes && |walk| == 1 ==> LastCommitTime(async, file) == Some(Stamp(now, 8)))
  {
    MtimesIsFirstWins(Pairs(walk), diff);
  }
}
