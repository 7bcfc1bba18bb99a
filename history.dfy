/**
 * The inputs both git scanners read: the commits of a rev-walk from HEAD,
 * newest first, and the tree diff between two commits. Repository discovery,
 * the walk itself and the diffing are done by the git library; here they are
 * inputs. Which changes the library reports as deletions is left to the diff.
 */
module History {
  import opened Wrappers

  /** A walked commit: an identity and its committer time in seconds since the epoch. */
  datatype Commit = Commit(id: nat, seconds: int)

  datatype ChangeKind = Addition | Deletion | Modification | Rewrite

  /** One entry of a tree diff: what happened at which path. */
  datatype Change = Change(kind: ChangeKind, location: string)

  /** The diff of the first commit's tree towards the second's, or None when the
      library fails to produce it (a tree or commit that cannot be read). */
  type Diff = (Commit, Commit) -> Option<seq<Change>>

  predicate IsFileChange(c: Change) {
    !c.kind.Deletion?
  }

  /** The locations of all changes that are not deletions. */
  function ChangedPaths(changes: seq<Change>): set<string>
    decreases |changes|
  {
    if changes == [] then {}
    else
      var c := changes[|changes| - 1];
      ChangedPaths(changes[..|changes| - 1]) + (if IsFileChange(c) then {c.location} else {})
  }

  /** A path is reported exactly when some change at it is not a deletion. */
  lemma {:induction false} ChangedPathsMember(changes: seq<Change>, p: string)
    ensures p in ChangedPaths(changes) <==>
      exists i :: 0 <= i < |changes| && changes[i].location == p && IsFileChange(changes[i])
    decreases |changes|
  {
    if changes != [] {
      var n := |changes| - 1;
      ChangedPathsMember(changes[..n], p);
      assert forall i :: 0 <= i < n ==> changes[..n][i] == changes[i];
    }
  }

  /** The non-deletion locations without repeats, in order of first appearance:
      the contents of the set of changed file names, in one iteration order. */
  function FileChanges(changes: seq<Change>): (r: seq<string>)
    ensures forall i, j :: 0 <= i < j < |r| ==> r[i] != r[j]
    ensures forall p :: p in r <==> p in ChangedPaths(changes)
    decreases |changes|
  {
    if changes == [] then []
    else
      var n := |changes| - 1;
      var prefix := FileChanges(changes[..n]);
      var c := changes[n];
      if IsFileChange(c) && c.location !in prefix then prefix + [c.location] else prefix
  }

  /** Consecutive pairs of the walk: (c0, c1), (c1, c2), ..., newer first. */
  function Pairs(walk: seq<Commit>): (r: seq<(Commit, Commit)>)
    ensures |walk| > 0 ==> |r| == |walk| - 1
    ensures walk == [] ==> r == []
    ensures forall i :: 0 <= i < |r| ==> r[i] == (walk[i], walk[i + 1])
    decreases |walk|
  {
    if |walk| < 2 then [] else [(walk[0], walk[1])] + Pairs(walk[1..])
  }

  /** Extending the walk by one commit adds exactly one pair at the end. */
  lemma PairsSnoc(walk: seq<Commit>, c: Commit)
    requires walk != []
    ensures Pairs(walk + [c]) == Pairs(walk) + [(walk[|walk| - 1], c)]
  {
    var w := walk + [c];
    var l, r := Pairs(w), Pairs(walk) + [(walk[|walk| - 1], c)];
    assert |l| == |r| == |walk|;
    forall i | 0 <= i < |walk|
      ensures l[i] == r[i]
    {
      assert l[i] == (w[i], w[i + 1]);
      if i < |walk| - 1 {
        assert r[i] == Pairs(walk)[i] == (walk[i], walk[i + 1]);
      }
    }
  }
}
