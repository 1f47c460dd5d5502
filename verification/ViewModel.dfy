/**
  `RefreshGraph` (Logic/ViewModel.cs:76-93): the view model rebuilds its graph
  from the recent commits, the active reference name and, when unreachable
  commits are shown, the fetched unreachable commits whose hashes are not
  among the recent ones.  What the log retriever returns is given as
  parameters.
 */
module Refresh {
  import opened CommitModel
  import opened Graph
  import opened GraphSpec
  import opened GraphBuilder
  import opened SpecFacts
  import opened BuilderProperties

  /** The fetched commits whose hash is not reachable, in their order (the `Where` filter). */
  function Unreached(fetched: seq<Commit>, reachableHashes: seq<Hash>): (r: seq<Commit>)
    ensures forall c :: c in r <==> c in fetched && c.hash !in reachableHashes
    ensures |r| <= |fetched|
  {
    if fetched == [] then []
    else
      var n := |fetched| - 1;
      assert fetched == fetched[..n] + [fetched[n]];
      Unreached(fetched[..n], reachableHashes) + if fetched[n].hash in reachableHashes then [] else [fetched[n]]
  }

  /** A commit whose hash no commit of a batch with unique hashes has keeps the hashes unique. */
  lemma DistinctSnoc(r: seq<Commit>, c: Commit)
    requires DistinctHashes(r) && forall x :: x in r ==> x.hash != c.hash
    ensures DistinctHashes(r + [c])
  {
  }

  /** Dropping the last commit of a batch with unique hashes keeps them unique, and none has its hash. */
  lemma DistinctInit(fetched: seq<Commit>)
    requires DistinctHashes(fetched) && fetched != []
    ensures DistinctHashes(fetched[..|fetched| - 1])
    ensures forall x :: x in fetched[..|fetched| - 1] ==> x.hash != fetched[|fetched| - 1].hash
  {
  }

  /** Filtering keeps hashes unique. */
  lemma {:induction false} UnreachedDistinct(fetched: seq<Commit>, reachableHashes: seq<Hash>)
    requires DistinctHashes(fetched)
    ensures DistinctHashes(Unreached(fetched, reachableHashes))
  {
    if fetched != [] {
      var n := |fetched| - 1;
      var init, last := fetched[..n], fetched[n];
      DistinctInit(fetched);
      UnreachedDistinct(init, reachableHashes);
      var r := Unreached(init, reachableHashes);
      if last.hash !in reachableHashes {
        DistinctSnoc(r, last);
      } else {
        assert r + [] == r;
      }
    }
  }

  /** The orphan candidates of a refresh: none unless unreachable commits are shown. */
  function OrphanCandidates(commits: seq<Commit>, visualizeUnreachable: bool, fetched: seq<Commit>): (r: Option<seq<Commit>>)
    ensures r.Some? <==> visualizeUnreachable
    ensures r.Some? ==> forall c :: c in r.value <==> c in fetched && c.hash !in Hashes(commits)
  {
    if visualizeUnreachable then Some(Unreached(fetched, Hashes(commits))) else None
  }

  /**
    Reachable vertices with unique hashes followed by orphans with unique
    hashes, none of which a reachable commit has, repeat no hash.
   */
  lemma ConcatDistinct(commits: seq<Commit>, u: seq<Commit>)
    requires DistinctHashes(commits) && DistinctHashes(u)
    requires forall c :: c in u ==> c.hash !in Hashes(commits)
    ensures DistinctKeys(AsVertices(commits, false) + AsVertices(u, true))
  {
    var reachable, orphans := AsVertices(commits, false), AsVertices(u, true);
    var all := reachable + orphans;
    forall i, j | 0 <= i < j < |all| ensures Key(all[i]) != Key(all[j]) {
      if j < |reachable| {
        assert commits[i].hash != commits[j].hash;
      } else if i >= |reachable| {
        assert u[i - |reachable|].hash != u[j - |reachable|].hash;
      } else {
        assert u[j - |reachable|] in u;
        HashOf(commits, commits[i]);
      }
    }
  }

  /**
    With unique hashes among the recent commits and among the fetched ones,
    the union of a refresh drops nothing: the commit vertices are the recent
    commits followed by the filtered unreachable ones, all flagged as orphans.
   */
  lemma RefreshCommitVertices(commits: seq<Commit>, fetched: seq<Commit>)
    requires DistinctHashes(commits) && DistinctHashes(fetched)
    ensures var u := Unreached(fetched, Hashes(commits));
      CommitVertices(commits, Some(u)) == AsVertices(commits, false) + AsVertices(u, true)
  {
    var u := Unreached(fetched, Hashes(commits));
    var all := AsVertices(commits, false) + AsVertices(u, true);
    UnreachedDistinct(fetched, Hashes(commits));
    ConcatDistinct(commits, u);
    assert [] + all == all;
    InsertAllNoDuplicates([], all);
  }

  /**
    In a refresh that shows unreachable commits, an orphan of the graph is a
    fetched commit whose hash no recent commit has, and every such fetched
    commit is an orphan of the graph when the fetched hashes are unique.
   */
  lemma RefreshOrphans(commits: seq<Commit>, active: string, fetched: seq<Commit>)
    requires DistinctHashes(commits) && DistinctHashes(fetched)
    ensures var V := GraphVertices(commits, active, OrphanCandidates(commits, true, fetched));
      (forall w :: w in V && w.CommitVertex? && w.orphan ==> w.commit in fetched && w.commit.hash !in Hashes(commits)) &&
      (forall c :: c in fetched && c.hash !in Hashes(commits) ==> CommitVertex(c, true) in V)
  {
    var u := Unreached(fetched, Hashes(commits));
    var cvs := CommitVertices(commits, Some(u));
    GraphCommitVertices(commits, active, Some(u));
    forall w | w in GraphVertices(commits, active, Some(u)) && w.CommitVertex? && w.orphan
      ensures w.commit in fetched && w.commit.hash !in Hashes(commits)
    {
      CommitVertexOrigin(commits, Some(u), w);
    }
    RefreshCommitVertices(commits, fetched);
    CommitVerticesDistinct(commits, Some(u));
    CommitVerticesInGraph(commits, active, Some(u));
    forall c | c in fetched && c.hash !in Hashes(commits) ensures CommitVertex(c, true) in cvs {
      AsVerticesMember(u, true, CommitVertex(c, true));
    }
  }

  /** What the log retriever of an open repository delivers for one refresh. */
  datatype Retrieved = Retrieved(commits: seq<Commit>, activeRefName: string, fetchedUnreachable: seq<Commit>)

  /** The part of the view model a refresh touches. */
  class ViewModel {
    var graph: CommitGraph
    var visualizeUnreachable: bool

    /** A new view model shows an empty graph and hides unreachable commits. */
    constructor ()
      ensures fresh(graph) && graph.vertices == [] && graph.edges == []
      ensures !visualizeUnreachable
    {
      graph := new CommitGraph();
      visualizeUnreachable := false;
    }

    /**
      Rebuilds the graph from `commits` (the recent commits), `activeRefName`
      and `fetchedUnreachable` (the commits fetched for the recent
      unreachable hashes), which are consulted only when unreachable commits
      are shown.
     */
    method RefreshGraph(commits: seq<Commit>, activeRefName: string, fetchedUnreachable: seq<Commit>)
      modifies this
      ensures visualizeUnreachable == old(visualizeUnreachable)
      ensures fresh(graph)
      ensures var candidates := OrphanCandidates(commits, visualizeUnreachable, fetchedUnreachable);
        graph.vertices == GraphVertices(commits, activeRefName, candidates) &&
        graph.edges == GraphEdges(commits, activeRefName, candidates)
    {
      var reachableCommitHashes := Hashes(commits);
      var unreachableCommits: Option<seq<Commit>> := None;
      if visualizeUnreachable {
        unreachableCommits := Some(Unreached(fetchedUnreachable, reachableCommitHashes));
      }
      graph := GenerateGraphFromCommits(commits, activeRefName, unreachableCommits);
    }

    /**
      The `VisualizeUnreachable` setter (Logic/ViewModel.cs:172-181): stores
      the flag, then rebuilds the graph when a repository is open.
      `retrieved` is what that repository's log retriever delivers, and None
      when no repository is open.  Orphans appear only while the flag is set.
     */
    method SetVisualizeUnreachable(value: bool, retrieved: Option<Retrieved>)
      modifies this
      ensures visualizeUnreachable == value
      ensures retrieved.None? ==> graph == old(graph)
      ensures retrieved.Some? ==> fresh(graph)
      ensures retrieved.Some? ==>
        var r := retrieved.value;
        var candidates := OrphanCandidates(r.commits, value, r.fetchedUnreachable);
        graph.vertices == GraphVertices(r.commits, r.activeRefName, candidates) &&
        graph.edges == GraphEdges(r.commits, r.activeRefName, candidates)
      ensures retrieved.Some? ==> forall w :: w in graph.vertices && w.CommitVertex? && w.orphan ==> value
    {
      visualizeUnreachable := value;
      if retrieved.Some? {
        var r := retrieved.value;
        RefreshGraph(r.commits, r.activeRefName, r.fetchedUnreachable);
        OrphanFlags(r.commits, r.activeRefName, OrphanCandidates(r.commits, value, r.fetchedUnreachable));
      }
    }
  }
}
