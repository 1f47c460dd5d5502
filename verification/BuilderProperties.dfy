/**
  What a graph built by `GenerateGraphFromCommits` (Logic/ViewModel.cs:95-160)
  contains: one vertex per commit with orphans flagged and reachable commits
  winning, reference vertices for every name but `HEAD`, one shared HEAD
  vertex, and edges of exactly four kinds.
 */
module BuilderProperties {
  import opened CommitModel
  import opened Graph
  import opened GraphSpec
  import opened SpecFacts

  /**
    `rv` is the reference vertex the first pass creates for a name other than
    `HEAD` on `cv`, the commit vertex at `position`.
   */
  predicate CreatedFor(rv: Vertex, cv: Vertex, position: nat, active: string)
    requires cv.CommitVertex?
  {
    cv.commit.refs.Some? &&
    exists j :: 0 <= j < |cv.commit.refs.value| && cv.commit.refs.value[j] != HEAD &&
      rv == RefVertexFor(position, cv.commit.refs.value[j], j, active)
  }

  /** A reference vertex's edge to the commit it decorates. */
  predicate RefToCommit(e: Edge, cvs: seq<Vertex>, active: string)
    requires AllCommitVertices(cvs)
  {
    exists i :: 0 <= i < |cvs| && e.target == cvs[i] && CreatedFor(e.source, cvs[i], i, active)
  }

  /** HEAD's edge to the active reference vertex. */
  predicate HeadToRef(e: Edge, cvs: seq<Vertex>, active: string)
    requires AllCommitVertices(cvs)
  {
    e.source == HeadVertex && e.target.RefVertex? && e.target.reference == Reference(active, true) &&
    exists i :: 0 <= i < |cvs| && CreatedFor(e.target, cvs[i], i, active)
  }

  /** HEAD's direct edge to the commit it decorates when no active reference there carries it. */
  predicate HeadToCommit(e: Edge, cvs: seq<Vertex>, active: string)
    requires AllCommitVertices(cvs)
  {
    e.source == HeadVertex && e.target in cvs &&
    e.target.commit.refs.Some? && DetachedHead(e.target.commit.refs.value, active)
  }

  /** A commit's edge to one of its parents. */
  predicate ToParent(e: Edge, cvs: seq<Vertex>)
    requires AllCommitVertices(cvs)
  {
    e.source in cvs && e.target in cvs &&
    e.source.commit.parentHashes.Some? && e.target.commit.hash in e.source.commit.parentHashes.value
  }

  // ---------------------------------------------------------------------------
  // The commit vertices (Logic/ViewModel.cs:101-111)

  /** With unique reachable hashes, the reachable commits' vertices carry no repeated hash. */
  lemma ReachableDistinct(commits: seq<Commit>)
    requires DistinctHashes(commits)
    ensures DistinctKeys(AsVertices(commits, false))
  {
  }

  /**
    Each commit vertex is a reachable commit, not flagged, or an unreachable
    commit whose hash no reachable commit has, flagged as an orphan: a
    reachable commit always wins over an unreachable one of the same hash.
   */
  lemma CommitVertexOrigin(commits: seq<Commit>, unreachable: Option<seq<Commit>>, w: Vertex)
    requires w in CommitVertices(commits, unreachable)
    ensures (!w.orphan && w.commit in commits) ||
            (w.orphan && unreachable.Some? && w.commit in unreachable.value && w.commit.hash !in Hashes(commits))
  {
    var reachable := AsVertices(commits, false);
    match unreachable
    case None =>
      AsVerticesMember(commits, false, w);
    case Some(u) =>
      var orphans := AsVertices(u, true);
      InsertAllKeepsFirst([], reachable + orphans);
      if w in reachable {
        AsVerticesMember(commits, false, w);
      } else {
        AsVerticesMember(u, true, w);
        if w.commit.hash in Hashes(commits) {
          InsertAllAppend([], reachable, orphans);
          var first := InsertAll([], reachable);
          InsertAllKeepsFirst([], reachable);
          InsertAllKeepsFirst(first, orphans);
          InsertAllKeys([], reachable);
          AsVerticesKeys(commits, false, w.commit.hash);
          assert false;
        }
      }
  }

  /** Every reachable commit of a batch with unique hashes has its own non-orphan vertex. */
  lemma ReachableVerticesPresent(commits: seq<Commit>, unreachable: Option<seq<Commit>>)
    requires DistinctHashes(commits)
    ensures forall c :: c in commits ==> CommitVertex(c, false) in CommitVertices(commits, unreachable)
  {
    var cvs := CommitVertices(commits, unreachable);
    var reachable := AsVertices(commits, false);
    if unreachable.Some? {
      var orphans := AsVertices(unreachable.value, true);
      ReachableDistinct(commits);
      InsertAllAppend([], reachable, orphans);
      InsertAllNoDuplicates([], reachable);
      assert [] + reachable == reachable;
      InsertAllKeepsFirst(reachable, orphans);
      assert cvs[..|reachable|] == reachable;
    }
    forall c | c in commits ensures CommitVertex(c, false) in cvs {
      AsVerticesMember(commits, false, CommitVertex(c, false));
      if unreachable.Some? {
        var i :| 0 <= i < |reachable| && reachable[i] == CommitVertex(c, false);
        assert cvs[..|reachable|][i] == reachable[i];
      }
    }
  }

  /** Every unreachable commit's hash has a vertex (its own, or a reachable commit's). */
  lemma UnreachableHashesPresent(commits: seq<Commit>, u: seq<Commit>)
    ensures forall c :: c in u ==> HasKey(CommitVertices(commits, Some(u)), CommitKey(c.hash))
  {
    var all := AsVertices(commits, false) + AsVertices(u, true);
    InsertAllKeys([], all);
    forall c | c in u ensures HasKey(all, CommitKey(c.hash)) {
      AsVerticesMember(u, true, CommitVertex(c, true));
      assert CommitVertex(c, true) in all;
    }
  }

  /** No hash has two commit vertices: the union removes repeats, and reachable hashes are unique. */
  lemma CommitVerticesDistinct(commits: seq<Commit>, unreachable: Option<seq<Commit>>)
    requires DistinctHashes(commits) || unreachable.Some?
    ensures DistinctKeys(CommitVertices(commits, unreachable))
  {
    match unreachable
    case None =>
      ReachableDistinct(commits);
    case Some(u) =>
      InsertAllDistinct([], AsVertices(commits, false) + AsVertices(u, true));
  }

  /** Two commit vertices of a list without repeated hashes that share a hash are one vertex. */
  lemma SameKeySameVertex(cvs: seq<Vertex>, x: Vertex, y: Vertex)
    requires DistinctKeys(cvs) && x in cvs && y in cvs && Key(x) == Key(y)
    ensures x == y
  {
  }

  // ---------------------------------------------------------------------------
  // The vertices of the graph (Logic/ViewModel.cs:114-139)

  /** Every vertex the first pass adds is a commit vertex, the HEAD vertex or a created reference vertex. */
  lemma AddedVertexKinds(cvs: seq<Vertex>, active: string, w: Vertex)
    requires AllCommitVertices(cvs) && w in Pass1Adds(cvs, active)
    ensures w in cvs || w == HeadVertex || exists i :: 0 <= i < |cvs| && CreatedFor(w, cvs[i], i, active)
  {
    Pass1AddsMember(cvs, active, w);
    var i :| 0 <= i < |cvs| && w in CommitAdds(cvs[i], i, active);
    var cv := cvs[i];
    CommitAddsMember(cv, i, active, w);
    if w != cv {
      var names := cv.commit.refs.value;
      var j :| 0 <= j < |names| && w == RefVertexFor(i, names[j], j, active);
      if names[j] != HEAD {
        assert CreatedFor(w, cv, i, active);
      }
    }
  }

  /**
    The graph's vertices are the commit vertices, the HEAD vertex and the
    created reference vertices, each identity once; the only vertex named
    `HEAD` is the shared HEAD vertex.
   */
  lemma VerticesClassified(commits: seq<Commit>, active: string, unreachable: Option<seq<Commit>>)
    ensures var cvs := CommitVertices(commits, unreachable);
      forall w :: w in GraphVertices(commits, active, unreachable) ==>
        w in cvs || w == HeadVertex || exists i :: 0 <= i < |cvs| && CreatedFor(w, cvs[i], i, active)
    ensures forall w :: w in GraphVertices(commits, active, unreachable) && w.RefVertex? && w.reference.name == HEAD ==>
      w == HeadVertex
    ensures DistinctKeys(GraphVertices(commits, active, unreachable))
  {
    var cvs := CommitVertices(commits, unreachable);
    var adds := Pass1Adds(cvs, active);
    InsertAllKeepsFirst([], adds);
    InsertAllDistinct([], adds);
    forall w | w in GraphVertices(commits, active, unreachable)
      ensures w in cvs || w == HeadVertex || exists i :: 0 <= i < |cvs| && CreatedFor(w, cvs[i], i, active)
    {
      AddedVertexKinds(cvs, active, w);
    }
  }

  /**
    A vertex that was added, and that is the only added vertex of its identity,
    is in the graph.
   */
  lemma OnlyOfItsKey(adds: seq<Vertex>, w: Vertex)
    requires w in adds
    requires forall x :: x in adds && Key(x) == Key(w) ==> x == w
    ensures w in InsertAll([], adds)
  {
    InsertAllKeys([], adds);
    InsertAllKeepsFirst([], adds);
    assert HasKey(InsertAll([], adds), Key(w));
    var x :| x in InsertAll([], adds) && Key(x) == Key(w);
  }

  /** With no hash repeated among the commit vertices, each of them is a vertex of the graph. */
  lemma CommitVerticesInGraph(commits: seq<Commit>, active: string, unreachable: Option<seq<Commit>>)
    requires DistinctKeys(CommitVertices(commits, unreachable))
    ensures forall cv :: cv in CommitVertices(commits, unreachable) ==> cv in GraphVertices(commits, active, unreachable)
  {
    var cvs := CommitVertices(commits, unreachable);
    var adds := Pass1Adds(cvs, active);
    forall cv | cv in cvs ensures cv in InsertAll([], adds) {
      var i :| 0 <= i < |cvs| && cvs[i] == cv;
      CommitAddsMember(cv, i, active, cv);
      Pass1AddsMember(cvs, active, cv);
      forall x | x in adds && Key(x) == Key(cv) ensures x == cv {
        AddedVertexKinds(cvs, active, x);
        SameKeySameVertex(cvs, x, cv);
      }
      OnlyOfItsKey(adds, cv);
    }
  }

  /**
    A reference vertex created for a name other than `HEAD` is the only
    added vertex of its identity, so it is a vertex of the graph.
   */
  lemma RefVertexAdded(cvs: seq<Vertex>, active: string, i: nat, rv: Vertex)
    requires AllCommitVertices(cvs) && i < |cvs| && CreatedFor(rv, cvs[i], i, active)
    ensures rv in InsertAll([], Pass1Adds(cvs, active))
  {
    var adds := Pass1Adds(cvs, active);
    var cv := cvs[i];
    var names := cv.commit.refs.value;
    var j :| 0 <= j < |names| && names[j] != HEAD && rv == RefVertexFor(i, names[j], j, active);
    CommitAddsMember(cv, i, active, rv);
    Pass1AddsMember(cvs, active, rv);
    forall x | x in adds && Key(x) == Key(rv) ensures x == rv {
      AddedVertexKinds(cvs, active, x);
      if x != HeadVertex && x !in cvs {
        var i' :| 0 <= i' < |cvs| && CreatedFor(x, cvs[i'], i', active);
        var names' := cvs[i'].commit.refs.value;
        var j' :| 0 <= j' < |names'| && names'[j'] != HEAD && x == RefVertexFor(i', names'[j'], j', active);
      }
    }
    OnlyOfItsKey(adds, rv);
  }

  /**
    Each reference vertex created for a name other than `HEAD` is a vertex
    of the graph: reference vertices are never merged, not even those of two
    commits that share a hash.
   */
  lemma RefVerticesInGraph(commits: seq<Commit>, active: string, unreachable: Option<seq<Commit>>)
    ensures var cvs := CommitVertices(commits, unreachable);
      forall i, rv :: 0 <= i < |cvs| && CreatedFor(rv, cvs[i], i, active) ==> rv in GraphVertices(commits, active, unreachable)
  {
    var cvs := CommitVertices(commits, unreachable);
    forall i, rv | 0 <= i < |cvs| && CreatedFor(rv, cvs[i], i, active)
      ensures rv in GraphVertices(commits, active, unreachable)
    {
      RefVertexAdded(cvs, active, i, rv);
    }
  }

  /** A commit vertex carrying the name `HEAD` puts the HEAD vertex in the graph. */
  lemma HeadVertexAdded(cvs: seq<Vertex>, active: string, cv: Vertex)
    requires AllCommitVertices(cvs) && cv in cvs && cv.commit.refs.Some? && HEAD in cv.commit.refs.value
    ensures HeadVertex in InsertAll([], Pass1Adds(cvs, active))
  {
    var adds := Pass1Adds(cvs, active);
    var names := cv.commit.refs.value;
    var j :| 0 <= j < |names| && names[j] == HEAD;
    var i :| 0 <= i < |cvs| && cvs[i] == cv;
    assert HeadVertex == RefVertexFor(i, names[j], j, active);
    CommitAddsMember(cv, i, active, HeadVertex);
    Pass1AddsMember(cvs, active, HeadVertex);
    forall x | x in adds && Key(x) == Key(HeadVertex) ensures x == HeadVertex {
      AddedVertexKinds(cvs, active, x);
    }
    OnlyOfItsKey(adds, HeadVertex);
  }

  /** The HEAD vertex is in the graph only when some commit vertex carries the name `HEAD`. */
  lemma HeadVertexOrigin(cvs: seq<Vertex>, active: string)
    requires AllCommitVertices(cvs) && HeadVertex in InsertAll([], Pass1Adds(cvs, active))
    ensures exists cv :: cv in cvs && cv.commit.refs.Some? && HEAD in cv.commit.refs.value
  {
    InsertAllKeepsFirst([], Pass1Adds(cvs, active));
    Pass1AddsMember(cvs, active, HeadVertex);
    var i :| 0 <= i < |cvs| && HeadVertex in CommitAdds(cvs[i], i, active);
    var cv := cvs[i];
    CommitAddsMember(cv, i, active, HeadVertex);
    var names := cv.commit.refs.value;
    var j :| 0 <= j < |names| && HeadVertex == RefVertexFor(i, names[j], j, active);
    assert names[j] == HEAD;
    assert cv in cvs;
  }

  /** The HEAD vertex is in the graph exactly when some commit carries the name `HEAD`. */
  lemma HeadVertexInGraph(commits: seq<Commit>, active: string, unreachable: Option<seq<Commit>>)
    ensures var cvs := CommitVertices(commits, unreachable);
      HeadVertex in GraphVertices(commits, active, unreachable) <==>
        exists cv :: cv in cvs && cv.commit.refs.Some? && HEAD in cv.commit.refs.value
  {
    var cvs := CommitVertices(commits, unreachable);
    if exists cv :: cv in cvs && cv.commit.refs.Some? && HEAD in cv.commit.refs.value {
      var cv :| cv in cvs && cv.commit.refs.Some? && HEAD in cv.commit.refs.value;
      HeadVertexAdded(cvs, active, cv);
    }
    if HeadVertex in GraphVertices(commits, active, unreachable) {
      HeadVertexOrigin(cvs, active);
    }
  }

  // ---------------------------------------------------------------------------
  // Orphans in the graph (Logic/ViewModel.cs:101-111)

  /** The commit vertices of the graph are exactly the commit vertices of the build. */
  lemma GraphCommitVertices(commits: seq<Commit>, active: string, unreachable: Option<seq<Commit>>)
    ensures forall w :: w in GraphVertices(commits, active, unreachable) && w.CommitVertex? ==>
      w in CommitVertices(commits, unreachable)
  {
    VerticesClassified(commits, active, unreachable);
  }

  /** A commit of the batch has its hash among the batch's hashes. */
  lemma HashOf(commits: seq<Commit>, c: Commit)
    requires c in commits
    ensures c.hash in Hashes(commits)
  {
  }

  /**
    A commit vertex of the graph is flagged as an orphan exactly when no
    reachable commit has its hash, so a reachable commit always wins; with
    no list of unreachable commits there is no orphan at all.
   */
  lemma OrphanFlags(commits: seq<Commit>, active: string, unreachable: Option<seq<Commit>>)
    ensures forall w :: w in GraphVertices(commits, active, unreachable) && w.CommitVertex? ==>
      (w.orphan <==> w.commit.hash !in Hashes(commits))
    ensures unreachable.None? ==>
      forall w :: w in GraphVertices(commits, active, unreachable) && w.CommitVertex? ==> !w.orphan
  {
    GraphCommitVertices(commits, active, unreachable);
    forall w | w in GraphVertices(commits, active, unreachable) && w.CommitVertex?
      ensures w.orphan <==> w.commit.hash !in Hashes(commits)
      ensures unreachable.None? ==> !w.orphan
    {
      CommitVertexOrigin(commits, unreachable, w);
      if !w.orphan {
        HashOf(commits, w.commit);
      }
    }
  }

  /**
    In a batch with unique hashes every reachable commit is a vertex of the
    graph, not flagged; and every unreachable commit's hash has a commit
    vertex in the graph.
   */
  lemma CommitsInGraph(commits: seq<Commit>, active: string, unreachable: Option<seq<Commit>>)
    requires DistinctHashes(commits)
    ensures forall c :: c in commits ==> CommitVertex(c, false) in GraphVertices(commits, active, unreachable)
    ensures unreachable.Some? ==> forall c :: c in unreachable.value ==>
      exists w :: w in GraphVertices(commits, active, unreachable) && w.CommitVertex? && w.commit.hash == c.hash
  {
    var cvs := CommitVertices(commits, unreachable);
    CommitVerticesDistinct(commits, unreachable);
    CommitVerticesInGraph(commits, active, unreachable);
    ReachableVerticesPresent(commits, unreachable);
    if unreachable.Some? {
      UnreachableHashesPresent(commits, unreachable.value);
      forall c | c in unreachable.value
        ensures exists w :: w in GraphVertices(commits, active, unreachable) && w.CommitVertex? && w.commit.hash == c.hash
      {
        var w :| w in cvs && Key(w) == CommitKey(c.hash);
      }
    }
  }

  // ---------------------------------------------------------------------------
  // Commits without references or parents

  /** A commit without reference names and without parent hashes: each list is absent or empty. */
  predicate BareCommit(c: Commit) {
    (c.refs.None? || c.refs.value == []) && (c.parentHashes.None? || c.parentHashes.value == [])
  }

  /** Every element is the commit vertex of a bare commit. */
  predicate Bare(cvs: seq<Vertex>) {
    forall v :: v in cvs ==> v.CommitVertex? && BareCommit(v.commit)
  }

  /** Bare commit vertices add only themselves and no edge in the first pass. */
  lemma {:induction false} BarePass1(cvs: seq<Vertex>, active: string)
    requires Bare(cvs)
    ensures Pass1Adds(cvs, active) == cvs
    ensures Pass1Edges(cvs, active) == []
  {
    if cvs != [] {
      var init := cvs[..|cvs| - 1];
      assert cvs == init + [cvs[|cvs| - 1]];
      BarePass1(init, active);
    }
  }

  /** Bare commit vertices add no ancestry edge. */
  lemma {:induction false} BarePass2(done: seq<Vertex>, cvs: seq<Vertex>)
    requires Bare(done)
    ensures Pass2Edges(done, cvs) == []
  {
    if done != [] {
      var init := done[..|done| - 1];
      assert forall v :: v in init ==> v in done;
      BarePass2(init, cvs);
    }
  }

  /**
    When no commit carries reference names or parent hashes, the graph is
    the commit vertices alone, without a single edge; without unreachable
    commits that is one vertex per commit.
   */
  lemma BareCommits(commits: seq<Commit>, active: string, unreachable: Option<seq<Commit>>)
    requires DistinctHashes(commits)
    requires forall c :: c in commits ==> BareCommit(c)
    requires unreachable.Some? ==> forall c :: c in unreachable.value ==> BareCommit(c)
    ensures GraphVertices(commits, active, unreachable) == CommitVertices(commits, unreachable)
    ensures GraphEdges(commits, active, unreachable) == []
    ensures unreachable.None? ==> |GraphVertices(commits, active, unreachable)| == |commits|
  {
    var cvs := CommitVertices(commits, unreachable);
    forall w | w in cvs ensures BareCommit(w.commit) {
      CommitVertexOrigin(commits, unreachable, w);
    }
    BarePass1(cvs, active);
    BarePass2(cvs, cvs);
    CommitVerticesDistinct(commits, unreachable);
    assert [] + cvs == cvs;
    InsertAllNoDuplicates([], cvs);
  }
}
