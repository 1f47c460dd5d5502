/**
  The edges of a graph built by `GenerateGraphFromCommits`
  (Logic/ViewModel.cs:119-157): each is a reference edge, a HEAD edge or an
  ancestry edge, and every edge the loops promise is there.
 */
module EdgeProperties {
  import opened CommitModel
  import opened Graph
  import opened GraphSpec
  import opened SpecFacts
  import opened BuilderProperties

  // ---------------------------------------------------------------------------
  // Every edge is of one of four kinds

  /**
    An edge added for the name at `j` of `cv`, the commit vertex at
    `position`, is the reference's edge to `cv` or HEAD's edge to it.
   */
  lemma NameEdgeKind(cv: Vertex, position: nat, active: string, j: nat, e: Edge)
    requires cv.CommitVertex? && cv.commit.refs.Some? && j < |cv.commit.refs.value|
    requires e in NameEdges(cv, position, cv.commit.refs.value[j], j, active)
    ensures (CreatedFor(e.source, cv, position, active) && e.target == cv) ||
            (e.source == HeadVertex && e.target.RefVertex? && e.target.reference == Reference(active, true) &&
             CreatedFor(e.target, cv, position, active))
  {
  }

  /** An edge added while visiting the commit vertex at `i` in the first pass is a reference edge or a HEAD edge. */
  lemma CommitEdgeKind(cvs: seq<Vertex>, active: string, i: nat, e: Edge)
    requires AllCommitVertices(cvs) && i < |cvs| && e in CommitEdges(cvs[i], i, active)
    ensures RefToCommit(e, cvs, active) || HeadToRef(e, cvs, active) || HeadToCommit(e, cvs, active)
  {
    var cv := cvs[i];
    var names := cv.commit.refs.value;
    assert cv in cvs;
    if e in RefNameEdges(cv, i, names, active) {
      RefNameEdgesMember(cv, i, names, active, e);
      var j :| 0 <= j < |names| && e in NameEdges(cv, i, names[j], j, active);
      NameEdgeKind(cv, i, active, j, e);
    }
  }

  /** An edge of the first pass is a reference edge or a HEAD edge. */
  lemma Pass1EdgeKind(cvs: seq<Vertex>, active: string, e: Edge)
    requires AllCommitVertices(cvs) && e in Pass1Edges(cvs, active)
    ensures RefToCommit(e, cvs, active) || HeadToRef(e, cvs, active) || HeadToCommit(e, cvs, active)
  {
    Pass1EdgesMember(cvs, active, e);
    var i :| 0 <= i < |cvs| && e in CommitEdges(cvs[i], i, active);
    CommitEdgeKind(cvs, active, i, e);
  }

  /** An edge of the second pass goes from a commit vertex to the vertex of one of its parent hashes. */
  lemma Pass2EdgeKind(cvs: seq<Vertex>, e: Edge)
    requires AllCommitVertices(cvs) && e in Pass2Edges(cvs, cvs)
    ensures ToParent(e, cvs)
  {
    Pass2EdgesMember(cvs, cvs, e);
    var cv :| cv in cvs && e in AncestryEdges(cv, cvs);
    var parents := cv.commit.parentHashes.value;
    ParentEdgesMember(cv, parents, cvs, e);
    var h :| h in parents && FindByHash(cvs, h) == Some(e.target);
  }

  /**
    Every edge of the graph is a reference vertex's edge to its commit,
    HEAD's edge to the active reference, HEAD's direct edge to a commit it
    decorates when no active reference there carries it, or a commit's edge
    to one of its parents.
   */
  lemma EdgesClassified(commits: seq<Commit>, active: string, unreachable: Option<seq<Commit>>)
    ensures var cvs := CommitVertices(commits, unreachable);
      forall e :: e in GraphEdges(commits, active, unreachable) ==>
        RefToCommit(e, cvs, active) || HeadToRef(e, cvs, active) || HeadToCommit(e, cvs, active) || ToParent(e, cvs)
  {
    var cvs := CommitVertices(commits, unreachable);
    forall e | e in GraphEdges(commits, active, unreachable)
      ensures RefToCommit(e, cvs, active) || HeadToRef(e, cvs, active) || HeadToCommit(e, cvs, active) || ToParent(e, cvs)
    {
      if e in Pass1Edges(cvs, active) {
        Pass1EdgeKind(cvs, active, e);
      } else {
        Pass2EdgeKind(cvs, e);
      }
    }
  }

  /**
    No edge enters the HEAD vertex, and the only vertex named `HEAD` an edge
    leaves is the shared HEAD vertex; an edge leaving a commit vertex is an
    ancestry edge; a commit without reference names receives no edge from a
    reference vertex; a commit without parent hashes has no outgoing edge.
   */
  lemma EdgeDirections(commits: seq<Commit>, active: string, unreachable: Option<seq<Commit>>)
    ensures var cvs := CommitVertices(commits, unreachable);
      var E := GraphEdges(commits, active, unreachable);
      (forall e :: e in E ==> e.target != HeadVertex) &&
      (forall e :: e in E && e.source.RefVertex? && e.source.reference.name == HEAD ==> e.source == HeadVertex) &&
      (forall e :: e in E && e.source.CommitVertex? ==> ToParent(e, cvs)) &&
      (forall e :: e in E && e.target.CommitVertex? && e.target.commit.refs.None? ==> e.source.CommitVertex?) &&
      (forall e :: e in E && e.source.CommitVertex? ==> e.source.commit.parentHashes.Some?)
  {
    var cvs := CommitVertices(commits, unreachable);
    EdgesClassified(commits, active, unreachable);
    forall e | e in GraphEdges(commits, active, unreachable)
      ensures EdgeDirection(e, cvs, active)
    {
      EdgeKindDirection(e, cvs, active);
    }
  }

  /** The directions of one edge, as `EdgeDirections` states them for every edge. */
  predicate EdgeDirection(e: Edge, cvs: seq<Vertex>, active: string)
    requires AllCommitVertices(cvs)
  {
    e.target != HeadVertex &&
    (e.source.RefVertex? && e.source.reference.name == HEAD ==> e.source == HeadVertex) &&
    (e.source.CommitVertex? ==> ToParent(e, cvs)) &&
    (e.target.CommitVertex? && e.target.commit.refs.None? ==> e.source.CommitVertex?) &&
    (e.source.CommitVertex? ==> e.source.commit.parentHashes.Some?)
  }

  /** An edge of one of the four kinds points the way `EdgeDirection` says. */
  lemma EdgeKindDirection(e: Edge, cvs: seq<Vertex>, active: string)
    requires AllCommitVertices(cvs)
    requires RefToCommit(e, cvs, active) || HeadToRef(e, cvs, active) || HeadToCommit(e, cvs, active) || ToParent(e, cvs)
    ensures EdgeDirection(e, cvs, active)
  {
    if RefToCommit(e, cvs, active) {
      var i :| 0 <= i < |cvs| && e.target == cvs[i] && CreatedFor(e.source, cvs[i], i, active);
      assert cvs[i] in cvs;
    } else if HeadToRef(e, cvs, active) {
      var i :| 0 <= i < |cvs| && CreatedFor(e.target, cvs[i], i, active);
    }
  }

  // ---------------------------------------------------------------------------
  // Every promised edge is there

  /**
    For each name other than `HEAD` on a commit there is a reference vertex,
    active exactly when the name is `active`, with an edge to the commit; and
    HEAD has an edge to it exactly when it is active.  The HEAD edge is added
    whether or not the HEAD vertex is in the graph.
   */
  lemma RefNamePresent(commits: seq<Commit>, active: string, unreachable: Option<seq<Commit>>, i: nat, j: nat)
    requires var cvs := CommitVertices(commits, unreachable);
      i < |cvs| && cvs[i].commit.refs.Some? && j < |cvs[i].commit.refs.value| && cvs[i].commit.refs.value[j] != HEAD
    ensures var cv := CommitVertices(commits, unreachable)[i];
      var name := cv.commit.refs.value[j];
      var rv := RefVertex(Reference(name, name == active), RefAt(i, j));
      rv in GraphVertices(commits, active, unreachable) &&
      Edge(rv, cv) in GraphEdges(commits, active, unreachable) &&
      (Edge(HeadVertex, rv) in GraphEdges(commits, active, unreachable) <==> name == active)
  {
    var cvs := CommitVertices(commits, unreachable);
    var cv := cvs[i];
    var names := cv.commit.refs.value;
    var rv := RefVertexFor(i, names[j], j, active);
    assert CreatedFor(rv, cv, i, active);
    RefVerticesInGraph(commits, active, unreachable);
    RefNameEdgesMember(cv, i, names, active, Edge(rv, cv));
    Pass1EdgesMember(cvs, active, Edge(rv, cv));
    if names[j] == active {
      RefNameEdgesMember(cv, i, names, active, Edge(HeadVertex, rv));
      Pass1EdgesMember(cvs, active, Edge(HeadVertex, rv));
    }
    EdgesClassified(commits, active, unreachable);
  }

  /**
    A commit vertex that `HEAD` decorates, with no active reference other
    than `HEAD` among its names, has an edge from HEAD; no other commit
    vertex has one.
   */
  lemma HeadCommitEdge(commits: seq<Commit>, active: string, unreachable: Option<seq<Commit>>, cv: Vertex)
    requires cv in CommitVertices(commits, unreachable)
    ensures Edge(HeadVertex, cv) in GraphEdges(commits, active, unreachable) <==>
      cv.commit.refs.Some? && DetachedHead(cv.commit.refs.value, active)
  {
    var cvs := CommitVertices(commits, unreachable);
    if cv.commit.refs.Some? && DetachedHead(cv.commit.refs.value, active) {
      var i :| 0 <= i < |cvs| && cvs[i] == cv;
      assert Edge(HeadVertex, cv) in CommitEdges(cvs[i], i, active);
      Pass1EdgesMember(cvs, active, Edge(HeadVertex, cv));
    }
    EdgesClassified(commits, active, unreachable);
  }

  /**
    With no hash repeated among the commit vertices, a commit vertex has an
    edge to a commit vertex exactly when the latter's hash is among the
    former's parent hashes; orphans count as parents, and a parent hash no
    commit vertex has gives no edge.
   */
  lemma AncestryEdge(commits: seq<Commit>, active: string, unreachable: Option<seq<Commit>>, cv: Vertex, w: Vertex)
    requires DistinctKeys(CommitVertices(commits, unreachable))
    requires cv in CommitVertices(commits, unreachable) && w in CommitVertices(commits, unreachable)
    ensures Edge(cv, w) in GraphEdges(commits, active, unreachable) <==>
      cv.commit.parentHashes.Some? && w.commit.hash in cv.commit.parentHashes.value
  {
    var cvs := CommitVertices(commits, unreachable);
    if cv.commit.parentHashes.Some? && w.commit.hash in cv.commit.parentHashes.value {
      var parents := cv.commit.parentHashes.value;
      var p := FindByHash(cvs, w.commit.hash).value;
      SameKeySameVertex(cvs, p, w);
      ParentEdgesMember(cv, parents, cvs, Edge(cv, w));
      Pass2EdgesMember(cvs, cvs, Edge(cv, w));
    }
    EdgesClassified(commits, active, unreachable);
  }

  /**
    With no hash repeated among the commit vertices, every edge has its
    target among the graph's vertices, and its source too unless the source
    is the HEAD vertex.
   */
  lemma EdgeEndpoints(commits: seq<Commit>, active: string, unreachable: Option<seq<Commit>>)
    requires DistinctKeys(CommitVertices(commits, unreachable))
    ensures var V := GraphVertices(commits, active, unreachable);
      forall e :: e in GraphEdges(commits, active, unreachable) ==>
        e.target in V && (e.source in V || e.source == HeadVertex)
  {
    EdgesClassified(commits, active, unreachable);
    CommitVerticesInGraph(commits, active, unreachable);
    RefVerticesInGraph(commits, active, unreachable);
  }

  /**
    A commit decorated by the active branch alone: HEAD's edge to the branch
    is added although no name `HEAD` ever added the HEAD vertex.
   */
  lemma HeadEdgeWithoutHeadVertex()
    ensures var c := Commit("a", None, Some(["main"]));
      var rv := RefVertex(Reference("main", true), RefAt(0, 0));
      Edge(HeadVertex, rv) in GraphEdges([c], "main", None) &&
      HeadVertex !in GraphVertices([c], "main", None)
  {
    var c := Commit("a", None, Some(["main"]));
    var cvs := CommitVertices([c], None);
    assert cvs == [CommitVertex(c, false)];
    RefNamePresent([c], "main", None, 0, 0);
    HeadVertexInGraph([c], "main", None);
  }

  // ---------------------------------------------------------------------------
  // Exactly one direct HEAD edge on a detached HEAD

  /** A vertex of a list without repeated identities occurs in it once. */
  lemma {:induction false} DistinctOnce(vs: seq<Vertex>, v: Vertex)
    requires DistinctKeys(vs) && v in vs
    ensures multiset(vs)[v] == 1
  {
    var init, last := vs[..|vs| - 1], vs[|vs| - 1];
    assert vs == init + [last];
    assert DistinctKeys(init) by {
      forall i, j | 0 <= i < j < |init| ensures Key(init[i]) != Key(init[j]) {
        assert init[i] == vs[i] && init[j] == vs[j];
      }
    }
    if last != v {
      DistinctOnce(init, v);
    }
  }

  /** The names of a commit add no edge from HEAD to a commit vertex. */
  lemma NoHeadCommitNameEdge(c: Vertex, position: nat, active: string, cv: Vertex)
    requires c.CommitVertex? && c.commit.refs.Some? && cv.CommitVertex?
    ensures Edge(HeadVertex, cv) !in RefNameEdges(c, position, c.commit.refs.value, active)
  {
    var names := c.commit.refs.value;
    RefNameEdgesMember(c, position, names, active, Edge(HeadVertex, cv));
    if Edge(HeadVertex, cv) in RefNameEdges(c, position, names, active) {
      var j :| 0 <= j < |names| && Edge(HeadVertex, cv) in NameEdges(c, position, names[j], j, active);
      NameEdgeKind(c, position, active, j, Edge(HeadVertex, cv));
    }
  }

  /** Visiting `c` adds HEAD's edge to the commit vertex `cv` once when `c` is `cv` with a detached HEAD, else never. */
  lemma CommitHeadCount(c: Vertex, position: nat, active: string, cv: Vertex)
    requires c.CommitVertex? && cv.CommitVertex?
    ensures multiset(CommitEdges(c, position, active))[Edge(HeadVertex, cv)] ==
      if c == cv && c.commit.refs.Some? && DetachedHead(c.commit.refs.value, active) then 1 else 0
  {
    if c.commit.refs.Some? {
      NoHeadCommitNameEdge(c, position, active, cv);
    }
  }

  /** The first pass adds HEAD's edge to `cv` once per occurrence of `cv` with a detached HEAD. */
  lemma {:induction false} Pass1HeadCount(cvs: seq<Vertex>, active: string, cv: Vertex)
    requires AllCommitVertices(cvs) && cv.CommitVertex?
    ensures multiset(Pass1Edges(cvs, active))[Edge(HeadVertex, cv)] ==
      if cv.commit.refs.Some? && DetachedHead(cv.commit.refs.value, active) then multiset(cvs)[cv] else 0
  {
    if cvs != [] {
      var n := |cvs| - 1;
      var init, last := cvs[..n], cvs[n];
      assert cvs == init + [last];
      Pass1HeadCount(init, active, cv);
      CommitHeadCount(last, n, active, cv);
    }
  }

  /**
    With no hash repeated among the commit vertices, HEAD has exactly one
    direct edge to a commit vertex it decorates when no active reference
    there carries it, and none otherwise.
   */
  lemma HeadEdgeCount(commits: seq<Commit>, active: string, unreachable: Option<seq<Commit>>, cv: Vertex)
    requires DistinctKeys(CommitVertices(commits, unreachable)) && cv in CommitVertices(commits, unreachable)
    ensures multiset(GraphEdges(commits, active, unreachable))[Edge(HeadVertex, cv)] ==
      if cv.commit.refs.Some? && DetachedHead(cv.commit.refs.value, active) then 1 else 0
  {
    var cvs := CommitVertices(commits, unreachable);
    Pass1HeadCount(cvs, active, cv);
    DistinctOnce(cvs, cv);
    if Edge(HeadVertex, cv) in Pass2Edges(cvs, cvs) {
      Pass2EdgeKind(cvs, Edge(HeadVertex, cv));
    }
  }

  // ---------------------------------------------------------------------------
  // Exactly one edge per reference vertex, and one from HEAD to the active one

  /** `e` has an endpoint that is the reference vertex of identity `id`. */
  predicate Touches(e: Edge, id: RefId) {
    (e.source.RefVertex? && e.source.id == id) || (e.target.RefVertex? && e.target.id == id)
  }

  /** The edges added for one name touch no reference vertex but the one created for it. */
  lemma NameEdgesTouch(cv: Vertex, position: nat, name: string, slot: nat, active: string, e: Edge, p: nat, j: nat)
    requires cv.CommitVertex? && e in NameEdges(cv, position, name, slot, active) && Touches(e, RefAt(p, j))
    ensures p == position && j == slot
  {
  }

  /**
    The edges added for the names of the commit vertex at `position` hold an
    edge touching the reference vertex `RefAt(p, j)` only as often as the
    edges added for the name at `j` do, and only when `p` is `position`.
   */
  lemma {:induction false} RefNameEdgesCount(cv: Vertex, position: nat, names: seq<string>, active: string, e: Edge, p: nat, j: nat)
    requires cv.CommitVertex? && Touches(e, RefAt(p, j))
    ensures multiset(RefNameEdges(cv, position, names, active))[e] ==
      if p == position && j < |names| then multiset(NameEdges(cv, position, names[j], j, active))[e] else 0
  {
    if names != [] {
      var n := |names| - 1;
      var init := names[..n];
      RefNameEdgesCount(cv, position, init, active, e, p, j);
      if e in NameEdges(cv, position, names[n], n, active) {
        NameEdgesTouch(cv, position, names[n], n, active, e, p, j);
      }
      if j < n {
        assert init[j] == names[j];
      }
    }
  }

  /** The same count for everything visiting the commit vertex at `position` adds. */
  lemma CommitEdgesCount(cv: Vertex, position: nat, active: string, e: Edge, p: nat, j: nat)
    requires cv.CommitVertex? && Touches(e, RefAt(p, j))
    ensures multiset(CommitEdges(cv, position, active))[e] ==
      if p == position && cv.commit.refs.Some? && j < |cv.commit.refs.value|
      then multiset(NameEdges(cv, position, cv.commit.refs.value[j], j, active))[e] else 0
  {
    if cv.commit.refs.Some? {
      RefNameEdgesCount(cv, position, cv.commit.refs.value, active, e, p, j);
    }
  }

  /** Visiting the commit vertex at `position` adds no edge touching a reference vertex of another position. */
  lemma CommitEdgesNoTouch(cv: Vertex, position: nat, active: string, e: Edge, p: nat, j: nat)
    requires cv.CommitVertex? && Touches(e, RefAt(p, j)) && p != position
    ensures e !in CommitEdges(cv, position, active)
  {
    CommitEdgesCount(cv, position, active, e, p, j);
  }

  /**
    The first pass holds an edge touching the reference vertex `RefAt(p, j)`
    as often as visiting the commit vertex at `p` adds it.
   */
  lemma {:induction false} Pass1EdgesCount(cvs: seq<Vertex>, active: string, e: Edge, p: nat, j: nat)
    requires AllCommitVertices(cvs) && Touches(e, RefAt(p, j))
    ensures multiset(Pass1Edges(cvs, active))[e] == if p < |cvs| then multiset(CommitEdges(cvs[p], p, active))[e] else 0
  {
    if cvs != [] {
      var n := |cvs| - 1;
      var init := cvs[..n];
      assert AllCommitVertices(init) by {
        forall v | v in init ensures v.CommitVertex? {
          assert v in cvs;
        }
      }
      var before, visit := Pass1Edges(init, active), CommitEdges(cvs[n], n, active);
      assert Pass1Edges(cvs, active) == before + visit;
      assert multiset(before + visit)[e] == multiset(before)[e] + multiset(visit)[e];
      Pass1EdgesCount(init, active, e, p, j);
      if p != n {
        CommitEdgesNoTouch(cvs[n], n, active, e, p, j);
      }
      if p < n {
        assert init[p] == cvs[p];
      }
    }
  }

  /**
    Each reference vertex created for a name other than `HEAD` has exactly
    one edge to its commit, and HEAD has exactly one edge to it when it is
    the active reference and none otherwise, even when hashes repeat.
   */
  lemma RefEdgeCounts(commits: seq<Commit>, active: string, unreachable: Option<seq<Commit>>, i: nat, j: nat)
    requires var cvs := CommitVertices(commits, unreachable);
      i < |cvs| && cvs[i].commit.refs.Some? && j < |cvs[i].commit.refs.value| && cvs[i].commit.refs.value[j] != HEAD
    ensures var cv := CommitVertices(commits, unreachable)[i];
      var name := cv.commit.refs.value[j];
      var rv := RefVertex(Reference(name, name == active), RefAt(i, j));
      var E := multiset(GraphEdges(commits, active, unreachable));
      E[Edge(rv, cv)] == 1 && E[Edge(HeadVertex, rv)] == if name == active then 1 else 0
  {
    var cvs := CommitVertices(commits, unreachable);
    var cv := cvs[i];
    var name := cv.commit.refs.value[j];
    var rv := RefVertex(Reference(name, name == active), RefAt(i, j));
    var es := NameEdges(cv, i, name, j, active);
    assert es == [Edge(rv, cv)] + if name == active then [Edge(HeadVertex, rv)] else [];
    Pass1EdgesCount(cvs, active, Edge(rv, cv), i, j);
    Pass1EdgesCount(cvs, active, Edge(HeadVertex, rv), i, j);
    CommitEdgesCount(cv, i, active, Edge(rv, cv), i, j);
    CommitEdgesCount(cv, i, active, Edge(HeadVertex, rv), i, j);
    if Edge(rv, cv) in Pass2Edges(cvs, cvs) {
      Pass2EdgeKind(cvs, Edge(rv, cv));
    }
    if Edge(HeadVertex, rv) in Pass2Edges(cvs, cvs) {
      Pass2EdgeKind(cvs, Edge(HeadVertex, rv));
    }
  }
}
