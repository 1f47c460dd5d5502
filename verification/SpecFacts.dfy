/**
  Membership facts about the functions of GraphSpec: which vertices and edges
  each step of the build contributes.  The properties of the finished graph in
  BuilderProperties are proved from these.
 */
module SpecFacts {
  import opened CommitModel
  import opened Graph
  import opened GraphSpec

  /** The `j`-th vertex added for the names of a commit is the one for its `j`-th name. */
  lemma {:induction false} RefVertexAddsAt(position: nat, names: seq<string>, active: string)
    ensures |RefVertexAdds(position, names, active)| == |names|
    ensures forall j :: 0 <= j < |names| ==>
      RefVertexAdds(position, names, active)[j] == RefVertexFor(position, names[j], j, active)
  {
    if names != [] {
      var n := |names| - 1;
      RefVertexAddsAt(position, names[..n], active);
    }
  }

  /** The vertices visiting `cv` at `position` adds: `cv` itself and one per reference name. */
  lemma CommitAddsMember(cv: Vertex, position: nat, active: string, w: Vertex)
    requires cv.CommitVertex?
    ensures w in CommitAdds(cv, position, active) <==>
      w == cv ||
      (cv.commit.refs.Some? &&
       exists j :: 0 <= j < |cv.commit.refs.value| && w == RefVertexFor(position, cv.commit.refs.value[j], j, active))
  {
    if cv.commit.refs.Some? {
      var names := cv.commit.refs.value;
      RefVertexAddsAt(position, names, active);
      var adds := RefVertexAdds(position, names, active);
      if w in adds {
        var j :| 0 <= j < |adds| && adds[j] == w;
      }
      if exists j :: 0 <= j < |names| && w == RefVertexFor(position, names[j], j, active) {
        var j :| 0 <= j < |names| && w == RefVertexFor(position, names[j], j, active);
        assert adds[j] == w;
      }
    }
  }

  /** A vertex added in the first pass was added while visiting the commit vertex at some position. */
  lemma {:induction false} Pass1AddsOrigin(cvs: seq<Vertex>, active: string, w: Vertex)
    requires AllCommitVertices(cvs) && w in Pass1Adds(cvs, active)
    ensures exists i :: 0 <= i < |cvs| && w in CommitAdds(cvs[i], i, active)
  {
    var n := |cvs| - 1;
    var init := cvs[..n];
    assert AllCommitVertices(init) by {
      forall v | v in init ensures v.CommitVertex? {
        assert v in cvs;
      }
    }
    assert Pass1Adds(cvs, active) == Pass1Adds(init, active) + CommitAdds(cvs[n], n, active);
    if w in Pass1Adds(init, active) {
      Pass1AddsOrigin(init, active, w);
      var i :| 0 <= i < |init| && w in CommitAdds(init[i], i, active);
      assert init[i] == cvs[i];
    }
  }

  /** Whatever visiting the commit vertex at `i` adds is added in the first pass. */
  lemma {:induction false} Pass1AddsHas(cvs: seq<Vertex>, active: string, i: nat, w: Vertex)
    requires AllCommitVertices(cvs) && i < |cvs| && w in CommitAdds(cvs[i], i, active)
    ensures w in Pass1Adds(cvs, active)
  {
    var n := |cvs| - 1;
    var init := cvs[..n];
    assert AllCommitVertices(init) by {
      forall v | v in init ensures v.CommitVertex? {
        assert v in cvs;
      }
    }
    var before, visit := Pass1Adds(init, active), CommitAdds(cvs[n], n, active);
    assert Pass1Adds(cvs, active) == before + visit;
    if i < n {
      assert init[i] == cvs[i];
      Pass1AddsHas(init, active, i, w);
      assert w in before;
    } else {
      assert w in visit;
    }
  }

  /** The vertices of the first pass are those added while visiting the commit vertices. */
  lemma Pass1AddsMember(cvs: seq<Vertex>, active: string, w: Vertex)
    requires AllCommitVertices(cvs)
    ensures w in Pass1Adds(cvs, active) <==> exists i :: 0 <= i < |cvs| && w in CommitAdds(cvs[i], i, active)
  {
    if w in Pass1Adds(cvs, active) {
      Pass1AddsOrigin(cvs, active, w);
    }
    if exists i :: 0 <= i < |cvs| && w in CommitAdds(cvs[i], i, active) {
      var i :| 0 <= i < |cvs| && w in CommitAdds(cvs[i], i, active);
      Pass1AddsHas(cvs, active, i, w);
    }
  }

  /** An edge added for the names of `cv` was added for one of them. */
  lemma {:induction false} RefNameEdgesOrigin(cv: Vertex, position: nat, names: seq<string>, active: string, e: Edge)
    requires cv.CommitVertex? && e in RefNameEdges(cv, position, names, active)
    ensures exists j :: 0 <= j < |names| && e in NameEdges(cv, position, names[j], j, active)
  {
    var n := |names| - 1;
    var init := names[..n];
    var before, visit := RefNameEdges(cv, position, init, active), NameEdges(cv, position, names[n], n, active);
    assert RefNameEdges(cv, position, names, active) == before + visit;
    if e in before {
      RefNameEdgesOrigin(cv, position, init, active, e);
      var j :| 0 <= j < |init| && e in NameEdges(cv, position, init[j], j, active);
      assert names[j] == init[j];
    } else {
      assert e in visit;
    }
  }

  /** Every edge added for the name at `j` of `cv` is among the edges added for its names. */
  lemma {:induction false} RefNameEdgesHas(cv: Vertex, position: nat, names: seq<string>, active: string, j: nat, e: Edge)
    requires cv.CommitVertex? && j < |names| && e in NameEdges(cv, position, names[j], j, active)
    ensures e in RefNameEdges(cv, position, names, active)
  {
    var n := |names| - 1;
    var init := names[..n];
    var before, visit := RefNameEdges(cv, position, init, active), NameEdges(cv, position, names[n], n, active);
    assert RefNameEdges(cv, position, names, active) == before + visit;
    if j < n {
      assert init[j] == names[j];
      RefNameEdgesHas(cv, position, init, active, j, e);
      assert e in before;
    } else {
      assert e in visit;
    }
  }

  /** The edges added for the names of `cv` are those added for each of them. */
  lemma RefNameEdgesMember(cv: Vertex, position: nat, names: seq<string>, active: string, e: Edge)
    requires cv.CommitVertex?
    ensures e in RefNameEdges(cv, position, names, active) <==>
      exists j :: 0 <= j < |names| && e in NameEdges(cv, position, names[j], j, active)
  {
    if e in RefNameEdges(cv, position, names, active) {
      RefNameEdgesOrigin(cv, position, names, active, e);
    }
    if exists j :: 0 <= j < |names| && e in NameEdges(cv, position, names[j], j, active) {
      var j :| 0 <= j < |names| && e in NameEdges(cv, position, names[j], j, active);
      RefNameEdgesHas(cv, position, names, active, j, e);
    }
  }

  /** An edge added in the first pass was added while visiting the commit vertex at some position. */
  lemma {:induction false} Pass1EdgesMember(cvs: seq<Vertex>, active: string, e: Edge)
    requires AllCommitVertices(cvs)
    ensures e in Pass1Edges(cvs, active) <==> exists i :: 0 <= i < |cvs| && e in CommitEdges(cvs[i], i, active)
  {
    if cvs != [] {
      var n := |cvs| - 1;
      var init := cvs[..n];
      assert AllCommitVertices(init) by {
        forall v | v in init ensures v.CommitVertex? {
          assert v in cvs;
        }
      }
      assert Pass1Edges(cvs, active) == Pass1Edges(init, active) + CommitEdges(cvs[n], n, active);
      Pass1EdgesMember(init, active, e);
      if e in Pass1Edges(init, active) {
        var i :| 0 <= i < |init| && e in CommitEdges(init[i], i, active);
        assert init[i] == cvs[i];
      } else if e !in CommitEdges(cvs[n], n, active) {
        forall i | 0 <= i < |cvs| ensures e !in CommitEdges(cvs[i], i, active) {
          if i < n {
            assert init[i] == cvs[i];
          }
        }
      }
    }
  }

  /** An ancestry edge from `cv` goes to the vertex found for one of the parent hashes. */
  lemma {:induction false} ParentEdgesMember(cv: Vertex, parents: seq<Hash>, cvs: seq<Vertex>, e: Edge)
    ensures e in ParentEdges(cv, parents, cvs) <==>
      e.source == cv && exists h :: h in parents && FindByHash(cvs, h) == Some(e.target)
  {
    if parents != [] {
      var n := |parents| - 1;
      var init, last := parents[..n], parents[n];
      ParentEdgesMember(cv, init, cvs, e);
      var found := FindByHash(cvs, last);
      var tail := if found.Some? then [Edge(cv, found.value)] else [];
      assert ParentEdges(cv, parents, cvs) == ParentEdges(cv, init, cvs) + tail;
      assert parents == init + [last];
      if e in tail {
        assert last in parents;
      }
      if e.source == cv && exists h :: h in parents && FindByHash(cvs, h) == Some(e.target) {
        var h :| h in parents && FindByHash(cvs, h) == Some(e.target);
        assert h in init || h == last;
      }
    }
  }

  /** An edge added in the second pass was added while visiting one of the commit vertices. */
  lemma {:induction false} Pass2EdgesMember(done: seq<Vertex>, cvs: seq<Vertex>, e: Edge)
    requires AllCommitVertices(done)
    ensures e in Pass2Edges(done, cvs) <==> exists cv :: cv in done && e in AncestryEdges(cv, cvs)
  {
    if done != [] {
      var init, last := done[..|done| - 1], done[|done| - 1];
      assert done == init + [last];
      Pass2EdgesMember(init, cvs, e);
    }
  }

  /** A vertex of `AsVertices` is one of the given commits with the given flag. */
  lemma AsVerticesMember(commits: seq<Commit>, orphan: bool, w: Vertex)
    ensures w in AsVertices(commits, orphan) <==> w.CommitVertex? && w.orphan == orphan && w.commit in commits
  {
    if w.CommitVertex? && w.orphan == orphan && w.commit in commits {
      var i :| 0 <= i < |commits| && commits[i] == w.commit;
      assert AsVertices(commits, orphan)[i] == w;
    }
  }

  /** `AsVertices` has a vertex of hash `h` exactly when a commit has that hash. */
  lemma AsVerticesKeys(commits: seq<Commit>, orphan: bool, h: Hash)
    ensures HasKey(AsVertices(commits, orphan), CommitKey(h)) <==> h in Hashes(commits)
  {
    if h in Hashes(commits) {
      var i :| 0 <= i < |commits| && Hashes(commits)[i] == h;
      assert AsVertices(commits, orphan)[i] in AsVertices(commits, orphan);
    }
    if HasKey(AsVertices(commits, orphan), CommitKey(h)) {
      var w :| w in AsVertices(commits, orphan) && Key(w) == CommitKey(h);
      AsVerticesMember(commits, orphan, w);
      var i :| 0 <= i < |commits| && commits[i] == w.commit;
      assert Hashes(commits)[i] == h;
    }
  }
}
