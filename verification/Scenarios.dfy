/**
  Whole builds of small inputs, worked out to the exact vertex and edge lists.
 */
module Scenarios {
  import opened CommitModel
  import opened Graph
  import opened GraphSpec

  /**
    A commit carrying `HEAD` and the active branch `main`: HEAD is wired
    through the branch, with no direct edge to the commit.
   */
  lemma HeadThroughBranch()
    ensures var a := Commit("A", Some([]), Some(["HEAD", "main"]));
      var av := CommitVertex(a, false);
      var main := RefVertex(Reference("main", true), RefAt(0, 1));
      GraphVertices([a], "main", None) == [av, HeadVertex, main] &&
      GraphEdges([a], "main", None) == [Edge(main, av), Edge(HeadVertex, main)]
  {
    var a := Commit("A", Some([]), Some(["HEAD", "main"]));
    var av := CommitVertex(a, false);
    var main := RefVertex(Reference("main", true), RefAt(0, 1));
    var names := ["HEAD", "main"];
    assert CommitVertices([a], None) == [av];
    assert names[..1] == ["HEAD"] && names[..1][..0] == [];
    assert RefVertexAdds(0, names, "main") == [HeadVertex, main];
    assert RefNameEdges(av, 0, names, "main") == [Edge(main, av), Edge(HeadVertex, main)];
    assert !DetachedHead(names, "main");
    assert [av][..0] == [];
    var adds := [av, HeadVertex, main];
    assert Pass1Adds([av], "main") == adds;
    assert Pass1Edges([av], "main") == [Edge(main, av), Edge(HeadVertex, main)];
    assert Pass2Edges([av], [av]) == [];
    assert adds[..2] == [av, HeadVertex] && adds[..2][..1] == [av] && adds[..2][..1][..0] == [];
    assert InsertAll([], [av]) == [av];
    assert !HasKey([av], Key(HeadVertex));
    assert InsertAll([], [av, HeadVertex]) == [av, HeadVertex];
    assert !HasKey([av, HeadVertex], Key(main));
    assert InsertAll([], adds) == adds;
  }

  /** A detached HEAD on a commit: the HEAD vertex and one edge from it to the commit. */
  lemma DetachedHeadScenario()
    ensures var a := Commit("A", Some([]), Some(["HEAD"]));
      var av := CommitVertex(a, false);
      GraphVertices([a], "", None) == [av, HeadVertex] &&
      GraphEdges([a], "", None) == [Edge(HeadVertex, av)]
  {
    var a := Commit("A", Some([]), Some(["HEAD"]));
    var av := CommitVertex(a, false);
    assert CommitVertices([a], None) == [av];
    assert ["HEAD"][..0] == [];
    assert DetachedHead(["HEAD"], "");
    assert [av][..0] == [];
    var adds := [av, HeadVertex];
    assert Pass1Adds([av], "") == adds;
    assert Pass1Edges([av], "") == [Edge(HeadVertex, av)];
    assert Pass2Edges([av], [av]) == [];
    assert adds[..1] == [av] && adds[..1][..0] == [];
    assert InsertAll([], [av]) == [av];
    assert !HasKey([av], Key(HeadVertex));
    assert InsertAll([], adds) == adds;
  }

  /** Two commits, the first the child of the second: two vertices and one ancestry edge. */
  lemma ParentScenario()
    ensures var a := Commit("A", Some(["B"]), None);
      var b := Commit("B", Some([]), None);
      var av, bv := CommitVertex(a, false), CommitVertex(b, false);
      GraphVertices([a, b], "", None) == [av, bv] &&
      GraphEdges([a, b], "", None) == [Edge(av, bv)]
  {
    var a := Commit("A", Some(["B"]), None);
    var b := Commit("B", Some([]), None);
    var av, bv := CommitVertex(a, false), CommitVertex(b, false);
    var cvs := [av, bv];
    assert CommitVertices([a, b], None) == cvs;
    assert cvs[..1] == [av] && cvs[..1][..0] == [];
    assert Pass1Adds([av], "") == [av];
    assert Pass1Adds(cvs, "") == cvs;
    assert Pass1Edges([av], "") == [];
    assert Pass1Edges(cvs, "") == [];
    assert InsertAll([], [av]) == [av];
    assert !HasKey([av], Key(bv));
    assert InsertAll([], cvs) == cvs;
    assert cvs[1..] == [bv];
    assert FindByHash(cvs, "B") == Some(bv);
    assert ["B"][..0] == [] && ["B"][0] == "B";
    assert ParentEdges(av, [], cvs) == [];
    assert ParentEdges(av, ["B"], cvs) == [Edge(av, bv)];
    assert AncestryEdges(av, cvs) == [Edge(av, bv)];
    assert AncestryEdges(bv, cvs) == [];
    assert Pass2Edges([av], cvs) == [Edge(av, bv)];
    assert Pass2Edges(cvs, cvs) == [Edge(av, bv)];
  }

  /**
    An unreachable commit with the hash of a reachable one: a single vertex
    for the hash, not flagged as an orphan.
   */
  lemma ReachableWinsScenario()
    ensures var a := Commit("A", None, None);
      var stale := Commit("A", None, Some(["old"]));
      GraphVertices([a], "", Some([stale])) == [CommitVertex(a, false)]
  {
    var a := Commit("A", None, None);
    var stale := Commit("A", None, Some(["old"]));
    var av, sv := CommitVertex(a, false), CommitVertex(stale, true);
    var all := AsVertices([a], false) + AsVertices([stale], true);
    assert all == [av, sv];
    assert all[..1] == [av] && all[..1][..0] == [];
    assert InsertAll([], [av]) == [av];
    assert av in [av] && Key(av) == Key(sv);
    assert CommitVertices([a], Some([stale])) == [av];
    assert [av][..0] == [];
    assert Pass1Adds([av], "") == [av];
  }
}
