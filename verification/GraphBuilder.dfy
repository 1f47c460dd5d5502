/**
  `GenerateGraphFromCommits` (Logic/ViewModel.cs:95-160): the two passes over
  the commit vertices that fill a new graph.  The body of each pass's outer
  loop is a method of its own here, so that each loop is proved on its own.
 */
module GraphBuilder {
  import opened CommitModel
  import opened Graph
  import opened GraphSpec

  /**
    Builds the graph of `commits`, with `activeRefName` the reference HEAD
    resolves through and `unreachableCommits` the orphan candidates (None
    when orphans are not shown).  The first pass adds every commit vertex,
    its reference vertices and the reference and HEAD edges; the second pass
    adds an edge to each parent found among the commit vertices.
   */
  method GenerateGraphFromCommits(commits: seq<Commit>, activeRefName: string, unreachableCommits: Option<seq<Commit>>)
    returns (graph: CommitGraph)
    ensures fresh(graph)
    ensures graph.vertices == GraphVertices(commits, activeRefName, unreachableCommits)
    ensures graph.edges == GraphEdges(commits, activeRefName, unreachableCommits)
  {
    graph := new CommitGraph();
    var commitVertices := CommitVertices(commits, unreachableCommits);

    // Add all the vertices, with the reference and HEAD edges
    var i := 0;
    while i < |commitVertices|
      invariant 0 <= i <= |commitVertices|
      invariant graph.vertices == InsertAll([], Pass1Adds(commitVertices[..i], activeRefName))
      invariant graph.edges == Pass1Edges(commitVertices[..i], activeRefName)
    {
      Pass1Step(commitVertices, i, activeRefName);
      AddCommit(graph, commitVertices[i], i, activeRefName);
      i := i + 1;
    }
    assert commitVertices[..i] == commitVertices;
    ghost var pass1Vertices, pass1Edges := graph.vertices, graph.edges;

    // Add all the ancestry edges
    i := 0;
    while i < |commitVertices|
      invariant 0 <= i <= |commitVertices|
      invariant graph.vertices == pass1Vertices
      invariant graph.edges == pass1Edges + Pass2Edges(commitVertices[..i], commitVertices)
    {
      Pass2Step(pass1Edges, commitVertices, i);
      AddAncestry(graph, commitVertices[i], commitVertices);
      i := i + 1;
    }
    assert commitVertices[..i] == commitVertices;
  }

  /**
    The first pass for one commit vertex (Logic/ViewModel.cs:121-146): add it,
    then for each reference name add the shared HEAD vertex (for `HEAD`) or a
    new reference vertex with its edge to the commit, plus HEAD's edge to it
    when it is the active reference; finally, when HEAD decorates the commit
    but no active reference took it, the edge from HEAD to the commit.
    `position` is where `commitVertex` stands in the list of commit vertices;
    it only names the new reference vertices apart.
   */
  method AddCommit(graph: CommitGraph, commitVertex: Vertex, position: nat, activeRefName: string)
    requires commitVertex.CommitVertex?
    modifies graph
    ensures graph.vertices == InsertAll(old(graph.vertices), CommitAdds(commitVertex, position, activeRefName))
    ensures graph.edges == old(graph.edges) + CommitEdges(commitVertex, position, activeRefName)
  {
    ghost var verticesBefore := graph.vertices;
    ghost var edgesBefore := graph.edges;
    graph.AddVertex(commitVertex);
    InsertAllSnoc(verticesBefore, [], commitVertex);
    if commitVertex.commit.refs.None? {
      return;
    }
    var refs := commitVertex.commit.refs.value;
    var isHeadHere := false;
    var isHeadSet := false;
    var j := 0;
    while j < |refs|
      invariant 0 <= j <= |refs|
      invariant graph.vertices == InsertAll(verticesBefore, [commitVertex] + RefVertexAdds(position, refs[..j], activeRefName))
      invariant graph.edges == edgesBefore + RefNameEdges(commitVertex, position, refs[..j], activeRefName)
      invariant isHeadHere == (HEAD in refs[..j])
      invariant isHeadSet == (activeRefName != HEAD && activeRefName in refs[..j])
    {
      var refName := refs[j];
      RefStep(verticesBefore, edgesBefore, commitVertex, position, refs, j, activeRefName);
      PrefixStep(refs, j, HEAD);
      PrefixStep(refs, j, activeRefName);
      AddRefName(graph, commitVertex, position, refName, j, activeRefName);
      if refName == HEAD {
        isHeadHere := true;
      } else if refName == activeRefName {
        isHeadSet := true;
      }
      j := j + 1;
    }
    assert refs[..|refs|] == refs;
    if isHeadHere && !isHeadSet {
      graph.AddEdge(Edge(HeadVertex, commitVertex));
    }
  }

  /**
    One reference name at `slot` of the commit of `commitVertex`, which
    stands at `position` in the list of commit vertices
    (Logic/ViewModel.cs:128-143): `HEAD` adds the shared HEAD vertex and
    nothing else; any other name adds a new reference vertex, active exactly
    when the name is `activeRefName`, and the edge from it to the commit, and
    when it is active also the edge from HEAD to it.
   */
  method AddRefName(graph: CommitGraph, commitVertex: Vertex, position: nat, refName: string, slot: nat, activeRefName: string)
    requires commitVertex.CommitVertex?
    modifies graph
    ensures graph.vertices == InsertVertex(old(graph.vertices), RefVertexFor(position, refName, slot, activeRefName))
    ensures graph.edges == old(graph.edges) + NameEdges(commitVertex, position, refName, slot, activeRefName)
  {
    if refName == HEAD {
      graph.AddVertex(HeadVertex);
      return;
    }
    var refVertex := RefVertex(Reference(refName, refName == activeRefName), RefAt(position, slot));
    graph.AddVertex(refVertex);
    graph.AddEdge(Edge(refVertex, commitVertex));
    if refVertex.reference.isActive {
      graph.AddEdge(Edge(HeadVertex, refVertex));
    }
  }

  /**
    The second pass for one commit vertex (Logic/ViewModel.cs:150-156): for
    each parent hash, an edge to the commit vertex of that hash when there is one.
   */
  method AddAncestry(graph: CommitGraph, commitVertex: Vertex, commitVertices: seq<Vertex>)
    requires commitVertex.CommitVertex?
    modifies graph
    ensures graph.vertices == old(graph.vertices)
    ensures graph.edges == old(graph.edges) + AncestryEdges(commitVertex, commitVertices)
  {
    if commitVertex.commit.parentHashes.None? {
      return;
    }
    var parentHashes := commitVertex.commit.parentHashes.value;
    ghost var edgesBefore := graph.edges;
    var k := 0;
    while k < |parentHashes|
      invariant 0 <= k <= |parentHashes|
      invariant graph.vertices == old(graph.vertices)
      invariant graph.edges == edgesBefore + ParentEdges(commitVertex, parentHashes[..k], commitVertices)
    {
      assert parentHashes[..k + 1][..k] == parentHashes[..k];
      var parentVertex := FindByHash(commitVertices, parentHashes[k]);
      if parentVertex.Some? {
        graph.AddEdge(Edge(commitVertex, parentVertex.value));
      }
      k := k + 1;
    }
    assert parentHashes[..|parentHashes|] == parentHashes;
  }

  /** What one more reference name adds to the vertices and edges of `AddCommit`. */
  lemma RefStep(verticesBefore: seq<Vertex>, edgesBefore: seq<Edge>, cv: Vertex, position: nat, refs: seq<string>, j: nat, active: string)
    requires cv.CommitVertex? && j < |refs|
    ensures InsertAll(verticesBefore, [cv] + RefVertexAdds(position, refs[..j + 1], active))
         == InsertVertex(InsertAll(verticesBefore, [cv] + RefVertexAdds(position, refs[..j], active)),
                         RefVertexFor(position, refs[j], j, active))
    ensures edgesBefore + RefNameEdges(cv, position, refs[..j + 1], active)
         == edgesBefore + RefNameEdges(cv, position, refs[..j], active) + NameEdges(cv, position, refs[j], j, active)
  {
    var added := [cv] + RefVertexAdds(position, refs[..j], active);
    var v := RefVertexFor(position, refs[j], j, active);
    RefVertexAddsStep(position, refs, j, active);
    assert [cv] + RefVertexAdds(position, refs[..j + 1], active) == added + [v];
    InsertAllSnoc(verticesBefore, added, v);
    RefNameEdgesStep(cv, position, refs, j, active);
  }

  /** `x` is among the first `j + 1` elements when it is among the first `j` or is the next. */
  lemma PrefixStep<T>(s: seq<T>, j: nat, x: T)
    requires j < |s|
    ensures (x in s[..j + 1]) == (x in s[..j] || s[j] == x)
  {
  }

  /** What visiting one more commit vertex adds in the first pass. */
  lemma Pass1Step(cvs: seq<Vertex>, i: nat, active: string)
    requires AllCommitVertices(cvs) && i < |cvs|
    ensures cvs[i].CommitVertex?
    ensures InsertAll([], Pass1Adds(cvs[..i + 1], active))
         == InsertAll(InsertAll([], Pass1Adds(cvs[..i], active)), CommitAdds(cvs[i], i, active))
    ensures Pass1Edges(cvs[..i + 1], active) == Pass1Edges(cvs[..i], active) + CommitEdges(cvs[i], i, active)
  {
    assert cvs[i] in cvs;
    assert cvs[..i + 1][..i] == cvs[..i];
    InsertAllAppend([], Pass1Adds(cvs[..i], active), CommitAdds(cvs[i], i, active));
  }

  /** What visiting one more commit vertex adds in the second pass. */
  lemma Pass2Step(edgesBefore: seq<Edge>, cvs: seq<Vertex>, i: nat)
    requires AllCommitVertices(cvs) && i < |cvs|
    ensures cvs[i].CommitVertex?
    ensures edgesBefore + Pass2Edges(cvs[..i + 1], cvs) == edgesBefore + Pass2Edges(cvs[..i], cvs) + AncestryEdges(cvs[i], cvs)
  {
    assert cvs[i] in cvs;
    assert cvs[..i + 1][..i] == cvs[..i];
  }
}
