/**
  What a build produces, as functions of its inputs.  Each function follows
  one step of `GenerateGraphFromCommits` (Logic/ViewModel.cs): the vertex list
  of the commits, the vertices and edges the first pass adds for one commit,
  and the ancestry edges of the second pass.  The lemmas in module
  BuilderProperties say what these mean; the builder method is proved to
  produce exactly them.
 */
module GraphSpec {
  import opened CommitModel
  import opened Graph

  /** Every element is a commit vertex (the builder's `commitVertices` list). */
  predicate AllCommitVertices(vs: seq<Vertex>) {
    forall v :: v in vs ==> v.CommitVertex?
  }

  /** One vertex per commit, all with the given orphan flag. */
  function AsVertices(commits: seq<Commit>, orphan: bool): (vs: seq<Vertex>) {
    seq(|commits|, i requires 0 <= i < |commits| => CommitVertex(commits[i], orphan))
  }

  /**
    The commit vertices of a build: the reachable commits, then (when the
    unreachable list is given) the unreachable ones flagged as orphans,
    united so that the first vertex of each hash is kept.
   */
  function CommitVertices(commits: seq<Commit>, unreachable: Option<seq<Commit>>): (cvs: seq<Vertex>)
    ensures AllCommitVertices(cvs)
  {
    match unreachable
    case None => AsVertices(commits, false)
    case Some(u) =>
      var all := AsVertices(commits, false) + AsVertices(u, true);
      InsertAllKeepsFirst([], all);
      InsertAll([], all)
  }

  /**
    The vertex the first pass uses for the name at `slot` of the commit vertex
    at `position` of the list of commit vertices.
   */
  function RefVertexFor(position: nat, name: string, slot: nat, active: string): (v: Vertex) {
    if name == HEAD then HeadVertex
    else RefVertex(Reference(name, name == active), RefAt(position, slot))
  }

  /** The vertices added for the reference names `names` of the commit vertex at `position`, in order. */
  function RefVertexAdds(position: nat, names: seq<string>, active: string): (vs: seq<Vertex>) {
    if names == [] then []
    else
      var n := |names| - 1;
      RefVertexAdds(position, names[..n], active) + [RefVertexFor(position, names[n], n, active)]
  }

  /** The vertices the first pass adds while visiting the commit vertex `cv` at `position`. */
  function CommitAdds(cv: Vertex, position: nat, active: string): (vs: seq<Vertex>)
    requires cv.CommitVertex?
  {
    [cv] + match cv.commit.refs
           case None => []
           case Some(names) => RefVertexAdds(position, names, active)
  }

  /** The vertices the first pass adds while visiting `cvs`, in order. */
  function Pass1Adds(cvs: seq<Vertex>, active: string): (vs: seq<Vertex>)
    requires AllCommitVertices(cvs)
  {
    if cvs == [] then []
    else
      var n := |cvs| - 1;
      Pass1Adds(cvs[..n], active) + CommitAdds(cvs[n], n, active)
  }

  /** The edges added for the reference name at `slot` of the commit vertex `cv` at `position`. */
  function NameEdges(cv: Vertex, position: nat, name: string, slot: nat, active: string): (es: seq<Edge>)
    requires cv.CommitVertex?
  {
    if name == HEAD then []
    else
      var rv := RefVertexFor(position, name, slot, active);
      [Edge(rv, cv)] + if name == active then [Edge(HeadVertex, rv)] else []
  }

  /** The edges added for the reference names `names` of `cv` at `position`, in order. */
  function RefNameEdges(cv: Vertex, position: nat, names: seq<string>, active: string): (es: seq<Edge>)
    requires cv.CommitVertex?
  {
    if names == [] then []
    else
      var n := |names| - 1;
      RefNameEdges(cv, position, names[..n], active) + NameEdges(cv, position, names[n], n, active)
  }

  /** HEAD decorates the commit and no active reference on it carries HEAD instead. */
  predicate DetachedHead(names: seq<string>, active: string) {
    HEAD in names && !(active != HEAD && active in names)
  }

  /** The edges the first pass adds while visiting `cv` at `position`. */
  function CommitEdges(cv: Vertex, position: nat, active: string): (es: seq<Edge>)
    requires cv.CommitVertex?
  {
    match cv.commit.refs
    case None => []
    case Some(names) =>
      RefNameEdges(cv, position, names, active) + if DetachedHead(names, active) then [Edge(HeadVertex, cv)] else []
  }

  /** The edges the first pass adds while visiting `cvs`, in order. */
  function Pass1Edges(cvs: seq<Vertex>, active: string): (es: seq<Edge>)
    requires AllCommitVertices(cvs)
  {
    if cvs == [] then []
    else
      var n := |cvs| - 1;
      Pass1Edges(cvs[..n], active) + CommitEdges(cvs[n], n, active)
  }

  /** The first commit vertex of `vs` with hash `h`, if any (`SingleOrDefault` on unique hashes). */
  function FindByHash(vs: seq<Vertex>, h: Hash): (r: Option<Vertex>)
    ensures r.Some? <==> exists v :: v in vs && v.CommitVertex? && v.commit.hash == h
    ensures r.Some? ==> r.value in vs && r.value.CommitVertex? && r.value.commit.hash == h
  {
    if vs == [] then None
    else if vs[0].CommitVertex? && vs[0].commit.hash == h then Some(vs[0])
    else FindByHash(vs[1..], h)
  }

  /** The ancestry edges from `cv` for the parent hashes `parents`, looked up in `cvs`. */
  function ParentEdges(cv: Vertex, parents: seq<Hash>, cvs: seq<Vertex>): (es: seq<Edge>) {
    if parents == [] then []
    else
      var n := |parents| - 1;
      ParentEdges(cv, parents[..n], cvs) +
        match FindByHash(cvs, parents[n])
        case Some(p) => [Edge(cv, p)]
        case None => []
  }

  /** The ancestry edges the second pass adds for `cv`. */
  function AncestryEdges(cv: Vertex, cvs: seq<Vertex>): (es: seq<Edge>)
    requires cv.CommitVertex?
  {
    match cv.commit.parentHashes
    case None => []
    case Some(parents) => ParentEdges(cv, parents, cvs)
  }

  /** The ancestry edges the second pass adds while visiting `done`, looked up in `cvs`. */
  function Pass2Edges(done: seq<Vertex>, cvs: seq<Vertex>): (es: seq<Edge>)
    requires AllCommitVertices(done)
  {
    if done == [] then []
    else Pass2Edges(done[..|done| - 1], cvs) + AncestryEdges(done[|done| - 1], cvs)
  }

  /** The vertices of the finished graph. */
  function GraphVertices(commits: seq<Commit>, active: string, unreachable: Option<seq<Commit>>): (vs: seq<Vertex>) {
    InsertAll([], Pass1Adds(CommitVertices(commits, unreachable), active))
  }

  /** The edges of the finished graph: reference and HEAD edges, then ancestry edges. */
  function GraphEdges(commits: seq<Commit>, active: string, unreachable: Option<seq<Commit>>): (es: seq<Edge>) {
    var cvs := CommitVertices(commits, unreachable);
    Pass1Edges(cvs, active) + Pass2Edges(cvs, cvs)
  }

  /** Adding `v` after `adds` is one more insertion. */
  lemma InsertAllSnoc(vs: seq<Vertex>, adds: seq<Vertex>, v: Vertex)
    ensures InsertAll(vs, adds + [v]) == InsertVertex(InsertAll(vs, adds), v)
  {
  }

  /** One more reference name adds one more vertex. */
  lemma RefVertexAddsStep(position: nat, names: seq<string>, j: nat, active: string)
    requires j < |names|
    ensures RefVertexAdds(position, names[..j + 1], active)
         == RefVertexAdds(position, names[..j], active) + [RefVertexFor(position, names[j], j, active)]
  {
    assert names[..j + 1][..j] == names[..j];
  }

  /** One more reference name adds its edges. */
  lemma RefNameEdgesStep(cv: Vertex, position: nat, names: seq<string>, j: nat, active: string)
    requires cv.CommitVertex? && j < |names|
    ensures RefNameEdges(cv, position, names[..j + 1], active)
         == RefNameEdges(cv, position, names[..j], active) + NameEdges(cv, position, names[j], j, active)
  {
    assert names[..j + 1][..j] == names[..j];
  }
}
