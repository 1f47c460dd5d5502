/**
  The values the commit-graph builder works on: commit records as the log
  parser delivers them, references, graph vertices and edges.

  A `null` list in the source (a commit without `Refs`, without
  `ParentHashes`, or an absent list of unreachable commits) is `None` here.
 */
module CommitModel {

  datatype Option<+T> = None | Some(value: T)

  type Hash = string

  /** The reserved reference name of the symbolic HEAD pointer (exact, case-sensitive). */
  const HEAD: string := "HEAD"

  /** One parsed commit: its hash, its parent hashes and the reference names decorating it. */
  datatype Commit = Commit(hash: Hash, parentHashes: Option<seq<Hash>>, refs: Option<seq<string>>)

  /** A named pointer; `isActive` holds for the reference HEAD currently resolves through. */
  datatype Reference = Reference(name: string, isActive: bool)

  /**
    The identity of a reference vertex.  Every reference vertex in the source is a
    new object, so two of them are never the same vertex; the model names each by
    the position of the commit vertex it decorates in the builder's list of
    commit vertices and the position of its name in that commit's `Refs`, which
    no two of them share even when a hash is repeated.  The one HEAD vertex of a
    build has its own identity.
   */
  datatype RefId = HeadRef | RefAt(position: nat, slot: nat)

  /** A vertex wraps either a commit (flagged when it is an orphan) or a reference. */
  datatype Vertex =
    | CommitVertex(commit: Commit, orphan: bool)
    | RefVertex(reference: Reference, id: RefId)

  /** A directed edge, from `source` to `target`. */
  datatype Edge = Edge(source: Vertex, target: Vertex)

  /** What decides whether two vertices are the same vertex of a graph. */
  datatype VertexKey = CommitKey(hash: Hash) | RefKey(id: RefId)

  /** Commit vertices are the same vertex exactly when their hashes agree. */
  function Key(v: Vertex): (k: VertexKey)
    ensures k.CommitKey? <==> v.CommitVertex?
    ensures v.CommitVertex? ==> k.hash == v.commit.hash
    ensures v.RefVertex? ==> k.id == v.id
  {
    match v
    case CommitVertex(c, _) => CommitKey(c.hash)
    case RefVertex(_, id) => RefKey(id)
  }

  /** The single HEAD vertex shared by every HEAD edge of one build. */
  const HeadVertex: Vertex := RefVertex(Reference(HEAD, false), HeadRef)

  /** The hashes of `commits`, in order (`commits.Select(c => c.Hash)`). */
  function Hashes(commits: seq<Commit>): (hs: seq<Hash>)
    ensures |hs| == |commits|
    ensures forall i :: 0 <= i < |commits| ==> hs[i] == commits[i].hash
  {
    seq(|commits|, i requires 0 <= i < |commits| => commits[i].hash)
  }

  /** No two commits of the batch share a hash. */
  predicate DistinctHashes(commits: seq<Commit>) {
    forall i, j :: 0 <= i < j < |commits| ==> commits[i].hash != commits[j].hash
  }
}
