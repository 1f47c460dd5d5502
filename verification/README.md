# GitViz commit-graph builder in Dafny

GitViz draws a repository's recent history as a graph. Its view model
(`Logic/ViewModel.cs`) rebuilds that graph on every refresh. It fetches the
recent commits and the active reference name. When unreachable commits are
shown, it also fetches the commits of the recent unreachable hashes, keeps
those whose hash is not among the recent ones, and hands everything to
`GenerateGraphFromCommits`.

The builder works in two passes over the commit vertices.

- **Pass 1.** It adds each commit vertex. For each reference name on the
  commit:
  - `HEAD` adds the one shared HEAD vertex;
  - any other name adds a new reference vertex and an edge from it to the
    commit;
  - an active reference also gets an edge from HEAD.

  When HEAD decorates a commit and no active reference there took it (a
  detached HEAD), HEAD gets a direct edge to the commit.
- **Pass 2.** It adds an edge from each commit to the commit vertex of each
  parent hash that has one.

The model is organised as follows:

- `Model.dfy` (module `CommitModel`) holds the values: commits, references,
  vertices, edges and vertex identities. A `null` list is `None`.
- `CommitGraph.dfy` (module `Graph`) holds the graph as a class with a vertex
  sequence and an edge sequence. `AddVertex` does nothing when a vertex of the
  same identity is present; `AddEdge` appends. `InsertAll`, repeated
  insertion, also serves as the model of `Enumerable.Union`, which keeps the
  first vertex of each identity.
- `GraphSpec.dfy` (module `GraphSpec`) says what each step of a build adds, as
  functions of the inputs.
- `GraphBuilder.dfy` (module `GraphBuilder`) is the builder with its loops. It
  is proved to produce exactly `GraphVertices` and `GraphEdges`.
- `BuilderProperties.dfy`, `EdgeProperties.dfy` and `SpecFacts.dfy` prove
  properties of the built graph:
  - which vertices it has;
  - orphan flags, with reachable commits winning;
  - the four kinds of edges;
  - exactly one edge from each reference vertex to its commit, exactly one
    from HEAD to each active reference vertex, and exactly one from HEAD to
    the commit on a detached HEAD;
  - ancestry edges to every found parent, orphans included.
- `ViewModel.dfy` (module `Refresh`) holds the orphan-candidate filter of
  `RefreshGraph` and the view model's refresh.
- `Scenarios.dfy` works out whole builds of small inputs.

Identity of vertices:

- Commit vertices are the same vertex exactly when their hashes agree.
- Each reference vertex is a new object in the source. The model names it by
  the position of the commit vertex it decorates in the list of commit
  vertices and the position of the name in that commit's reference list
  (`RefAt`). So two reference vertices are never merged, even when two
  commits share a hash (`BuilderProperties.RefVerticesInGraph`).
- The HEAD vertex has an identity of its own (`HeadRef`).

The parent lookup at `Logic/ViewModel.cs:154` searches every commit vertex,
orphans included (`EdgeProperties.AncestryEdge`).

The HEAD edge of an active reference is added whether or not any name `HEAD`
added the HEAD vertex (`EdgeProperties.HeadEdgeWithoutHeadVertex`). The model's
`AddEdge` accepts it. What the repository's `CommitGraph` does with an edge
whose source is not one of its vertices is not part of this model, because
`Logic/CommitGraph.cs` is not part of this model.

## Model

| member | source | states |
|---|---|---|
| `Graph.CommitGraph.constructor` | Logic/ViewModel.cs:99 | a new graph has no vertex and no edge |
| `Graph.CommitGraph.AddVertex` | Logic/ViewModel.cs:121 | the vertex list becomes the insertion of `v` (unchanged when its identity is present); edges unchanged |
| `Graph.CommitGraph.AddEdge` | Logic/ViewModel.cs:140 | the edge is appended; vertices unchanged |
| `Graph.InsertVertexFacts` | Logic/ViewModel.cs:121 | after adding a vertex the identities are the old ones plus its own, nothing else is new, old vertices keep their place, and no identity repeats |
| `Graph.InsertAll` | Logic/ViewModel.cs:103-105 | adding a list of vertices in turn (and the `Union` of two lists) keeps the earlier vertices as a prefix and adds at most one vertex per added one; `InsertAllKeys`, `InsertAllKeepsFirst` and `InsertAllDistinct` give the rest of its meaning |
| `Graph.InsertAllKeys` | Logic/ViewModel.cs:103-105 | the identities after adding a list (or after a union) are exactly those of both lists |
| `Graph.InsertAllKeepsFirst` | Logic/ViewModel.cs:103-105 | nothing new appears, the first vertex of an identity wins, and the earlier vertices form a prefix |
| `Graph.InsertAllDistinct` | Logic/ViewModel.cs:103-105 | adding vertices never yields two vertices of one identity |
| `Graph.InsertAllNoDuplicates` | Logic/ViewModel.cs:103-105 | without repeated identities the union is the concatenation |
| `Graph.InsertAllAppend` | Logic/ViewModel.cs:119-121 | adding two lists in turn equals adding their concatenation |
| `GraphSpec.FindByHash` | Logic/ViewModel.cs:154 | a vertex is found iff some commit vertex has the hash, and the one found is a commit vertex of the list with that hash |
| `GraphSpec.CommitVertices` | Logic/ViewModel.cs:101-111 | the list of commit vertices holds only commit vertices; `BuilderProperties.CommitVertexOrigin`, `ReachableVerticesPresent` and `CommitVerticesDistinct` give its meaning |
| `GraphBuilder.GenerateGraphFromCommits` | Logic/ViewModel.cs:95-160 | a fresh graph whose vertices and edges are exactly `GraphVertices` and `GraphEdges` of the inputs |
| `GraphBuilder.AddCommit` | Logic/ViewModel.cs:121-146 | one commit's first pass adds its vertex and its names' vertices, then its names' edges and, on a detached HEAD, HEAD's edge to it; the loop keeps the two flags equal to "HEAD seen" and "active reference seen" |
| `GraphBuilder.AddRefName` | Logic/ViewModel.cs:128-143 | `HEAD` adds only the shared HEAD vertex; another name adds its reference vertex, its edge to the commit, and HEAD's edge to it when active |
| `GraphBuilder.AddAncestry` | Logic/ViewModel.cs:150-156 | adds, in order, an edge to the vertex found for each parent hash; vertices unchanged |
| `SpecFacts.CommitAddsMember` | Logic/ViewModel.cs:121-139 | visiting a commit adds the commit vertex and the vertex for each of its names, nothing else |
| `SpecFacts.ParentEdgesMember` | Logic/ViewModel.cs:152-155 | an ancestry edge from a commit goes to the vertex found for one of its parent hashes, and each found one gives an edge |
| `SpecFacts.AsVerticesKeys` | Logic/ViewModel.cs:103-109 | the commits' vertices have a vertex of a hash iff a commit has that hash |
| `BuilderProperties.CommitVertexOrigin` | Logic/ViewModel.cs:101-111 | a commit vertex is a reachable commit, not flagged, or an unreachable commit flagged as orphan whose hash no reachable commit has |
| `BuilderProperties.ReachableVerticesPresent` | Logic/ViewModel.cs:101-111 | with unique hashes every reachable commit has its non-orphan vertex, with or without the union |
| `BuilderProperties.UnreachableHashesPresent` | Logic/ViewModel.cs:103-105 | every unreachable commit's hash has a commit vertex |
| `BuilderProperties.CommitVerticesDistinct` | Logic/ViewModel.cs:101-111 | no hash has two commit vertices |
| `BuilderProperties.VerticesClassified` | Logic/ViewModel.cs:114-139 | every graph vertex is a commit vertex, the HEAD vertex or a created reference vertex; the only vertex named `HEAD` is the shared one; no identity repeats |
| `BuilderProperties.CommitVerticesInGraph` | Logic/ViewModel.cs:119-121 | every commit vertex is a vertex of the graph |
| `BuilderProperties.RefVerticesInGraph` | Logic/ViewModel.cs:134-139 | every reference vertex created for a name other than `HEAD` is a vertex of the graph, even when hashes repeat |
| `BuilderProperties.HeadVertexInGraph` | Logic/ViewModel.cs:114-132 | the HEAD vertex is in the graph iff some commit carries the name `HEAD` |
| `BuilderProperties.OrphanFlags` | Logic/ViewModel.cs:101-111 | a graph commit vertex is an orphan iff no reachable commit has its hash (reachable wins); with no unreachable list, no orphan |
| `BuilderProperties.CommitsInGraph` | Logic/ViewModel.cs:101-121 | every reachable commit is a non-orphan vertex of the graph and every unreachable commit's hash has a commit vertex |
| `BuilderProperties.BareCommits` | Logic/ViewModel.cs:119-157 | when every commit's name list and parent list is absent or empty, the graph is the commit vertices and no edge; without unreachable commits, one vertex per commit |
| `EdgeProperties.EdgesClassified` | Logic/ViewModel.cs:119-157 | every edge is reference→its commit, HEAD→active reference, HEAD→commit on a detached HEAD, or commit→a parent's vertex |
| `EdgeProperties.EdgeDirections` | Logic/ViewModel.cs:123-155 | no edge enters HEAD; a `HEAD`-named source is the shared vertex; a commit's outgoing edges are ancestry edges, and exist only with parent hashes; a commit without names gets no reference edge |
| `EdgeProperties.RefNamePresent` | Logic/ViewModel.cs:134-143 | each name other than `HEAD` has its reference vertex, active iff the name is the active one, its edge to the commit, and HEAD's edge to it iff it is active |
| `EdgeProperties.RefEdgeCounts` | Logic/ViewModel.cs:134-143 | that reference vertex's edge to its commit occurs exactly once, and HEAD's edge to it exactly once when it is active and never otherwise |
| `EdgeProperties.HeadCommitEdge` | Logic/ViewModel.cs:124-146 | HEAD has an edge to a commit vertex iff HEAD decorates it and no active reference other than `HEAD` does |
| `EdgeProperties.HeadEdgeCount` | Logic/ViewModel.cs:124-146 | that direct HEAD edge occurs exactly once on a detached HEAD and never otherwise |
| `EdgeProperties.AncestryEdge` | Logic/ViewModel.cs:150-156 | a commit vertex has an edge to another iff the latter's hash is among its parent hashes; orphans count, and missing hashes add nothing |
| `EdgeProperties.EdgeEndpoints` | Logic/ViewModel.cs:119-157 | every edge's target is a graph vertex, and so is its source unless that is the HEAD vertex |
| `EdgeProperties.HeadEdgeWithoutHeadVertex` | Logic/ViewModel.cs:128-143 | a commit decorated only by the active branch gets HEAD's edge although the HEAD vertex is never added |
| `Refresh.Unreached` | Logic/ViewModel.cs:86-89 | the filter keeps exactly the fetched commits whose hash is not reachable |
| `Refresh.UnreachedDistinct` | Logic/ViewModel.cs:86-89 | the filter keeps hashes unique |
| `Refresh.OrphanCandidates` | Logic/ViewModel.cs:83-90 | there is a candidate list exactly when unreachable commits are shown, and it holds exactly the fetched commits whose hash is not reachable |
| `Refresh.RefreshCommitVertices` | Logic/ViewModel.cs:81-105 | after the filter the union drops nothing: reachable vertices followed by the filtered ones as orphans |
| `Refresh.RefreshOrphans` | Logic/ViewModel.cs:81-92 | when unreachable commits are shown, the orphans are exactly the fetched commits with unreachable hashes |
| `Refresh.ViewModel.constructor` | Logic/ViewModel.cs:16-32 | a new view model shows an empty graph and hides unreachable commits |
| `Refresh.ViewModel.RefreshGraph` | Logic/ViewModel.cs:76-93 | the new graph is the build of the recent commits with the filtered unreachable commits when shown, and none otherwise |
| `Refresh.ViewModel.SetVisualizeUnreachable` | Logic/ViewModel.cs:172-181 | the flag takes the new value; with an open repository the graph is rebuilt with it and has an orphan only when the flag is set, and without one the graph is kept |
| `Scenarios.HeadThroughBranch` | Logic/ViewModel.cs:119-147 | `HEAD` and the active `main` on one commit: vertices commit, HEAD, main; edges main→commit, HEAD→main |
| `Scenarios.DetachedHeadScenario` | Logic/ViewModel.cs:119-147 | a lone `HEAD`: vertices commit and HEAD; one edge HEAD→commit |
| `Scenarios.ParentScenario` | Logic/ViewModel.cs:150-156 | commits A (parent B) and B: two vertices and the single edge A→B |
| `Scenarios.ReachableWinsScenario` | Logic/ViewModel.cs:101-106 | an unreachable commit with a reachable hash leaves one non-orphan vertex |

## Left out

- Repository path handling: the `RepositoryPath` setter, `IsValidGitRepository` and `IsBareGitRepository` read the file system and match a regular expression over a configuration file.
- Retrieval: `LogRetriever`, `GitCommandExecutor` and `LogParser` run external processes. Their results (recent commits, active reference name, fetched unreachable commits) are parameters of `RefreshGraph`, and the unreachable hashes are consumed only by the retrieval.
- `RepositoryWatcher` and its change callback are file-system watching on a background thread.
- Property-change notification (including the one the `VisualizeUnreachable` setter raises), `NumOfCommitsToShow`, `VisualizeComments` (whose setter only stores a flag and triggers a refresh), `ExecuteSelectFolder` and `WindowTitle` are user-interface plumbing.
- `GraphSpec.FindByHash`: `SingleOrDefault` throws when two commit vertices share a hash. The model returns the first match instead, and the lemmas that need unique hashes require them.
- `Graph.CommitGraph.AddEdge`: does not model any check the repository's graph class may make that both endpoints are vertices. `Logic/CommitGraph.cs` and `Logic/Vertex.cs` are not part of this model.
- Vertex equality is by hash for commit vertices. `Union` at `Logic/ViewModel.cs:104` depends on `Vertex` equality, which is defined outside this file. Reference vertices are never equal to one another: each has its own `RefAt` identity.
- Commit metadata that the builder does not read (message, author) is not modelled.
