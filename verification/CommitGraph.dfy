/**
  The graph the builder fills: a vertex collection in which adding a vertex
  that is already present does nothing, and an edge list that only grows.
 */
module Graph {
  import opened CommitModel

  /** Some vertex of `vs` has identity `k`. */
  predicate HasKey(vs: seq<Vertex>, k: VertexKey) {
    exists w :: w in vs && Key(w) == k
  }

  /** No identity occurs twice in `vs`. */
  predicate DistinctKeys(vs: seq<Vertex>) {
    forall i, j :: 0 <= i < j < |vs| ==> Key(vs[i]) != Key(vs[j])
  }

  /** The vertex list after adding `v`: unchanged when a vertex with its identity is present. */
  function InsertVertex(vs: seq<Vertex>, v: Vertex): (r: seq<Vertex>) {
    if HasKey(vs, Key(v)) then vs else vs + [v]
  }

  /**
    After adding `v` the graph has the identities it had plus `v`'s, no new
    vertex but `v`, the old vertices first, and still no repeated identity.
   */
  lemma InsertVertexFacts(vs: seq<Vertex>, v: Vertex)
    ensures forall k :: HasKey(InsertVertex(vs, v), k) <==> HasKey(vs, k) || k == Key(v)
    ensures forall w :: w in InsertVertex(vs, v) ==> w in vs || w == v
    ensures |vs| <= |InsertVertex(vs, v)| && InsertVertex(vs, v)[..|vs|] == vs
    ensures DistinctKeys(vs) ==> DistinctKeys(InsertVertex(vs, v))
  {
  }

  /**
    Adding each vertex of `adds` in turn.  Keeping the first vertex of each
    identity is also what `Enumerable.Union` does, so the same function
    gives the union of two vertex lists.
   */
  function InsertAll(vs: seq<Vertex>, adds: seq<Vertex>): (r: seq<Vertex>)
    ensures |vs| <= |r| <= |vs| + |adds|
    ensures r[..|vs|] == vs
  {
    if adds == [] then vs
    else InsertVertex(InsertAll(vs, adds[..|adds| - 1]), adds[|adds| - 1])
  }

  /** The identities present after adding `adds` are those of `vs` and of `adds`. */
  lemma {:induction false} InsertAllKeys(vs: seq<Vertex>, adds: seq<Vertex>)
    ensures forall k :: HasKey(InsertAll(vs, adds), k) <==> HasKey(vs, k) || HasKey(adds, k)
  {
    if adds != [] {
      var init, last := adds[..|adds| - 1], adds[|adds| - 1];
      assert adds == init + [last];
      InsertAllKeys(vs, init);
      InsertVertexFacts(InsertAll(vs, init), last);
      forall k ensures HasKey(adds, k) <==> HasKey(init, k) || k == Key(last) {
        if HasKey(adds, k) {
          var w :| w in adds && Key(w) == k;
          assert w in init || w == last;
        }
        if HasKey(init, k) {
          var w :| w in init && Key(w) == k;
          assert w in adds;
        }
        assert last in adds;
      }
    }
  }

  /**
    Every vertex present after adding `adds` was already there or is one of
    `adds`; and a vertex whose identity was already present is the old one,
    so the first vertex of each identity wins.
   */
  lemma {:induction false} InsertAllKeepsFirst(vs: seq<Vertex>, adds: seq<Vertex>)
    ensures forall w :: w in InsertAll(vs, adds) ==> w in vs || w in adds
    ensures forall w :: w in InsertAll(vs, adds) && HasKey(vs, Key(w)) ==> w in vs
    ensures |vs| <= |InsertAll(vs, adds)| && InsertAll(vs, adds)[..|vs|] == vs
  {
    if adds != [] {
      var init, last := adds[..|adds| - 1], adds[|adds| - 1];
      assert adds == init + [last];
      InsertAllKeepsFirst(vs, init);
      InsertAllKeys(vs, init);
      var mid := InsertAll(vs, init);
      InsertVertexFacts(mid, last);
      assert InsertAll(vs, adds) == InsertVertex(mid, last);
      assert mid[..|vs|] == vs;
      assert InsertVertex(mid, last)[..|mid|] == mid;
      assert InsertVertex(mid, last)[..|vs|] == mid[..|mid|][..|vs|];
    }
  }

  /** Adding vertices never creates a second vertex of one identity. */
  lemma {:induction false} InsertAllDistinct(vs: seq<Vertex>, adds: seq<Vertex>)
    requires DistinctKeys(vs)
    ensures DistinctKeys(InsertAll(vs, adds))
  {
    if adds != [] {
      InsertAllDistinct(vs, adds[..|adds| - 1]);
      InsertVertexFacts(InsertAll(vs, adds[..|adds| - 1]), adds[|adds| - 1]);
    }
  }

  /** When no identity repeats, every added vertex is kept, in order. */
  lemma {:induction false} InsertAllNoDuplicates(vs: seq<Vertex>, adds: seq<Vertex>)
    requires DistinctKeys(vs + adds)
    ensures InsertAll(vs, adds) == vs + adds
  {
    if adds != [] {
      var init, last := adds[..|adds| - 1], adds[|adds| - 1];
      assert vs + adds == (vs + init) + [last];
      assert DistinctKeys(vs + init) by {
        forall i, j | 0 <= i < j < |vs + init|
          ensures Key((vs + init)[i]) != Key((vs + init)[j])
        {
          assert (vs + init)[i] == (vs + adds)[i] && (vs + init)[j] == (vs + adds)[j];
        }
      }
      InsertAllNoDuplicates(vs, init);
      assert !HasKey(vs + init, Key(last)) by {
        forall w | w in vs + init ensures Key(w) != Key(last) {
          var i :| 0 <= i < |vs + init| && (vs + init)[i] == w;
          assert (vs + adds)[i] == w && (vs + adds)[|vs + init|] == last;
        }
      }
    }
  }

  /** Adding `a` and then `b` is adding `a + b`. */
  lemma {:induction false} InsertAllAppend(vs: seq<Vertex>, a: seq<Vertex>, b: seq<Vertex>)
    ensures InsertAll(vs, a + b) == InsertAll(InsertAll(vs, a), b)
  {
    if b == [] {
      assert a + b == a;
    } else {
      var init := b[..|b| - 1];
      assert (a + b)[..|a + b| - 1] == a + init;
      assert (a + b)[|a + b| - 1] == b[|b| - 1];
      InsertAllAppend(vs, a, init);
    }
  }

  /**
    The graph of one build.  `vertices` keeps insertion order (the source's
    graph enumerates vertices in that order); `edges` may hold the same
    pair twice.
   */
  class CommitGraph {
    var vertices: seq<Vertex>
    var edges: seq<Edge>

    constructor ()
      ensures vertices == [] && edges == []
    {
      vertices := [];
      edges := [];
    }

    /** The graph holds a vertex of `v`'s identity. */
    predicate ContainsVertex(v: Vertex)
      reads this
    {
      HasKey(vertices, Key(v))
    }

    /** Adds `v` unless a vertex of the same identity is already present. */
    method AddVertex(v: Vertex)
      modifies this
      ensures vertices == InsertVertex(old(vertices), v)
      ensures edges == old(edges)
    {
      if !ContainsVertex(v) {
        vertices := vertices + [v];
      }
    }

    /** Appends `e`; the endpoints are not checked for membership. */
    method AddEdge(e: Edge)
      modifies this
      ensures edges == old(edges) + [e]
      ensures vertices == old(vertices)
    {
      edges := edges + [e];
    }
  }
}
