/** Undirected graphs over the dense vertex ids `0..n-1`, as adjacency
    lists, together with the error outcomes of the pipeline and the path
    notions used to state what the interval test decides. */
module Graphs {

  /** `g[v]` is the adjacency list of vertex `v`, in input order; it may hold
      repeats and `v` itself (a repeated or a self edge in the input). */
  type Graph = seq<seq<nat>>

  /** Every neighbour is one of the vertex ids `0..|g|-1`. */
  predicate ValidGraph(g: Graph) {
    forall u, i :: 0 <= u < |g| && 0 <= i < |g[u]| ==> g[u][i] < |g|
  }

  /** Every edge is recorded at both of its ends. */
  predicate Symmetric(g: Graph) {
    forall u, v :: 0 <= u < |g| && 0 <= v < |g| ==> (v in g[u] <==> u in g[v])
  }

  /** The two ways the pipeline fails, each an `IndexError` in Python. */
  datatype Error =
    | EmptyGraph                       // `popleft` on the empty seed cell
    | NoLaterNeighbour(position: nat)  // `popleft` on an empty list of later neighbours

  datatype Result<T> = Ok(value: T) | Err(error: Error)

  /** `p` is a walk in `g`: consecutive vertices are adjacent. */
  ghost predicate IsPath(g: Graph, p: seq<nat>) {
    && |p| >= 1
    && (forall i :: 0 <= i < |p| ==> p[i] < |g|)
    && (forall i :: 0 <= i < |p| - 1 ==> p[i + 1] in g[p[i]])
  }

  /** No vertex of `p` lies in the closed neighbourhood `N(x) + {x}`. */
  ghost predicate AvoidsClosedNeighbourhood(g: Graph, x: nat, p: seq<nat>)
    requires x < |g|
  {
    forall i :: 0 <= i < |p| ==> p[i] != x && p[i] !in g[x]
  }

  /** `y` and `z` are joined by a walk that stays outside `N(x) + {x}`. */
  ghost predicate Avoiding(g: Graph, x: nat, y: nat, z: nat)
    requires x < |g|
  {
    exists p :: IsPath(g, p) && AvoidsClosedNeighbourhood(g, x, p) && p[0] == y && p[|p| - 1] == z
  }

  /** `x, y, z` form an asteroidal triple: each two of them are joined by a
      walk avoiding the closed neighbourhood of the third. */
  ghost predicate AsteroidalTriple(g: Graph, x: nat, y: nat, z: nat) {
    && x < |g| && y < |g| && z < |g|
    && Avoiding(g, x, y, z)
    && Avoiding(g, y, x, z)
    && Avoiding(g, z, x, y)
  }
}
