/** `is_AT_free`: the interval test by the Lekkerkerker-Boland criterion.
    A graph that fails the chordality test is rejected; otherwise row `v`
    of the label matrix `C` labels the components of the graph with the
    closed neighbourhood of `v` removed, and the graph is rejected when
    some triple of vertices is pairwise joined around the third. */
module Interval {
  import opened Seqs
  import opened Graphs
  import opened Labels
  import opened Components
  import opened Chordal
  import LexBfs

  // ---------------------------------------------------------------------
  // The subgraph `conn_Component` built for one vertex.

  /** The closed neighbourhood `N(v) + {v}`, as the filter tests it. */
  function Excluded(g: Graph, v: nat): seq<nat>
    requires v < |g|
  {
    g[v] + [v]
  }

  /** `conn_Component` for `node = v` (interval_graphs.py:151-158): the
      vertices outside `N(v) + {v}` in id order, each with its adjacency
      list restricted to them, in list order. */
  function SubgraphOf(g: Graph, v: nat): (s: Sub)
    requires v < |g|
    ensures |s.adj| == |s.keys|
  {
    var keys := FilterOut(Range(|g|), Excluded(g, v));
    assert forall i :: 0 <= i < |keys| ==> keys[i] < |g| by {
      forall i | 0 <= i < |keys| ensures keys[i] < |g| {
        assert keys[i] in keys;
      }
    }
    Sub(keys, seq(|keys|, i requires 0 <= i < |keys| => FilterOut(g[keys[i]], Excluded(g, v))))
  }

  /** The keys are exactly the vertices outside `N(v) + {v}`. */
  lemma SubgraphKeys(g: Graph, v: nat)
    requires v < |g|
    ensures forall y: nat :: y in SubgraphOf(g, v).keys <==> y < |g| && y !in g[v] && y != v
  {
    forall y: nat ensures y in Range(|g|) <==> y < |g| {
      if y < |g| {
        assert Range(|g|)[y] == y;
      }
    }
    forall y: nat ensures y in Excluded(g, v) <==> y in g[v] || y == v {
    }
  }

  /** The adjacency list of a key is its list in `g`, restricted to the keys. */
  lemma SubgraphNeighbours(g: Graph, v: nat, x: nat)
    requires ValidGraph(g) && v < |g| && x in SubgraphOf(g, v).keys
    ensures ValidSub(SubgraphOf(g, v))
    ensures Neighbours(SubgraphOf(g, v), x) == FilterOut(g[x], Excluded(g, v))
  {
    SubgraphValid(g, v);
  }

  lemma SubgraphValid(g: Graph, v: nat)
    requires ValidGraph(g) && v < |g|
    ensures ValidSub(SubgraphOf(g, v))
  {
    var s := SubgraphOf(g, v);
    SubgraphKeys(g, v);
    FilterOutDistinct(Range(|g|), Excluded(g, v));
    forall i, y | 0 <= i < |s.adj| && y in s.adj[i] ensures y in s.keys {
      assert s.keys[i] in s.keys;
      assert y in g[s.keys[i]];
    }
  }

  /** A symmetric graph gives a symmetric subgraph. */
  lemma SubgraphSymmetric(g: Graph, v: nat)
    requires ValidGraph(g) && Symmetric(g) && v < |g|
    ensures ValidSub(SubgraphOf(g, v)) && SymmetricSub(SubgraphOf(g, v))
  {
    var s := SubgraphOf(g, v);
    SubgraphValid(g, v);
    SubgraphKeys(g, v);
    forall x, y | x in s.keys && y in s.keys ensures y in Neighbours(s, x) <==> x in Neighbours(s, y) {
      SubgraphNeighbours(g, v, x);
      SubgraphNeighbours(g, v, y);
    }
  }

  /** A walk of the subgraph for `v` is a walk of `g` avoiding `N(v) + {v}`,
      and back. */
  lemma SubPathIff(g: Graph, v: nat, p: seq<nat>)
    requires ValidGraph(g) && v < |g|
    ensures ValidSub(SubgraphOf(g, v))
    ensures SubPath(SubgraphOf(g, v), p) <==> IsPath(g, p) && AvoidsClosedNeighbourhood(g, v, p)
  {
    var s := SubgraphOf(g, v);
    SubgraphValid(g, v);
    SubgraphKeys(g, v);
    if SubPath(s, p) {
      forall i | 0 <= i < |p| - 1 ensures p[i + 1] in g[p[i]] {
        SubgraphNeighbours(g, v, p[i]);
      }
    }
    if IsPath(g, p) && AvoidsClosedNeighbourhood(g, v, p) {
      assert forall i :: 0 <= i < |p| ==> p[i] in s.keys;
      forall i | 0 <= i < |p| - 1 ensures p[i + 1] in Neighbours(s, p[i]) {
        SubgraphNeighbours(g, v, p[i]);
        assert p[i + 1] !in Excluded(g, v);
      }
    }
  }

  /** Connectivity in the subgraph for `v` is `Avoiding(g, v, _, _)`. */
  lemma ConnectedIff(g: Graph, v: nat, y: nat, z: nat)
    requires ValidGraph(g) && v < |g|
    ensures ValidSub(SubgraphOf(g, v))
    ensures Connected(SubgraphOf(g, v), y, z) <==> Avoiding(g, v, y, z)
  {
    SubgraphValid(g, v);
    forall p ensures SubPath(SubgraphOf(g, v), p) <==> IsPath(g, p) && AvoidsClosedNeighbourhood(g, v, p) {
      SubPathIff(g, v, p);
    }
  }

  /** The ends of a walk avoiding `N(x) + {x}` lie outside it. */
  lemma AvoidingEnds(g: Graph, x: nat, y: nat, z: nat)
    requires x < |g| && Avoiding(g, x, y, z)
    ensures y !in g[x] && y != x && z !in g[x] && z != x
  {
    var p :| IsPath(g, p) && AvoidsClosedNeighbourhood(g, x, p) && p[0] == y && p[|p| - 1] == z;
    assert p[0] == y && p[|p| - 1] == z;
  }

  // ---------------------------------------------------------------------
  // Filling the label matrix.

  /** An `n` by `n` matrix. */
  predicate Square(C: seq<seq<nat>>, n: nat) {
    |C| == n && forall x :: 0 <= x < n ==> |C[x]| == n
  }

  /** `[[0]*n for x in range(n)]` (interval_graphs.py:186). */
  function Zeros(n: nat): (C: seq<seq<nat>>)
    ensures Square(C, n) && forall x, y :: 0 <= x < n && 0 <= y < n ==> C[x][y] == 0
  {
    seq(n, _ => seq(n, _ => 0))
  }

  /** Row `x` records the components of the subgraph for `x`: an entry is
      nonzero exactly off `N(x) + {x}`, and two nonzero entries agree exactly
      when their vertices are joined by a walk avoiding `N(x) + {x}`. */
  ghost predicate RowOk(g: Graph, row: seq<nat>, x: nat)
    requires |row| == |g| && x < |g|
  {
    && (forall y :: 0 <= y < |g| ==> (row[y] != 0 <==> y !in g[x] && y != x))
    && (forall y, z :: 0 <= y < |g| && 0 <= z < |g| && row[y] != 0 && row[z] != 0 ==>
          (row[y] == row[z] <==> Avoiding(g, x, y, z)))
  }

  /** One pass of the loop at interval_graphs.py:150-161 on row `C[v]`: build
      the subgraph for `v` and, unless it is empty, run `bfs` on it from its
      first key. */
  function FillRow(g: Graph, v: nat, row: seq<nat>, reg: Registry): (r: (seq<nat>, Registry))
    requires ValidGraph(g) && v < |g| && |row| == |g| && Valid(reg)
    ensures |r.0| == |g| && Valid(r.1) && Extends(reg, r.1)
  {
    var s := SubgraphOf(g, v);
    SubgraphValid(g, v);
    SubgraphKeys(g, v);
    if s.keys == [] then (row, reg)
    else Bfs(s, s.keys[0], row, reg)
  }

  /** From a zero row, `FillRow` leaves a row that records the components. */
  lemma FillRowOk(g: Graph, v: nat, row: seq<nat>, reg: Registry)
    requires ValidGraph(g) && Symmetric(g) && v < |g| && |row| == |g| && Valid(reg)
    requires forall y :: 0 <= y < |row| ==> row[y] == 0
    ensures RowOk(g, FillRow(g, v, row, reg).0, v)
  {
    var s := SubgraphOf(g, v);
    SubgraphSymmetric(g, v);
    SubgraphKeys(g, v);
    var r := FillRow(g, v, row, reg).0;
    if s.keys != [] {
      BfsLabels(s, s.keys[0], row, reg);
      forall y, z | 0 <= y < |g| && 0 <= z < |g| && r[y] != 0 && r[z] != 0
        ensures r[y] == r[z] <==> Avoiding(g, v, y, z)
      {
        ConnectedIff(g, v, y, z);
      }
    }
  }

  /** The first loop of `is_AT_free` (interval_graphs.py:150-161), from
      vertex `v` on, threading the registry through the rows. */
  function FillRows(g: Graph, v: nat, C: seq<seq<nat>>, reg: Registry): (r: (seq<seq<nat>>, Registry))
    requires ValidGraph(g) && v <= |g| && Square(C, |g|) && Valid(reg)
    ensures Square(r.0, |g|) && Valid(r.1) && Extends(reg, r.1)
    ensures forall x :: 0 <= x < v ==> r.0[x] == C[x]
    decreases |g| - v
  {
    if v == |g| then (C, reg)
    else
      var (row, reg2) := FillRow(g, v, C[v], reg);
      FillRows(g, v + 1, C[v := row], reg2)
  }

  lemma {:induction false} FillRowsOk(g: Graph, v: nat, C: seq<seq<nat>>, reg: Registry)
    requires ValidGraph(g) && Symmetric(g) && v <= |g| && Square(C, |g|) && Valid(reg)
    requires forall x, y :: v <= x < |g| && 0 <= y < |g| ==> C[x][y] == 0
    ensures forall x :: v <= x < |g| ==> RowOk(g, FillRows(g, v, C, reg).0[x], x)
    decreases |g| - v
  {
    if v < |g| {
      var (row, reg2) := FillRow(g, v, C[v], reg);
      FillRowOk(g, v, C[v], reg);
      var C2 := C[v := row];
      FillRowsOk(g, v + 1, C2, reg2);
      assert FillRows(g, v, C, reg) == FillRows(g, v + 1, C2, reg2);
      assert FillRows(g, v + 1, C2, reg2).0[v] == row;
    }
  }

  /** The label matrix `C` once every row is filled, starting from the zero
      matrix and the empty registry of interval_graphs.py:186-188. */
  function LabelMatrix(g: Graph): (C: seq<seq<nat>>)
    requires ValidGraph(g)
    ensures Square(C, |g|)
  {
    FillRows(g, 0, Zeros(|g|), Empty()).0
  }

  /** Every row of the filled matrix records the components of its subgraph;
      in particular the diagonal is zero. */
  lemma LabelMatrixOk(g: Graph)
    requires ValidGraph(g) && Symmetric(g)
    ensures forall x :: 0 <= x < |g| ==> RowOk(g, LabelMatrix(g)[x], x)
    ensures forall x :: 0 <= x < |g| ==> LabelMatrix(g)[x][x] == 0
  {
    FillRowsOk(g, 0, Zeros(|g|), Empty());
  }

  // ---------------------------------------------------------------------
  // The triple scan.

  /** The two tests of interval_graphs.py:167-168 on `x, y, z`. */
  predicate Match(C: seq<seq<nat>>, x: nat, y: nat, z: nat)
    requires Square(C, |C|) && x < |C| && y < |C| && z < |C|
  {
    && C[x][y] != 0 && C[x][z] != 0 && C[y][x] != 0 && C[y][z] != 0 && C[z][x] != 0 && C[z][y] != 0
    && C[x][y] == C[x][z] && C[y][x] == C[y][z] && C[z][x] == C[z][y]
  }

  /** The `for z` loop: whether some `z` from `z0` on matches. */
  function FindZ(C: seq<seq<nat>>, x: nat, y: nat, z0: nat): (found: bool)
    requires Square(C, |C|) && x < |C| && y < |C| && z0 <= |C|
    ensures found <==> exists z :: z0 <= z < |C| && Match(C, x, y, z)
    decreases |C| - z0
  {
    if z0 == |C| then false else Match(C, x, y, z0) || FindZ(C, x, y, z0 + 1)
  }

  /** The `for y` loop. */
  function FindY(C: seq<seq<nat>>, x: nat, y0: nat): (found: bool)
    requires Square(C, |C|) && x < |C| && y0 <= |C|
    ensures found <==> exists y, z :: y0 <= y < |C| && 0 <= z < |C| && Match(C, x, y, z)
    decreases |C| - y0
  {
    if y0 == |C| then false else FindZ(C, x, y0, 0) || FindY(C, x, y0 + 1)
  }

  /** The `for x` loop; `is_AT_free` returns False exactly when it finds a match. */
  function FindX(C: seq<seq<nat>>, x0: nat): (found: bool)
    requires Square(C, |C|) && x0 <= |C|
    ensures found <==> exists x, y, z :: x0 <= x < |C| && 0 <= y < |C| && 0 <= z < |C| && Match(C, x, y, z)
    decreases |C| - x0
  {
    if x0 == |C| then false else FindY(C, x0, 0) || FindX(C, x0 + 1)
  }

  /** On the filled matrix a matching triple is exactly an asteroidal triple;
      a triple with a repeated vertex never matches. */
  lemma MatchIsTriple(g: Graph, x: nat, y: nat, z: nat)
    requires ValidGraph(g) && Symmetric(g) && x < |g| && y < |g| && z < |g|
    ensures Match(LabelMatrix(g), x, y, z) <==> AsteroidalTriple(g, x, y, z)
    ensures Match(LabelMatrix(g), x, y, z) ==> x != y && y != z && x != z
  {
    var C := LabelMatrix(g);
    LabelMatrixOk(g);
    assert RowOk(g, C[x], x) && RowOk(g, C[y], y) && RowOk(g, C[z], z);
    if AsteroidalTriple(g, x, y, z) {
      AvoidingEnds(g, x, y, z);
      AvoidingEnds(g, y, x, z);
      AvoidingEnds(g, z, x, y);
    }
  }

  // ---------------------------------------------------------------------
  // The interval test.

  /** `is_AT_free(graph, lexOrder)`, with `isChordal` run on the same
      adjacency lists and its `IndexError` passed on. */
  function IsAtFree(g: Graph, lexOrder: seq<nat>): (r: Result<bool>)
    requires ValidGraph(g) && InGraph(lexOrder, g)
    ensures r.Err? <==> IsChordal(lexOrder, g).verdict.Err?
  {
    var chordal := IsChordal(lexOrder, g).verdict;
    if chordal.Err? then Err(chordal.error)
    else if !chordal.value then Ok(false)
    else Ok(!FindX(LabelMatrix(g), 0))
  }

  /** `is_AT_free` raises exactly when `isChordal` does, and otherwise
      returns True exactly when the chordality test passes and no three
      vertices form an asteroidal triple. */
  lemma IsAtFreeDecides(g: Graph, lexOrder: seq<nat>)
    requires ValidGraph(g) && Symmetric(g) && InGraph(lexOrder, g)
    ensures IsChordal(lexOrder, g).verdict.Err? ==> IsAtFree(g, lexOrder) == IsChordal(lexOrder, g).verdict
    ensures IsAtFree(g, lexOrder) == Ok(true) <==>
      IsChordal(lexOrder, g).verdict == Ok(true) && !exists x, y, z :: AsteroidalTriple(g, x, y, z)
    ensures IsAtFree(g, lexOrder) == Ok(false) <==>
      IsChordal(lexOrder, g).verdict == Ok(false) ||
      (IsChordal(lexOrder, g).verdict == Ok(true) && exists x, y, z :: AsteroidalTriple(g, x, y, z))
  {
    ScanFindsTriple(g);
  }

  /** The triple scan on the filled matrix finds a match exactly when the
      graph has an asteroidal triple. */
  lemma ScanFindsTriple(g: Graph)
    requires ValidGraph(g) && Symmetric(g)
    ensures FindX(LabelMatrix(g), 0) <==> exists x, y, z :: AsteroidalTriple(g, x, y, z)
  {
    var C := LabelMatrix(g);
    var found := FindX(C, 0);
    forall x, y, z | AsteroidalTriple(g, x, y, z) ensures Match(C, x, y, z) {
      MatchIsTriple(g, x, y, z);
    }
    if found {
      var x, y, z :| 0 <= x < |C| && 0 <= y < |C| && 0 <= z < |C| && Match(C, x, y, z);
      MatchIsTriple(g, x, y, z);
    }
  }

  /** The `interval` mode of the main block (interval_graphs.py:179, 185-189):
      `findLexOrder`, then `is_AT_free` on its output. */
  function IsInterval(g: Graph): (r: Result<bool>)
    requires ValidGraph(g)
    ensures |g| == 0 ==> r == Err(EmptyGraph)
  {
    match LexBfs.FindLexOrder(g)
    case Err(e) => Err(e)
    case Ok(order) =>
      LexOrderInGraph(g);
      IsAtFree(g, order)
  }

  /** The Lex-BFS order lists vertices of the graph. */
  lemma LexOrderInGraph(g: Graph)
    ensures LexBfs.FindLexOrder(g).Ok? ==> InGraph(LexBfs.FindLexOrder(g).value, g)
  {
    if LexBfs.FindLexOrder(g).Ok? {
      var order := LexBfs.FindLexOrder(g).value;
      forall i | 0 <= i < |order| ensures order[i] < |g| {
        assert multiset(order)[order[i]] > 0;
      }
    }
  }

  /** When every position but the last of the reversed Lex-BFS order has a
      later neighbour, the `interval` mode returns a verdict: True exactly when
      the reversed order passes the elimination-order test at every position
      and there is no asteroidal triple. */
  lemma IsIntervalDecides(g: Graph)
    requires ValidGraph(g) && Symmetric(g) && |g| > 0
    requires var order := LexBfs.FindLexOrder(g).value;
      InGraph(order, g) && forall p :: 0 <= p < |order| - 1 ==> HasLaterNeighbour(Reverse(order), g, p)
    ensures IsInterval(g).Ok?
    ensures IsInterval(g).value <==>
      !SomeViolation(Reverse(LexBfs.FindLexOrder(g).value), g) && !exists x, y, z :: AsteroidalTriple(g, x, y, z)
  {
    var order := LexBfs.FindLexOrder(g).value;
    ChordalDecides(order, g);
    IsAtFreeDecides(g, order);
  }

  /** On two disjoint edges `0-1` and `2-3`, an interval graph, the
      `interval` mode as written raises in `isChordal`. */
  lemma DisjointEdgesInterval()
    ensures IsInterval([[1], [0], [3], [2]]) == Err(NoLaterNeighbour(1))
  {
    LexBfs.DisjointEdgesOrder();
    DisjointEdgesRaise();
  }

  /** On the same graph the mode on the corrected test accepts. */
  lemma DisjointEdgesFixed()
    ensures IsIntervalFixed([[1], [0], [3], [2]]) == Ok(true)
  {
    var g: Graph := [[1], [0], [3], [2]];
    LexBfs.DisjointEdgesOrder();
    assert Symmetric(g);
    IsIntervalFixedDecides(g);
    DisjointEdgesElimination();
    DisjointEdgesNoTriple();
  }

  /** The reversed order `3, 2, 1, 0` of two disjoint edges is a perfect
      elimination order. */
  lemma DisjointEdgesElimination()
    ensures !SomeViolation(Reverse([0, 1, 2, 3]), [[1], [0], [3], [2]])
  {
    DisjointEdgesRaise();
    IsChordalFixedDecides([0, 1, 2, 3], [[1], [0], [3], [2]]);
  }

  /** Two disjoint edges have no asteroidal triple: the two vertices outside
      the closed neighbourhood of any vertex form the other edge, so they
      cannot both avoid each other's neighbourhood. */
  lemma DisjointEdgesNoTriple()
    ensures !exists x, y, z :: AsteroidalTriple([[1], [0], [3], [2]], x, y, z)
  {
    var g: Graph := [[1], [0], [3], [2]];
    forall x: nat, y: nat, z: nat | AsteroidalTriple(g, x, y, z) ensures false {
      AvoidingEnds(g, x, y, z);
      AvoidingEnds(g, y, x, z);
    }
  }

  // ---------------------------------------------------------------------
  // The interval test on the corrected chordality test.

  /** `is_AT_free` with the corrected chordality test: it never raises. */
  function IsAtFreeFixed(g: Graph, lexOrder: seq<nat>): bool
    requires ValidGraph(g) && InGraph(lexOrder, g)
  {
    IsChordalFixed(lexOrder, g) && !FindX(LabelMatrix(g), 0)
  }

  /** The corrected test accepts exactly when the reversed order is a perfect
      elimination order and there is no asteroidal triple. */
  lemma IsAtFreeFixedDecides(g: Graph, lexOrder: seq<nat>)
    requires ValidGraph(g) && Symmetric(g) && InGraph(lexOrder, g)
    ensures IsAtFreeFixed(g, lexOrder) <==>
      !SomeViolation(Reverse(lexOrder), g) && !exists x, y, z :: AsteroidalTriple(g, x, y, z)
  {
    IsChordalFixedDecides(lexOrder, g);
    ScanFindsTriple(g);
  }

  /** The `interval` mode on the corrected test: only the empty graph is an error. */
  function IsIntervalFixed(g: Graph): (r: Result<bool>)
    requires ValidGraph(g)
    ensures r.Err? <==> |g| == 0
    ensures r.Err? ==> r.error == EmptyGraph
  {
    match LexBfs.FindLexOrder(g)
    case Err(e) => Err(e)
    case Ok(order) =>
      LexOrderInGraph(g);
      Ok(IsAtFreeFixed(g, order))
  }

  /** On every nonempty graph the corrected mode decides: True exactly when
      the reversed Lex-BFS order is a perfect elimination order and there is
      no asteroidal triple. */
  lemma IsIntervalFixedDecides(g: Graph)
    requires ValidGraph(g) && Symmetric(g) && |g| > 0
    ensures LexBfs.FindLexOrder(g).Ok? && InGraph(LexBfs.FindLexOrder(g).value, g)
    ensures IsIntervalFixed(g) ==
      Ok(!SomeViolation(Reverse(LexBfs.FindLexOrder(g).value), g) && !exists x, y, z :: AsteroidalTriple(g, x, y, z))
  {
    LexOrderInGraph(g);
    IsAtFreeFixedDecides(g, LexBfs.FindLexOrder(g).value);
  }

  /** Where the mode as written returns a verdict, the corrected mode returns
      the same one. */
  lemma IsIntervalAgrees(g: Graph)
    requires ValidGraph(g)
    ensures IsInterval(g).Ok? ==> IsIntervalFixed(g) == IsInterval(g)
  {
    LexOrderInGraph(g);
    if LexBfs.FindLexOrder(g).Ok? {
      IsChordalAgrees(LexBfs.FindLexOrder(g).value, g);
    }
  }
}
