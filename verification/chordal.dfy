/** The chordality test `isChordal`: read the Lex-BFS order backwards as a
    candidate perfect elimination order and check, for every vertex but the
    last, that its later neighbours are all adjacent to the first of them. */
module Chordal {
  import opened Seqs
  import opened Graphs

  /** The vertices of `rev` from position `k` on that are in `adj`, in
      order: `neighborsOfNeighbor` for `adj = neighbors[lexOrder[j]]` and
      `k = j + 1`, and the final `nodeNeighbors` for `adj = neighbors[lexOrder[i]]`
      and `k = i + 1`. */
  function LaterIn(rev: seq<nat>, adj: seq<nat>, k: nat): seq<nat>
    requires k <= |rev|
    decreases |rev| - k
  {
    if k == |rev| then []
    else (if rev[k] in adj then [rev[k]] else []) + LaterIn(rev, adj, k + 1)
  }

  /** `LaterIn` holds exactly the elements of `adj` found at positions `k..`. */
  lemma {:induction false} LaterInMembers(rev: seq<nat>, adj: seq<nat>, k: nat)
    requires k <= |rev|
    ensures forall x :: x in LaterIn(rev, adj, k) <==> exists m :: k <= m < |rev| && rev[m] == x && x in adj
    decreases |rev| - k
  {
    if k < |rev| {
      LaterInMembers(rev, adj, k + 1);
      forall x ensures x in LaterIn(rev, adj, k) <==> exists m :: k <= m < |rev| && rev[m] == x && x in adj {
        if exists m :: k <= m < |rev| && rev[m] == x && x in adj {
          var m :| k <= m < |rev| && rev[m] == x && x in adj;
          if m > k {
            assert k + 1 <= m < |rev| && rev[m] == x;
          }
        }
      }
    }
  }

  /** Every element of `t` occurs in `u` (Python's `all(item in u for item in t)`). */
  predicate AllIn(t: seq<nat>, u: seq<nat>) {
    forall p :: 0 <= p < |t| ==> t[p] in u
  }

  /** Every vertex of the order is a vertex of the graph. */
  predicate InGraph(s: seq<nat>, g: Graph) {
    forall i :: 0 <= i < |s| ==> s[i] < |g|
  }

  /** The `for j` loop at position `i`, as written: `nn` is `nodeNeighbors`,
      `non` is `neighborsOfNeighbor`, which is set from the first later
      neighbour found. */
  function ScanLater(rev: seq<nat>, g: Graph, i: nat, j: nat, nn: seq<nat>, non: seq<nat>): (seq<nat>, seq<nat>)
    requires InGraph(rev, g) && i < |rev| && j <= |rev|
    decreases |rev| - j
  {
    if j == |rev| then (nn, non)
    else if rev[j] in g[rev[i]] then
      var non' := if nn == [] then LaterIn(rev, g[rev[j]], j + 1) else non;
      ScanLater(rev, g, i, j + 1, nn + [rev[j]], non')
    else
      ScanLater(rev, g, i, j + 1, nn, non)
  }

  /** How the test ends at one position: the position passes, it fails
      (`return False`), or `nodeNeighbors.popleft()` raises. */
  datatype Status = Pass | Fail | Raise

  /** One iteration of `for i in range(len(lexOrder) - 1)`. */
  function CheckAt(rev: seq<nat>, g: Graph, i: nat): Status
    requires InGraph(rev, g) && i < |rev|
  {
    var (nn, non) := ScanLater(rev, g, i, i + 1, [], []);
    if nn == [] then Raise
    else if AllIn(nn[1..], non) then Pass
    else Fail
  }

  /** Positions `i, i + 1, ..., |rev| - 2` in turn, stopping at the first
      that does not pass. */
  function ChordalFrom(rev: seq<nat>, g: Graph, i: nat): Result<bool>
    requires InGraph(rev, g)
    decreases |rev| - i
  {
    if i + 1 >= |rev| then Ok(true)
    else
      match CheckAt(rev, g, i)
      case Raise => Err(NoLaterNeighbour(i))
      case Fail => Ok(false)
      case Pass => ChordalFrom(rev, g, i + 1)
  }

  /** The outcome of `isChordal`: the argument after its in-place reversal,
      and the verdict (or the `IndexError`). */
  datatype ChordalRun = ChordalRun(reversed: seq<nat>, verdict: Result<bool>)

  /** `isChordal(lexOrder, neighbors)`. */
  function IsChordal(lexOrder: seq<nat>, g: Graph): (r: ChordalRun)
    requires InGraph(lexOrder, g)
    ensures r.reversed == Reverse(lexOrder) && InGraph(r.reversed, g)
    ensures |lexOrder| <= 1 ==> r.verdict == Ok(true)
  {
    var rev := Reverse(lexOrder);
    assert InGraph(rev, g);
    ChordalRun(rev, ChordalFrom(rev, g, 0))
  }

  /** The verdict of `isChordal` is decided by the first position of the
      reversed order whose outcome is not `Pass`: True when there is none,
      False when that position fails the test, and the `IndexError` when it
      has no later neighbour. */
  lemma IsChordalVerdict(lexOrder: seq<nat>, g: Graph)
    requires InGraph(lexOrder, g)
    ensures var r := IsChordal(lexOrder, g);
      && (r.verdict == Ok(true) <==> Passed(Outcomes(r.reversed, g), 0, |Outcomes(r.reversed, g)|))
      && (r.verdict == Ok(false) <==> exists p: nat :: StopsAt(Outcomes(r.reversed, g), 0, p, Fail))
      && (forall p: nat :: r.verdict == Err(NoLaterNeighbour(p)) <==> StopsAt(Outcomes(r.reversed, g), 0, p, Raise))
      && (r.verdict.Err? ==> r.verdict.error.NoLaterNeighbour?)
  {
    var rev := Reverse(lexOrder);
    assert InGraph(rev, g);
    var st := Outcomes(rev, g);
    OutcomesAt(rev, g);
    ChordalFromDecides(rev, g, 0);
    DecideTrue(st, 0);
    DecideFalse(st, 0);
    DecideRaise(st, 0);
  }

  /** The outcomes at `i..m-1` are all `Pass`. */
  predicate Passed(st: seq<Status>, i: nat, m: nat)
    requires m <= |st|
  {
    forall q :: i <= q < m ==> st[q] == Pass
  }

  /** `p` is the first position from `i` on whose outcome is not `Pass`, and
      that outcome is `o`. */
  predicate StopsAt(st: seq<Status>, i: nat, p: nat, o: Status) {
    i <= p < |st| && st[p] == o && o != Pass && Passed(st, i, p)
  }

  // ---------------------------------------------------------------------
  // The elimination-order test stated directly on positions.

  /** Position `k` comes after `i` and holds a neighbour of `rev[i]`. */
  ghost predicate LaterNeighbour(rev: seq<nat>, g: Graph, i: nat, k: nat)
    requires InGraph(rev, g) && i < |rev|
  {
    i < k < |rev| && rev[k] in g[rev[i]]
  }

  ghost predicate HasLaterNeighbour(rev: seq<nat>, g: Graph, i: nat)
    requires InGraph(rev, g) && i < |rev|
  {
    exists k :: LaterNeighbour(rev, g, i, k)
  }

  /** Position `j` holds the nearest later neighbour of `rev[i]`. */
  ghost predicate FirstLaterNeighbour(rev: seq<nat>, g: Graph, i: nat, j: nat)
    requires InGraph(rev, g) && i < |rev|
  {
    LaterNeighbour(rev, g, i, j) && forall m :: i < m < j ==> !LaterNeighbour(rev, g, i, m)
  }

  /** Some later neighbour of `rev[i]`, beyond the nearest one at `j`, is
      not adjacent to `rev[j]`. */
  ghost predicate Violation(rev: seq<nat>, g: Graph, i: nat)
    requires InGraph(rev, g) && i < |rev|
  {
    exists j: nat, k: nat :: FirstLaterNeighbour(rev, g, i, j) && j < k && LaterNeighbour(rev, g, i, k) && rev[k] !in g[rev[j]]
  }

  /** The outcome at position `i`, stated without the scan. */
  ghost function Outcome(rev: seq<nat>, g: Graph, i: nat): Status
    requires InGraph(rev, g) && i < |rev|
  {
    if !HasLaterNeighbour(rev, g, i) then Raise
    else if Violation(rev, g, i) then Fail
    else Pass
  }

  // ---------------------------------------------------------------------
  // The scan computes the reference outcome.

  /** The nearest position from `k` on holding an element of `adj`. */
  lemma {:induction false} LaterInHead(rev: seq<nat>, adj: seq<nat>, k: nat, j: nat)
    requires k <= j < |rev| && rev[j] in adj
    requires forall m :: k <= m < j ==> rev[m] !in adj
    ensures LaterIn(rev, adj, k) == [rev[j]] + LaterIn(rev, adj, j + 1)
    decreases j - k
  {
    if k < j {
      LaterInHead(rev, adj, k + 1, j);
    }
  }

  /** No position from `k` on holds an element of `adj`. */
  lemma {:induction false} LaterInEmpty(rev: seq<nat>, adj: seq<nat>, k: nat)
    requires k <= |rev|
    requires forall m :: k <= m < |rev| ==> rev[m] !in adj
    ensures LaterIn(rev, adj, k) == []
    decreases |rev| - k
  {
    if k < |rev| {
      LaterInEmpty(rev, adj, k + 1);
    }
  }

  /** `nodeNeighbors` ends as all later neighbours of `rev[i]`, in order. */
  lemma {:induction false} ScanLaterNeighbours(rev: seq<nat>, g: Graph, i: nat, j: nat, nn: seq<nat>, non: seq<nat>)
    requires InGraph(rev, g) && i < |rev| && j <= |rev|
    ensures ScanLater(rev, g, i, j, nn, non).0 == nn + LaterIn(rev, g[rev[i]], j)
    decreases |rev| - j
  {
    if j < |rev| {
      var adj := g[rev[i]];
      if rev[j] in adj {
        var non' := if nn == [] then LaterIn(rev, g[rev[j]], j + 1) else non;
        ScanLaterNeighbours(rev, g, i, j + 1, nn + [rev[j]], non');
        assert LaterIn(rev, adj, j) == [rev[j]] + LaterIn(rev, adj, j + 1);
        assert (nn + [rev[j]]) + LaterIn(rev, adj, j + 1) == nn + ([rev[j]] + LaterIn(rev, adj, j + 1));
      } else {
        ScanLaterNeighbours(rev, g, i, j + 1, nn, non);
        assert LaterIn(rev, adj, j) == [] + LaterIn(rev, adj, j + 1);
      }
    }
  }

  /** Once a later neighbour has been found, `neighborsOfNeighbor` stays as it is. */
  lemma {:induction false} ScanLaterKeeps(rev: seq<nat>, g: Graph, i: nat, j: nat, nn: seq<nat>, non: seq<nat>)
    requires InGraph(rev, g) && i < |rev| && j <= |rev| && nn != []
    ensures ScanLater(rev, g, i, j, nn, non).1 == non
    decreases |rev| - j
  {
    if j < |rev| {
      ScanLaterKeeps(rev, g, i, j + 1, (if rev[j] in g[rev[i]] then nn + [rev[j]] else nn), non);
    }
  }

  /** `neighborsOfNeighbor` ends as the later neighbours of the nearest later
      neighbour `rev[j0]` of `rev[i]`, taken after `j0`. */
  lemma {:induction false} ScanLaterFirst(rev: seq<nat>, g: Graph, i: nat, j: nat, j0: nat, non: seq<nat>)
    requires InGraph(rev, g) && i < |rev| && j <= j0 < |rev| && rev[j0] in g[rev[i]]
    requires forall m :: j <= m < j0 ==> rev[m] !in g[rev[i]]
    ensures ScanLater(rev, g, i, j, [], non).1 == LaterIn(rev, g[rev[j0]], j0 + 1)
    decreases j0 - j
  {
    if j < j0 {
      ScanLaterFirst(rev, g, i, j + 1, j0, non);
    } else {
      assert [] + [rev[j]] == [rev[j]];
      ScanLaterKeeps(rev, g, i, j + 1, [rev[j]], LaterIn(rev, g[rev[j]], j + 1));
    }
  }

  /** The nearest later neighbour exists whenever some later neighbour does. */
  lemma FirstExists(rev: seq<nat>, g: Graph, i: nat) returns (j: nat)
    requires InGraph(rev, g) && i < |rev| && HasLaterNeighbour(rev, g, i)
    ensures FirstLaterNeighbour(rev, g, i, j)
  {
    var k :| LaterNeighbour(rev, g, i, k);
    j := FirstAtMost(rev, g, i, k);
  }

  lemma {:induction false} FirstAtMost(rev: seq<nat>, g: Graph, i: nat, k: nat) returns (j: nat)
    requires InGraph(rev, g) && i < |rev| && LaterNeighbour(rev, g, i, k)
    ensures FirstLaterNeighbour(rev, g, i, j) && j <= k
    decreases k
  {
    if m :| i < m < k && LaterNeighbour(rev, g, i, m) {
      j := FirstAtMost(rev, g, i, m);
    } else {
      j := k;
    }
  }

  /** The scan of one position agrees with the positional statement. */
  lemma CheckAtIsOutcome(rev: seq<nat>, g: Graph, i: nat)
    requires InGraph(rev, g) && i < |rev|
    ensures CheckAt(rev, g, i) == Outcome(rev, g, i)
  {
    var adj := g[rev[i]];
    ScanLaterNeighbours(rev, g, i, i + 1, [], []);
    if !HasLaterNeighbour(rev, g, i) {
      forall m | i + 1 <= m < |rev| ensures rev[m] !in adj {
        assert !LaterNeighbour(rev, g, i, m);
      }
      LaterInEmpty(rev, adj, i + 1);
    } else {
      var j0 := FirstExists(rev, g, i);
      CheckAtFirst(rev, g, i, j0);
    }
  }

  /** `CheckAtIsOutcome` once the nearest later neighbour `j0` is known. */
  lemma CheckAtFirst(rev: seq<nat>, g: Graph, i: nat, j0: nat)
    requires InGraph(rev, g) && i < |rev| && FirstLaterNeighbour(rev, g, i, j0)
    ensures CheckAt(rev, g, i) == Outcome(rev, g, i)
  {
    var adj := g[rev[i]];
    forall m | i + 1 <= m < j0 ensures rev[m] !in adj {
      assert !LaterNeighbour(rev, g, i, m);
    }
    ScanLaterNeighbours(rev, g, i, i + 1, [], []);
    LaterInHead(rev, adj, i + 1, j0);
    ScanLaterFirst(rev, g, i, i + 1, j0, []);
    var nn := ScanLater(rev, g, i, i + 1, [], []).0;
    var non := ScanLater(rev, g, i, i + 1, [], []).1;
    var tail := LaterIn(rev, adj, j0 + 1);
    assert nn == [rev[j0]] + tail && non == LaterIn(rev, g[rev[j0]], j0 + 1);
    TailTest(rev, adj, g[rev[j0]], j0);
    assert nn[1..] == tail;
    FirstUnique(rev, g, i, j0);
    assert Violation(rev, g, i) <==> exists k :: j0 < k < |rev| && rev[k] in adj && rev[k] !in g[rev[j0]] by {
      if exists k :: j0 < k < |rev| && rev[k] in adj && rev[k] !in g[rev[j0]] {
        var k :| j0 < k < |rev| && rev[k] in adj && rev[k] !in g[rev[j0]];
        assert LaterNeighbour(rev, g, i, k);
      }
    }
  }

  /** All later elements of `adj` are in `b` exactly when every position
      after `j0` holding an element of `adj` holds an element of `b`. */
  lemma TailTest(rev: seq<nat>, adj: seq<nat>, b: seq<nat>, j0: nat)
    requires j0 < |rev|
    ensures AllIn(LaterIn(rev, adj, j0 + 1), LaterIn(rev, b, j0 + 1))
        <==> (forall k :: j0 < k < |rev| && rev[k] in adj ==> rev[k] in b)
  {
    var t := LaterIn(rev, adj, j0 + 1);
    var u := LaterIn(rev, b, j0 + 1);
    LaterInMembers(rev, adj, j0 + 1);
    LaterInMembers(rev, b, j0 + 1);
    if AllIn(t, u) {
      forall k | j0 < k < |rev| && rev[k] in adj ensures rev[k] in b {
        assert rev[k] in t;
        var p :| 0 <= p < |t| && t[p] == rev[k];
        assert t[p] in u;
      }
    }
    if forall k :: j0 < k < |rev| && rev[k] in adj ==> rev[k] in b {
      forall p | 0 <= p < |t| ensures t[p] in u {
        assert t[p] in t;
      }
    }
  }

  /** The nearest later neighbour is unique. */
  lemma FirstUnique(rev: seq<nat>, g: Graph, i: nat, j0: nat)
    requires InGraph(rev, g) && i < |rev| && FirstLaterNeighbour(rev, g, i, j0)
    ensures forall j :: FirstLaterNeighbour(rev, g, i, j) ==> j == j0
  {
  }

  /** The outcome at every tested position `i..|rev|-2`, in order. */
  ghost function OutcomesFrom(rev: seq<nat>, g: Graph, i: nat): seq<Status>
    requires InGraph(rev, g)
    decreases |rev| - i
  {
    if i + 1 >= |rev| then [] else [Outcome(rev, g, i)] + OutcomesFrom(rev, g, i + 1)
  }

  /** The outcome at every tested position `0..|rev|-2`, in order. */
  ghost function Outcomes(rev: seq<nat>, g: Graph): seq<Status>
    requires InGraph(rev, g)
  {
    OutcomesFrom(rev, g, 0)
  }

  /** Entry `p` of `OutcomesFrom(rev, g, i)` is the outcome at position `i + p`. */
  lemma {:induction false} OutcomesFromAt(rev: seq<nat>, g: Graph, i: nat)
    requires InGraph(rev, g)
    ensures |OutcomesFrom(rev, g, i)| == if i + 1 >= |rev| then 0 else |rev| - 1 - i
    ensures forall p :: 0 <= p < |OutcomesFrom(rev, g, i)| ==> OutcomesFrom(rev, g, i)[p] == Outcome(rev, g, i + p)
    decreases |rev| - i
  {
    if i + 1 < |rev| {
      OutcomesFromAt(rev, g, i + 1);
    }
  }

  /** The tested positions and their outcomes. */
  lemma OutcomesAt(rev: seq<nat>, g: Graph)
    requires InGraph(rev, g)
    ensures |Outcomes(rev, g)| == if |rev| == 0 then 0 else |rev| - 1
    ensures forall p :: 0 <= p < |Outcomes(rev, g)| ==> Outcomes(rev, g)[p] == Outcome(rev, g, p)
  {
    OutcomesFromAt(rev, g, 0);
  }

  /** Walk a sequence of outcomes from `i`, stopping at the first that is
      not `Pass`. */
  function Decide(st: seq<Status>, i: nat): Result<bool>
    decreases |st| - i
  {
    if i >= |st| then Ok(true)
    else
      match st[i]
      case Raise => Err(NoLaterNeighbour(i))
      case Fail => Ok(false)
      case Pass => Decide(st, i + 1)
  }

  /** The loop over positions is the walk over their outcomes. */
  lemma {:induction false} ChordalFromDecides(rev: seq<nat>, g: Graph, i: nat)
    requires InGraph(rev, g)
    ensures ChordalFrom(rev, g, i) == Decide(Outcomes(rev, g), i)
    decreases |rev| - i
  {
    OutcomesAt(rev, g);
    if i + 1 < |rev| {
      CheckAtIsOutcome(rev, g, i);
      ChordalFromDecides(rev, g, i + 1);
    }
  }

  /** The walk returns True exactly when every outcome from `i` on is `Pass`. */
  lemma {:induction false} DecideTrue(st: seq<Status>, i: nat)
    ensures Decide(st, i) == Ok(true) <==> i >= |st| || Passed(st, i, |st|)
    decreases |st| - i
  {
    if i < |st| {
      DecideTrue(st, i + 1);
      if st[i] == Pass && i + 1 < |st| {
        assert Passed(st, i, |st|) <==> Passed(st, i + 1, |st|);
      }
    }
  }

  /** The walk returns False exactly when the first outcome from `i` on that
      is not `Pass` is `Fail`. */
  lemma {:induction false} DecideFalse(st: seq<Status>, i: nat)
    ensures Decide(st, i) == Ok(false) <==> exists p: nat :: StopsAt(st, i, p, Fail)
    decreases |st| - i
  {
    if i < |st| {
      DecideFalse(st, i + 1);
      if st[i] == Pass {
        if exists p: nat :: StopsAt(st, i, p, Fail) {
          var p: nat :| StopsAt(st, i, p, Fail);
          assert StopsAt(st, i + 1, p, Fail);
        }
        var j := i + 1;
        if exists p: nat :: StopsAt(st, j, p, Fail) {
          var p: nat :| StopsAt(st, j, p, Fail);
          assert StopsAt(st, i, p, Fail);
        }
      } else if st[i] == Fail {
        assert StopsAt(st, i, i, Fail);
      }
    }
  }

  /** The walk reports a raise at `p` exactly when `p` is the first outcome
      from `i` on that is not `Pass` and it is `Raise`. */
  lemma {:induction false} DecideRaise(st: seq<Status>, i: nat)
    ensures forall p: nat :: Decide(st, i) == Err(NoLaterNeighbour(p)) <==> StopsAt(st, i, p, Raise)
    ensures Decide(st, i).Err? ==> Decide(st, i).error.NoLaterNeighbour?
    decreases |st| - i
  {
    if i < |st| {
      DecideRaise(st, i + 1);
      if st[i] == Pass {
        forall p: nat ensures StopsAt(st, i, p, Raise) <==> StopsAt(st, i + 1, p, Raise) {
          if StopsAt(st, i, p, Raise) {
            assert p != i;
          }
        }
      } else {
        forall p: nat | StopsAt(st, i, p, Raise) ensures p == i {
        }
      }
    }
  }

  /** Some position but the last violates the elimination-order test:
      the order, reversed, is not a perfect elimination order. */
  ghost predicate SomeViolation(rev: seq<nat>, g: Graph)
    requires InGraph(rev, g)
  {
    exists p :: 0 <= p < |rev| - 1 && Violation(rev, g, p)
  }

  /** Under the condition that every position but the last has a later
      neighbour (which holds when the order is a search order of a
      connected graph), `isChordal` never raises, and it returns False
      exactly when some position violates the elimination-order test. */
  lemma ChordalDecides(lexOrder: seq<nat>, g: Graph)
    requires InGraph(lexOrder, g)
    requires forall p :: 0 <= p < |lexOrder| - 1 ==> HasLaterNeighbour(Reverse(lexOrder), g, p)
    ensures IsChordal(lexOrder, g).verdict == Ok(!SomeViolation(Reverse(lexOrder), g))
  {
    var rev := Reverse(lexOrder);
    assert InGraph(rev, g);
    ChordalFromDecides(rev, g, 0);
    DecideAllHaveLater(rev, g);
  }

  /** `ChordalDecides` on the reversed order. */
  lemma DecideAllHaveLater(rev: seq<nat>, g: Graph)
    requires InGraph(rev, g)
    requires forall p :: 0 <= p < |rev| - 1 ==> HasLaterNeighbour(rev, g, p)
    ensures Decide(Outcomes(rev, g), 0) == Ok(!SomeViolation(rev, g))
  {
    var st := Outcomes(rev, g);
    OutcomesAt(rev, g);
    DecideTrue(st, 0);
    DecideFalse(st, 0);
    DecideRaise(st, 0);
    var d := Decide(st, 0);
    if d == Ok(false) {
      var p: nat :| StopsAt(st, 0, p, Fail);
      assert 0 <= p < |rev| - 1;
      assert Outcome(rev, g, p) == Fail;
      assert Violation(rev, g, p);
    } else {
      assert d.Ok? && d.value;
      forall p | 0 <= p < |rev| - 1 ensures !Violation(rev, g, p) {
        assert st[p] == Pass;
      }
    }
  }

  // ---------------------------------------------------------------------
  // The test as evidently intended: a position with no later neighbour
  // passes trivially instead of raising.

  /** Positions `i, ..., |rev| - 2`, stopping at the first that fails; a
      position without later neighbours passes. */
  function ChordalFromFixed(rev: seq<nat>, g: Graph, i: nat): bool
    requires InGraph(rev, g)
    decreases |rev| - i
  {
    if i + 1 >= |rev| then true
    else CheckAt(rev, g, i) != Fail && ChordalFromFixed(rev, g, i + 1)
  }

  /** `isChordal` with the trivial pass for a vertex without later neighbours. */
  function IsChordalFixed(lexOrder: seq<nat>, g: Graph): (r: bool)
    requires InGraph(lexOrder, g)
    ensures |lexOrder| <= 1 ==> r
  {
    var rev := Reverse(lexOrder);
    assert InGraph(rev, g);
    ChordalFromFixed(rev, g, 0)
  }

  /** The corrected walk passes exactly when no position from `i` on fails. */
  lemma {:induction false} ChordalFromFixedNoFail(rev: seq<nat>, g: Graph, i: nat)
    requires InGraph(rev, g)
    ensures ChordalFromFixed(rev, g, i) <==> forall p :: i <= p < |rev| - 1 ==> Outcome(rev, g, p) != Fail
    decreases |rev| - i
  {
    if i + 1 < |rev| {
      CheckAtIsOutcome(rev, g, i);
      ChordalFromFixedNoFail(rev, g, i + 1);
    }
  }

  /** The corrected test returns True exactly when the reversed order is a
      perfect elimination order: no position violates the test. */
  lemma IsChordalFixedDecides(lexOrder: seq<nat>, g: Graph)
    requires InGraph(lexOrder, g)
    ensures IsChordalFixed(lexOrder, g) <==> !SomeViolation(Reverse(lexOrder), g)
  {
    var rev := Reverse(lexOrder);
    assert InGraph(rev, g);
    ChordalFromFixedNoFail(rev, g, 0);
    forall p | 0 <= p < |rev| - 1 ensures Outcome(rev, g, p) == Fail <==> Violation(rev, g, p) {
      if Violation(rev, g, p) {
        var j: nat, k: nat :| FirstLaterNeighbour(rev, g, p, j) && j < k && LaterNeighbour(rev, g, p, k) && rev[k] !in g[rev[j]];
        assert LaterNeighbour(rev, g, p, j);
      }
    }
  }

  /** Where the program as written returns a verdict, the corrected test
      returns the same one. */
  lemma {:induction false} ChordalFromAgrees(rev: seq<nat>, g: Graph, i: nat)
    requires InGraph(rev, g)
    ensures ChordalFrom(rev, g, i).Ok? ==> ChordalFrom(rev, g, i).value == ChordalFromFixed(rev, g, i)
    decreases |rev| - i
  {
    if i + 1 < |rev| {
      ChordalFromAgrees(rev, g, i + 1);
    }
  }

  lemma IsChordalAgrees(lexOrder: seq<nat>, g: Graph)
    requires InGraph(lexOrder, g)
    ensures IsChordal(lexOrder, g).verdict.Ok? ==> IsChordal(lexOrder, g).verdict.value == IsChordalFixed(lexOrder, g)
  {
    var rev := Reverse(lexOrder);
    assert InGraph(rev, g);
    ChordalFromAgrees(rev, g, 0);
  }

  /** Two disjoint edges `0-1` and `2-3`, with the order `[0, 1, 2, 3]`: as
      written, vertex 2 (position 1 of the reversed order) has no later
      neighbour and the test raises; the corrected test accepts the graph. */
  lemma DisjointEdgesRaise()
    ensures IsChordal([0, 1, 2, 3], [[1], [0], [3], [2]]).verdict == Err(NoLaterNeighbour(1))
    ensures IsChordalFixed([0, 1, 2, 3], [[1], [0], [3], [2]])
  {
    var g: Graph := [[1], [0], [3], [2]];
    var rev := Reverse([0, 1, 2, 3]);
    assert rev == [3, 2, 1, 0];
    assert InGraph(rev, g);
    assert CheckAt(rev, g, 0) == Pass;
    assert CheckAt(rev, g, 1) == Raise;
    assert CheckAt(rev, g, 2) == Pass;
  }
}
