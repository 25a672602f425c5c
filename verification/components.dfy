/** `bfs(graph, node, start)`: a breadth-first search over a subgraph that
    labels each of its connected components in row `start` of the label
    matrix `C`, drawing the labels from the shared registry. */
module Components {
  import opened Seqs
  import opened Labels

  /** The subgraph argument `graph`: its vertex ids in key order, and the
      adjacency list of `keys[i]` at `adj[i]`. */
  datatype Sub = Sub(keys: seq<nat>, adj: seq<seq<nat>>)

  /** Keys are distinct and every listed neighbour is a key (otherwise
      `list(graph).index(v)` raises). */
  predicate ValidSub(s: Sub) {
    && |s.adj| == |s.keys|
    && Distinct(s.keys)
    && (forall i, y :: 0 <= i < |s.adj| && y in s.adj[i] ==> y in s.keys)
  }

  /** `list(graph).index(v)`. */
  function Pos(s: Sub, v: nat): (i: nat)
    requires v in s.keys
    ensures i < |s.keys| && s.keys[i] == v
  {
    IndexOf(s.keys, v)
  }

  /** `graph[v]`. */
  function Neighbours(s: Sub, v: nat): (r: seq<nat>)
    requires ValidSub(s) && v in s.keys
    ensures forall y :: y in r ==> y in s.keys
  {
    s.adj[Pos(s, v)]
  }

  /** Every edge of the subgraph is listed at both of its ends. */
  ghost predicate SymmetricSub(s: Sub)
    requires ValidSub(s)
  {
    forall u, v :: u in s.keys && v in s.keys ==> (v in Neighbours(s, u) <==> u in Neighbours(s, v))
  }

  // ---------------------------------------------------------------------
  // Connectivity in the subgraph.

  ghost predicate SubPath(s: Sub, p: seq<nat>)
    requires ValidSub(s)
  {
    && |p| >= 1
    && (forall i :: 0 <= i < |p| ==> p[i] in s.keys)
    && (forall i :: 0 <= i < |p| - 1 ==> p[i + 1] in Neighbours(s, p[i]))
  }

  /** `u` and `v` are joined by a walk of the subgraph. */
  ghost predicate Connected(s: Sub, u: nat, v: nat)
    requires ValidSub(s)
  {
    exists p :: SubPath(s, p) && p[0] == u && p[|p| - 1] == v
  }

  lemma ConnectedRefl(s: Sub, u: nat)
    requires ValidSub(s) && u in s.keys
    ensures Connected(s, u, u)
  {
    assert SubPath(s, [u]);
  }

  lemma ConnectedStep(s: Sub, u: nat, v: nat, w: nat)
    requires ValidSub(s) && v in s.keys && Connected(s, u, v) && w in Neighbours(s, v)
    ensures Connected(s, u, w)
  {
    var p :| SubPath(s, p) && p[0] == u && p[|p| - 1] == v;
    var q := p + [w];
    assert forall i :: 0 <= i < |q| - 1 ==> q[i + 1] in Neighbours(s, q[i]) by {
      forall i | 0 <= i < |q| - 1 ensures q[i + 1] in Neighbours(s, q[i]) {
        if i < |p| - 1 {
          assert q[i] == p[i] && q[i + 1] == p[i + 1];
        }
      }
    }
    assert SubPath(s, q);
  }

  lemma ConnectedSym(s: Sub, u: nat, v: nat)
    requires ValidSub(s) && SymmetricSub(s) && Connected(s, u, v)
    ensures Connected(s, v, u)
  {
    var p :| SubPath(s, p) && p[0] == u && p[|p| - 1] == v;
    var n := |p|;
    var q := Reverse(p);
    forall i | 0 <= i < n ensures q[i] in s.keys {
      assert q[i] == p[n - 1 - i];
    }
    forall i | 0 <= i < n - 1 ensures q[i + 1] in Neighbours(s, q[i]) {
      var j := n - 2 - i;
      assert p[j + 1] in Neighbours(s, p[j]);
      assert q[i] == p[j + 1] && q[i + 1] == p[j];
    }
    assert SubPath(s, q);
  }

  lemma ConnectedTrans(s: Sub, u: nat, v: nat, w: nat)
    requires ValidSub(s) && Connected(s, u, v) && Connected(s, v, w)
    ensures Connected(s, u, w)
  {
    var p :| SubPath(s, p) && p[0] == u && p[|p| - 1] == v;
    var q :| SubPath(s, q) && q[0] == v && q[|q| - 1] == w;
    var r := p + q[1..];
    forall i | 0 <= i < |r| ensures r[i] in s.keys {
      if i < |p| {
        assert r[i] == p[i];
      } else {
        assert r[i] == q[i - |p| + 1];
      }
    }
    forall i | 0 <= i < |r| - 1 ensures r[i + 1] in Neighbours(s, r[i]) {
      if i < |p| - 1 {
        assert r[i] == p[i] && r[i + 1] == p[i + 1];
      } else {
        var j := i - |p| + 1;
        assert r[i] == q[j] && r[i + 1] == q[j + 1];
      }
    }
    assert SubPath(s, r);
  }

  /** No edge leaves `L`. */
  ghost predicate Closed(s: Sub, L: set<nat>)
    requires ValidSub(s)
  {
    forall v, y :: v in L && v in s.keys && y in Neighbours(s, v) ==> y in L
  }

  /** A walk that starts in a closed set stays in it. */
  lemma ClosedReach(s: Sub, L: set<nat>, u: nat, v: nat)
    requires ValidSub(s) && Closed(s, L) && u in L && Connected(s, u, v)
    ensures v in L
  {
    var p :| SubPath(s, p) && p[0] == u && p[|p| - 1] == v;
    PathInClosed(s, L, p, |p| - 1);
  }

  lemma {:induction false} PathInClosed(s: Sub, L: set<nat>, p: seq<nat>, i: nat)
    requires ValidSub(s) && Closed(s, L) && SubPath(s, p) && p[0] in L && i < |p|
    ensures p[i] in L
  {
    if i > 0 {
      PathInClosed(s, L, p, i - 1);
      assert p[i] in Neighbours(s, p[i - 1]);
    }
  }

  // ---------------------------------------------------------------------
  // The search state and the loop body.

  /** The local state of `bfs`: `queue` front first (the deque is filled by
      `appendleft` and drained by `pop`), the flags `visited` and `inqueue`
      aligned with the keys, the list `keepNodes` of the component being
      visited, the current root `node`, the row `C[start]` and the registry. */
  datatype Search = Search(queue: seq<nat>, visited: seq<bool>, inqueue: seq<bool>,
                           keep: seq<nat>, node: nat, row: seq<nat>, reg: Registry)

  ghost predicate Shape(s: Sub, st: Search) {
    && ValidSub(s)
    && |st.visited| == |s.keys| && |st.inqueue| == |s.keys|
    && (forall v :: v in s.keys ==> v < |st.row|)
    && Valid(st.reg)
  }

  /** The queue holds distinct unvisited keys, and `inqueue` flags exactly them. */
  ghost predicate QueueOk(s: Sub, st: Search)
    requires Shape(s, st)
  {
    && Distinct(st.queue)
    && (forall v :: v in st.queue ==> v in s.keys)
    && (forall i :: 0 <= i < |s.keys| ==> (st.inqueue[i] <==> s.keys[i] in st.queue))
    && (forall i :: 0 <= i < |s.keys| && s.keys[i] in st.queue ==> !st.visited[i])
  }

  /** `keepNodes` holds distinct visited keys. */
  ghost predicate KeepOk(s: Sub, st: Search)
    requires Shape(s, st)
  {
    && Distinct(st.keep)
    && (forall v :: v in st.keep ==> v in s.keys && st.visited[Pos(s, v)])
  }

  /** What the loop needs to run: a well-formed state with a nonempty queue. */
  ghost predicate Live(s: Sub, st: Search) {
    Shape(s, st) && QueueOk(s, st) && KeepOk(s, st) && st.queue != []
  }

  /** Python's `visited.index(False)`. */
  function FirstFalse(b: seq<bool>): (p: nat)
    requires false in b
    ensures p < |b| && !b[p] && forall j :: 0 <= j < p ==> b[j]
  {
    if !b[0] then 0
    else
      assert false in b[1..] by {
        var k :| 0 <= k < |b| && b[k] == false;
        assert b[1..][k - 1] == false;
      }
      1 + FirstFalse(b[1..])
  }

  /** The number of unvisited keys, which every pass of the loop lowers. */
  function CountFalse(b: seq<bool>): nat {
    if b == [] then 0 else (if b[0] then 0 else 1) + CountFalse(b[1..])
  }

  lemma {:induction false} CountFalseSet(b: seq<bool>, i: nat)
    requires i < |b| && !b[i]
    ensures CountFalse(b[i := true]) + 1 == CountFalse(b)
  {
    if i == 0 {
      assert b[i := true][1..] == b[1..];
    } else {
      CountFalseSet(b[1..], i - 1);
      assert b[i := true][1..] == b[1..][i - 1 := true];
    }
  }

  /** `firstInQ = queue.pop()` and its bookkeeping: take the front of the
      queue, mark it visited and not queued, and append it to `keepNodes`. */
  function Pop(s: Sub, st: Search): (r: Search)
    requires Shape(s, st) && st.queue != [] && st.queue[0] in s.keys
    ensures Shape(s, r)
  {
    var x := st.queue[0];
    var i := Pos(s, x);
    st.(queue := st.queue[1..], visited := st.visited[i := true],
        inqueue := st.inqueue[i := false], keep := st.keep + [x])
  }

  /** The `for v in graph[firstInQ]` loop: queue every listed neighbour
      that is neither visited nor queued already, in list order. */
  function Expand(s: Sub, st: Search, vs: seq<nat>): (r: Search)
    requires Shape(s, st) && forall v :: v in vs ==> v in s.keys
    ensures Shape(s, r)
    ensures r.visited == st.visited && r.keep == st.keep && r.node == st.node
    ensures r.row == st.row && r.reg == st.reg
    ensures forall i :: 0 <= i < |s.keys| ==> (r.inqueue[i] <==> st.inqueue[i] || (s.keys[i] in vs && !st.visited[i]))
    decreases |vs|
  {
    if vs == [] then st
    else
      var v := vs[0];
      var i := Pos(s, v);
      var st2 := if !st.visited[i] && !st.inqueue[i]
                 then st.(queue := st.queue + [v], inqueue := st.inqueue[i := true])
                 else st;
      assert forall w :: w in vs[1..] ==> w in vs;
      assert forall j :: 0 <= j < |s.keys| ==> (s.keys[j] in vs <==> j == i || s.keys[j] in vs[1..]) by {
        forall j | 0 <= j < |s.keys| ensures s.keys[j] in vs <==> j == i || s.keys[j] in vs[1..] {
          assert vs == [v] + vs[1..];
          assert s.keys[j] == v <==> j == i;
        }
      }
      Expand(s, st2, vs[1..])
  }

  /** The loop body up to the `if not queue` test. */
  function Visit(s: Sub, st: Search): (r: Search)
    requires Live(s, st)
  {
    Expand(s, Pop(s, st), Neighbours(s, st.queue[0]))
  }

  /** The `if not queue` branch: the component is complete; register
      `keepNodes` and write its label into the row. */
  function Complete(s: Sub, st: Search): (r: Search)
    requires Shape(s, st) && forall v :: v in st.keep ==> v in s.keys
    ensures Shape(s, r)
    ensures r.queue == st.queue && r.visited == st.visited && r.inqueue == st.inqueue && r.keep == st.keep
  {
    var (reg, key) := Register(st.reg, st.keep);
    st.(row := Write(st.row, st.keep, key), reg := reg)
  }

  /** The `if False in visited` branch: restart from the first unvisited
      key with an empty `keepNodes`. */
  function Restart(s: Sub, st: Search): (r: Search)
    requires Shape(s, st) && false in st.visited
    ensures Shape(s, r)
  {
    var p := FirstFalse(st.visited);
    st.(node := s.keys[p], queue := st.queue + [s.keys[p]], inqueue := st.inqueue[p := true], keep := [])
  }

  /** The `while` loop of `bfs`, one pass per call. It ends with every key
      visited and the queue empty, and it writes only the keys' entries of
      the row and only adds to the registry. */
  function Run(s: Sub, st: Search): (r: Search)
    requires Live(s, st)
    ensures Shape(s, r) && r.queue == [] && false !in r.visited
    ensures |r.row| == |st.row| && forall z :: 0 <= z < |st.row| && z !in s.keys ==> r.row[z] == st.row[z]
    ensures Extends(st.reg, r.reg)
    decreases CountFalse(st.visited), 0
  {
    var st2 := Visit(s, st);
    VisitLive(s, st);
    if st2.queue != [] then Run(s, st2) else Finish(s, st2)
  }

  /** The end of a pass whose queue ran empty: complete the component, then
      stop if every key is visited, or restart. */
  function Finish(s: Sub, st: Search): (r: Search)
    requires Shape(s, st) && QueueOk(s, st) && KeepOk(s, st) && st.queue == []
    ensures Shape(s, r) && r.queue == [] && false !in r.visited
    ensures |r.row| == |st.row| && forall z :: 0 <= z < |st.row| && z !in s.keys ==> r.row[z] == st.row[z]
    ensures Extends(st.reg, r.reg)
    decreases CountFalse(st.visited), 1
  {
    var st3 := Complete(s, st);
    CompleteFrame(s, st);
    if false !in st3.visited then st3
    else
      RestartLive(s, st3);
      Run(s, Restart(s, st3))
  }

  /** `bfs(graph, node, start)` on the row `C[start]`: the new row and registry. */
  function Bfs(s: Sub, node: nat, row: seq<nat>, reg: Registry): (r: (seq<nat>, Registry))
    requires ValidSub(s) && node in s.keys && (forall v :: v in s.keys ==> v < |row|) && Valid(reg)
    ensures |r.0| == |row| && forall z :: 0 <= z < |row| && z !in s.keys ==> r.0[z] == row[z]
    ensures Valid(r.1) && Extends(reg, r.1)
  {
    var st := Start(s, node, row, reg);
    StartGood(s, node, row, reg);
    var fin := Run(s, st);
    (fin.row, fin.reg)
  }

  /** The state before the `while` loop: only `node` queued, nothing visited. */
  function Start(s: Sub, node: nat, row: seq<nat>, reg: Registry): Search
    requires node in s.keys
  {
    var none := seq(|s.keys|, _ => false);
    Search([node], none, none[Pos(s, node) := true], [], node, row, reg)
  }

  // ---------------------------------------------------------------------
  // What the loop keeps true.

  /** Everything queued or kept is reachable from the current root. */
  ghost predicate Rooted(s: Sub, st: Search)
    requires Shape(s, st)
  {
    && st.node in s.keys
    && (forall v :: v in st.keep ==> Connected(s, st.node, v))
    && (forall v :: v in st.queue ==> Connected(s, st.node, v))
  }

  /** Every neighbour of a kept vertex is visited or queued. */
  ghost predicate Frontier(s: Sub, st: Search)
    requires Shape(s, st) && KeepOk(s, st)
  {
    forall v, y :: v in st.keep && y in Neighbours(s, v) ==> st.visited[Pos(s, y)] || st.inqueue[Pos(s, y)]
  }

  /** The vertices of the components already labelled: visited, not kept. */
  ghost function Labelled(s: Sub, visited: seq<bool>, keep: seq<nat>): set<nat>
    requires ValidSub(s) && |visited| == |s.keys|
  {
    set v | v in s.keys && visited[Pos(s, v)] && v !in keep
  }

  /** `L` is a union of components, each vertex's label is registered for a
      list holding it, and two vertices of `L` share a label exactly when
      they are connected. */
  ghost predicate LabelsOk(s: Sub, row: seq<nat>, reg: Registry, L: set<nat>)
    requires ValidSub(s) && forall v :: v in s.keys ==> v < |row|
  {
    && (forall v :: v in L ==> v in s.keys)
    && Closed(s, L)
    && (forall v :: v in L ==> row[v] in reg.components && v in reg.components[row[v]])
    && (forall u, v :: u in L && v in L ==> (row[u] == row[v] <==> Connected(s, u, v)))
  }

  ghost predicate Good(s: Sub, st: Search) {
    && Live(s, st)
    && Rooted(s, st)
    && Frontier(s, st)
    && LabelsOk(s, st.row, st.reg, Labelled(s, st.visited, st.keep))
  }

  /** Queueing keeps the queue well formed, and adds exactly the listed
      vertices not visited yet. */
  lemma {:induction false} ExpandQueue(s: Sub, st: Search, vs: seq<nat>)
    requires Shape(s, st) && QueueOk(s, st) && forall v :: v in vs ==> v in s.keys
    ensures QueueOk(s, Expand(s, st, vs))
    ensures forall v :: v in Expand(s, st, vs).queue <==> v in st.queue || (v in vs && !st.visited[Pos(s, v)])
    decreases |vs|
  {
    if vs != [] {
      var v := vs[0];
      var i := Pos(s, v);
      assert vs == [v] + vs[1..];
      assert forall w :: w in vs[1..] ==> w in vs;
      if !st.visited[i] && !st.inqueue[i] {
        var st2 := st.(queue := st.queue + [v], inqueue := st.inqueue[i := true]);
        assert v !in st.queue;
        DistinctConcat(st.queue, [v]);
        forall j | 0 <= j < |s.keys| ensures st2.inqueue[j] <==> s.keys[j] in st2.queue {
          assert s.keys[j] == v <==> j == i;
        }
        assert QueueOk(s, st2);
        ExpandQueue(s, st2, vs[1..]);
      } else {
        ExpandQueue(s, st, vs[1..]);
      }
    }
  }

  /** One pass visits one more key and keeps the state well formed. */
  lemma VisitLive(s: Sub, st: Search)
    requires Live(s, st)
    ensures Shape(s, Visit(s, st)) && QueueOk(s, Visit(s, st)) && KeepOk(s, Visit(s, st))
    ensures CountFalse(Visit(s, st).visited) < CountFalse(st.visited)
  {
    var x := st.queue[0];
    var px := Pos(s, x);
    var st1 := Pop(s, st);
    assert !st.visited[px];
    CountFalseSet(st.visited, px);
    PopQueue(s, st);
    PopKeep(s, st);
    ExpandQueue(s, st1, Neighbours(s, x));
  }

  lemma PopQueue(s: Sub, st: Search)
    requires Live(s, st)
    ensures QueueOk(s, Pop(s, st))
  {
    var x := st.queue[0];
    var px := Pos(s, x);
    var st1 := Pop(s, st);
    assert st.queue == [x] + st.queue[1..];
    DistinctTail(st.queue);
    forall j | 0 <= j < |s.keys| ensures st1.inqueue[j] <==> s.keys[j] in st1.queue {
      assert s.keys[j] == x <==> j == px;
    }
    forall j | 0 <= j < |s.keys| && s.keys[j] in st1.queue ensures !st1.visited[j] {
      assert s.keys[j] in st.queue;
      assert j != px;
    }
  }

  lemma PopKeep(s: Sub, st: Search)
    requires Live(s, st)
    ensures KeepOk(s, Pop(s, st))
  {
    var x := st.queue[0];
    var px := Pos(s, x);
    var st1 := Pop(s, st);
    assert x !in st.keep;
    DistinctConcat(st.keep, [x]);
    forall v | v in st1.keep ensures v in s.keys && st1.visited[Pos(s, v)] {
      if v != x {
        assert v in st.keep;
      }
    }
  }

  /** One pass keeps everything reachable from the root and every kept
      vertex's neighbours seen, and leaves the labelled part alone. */
  lemma VisitGood(s: Sub, st: Search)
    requires Good(s, st)
    ensures Live(s, st) && Shape(s, Visit(s, st)) && QueueOk(s, Visit(s, st)) && KeepOk(s, Visit(s, st))
    ensures Rooted(s, Visit(s, st)) && Frontier(s, Visit(s, st))
    ensures Labelled(s, Visit(s, st).visited, Visit(s, st).keep) == Labelled(s, st.visited, st.keep)
    ensures Visit(s, st).row == st.row && Visit(s, st).reg == st.reg
  {
    VisitLive(s, st);
    VisitRooted(s, st);
    VisitFrontier(s, st);
    VisitLabelled(s, st);
  }

  lemma VisitRooted(s: Sub, st: Search)
    requires Good(s, st)
    ensures Shape(s, Visit(s, st)) && Rooted(s, Visit(s, st))
  {
    var x := st.queue[0];
    var st1 := Pop(s, st);
    PopQueue(s, st);
    ExpandQueue(s, st1, Neighbours(s, x));
    var st2 := Visit(s, st);
    assert Connected(s, st.node, x);
    forall v | v in st2.keep ensures Connected(s, st2.node, v) {
      if v != x {
        assert v in st.keep;
      }
    }
    forall v | v in st2.queue ensures Connected(s, st2.node, v) {
      if v in st1.queue {
        assert v in st.queue;
      } else {
        ConnectedStep(s, st.node, x, v);
      }
    }
  }

  lemma VisitFrontier(s: Sub, st: Search)
    requires Good(s, st)
    ensures Shape(s, Visit(s, st)) && KeepOk(s, Visit(s, st)) && Frontier(s, Visit(s, st))
  {
    var x := st.queue[0];
    var px := Pos(s, x);
    var st1 := Pop(s, st);
    VisitLive(s, st);
    var st2 := Visit(s, st);
    forall v, y | v in st2.keep && y in Neighbours(s, v)
      ensures st2.visited[Pos(s, y)] || st2.inqueue[Pos(s, y)]
    {
      var py := Pos(s, y);
      if v == x {
        assert y in Neighbours(s, x);
      } else {
        assert v in st.keep;
        assert st.visited[py] || st.inqueue[py];
        if py != px {
          assert st1.visited[py] == st.visited[py] && st1.inqueue[py] == st.inqueue[py];
        }
      }
    }
  }

  lemma VisitLabelled(s: Sub, st: Search)
    requires Good(s, st)
    ensures Shape(s, Visit(s, st))
    ensures Labelled(s, Visit(s, st).visited, Visit(s, st).keep) == Labelled(s, st.visited, st.keep)
  {
    var x := st.queue[0];
    var px := Pos(s, x);
    var st2 := Visit(s, st);
    assert !st.visited[px];
    forall v | v in s.keys
      ensures (st2.visited[Pos(s, v)] && v !in st2.keep) <==> (st.visited[Pos(s, v)] && v !in st.keep)
    {
      assert v == x <==> Pos(s, v) == px;
    }
  }

  /** Completing a component writes only its own entries and adds to the registry. */
  lemma CompleteFrame(s: Sub, st: Search)
    requires Shape(s, st) && forall v :: v in st.keep ==> v in s.keys
    ensures |Complete(s, st).row| == |st.row|
    ensures forall z :: 0 <= z < |st.row| && z !in s.keys ==> Complete(s, st).row[z] == st.row[z]
    ensures Extends(st.reg, Complete(s, st).reg)
  {
  }

  /** After a completion the queue is empty; a restart brings back a live state. */
  lemma RestartLive(s: Sub, st: Search)
    requires Shape(s, st) && QueueOk(s, st) && st.queue == [] && false in st.visited
    ensures Live(s, Restart(s, st))
  {
    var p := FirstFalse(st.visited);
    var r := Restart(s, st);
    assert r.queue == [s.keys[p]];
    forall j | 0 <= j < |s.keys| ensures r.inqueue[j] <==> s.keys[j] in r.queue {
      assert s.keys[j] == s.keys[p] <==> j == p;
    }
  }

  lemma RestartGood(s: Sub, st: Search)
    requires Shape(s, st) && QueueOk(s, st) && st.queue == [] && false in st.visited
    requires LabelsOk(s, st.row, st.reg, Labelled(s, st.visited, []))
    ensures Good(s, Restart(s, st))
  {
    RestartLive(s, st);
    var r := Restart(s, st);
    ConnectedRefl(s, r.node);
    assert r.queue == [r.node];
  }

  lemma StartGood(s: Sub, node: nat, row: seq<nat>, reg: Registry)
    requires ValidSub(s) && node in s.keys && (forall v :: v in s.keys ==> v < |row|) && Valid(reg)
    ensures Good(s, Start(s, node, row, reg))
  {
    var st := Start(s, node, row, reg);
    var p := Pos(s, node);
    forall j | 0 <= j < |s.keys| ensures st.inqueue[j] <==> s.keys[j] in st.queue {
      assert s.keys[j] == node <==> j == p;
    }
    assert Labelled(s, st.visited, st.keep) == {};
    ConnectedRefl(s, node);
  }

  // ---------------------------------------------------------------------
  // Completing a component.

  /** The completed component together with the labelled part is closed. */
  lemma CompleteClosed(s: Sub, st: Search)
    requires Shape(s, st) && QueueOk(s, st) && KeepOk(s, st) && Frontier(s, st) && st.queue == []
    requires LabelsOk(s, st.row, st.reg, Labelled(s, st.visited, st.keep))
    ensures Labelled(s, st.visited, []) == Labelled(s, st.visited, st.keep) + Elems(st.keep)
    ensures Closed(s, Labelled(s, st.visited, []))
  {
    var L := Labelled(s, st.visited, st.keep);
    var V := Labelled(s, st.visited, []);
    forall v, y | v in V && v in s.keys && y in Neighbours(s, v) ensures y in V {
      var py := Pos(s, y);
      if v in st.keep {
        assert !st.inqueue[py] by {
          assert s.keys[py] !in st.queue;
        }
        assert st.visited[py];
      } else {
        assert v in L;
        assert y in L;
      }
    }
  }

  /** The completed component is connected, and it is labelled with a key
      that no vertex of the labelled part carries. */
  lemma CompleteLabels(s: Sub, st: Search)
    requires Shape(s, st) && QueueOk(s, st) && KeepOk(s, st) && Rooted(s, st) && Frontier(s, st)
    requires st.queue == [] && SymmetricSub(s)
    requires LabelsOk(s, st.row, st.reg, Labelled(s, st.visited, st.keep))
    ensures LabelsOk(s, Complete(s, st).row, Complete(s, st).reg, Labelled(s, st.visited, []))
  {
    CompleteClosed(s, st);
    CompleteRegistered(s, st);
    CompleteIff(s, st);
  }

  /** After completion each labelled vertex's label is registered for a list holding it. */
  lemma CompleteRegistered(s: Sub, st: Search)
    requires Shape(s, st) && KeepOk(s, st)
    requires LabelsOk(s, st.row, st.reg, Labelled(s, st.visited, st.keep))
    ensures forall v :: v in Labelled(s, st.visited, []) ==>
      Complete(s, st).row[v] in Complete(s, st).reg.components && v in Complete(s, st).reg.components[Complete(s, st).row[v]]
  {
    var L := Labelled(s, st.visited, st.keep);
    var (reg, key) := Register(st.reg, st.keep);
    var c := Complete(s, st);
    forall v | v in Labelled(s, st.visited, []) ensures c.row[v] in reg.components && v in reg.components[c.row[v]] {
      if v !in st.keep {
        assert v in L;
      }
    }
  }

  /** After completion two labelled vertices share a label exactly when they are connected. */
  lemma CompleteIff(s: Sub, st: Search)
    requires Shape(s, st) && QueueOk(s, st) && KeepOk(s, st) && Rooted(s, st) && SymmetricSub(s)
    requires LabelsOk(s, st.row, st.reg, Labelled(s, st.visited, st.keep))
    ensures forall u, v :: u in Labelled(s, st.visited, []) && v in Labelled(s, st.visited, []) ==>
      (Complete(s, st).row[u] == Complete(s, st).row[v] <==> Connected(s, u, v))
  {
    var L := Labelled(s, st.visited, st.keep);
    var V := Labelled(s, st.visited, []);
    var (reg, key) := Register(st.reg, st.keep);
    var c := Complete(s, st);
    assert forall v :: v in L ==> c.row[v] == st.row[v];
    assert forall v :: v in st.keep ==> c.row[v] == key;
    forall u, v | u in V && v in V ensures c.row[u] == c.row[v] <==> Connected(s, u, v) {
      if u in st.keep && v in st.keep {
        KeptConnected(s, st, u, v);
      } else if u in st.keep {
        assert v in L;
        Separated(s, L, st.keep, v, u);
        ConnectedSymIff(s, u, v);
      } else if v in st.keep {
        assert u in L;
        Separated(s, L, st.keep, u, v);
      } else {
        assert u in L && v in L;
      }
    }
  }

  lemma ConnectedSymIff(s: Sub, u: nat, v: nat)
    requires ValidSub(s) && SymmetricSub(s)
    ensures Connected(s, u, v) <==> Connected(s, v, u)
  {
    if Connected(s, u, v) {
      ConnectedSym(s, u, v);
    }
    if Connected(s, v, u) {
      ConnectedSym(s, v, u);
    }
  }

  /** Two kept vertices are connected through the root. */
  lemma KeptConnected(s: Sub, st: Search, u: nat, v: nat)
    requires Shape(s, st) && QueueOk(s, st) && KeepOk(s, st) && Rooted(s, st) && SymmetricSub(s)
    requires u in st.keep && v in st.keep
    ensures Connected(s, u, v)
  {
    ConnectedSym(s, st.node, u);
    ConnectedTrans(s, u, st.node, v);
  }

  /** A vertex of a closed set is not connected to one outside it. */
  lemma Separated(s: Sub, L: set<nat>, keep: seq<nat>, u: nat, v: nat)
    requires ValidSub(s) && Closed(s, L) && u in L && v in keep && v !in L
    ensures !Connected(s, u, v)
  {
    if Connected(s, u, v) {
      ClosedReach(s, L, u, v);
    }
  }

  /** What the loop computes: with every key visited, two keys share a label
      exactly when they are connected, and each label is registered for a
      list holding the vertex. */
  lemma {:induction false} RunFacts(s: Sub, st: Search)
    requires Good(s, st) && SymmetricSub(s)
    ensures LabelsOk(s, Run(s, st).row, Run(s, st).reg, Labelled(s, Run(s, st).visited, []))
    decreases CountFalse(st.visited), 0
  {
    var st2 := Visit(s, st);
    VisitGood(s, st);
    VisitLive(s, st);
    if st2.queue != [] {
      RunFacts(s, st2);
    } else {
      FinishFacts(s, st2);
    }
  }

  lemma {:induction false} FinishFacts(s: Sub, st: Search)
    requires Shape(s, st) && QueueOk(s, st) && KeepOk(s, st) && Rooted(s, st) && Frontier(s, st)
    requires st.queue == [] && SymmetricSub(s)
    requires LabelsOk(s, st.row, st.reg, Labelled(s, st.visited, st.keep))
    ensures LabelsOk(s, Finish(s, st).row, Finish(s, st).reg, Labelled(s, Finish(s, st).visited, []))
    decreases CountFalse(st.visited), 1
  {
    var st3 := Complete(s, st);
    CompleteLabels(s, st);
    if false in st3.visited {
      RestartGood(s, st3);
      RunFacts(s, Restart(s, st3));
    }
  }

  /** `bfs` gives every key a label of at least 1 in row `start`, and two
      keys share a label exactly when they are connected in the subgraph. */
  lemma BfsLabels(s: Sub, node: nat, row: seq<nat>, reg: Registry)
    requires ValidSub(s) && node in s.keys && (forall v :: v in s.keys ==> v < |row|) && Valid(reg)
    requires SymmetricSub(s)
    ensures forall v :: v in s.keys ==> Bfs(s, node, row, reg).0[v] >= 1
    ensures forall u, v :: u in s.keys && v in s.keys ==>
      (Bfs(s, node, row, reg).0[u] == Bfs(s, node, row, reg).0[v] <==> Connected(s, u, v))
  {
    var st := Start(s, node, row, reg);
    StartGood(s, node, row, reg);
    var fin := Run(s, st);
    RunFacts(s, st);
    var V := Labelled(s, fin.visited, []);
    assert forall v :: v in s.keys ==> v in V by {
      forall v | v in s.keys ensures v in V {
        assert fin.visited[Pos(s, v)];
      }
    }
  }
}
