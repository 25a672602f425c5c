/** Lexicographic breadth-first search by partition refinement
    (`findLexOrder`). The working state is a sequence of cells, each an
    ordered list of vertices not yet output; each round outputs the head of
    the first cell and pulls the neighbours of that vertex to the front of
    every cell that holds some. */
module LexBfs {
  import opened Seqs
  import opened Graphs

  /** One pass of `for neighbor in neighbors[u]` over a single cell: each
      listed neighbour still in the cell is removed from it and appended to
      the new cell. Returns the new cell and what is left of the old one. */
  function Extract(a: seq<nat>, cell: seq<nat>): (seq<nat>, seq<nat>)
    decreases |a|
  {
    if a == [] then ([], cell)
    else if a[0] in cell then
      var t := Extract(a[1..], RemoveFirst(cell, a[0]));
      ([a[0]] + t.0, t.1)
    else
      Extract(a[1..], cell)
  }

  /** The two parts together are the cell, and only listed neighbours move. */
  lemma {:induction false} ExtractPartition(a: seq<nat>, cell: seq<nat>)
    ensures multiset(Extract(a, cell).0) + multiset(Extract(a, cell).1) == multiset(cell)
    ensures forall x :: x in Extract(a, cell).0 ==> x in a
    decreases |a|
  {
    if a != [] {
      assert forall x :: x in a[1..] ==> x in a;
      if a[0] in cell {
        var rest := RemoveFirst(cell, a[0]);
        ExtractPartition(a[1..], rest);
        assert multiset(cell) == multiset(rest) + multiset{a[0]};
      } else {
        ExtractPartition(a[1..], cell);
      }
    }
  }

  /** Every listed neighbour present in the cell is moved. */
  lemma {:induction false} ExtractFindsAll(a: seq<nat>, cell: seq<nat>)
    ensures forall x :: x in a && x in cell ==> x in Extract(a, cell).0
    decreases |a|
  {
    if a != [] {
      if a[0] in cell {
        var rest := RemoveFirst(cell, a[0]);
        ExtractFindsAll(a[1..], rest);
        forall x | x in a && x in cell ensures x in Extract(a, cell).0 {
          if x != a[0] {
            assert x in a[1..];
            assert multiset(rest)[x] == multiset(cell)[x];
          }
        }
      } else {
        ExtractFindsAll(a[1..], cell);
      }
    }
  }

  /** On a cell without repeats (every cell of `findLexOrder` is one), the
      new cell lists the cell's neighbours once each, in the order of their
      first occurrence in the adjacency list, and the old cell keeps its
      non-neighbours in their original order. */
  lemma {:induction false} ExtractSplits(a: seq<nat>, cell: seq<nat>)
    requires Distinct(cell)
    ensures Extract(a, cell).1 == FilterOut(cell, a)
    ensures Distinct(Extract(a, cell).0) && InListOrder(Extract(a, cell).0, a)
    decreases |a|
  {
    if a == [] {
      FilterOutNothing(cell, a);
    } else if a[0] in cell {
      var rest := RemoveFirst(cell, a[0]);
      DistinctSubMultiset(cell, rest);
      ExtractSplits(a[1..], rest);
      ExtractPartition(a[1..], rest);
      var t := Extract(a[1..], rest);
      ExtractHitLeft(a, cell, t.1);
      ExtractHitOrder(a, cell, rest, t.0);
    } else {
      ExtractSplits(a[1..], cell);
      ExtractPartition(a[1..], cell);
      var t := Extract(a[1..], cell);
      ExtractMiss(a, cell, t.0, t.1);
    }
  }

  /** `s` lists elements of `a` in the order of their first occurrence in `a`. */
  ghost predicate InListOrder(s: seq<nat>, a: seq<nat>) {
    && (forall x :: x in s ==> x in a)
    && (forall i, j :: 0 <= i < j < |s| ==> IndexOf(a, s[i]) < IndexOf(a, s[j]))
  }

  lemma InListOrderCons(s: seq<nat>, a: seq<nat>)
    requires a != [] && InListOrder(s, a[1..]) && a[0] !in s
    ensures InListOrder([a[0]] + s, a)
  {
    InListOrderSkip(s, a);
    var m := [a[0]] + s;
    assert forall x :: x in m ==> x in a;
    assert IndexOf(a, m[0]) == 0;
    forall i, j | 0 <= i < j < |m| ensures IndexOf(a, m[i]) < IndexOf(a, m[j]) {
      assert m[j] == s[j - 1];
      if i > 0 {
        assert m[i] == s[i - 1];
      }
    }
  }

  lemma InListOrderSkip(s: seq<nat>, a: seq<nat>)
    requires a != [] && InListOrder(s, a[1..]) && a[0] !in s
    ensures InListOrder(s, a)
    ensures forall x :: x in s ==> IndexOf(a, x) > 0
  {
    forall x | x in s ensures IndexOf(a, x) == 1 + IndexOf(a[1..], x) {
    }
  }

  lemma ExtractHitLeft(a: seq<nat>, cell: seq<nat>, left: seq<nat>)
    requires a != [] && a[0] in cell && Distinct(cell)
    requires left == FilterOut(RemoveFirst(cell, a[0]), a[1..])
    ensures left == FilterOut(cell, a)
  {
    RemoveFirstDistinct(cell, a[0]);
    FilterOutCompose(cell, [a[0]], a[1..]);
    assert [a[0]] + a[1..] == a;
  }

  lemma ExtractHitOrder(a: seq<nat>, cell: seq<nat>, rest: seq<nat>, moved: seq<nat>)
    requires a != [] && a[0] in cell && rest == RemoveFirst(cell, a[0])
    requires multiset(moved) <= multiset(rest)
    requires Distinct(rest) ==> Distinct(moved) && InListOrder(moved, a[1..])
    ensures Distinct(cell) ==> Distinct([a[0]] + moved) && InListOrder([a[0]] + moved, a)
  {
    if Distinct(cell) {
      DistinctSubMultiset(cell, rest);
      assert Distinct(rest);
      RemoveFirstDistinct(cell, a[0]);
      assert rest == FilterOut(cell, [a[0]]);
      assert a[0] !in moved by {
        assert a[0] !in multiset(rest);
      }
      DistinctConcat([a[0]], moved);
      InListOrderCons(moved, a);
    }
  }

  lemma ExtractMiss(a: seq<nat>, cell: seq<nat>, moved: seq<nat>, left: seq<nat>)
    requires a != [] && a[0] !in cell
    requires Distinct(cell) ==> left == FilterOut(cell, a[1..])
    requires multiset(moved) <= multiset(cell)
    requires Distinct(cell) ==> InListOrder(moved, a[1..])
    ensures Distinct(cell) ==> left == FilterOut(cell, a)
    ensures Distinct(cell) ==> InListOrder(moved, a)
  {
    if Distinct(cell) {
      FilterOutCongruent(cell, a[1..], a);
      assert a[0] !in moved by {
        assert a[0] !in multiset(cell);
      }
      InListOrderSkip(moved, a);
    }
  }

  /** The inner `while` loop of one round, as written: `pos` is `position`
      and `count` is `countNeighbours`. A cell that gave up neighbours is
      scanned once more (it now sits right after the new cell), and the scan
      stops as soon as `count` reaches the length of the adjacency list. */
  function ScanCells(cells: seq<seq<nat>>, a: seq<nat>, pos: nat, count: nat): seq<seq<nat>>
    requires pos <= |cells|
    decreases |a| - count, |cells| - pos
  {
    if pos < |cells| && count < |a| then
      var (moved, left) := Extract(a, cells[pos]);
      var cells' := cells[pos := left];
      if moved != [] then
        ScanCells(cells'[..pos] + [moved] + cells'[pos..], a, pos + 1, count + |moved|)
      else
        ScanCells(cells', a, pos + 1, count)
    else
      cells
  }

  /** Every cell split by `a`: the neighbours it holds, in adjacency-list
      order, form a new cell placed just before what is left of it. */
  function Refine(cells: seq<seq<nat>>, a: seq<nat>): seq<seq<nat>>
  {
    if cells == [] then []
    else
      var (moved, left) := Extract(a, cells[0]);
      (if moved != [] then [moved, left] else [left]) + Refine(cells[1..], a)
  }

  /** Refinement only rearranges vertices. */
  lemma {:induction false} RefinePartition(cells: seq<seq<nat>>, a: seq<nat>)
    ensures multiset(Flatten(Refine(cells, a))) == multiset(Flatten(cells))
  {
    if cells != [] {
      var (moved, left) := Extract(a, cells[0]);
      ExtractPartition(a, cells[0]);
      var head := if moved != [] then [moved, left] else [left];
      var tail := Refine(cells[1..], a);
      RefinePartition(cells[1..], a);
      FlattenAppend(head, tail);
      assert Flatten(head) == moved + left by {
        if moved != [] {
          assert Flatten(head) == moved + Flatten([left]);
          assert Flatten([left]) == left + Flatten([]);
        } else {
          assert Flatten(head) == left + Flatten([]);
        }
      }
    }
  }

  /** Neighbours of `u` already found: vertices of the scanned cells that are in `a`. */
  ghost function Hits(scanned: seq<seq<nat>>, a: seq<nat>): set<nat> {
    Elems(Flatten(scanned)) * Elems(a)
  }

  lemma {:induction false} RefineUntouched(cells: seq<seq<nat>>, a: seq<nat>)
    requires forall x :: x in Flatten(cells) ==> x !in a
    ensures Refine(cells, a) == cells
  {
    if cells != [] {
      assert Flatten(cells) == cells[0] + Flatten(cells[1..]);
      ExtractNothing(a, cells[0]);
      RefineUntouched(cells[1..], a);
    }
  }

  /** A cell holding none of the listed neighbours is left as it is. */
  lemma {:induction false} ExtractNothing(a: seq<nat>, cell: seq<nat>)
    requires forall x :: x in cell ==> x !in a
    ensures Extract(a, cell) == ([], cell)
    decreases |a|
  {
    if a != [] {
      assert forall x :: x in a[1..] ==> x in a;
      ExtractNothing(a[1..], cell);
    }
  }

  /** Once the scanned cells hold `count >= |a|` distinct neighbours, they
      hold every listed neighbour. */
  lemma AllHit(done: seq<seq<nat>>, a: seq<nat>, count: nat)
    requires count == |Hits(done, a)| && count >= |a|
    ensures forall x :: x in a ==> x in Flatten(done)
  {
    SetCard(a);
    SubsetFull(Hits(done, a), Elems(a));
  }

  /** The loop as written computes `Refine`: rescanning a split cell finds
      nothing, and stopping once `countNeighbours` reaches `len(neighbors[u])`
      loses nothing, because by then every listed neighbour has been moved. */
  lemma {:induction false} ScanCellsFrom(done: seq<seq<nat>>, todo: seq<seq<nat>>, a: seq<nat>, count: nat)
    requires Distinct(Flatten(done) + Flatten(todo))
    requires count == |Hits(done, a)|
    ensures ScanCells(done + todo, a, |done|, count) == done + Refine(todo, a)
    decreases |todo|, 2
  {
    var cells := done + todo;
    if todo == [] {
      assert cells == done;
    } else if count >= |a| {
      AllHit(done, a, count);
      DistinctDisjoint(Flatten(done), Flatten(todo));
      RefineUntouched(todo, a);
    } else {
      assert todo == [todo[0]] + todo[1..];
      assert Flatten(todo) == todo[0] + Flatten(todo[1..]);
      if Extract(a, todo[0]).0 != [] {
        ScanAtSplit(done, todo[0], todo[1..], a, count);
      } else {
        ScanAtClean(done, todo[0], todo[1..], a, count);
      }
    }
  }

  /** `ScanCellsFrom` at a cell `c` that holds some listed neighbours. */
  lemma {:induction false} ScanAtSplit(done: seq<seq<nat>>, c: seq<nat>, rest: seq<seq<nat>>, a: seq<nat>, count: nat)
    requires Distinct(Flatten(done) + (c + Flatten(rest)))
    requires count == |Hits(done, a)| && count < |a|
    requires Extract(a, c).0 != []
    ensures ScanCells(done + ([c] + rest), a, |done|, count) == done + Refine([c] + rest, a)
    decreases |rest| + 1, 1
  {
    var t := Extract(a, c);
    var mid := ScanCells((done + [t.0, t.1]) + rest, a, |done| + 1, count + |t.0|);
    assert ScanCells(done + ([c] + rest), a, |done|, count) == mid by {
      ScanSplitStep(done, c, rest, a, count);
    }
    assert Refine([c] + rest, a) == [t.0, t.1] + Refine(rest, a) by {
      RefineCons(c, rest, a);
    }
    assert mid == (done + [t.0, t.1]) + Refine(rest, a) by {
      SplitDistinct(done, c, rest, a);
      SplitLeftClean(done, c, rest, a);
      ScanSplitHits(done, c, a);
      ScanSplitCell(done, t.0, t.1, rest, a, count);
    }
    assert (done + [t.0, t.1]) + Refine(rest, a) == done + ([t.0, t.1] + Refine(rest, a));
  }

  /** `ScanCellsFrom` at a cell `c` that holds no listed neighbour. */
  lemma {:induction false} ScanAtClean(done: seq<seq<nat>>, c: seq<nat>, rest: seq<seq<nat>>, a: seq<nat>, count: nat)
    requires Distinct(Flatten(done) + (c + Flatten(rest)))
    requires count == |Hits(done, a)| && count < |a|
    requires Extract(a, c).0 == []
    ensures ScanCells(done + ([c] + rest), a, |done|, count) == done + Refine([c] + rest, a)
    decreases |rest| + 1, 1
  {
    ExtractFindsAll(a, c);
    ExtractNothing(a, c);
    ScanCleanStep(done, c, rest, a, count);
    RefineCons(c, rest, a);
    ScanCleanCell(done, c, rest, a, count);
    assert (done + [c]) + Refine(rest, a) == done + ([c] + Refine(rest, a));
  }

  /** One iteration of the scan at a cell without neighbours. */
  lemma ScanCleanStep(done: seq<seq<nat>>, c: seq<nat>, rest: seq<seq<nat>>, a: seq<nat>, count: nat)
    requires count < |a| && Extract(a, c) == ([], c)
    ensures ScanCells(done + ([c] + rest), a, |done|, count) == ScanCells((done + [c]) + rest, a, |done| + 1, count)
  {
    var cells := done + ([c] + rest);
    assert cells[|done|] == c;
    assert cells[|done| := c] == (done + [c]) + rest;
  }

  /** One iteration of the scan at a cell that splits. */
  lemma ScanSplitStep(done: seq<seq<nat>>, c: seq<nat>, rest: seq<seq<nat>>, a: seq<nat>, count: nat)
    requires count < |a| && Extract(a, c).0 != []
    ensures ScanCells(done + ([c] + rest), a, |done|, count)
         == ScanCells((done + [Extract(a, c).0, Extract(a, c).1]) + rest, a, |done| + 1, count + |Extract(a, c).0|)
  {
    var cells := done + ([c] + rest);
    var t := Extract(a, c);
    assert cells[|done|] == c;
    assert cells[|done| := t.1] == done + [t.1] + rest;
    assert (done + [t.1] + rest)[..|done|] + [t.0] + (done + [t.1] + rest)[|done|..]
        == (done + [t.0, t.1]) + rest;
  }

  /** `Refine` on a sequence with a first cell `c`. */
  lemma RefineCons(c: seq<nat>, rest: seq<seq<nat>>, a: seq<nat>)
    ensures Extract(a, c).0 != [] ==> Refine([c] + rest, a) == [Extract(a, c).0, Extract(a, c).1] + Refine(rest, a)
    ensures Extract(a, c).0 == [] ==> Refine([c] + rest, a) == [Extract(a, c).1] + Refine(rest, a)
  {
    assert ([c] + rest)[0] == c && ([c] + rest)[1..] == rest;
  }

  /** The case of `ScanCellsFrom` where cell `c` holds no neighbour: the
      scan passes over it unchanged. */
  lemma {:induction false} ScanCleanCell(done: seq<seq<nat>>, c: seq<nat>, rest: seq<seq<nat>>, a: seq<nat>, count: nat)
    requires Distinct(Flatten(done) + (c + Flatten(rest)))
    requires count == |Hits(done, a)|
    requires forall x :: x in c ==> x !in a
    ensures ScanCells((done + [c]) + rest, a, |done| + 1, count) == (done + [c]) + Refine(rest, a)
    decreases |rest| + 1, 0
  {
    HitsSnoc(done, c, a);
    assert Flatten(done + [c]) + Flatten(rest) == Flatten(done) + (c + Flatten(rest));
    ScanCellsFrom(done + [c], rest, a, count);
  }

  /** Scanning past a cell without neighbours finds no new hits. */
  lemma HitsSnoc(done: seq<seq<nat>>, c: seq<nat>, a: seq<nat>)
    requires forall x :: x in c ==> x !in a
    ensures Flatten(done + [c]) == Flatten(done) + c
    ensures Hits(done + [c], a) == Hits(done, a)
  {
    FlattenAppend(done, [c]);
    assert Flatten([c]) == c + Flatten([]);
  }

  /** The case of `ScanCellsFrom` where cell `c` split into `moved` and
      `left`: the scan moves on to `left`, finds nothing there, and goes on. */
  lemma {:induction false} ScanSplitCell(done: seq<seq<nat>>, moved: seq<nat>, left: seq<nat>, rest: seq<seq<nat>>,
                                         a: seq<nat>, count: nat)
    requires Distinct(Flatten(done) + ((moved + left) + Flatten(rest)))
    requires count + |moved| == |Hits(done + [moved, left], a)|
    requires forall x :: x in left ==> x !in a
    ensures ScanCells((done + [moved, left]) + rest, a, |done| + 1, count + |moved|)
         == (done + [moved, left]) + Refine(rest, a)
    decreases |rest| + 1, 0
  {
    var done2 := done + [moved, left];
    var count2 := count + |moved|;
    assert Flatten(done2) == Flatten(done) + (moved + left) by {
      FlattenAppend(done, [moved, left]);
      assert Flatten([moved, left]) == moved + Flatten([left]);
      assert Flatten([left]) == left + Flatten([]);
    }
    assert Flatten(done2) + Flatten(rest) == Flatten(done) + ((moved + left) + Flatten(rest));
    var cells := done2 + rest;
    if count2 >= |a| {
      AllHit(done2, a, count2);
      DistinctDisjoint(Flatten(done2), Flatten(rest));
      RefineUntouched(rest, a);
    } else {
      assert cells[|done| + 1] == left;
      ExtractNothing(a, left);
      assert cells[|done| + 1 := left] == cells;
      ScanCellsFrom(done2, rest, a, count2);
    }
  }

  /** Splitting a cell taken from a distinct sequence of cells keeps it distinct. */
  lemma SplitDistinct(done: seq<seq<nat>>, c: seq<nat>, rest: seq<seq<nat>>, a: seq<nat>)
    requires Distinct(Flatten(done) + (c + Flatten(rest)))
    ensures Distinct(Flatten(done) + ((Extract(a, c).0 + Extract(a, c).1) + Flatten(rest)))
  {
    var moved := Extract(a, c).0;
    var left := Extract(a, c).1;
    ExtractPartition(a, c);
    DistinctReplace(Flatten(done), c, moved + left, Flatten(rest));
    assert (Flatten(done) + (moved + left)) + Flatten(rest) == Flatten(done) + ((moved + left) + Flatten(rest));
  }

  /** What is left of a cell taken from a distinct sequence of cells holds no listed neighbour. */
  lemma SplitLeftClean(done: seq<seq<nat>>, c: seq<nat>, rest: seq<seq<nat>>, a: seq<nat>)
    requires Distinct(Flatten(done) + (c + Flatten(rest)))
    ensures Distinct(Flatten(done) + c)
    ensures forall x :: x in Extract(a, c).1 ==> x !in a
  {
    DistinctMiddle(Flatten(done), c, Flatten(rest));
    ExtractSplits(a, c);
  }

  /** Moving a cell's neighbours adds exactly them to the hits. */
  lemma ScanSplitHits(done: seq<seq<nat>>, c: seq<nat>, a: seq<nat>)
    requires Distinct(Flatten(done) + c)
    ensures |Hits(done + [Extract(a, c).0, Extract(a, c).1], a)| == |Hits(done, a)| + |Extract(a, c).0|
  {
    var moved := Extract(a, c).0;
    var left := Extract(a, c).1;
    DistinctDisjoint(Flatten(done), c);
    assert c + [] == c;
    DistinctMiddle(Flatten(done), c, []);
    assert Flatten(done) + (c + []) == Flatten(done) + c;
    ExtractSplits(a, c);
    ExtractPartition(a, c);
    assert Flatten(done + [moved, left]) == Flatten(done) + (moved + left) by {
      FlattenAppend(done, [moved, left]);
      assert Flatten([moved, left]) == moved + Flatten([left]);
      assert Flatten([left]) == left + Flatten([]);
    }
    assert forall x :: x in moved ==> x in c by {
      forall x | x in moved ensures x in c {
        assert x in multiset(c);
      }
    }
    assert Hits(done + [moved, left], a) == Hits(done, a) + Elems(moved);
    assert Hits(done, a) !! Elems(moved);
    DistinctCard(moved);
  }

  /** The round's scan started as `findLexOrder` starts it. */
  lemma ScanCellsIsRefine(cells: seq<seq<nat>>, a: seq<nat>)
    requires Distinct(Flatten(cells))
    ensures ScanCells(cells, a, 0, 0) == Refine(cells, a)
  {
    assert Flatten([]) == [];
    assert Hits([], a) == {};
    assert [] + cells == cells;
    assert Flatten([]) + Flatten(cells) == Flatten(cells);
    ScanCellsFrom([], cells, a, 0);
  }

  /** `deque(x for x in visitNodes if x)`: drops the empty cells. */
  function RemoveEmpty(cells: seq<seq<nat>>): (r: seq<seq<nat>>)
    ensures NoEmptyCell(r)
    ensures Flatten(r) == Flatten(cells)
    ensures forall c :: c in r <==> c in cells && c != []
  {
    if cells == [] then []
    else
      var tail := RemoveEmpty(cells[1..]);
      if cells[0] == [] then tail
      else
        assert ([cells[0]] + tail)[1..] == tail;
        [cells[0]] + tail
  }

  /** One cell in front: it is kept exactly when it is nonempty. */
  lemma RemoveEmptyCons(c: seq<nat>, cells: seq<seq<nat>>)
    ensures RemoveEmpty([c] + cells) == (if c == [] then [] else [c]) + RemoveEmpty(cells)
  {
    assert ([c] + cells)[0] == c;
    assert ([c] + cells)[1..] == cells;
  }

  /** Dropping the empty cells works cell by cell: the nonempty cells are
      kept whole and in their order. */
  lemma {:induction false} RemoveEmptyAppend(a: seq<seq<nat>>, b: seq<seq<nat>>)
    ensures RemoveEmpty(a + b) == RemoveEmpty(a) + RemoveEmpty(b)
  {
    if a == [] {
      assert a + b == b;
    } else {
      var head: seq<seq<nat>> := if a[0] == [] then [] else [a[0]];
      var rest := a[1..];
      assert a == [a[0]] + rest;
      assert a + b == [a[0]] + (rest + b);
      RemoveEmptyCons(a[0], rest + b);
      RemoveEmptyCons(a[0], rest);
      RemoveEmptyAppend(rest, b);
      assert head + (RemoveEmpty(rest) + RemoveEmpty(b))
          == (head + RemoveEmpty(rest)) + RemoveEmpty(b);
    }
  }

  predicate NoEmptyCell(cells: seq<seq<nat>>) {
    forall i :: 0 <= i < |cells| ==> cells[i] != []
  }

  /** The state of `findLexOrder` between rounds: the cells `visitNodes`
      and the output so far `lexOrder`. */
  datatype LexState = LexState(cells: seq<seq<nat>>, order: seq<nat>)

  /** Output and cells together hold each vertex `0..n-1` exactly once. */
  ghost predicate Covers(n: nat, s: LexState) {
    multiset(s.order) + multiset(Flatten(s.cells)) == multiset(Range(n))
  }

  lemma CoversFacts(n: nat, s: LexState)
    requires Covers(n, s)
    ensures Distinct(Flatten(s.cells))
    ensures forall x :: x in Flatten(s.cells) ==> x < n
    ensures |s.order| + |Flatten(s.cells)| == n
  {
    RangeCount(n);
    DistinctMultiset(Range(n));
    DistinctSubMultiset(Range(n), Flatten(s.cells));
    forall x | x in Flatten(s.cells) ensures x < n {
      assert multiset(Range(n))[x] > 0;
    }
    assert |multiset(Range(n))| == n;
  }

  /** The cells after `popleft` of the first cell's head. */
  function Pop(cells: seq<seq<nat>>): seq<seq<nat>>
    requires cells != [] && cells[0] != []
  {
    cells[0 := cells[0][1..]]
  }

  /** One round of the outer loop: output the head `u` of the first cell,
      then refine the remaining cells by `u`'s adjacency list (the scan as
      written) and drop the cells left empty. */
  function LexStep(g: Graph, s: LexState): (r: LexState)
    requires Covers(|g|, s) && s.cells != [] && s.cells[0] != []
    ensures r.order == s.order + [s.cells[0][0]]
    ensures NoEmptyCell(r.cells)
  {
    var u: nat := s.cells[0][0];
    var a := if u < |g| then g[u] else [];
    LexState(RemoveEmpty(ScanCells(Pop(s.cells), a, 0, 0)), s.order + [u])
  }

  /** A round's scan is the refinement `Refine` of the remaining cells. */
  lemma LexStepRefines(g: Graph, s: LexState)
    requires Covers(|g|, s) && s.cells != [] && s.cells[0] != []
    ensures s.cells[0][0] < |g|
    ensures LexStep(g, s).cells == RemoveEmpty(Refine(Pop(s.cells), g[s.cells[0][0]]))
  {
    PopFacts(g, s);
    ScanCellsIsRefine(Pop(s.cells), g[s.cells[0][0]]);
  }

  /** A round moves the head of the first cell from the cells to the output. */
  lemma LexStepCovers(g: Graph, s: LexState)
    requires Covers(|g|, s) && s.cells != [] && s.cells[0] != []
    ensures |s.order| < |g|
    ensures Covers(|g|, LexStep(g, s))
  {
    var u: nat := s.cells[0][0];
    PopFacts(g, s);
    LexStepRefines(g, s);
    RefinePartition(Pop(s.cells), g[u]);
    CoversFacts(|g|, s);
    var next := LexStep(g, s);
    assert multiset(Flatten(s.cells)) == multiset{u} + multiset(Flatten(Pop(s.cells)));
    assert multiset(next.order) == multiset(s.order) + multiset{u};
  }

  /** Popping the head `u` of the first cell: `u` is a vertex and the
      remaining cells are still distinct. */
  lemma PopFacts(g: Graph, s: LexState)
    requires Covers(|g|, s) && s.cells != [] && s.cells[0] != []
    ensures s.cells[0][0] < |g|
    ensures Flatten(s.cells) == [s.cells[0][0]] + Flatten(Pop(s.cells))
    ensures Distinct(Flatten(Pop(s.cells)))
  {
    var u: nat := s.cells[0][0];
    CoversFacts(|g|, s);
    var popped := Pop(s.cells);
    assert Flatten(s.cells) == s.cells[0] + Flatten(s.cells[1..]);
    assert Flatten(popped) == s.cells[0][1..] + Flatten(s.cells[1..]) by {
      assert popped[1..] == s.cells[1..];
    }
    assert s.cells[0] == [u] + s.cells[0][1..];
    assert u in Flatten(s.cells);
    DistinctTail(Flatten(s.cells));
  }

  /** The outer loop, run until no cells remain. */
  function LexRun(g: Graph, s: LexState): seq<nat>
    requires Covers(|g|, s) && (s.cells == [] || s.cells[0] != [])
    decreases |g| - |s.order|
  {
    if s.cells == [] then s.order
    else
      LexStepCovers(g, s);
      LexRun(g, LexStep(g, s))
  }

  /** The rounds output every vertex once and extend the output so far. */
  lemma {:induction false} LexRunFacts(g: Graph, s: LexState)
    requires Covers(|g|, s) && (s.cells == [] || s.cells[0] != [])
    ensures multiset(LexRun(g, s)) == multiset(Range(|g|))
    ensures |s.order| <= |LexRun(g, s)| && LexRun(g, s)[..|s.order|] == s.order
    decreases |g| - |s.order|
  {
    if s.cells == [] {
      assert Flatten(s.cells) == [];
    } else {
      var next := LexStep(g, s);
      LexStepCovers(g, s);
      LexRunFacts(g, next);
      var r := LexRun(g, next);
      assert r[..|s.order|] == r[..|next.order|][..|s.order|];
    }
  }

  /** `findLexOrder`: seed the cells with `[0]` and `[1, ..., n-1]`, then run
      the rounds. The empty graph makes the first `popleft` raise. */
  function FindLexOrder(g: Graph): (r: Result<seq<nat>>)
    ensures r.Err? <==> |g| == 0
    ensures r.Err? ==> r.error == EmptyGraph
    ensures r.Ok? ==> |r.value| == |g| && r.value[0] == 0
    ensures r.Ok? ==> forall v: nat :: multiset(r.value)[v] == (if v < |g| then 1 else 0)
  {
    if |g| == 0 then Err(EmptyGraph)
    else
      var all := Range(|g|);
      var seed := LexState([[all[0]], all[1..]], []);
      assert Covers(|g|, seed) by {
        assert Flatten(seed.cells) == [all[0]] + (all[1..] + Flatten([]));
        assert [all[0]] + all[1..] == all;
      }
      var order := LexRun(g, seed);
      LexRunFacts(g, seed);
      LexRunFirst(g, seed);
      RangeCount(|g|);
      Ok(order)
  }

  lemma LexRunFirst(g: Graph, s: LexState)
    requires Covers(|g|, s) && s.cells != [] && s.cells[0] != [] && s.order == []
    ensures |LexRun(g, s)| > 0 && LexRun(g, s)[0] == s.cells[0][0]
  {
    var next := LexStep(g, s);
    LexStepCovers(g, s);
    LexRunFacts(g, next);
    assert LexRun(g, s) == LexRun(g, next);
    assert next.order == [s.cells[0][0]];
  }

  /** On two disjoint edges `0-1` and `2-3` the rounds output `0, 1, 2, 3`. */
  lemma DisjointEdgesOrder()
    ensures FindLexOrder([[1], [0], [3], [2]]) == Ok([0, 1, 2, 3])
  {
    var g: Graph := [[1], [0], [3], [2]];
    assert Range(4) == [0, 1, 2, 3];
    var s0 := LexState([[0], [1, 2, 3]], []);
    var s1 := LexState([[1], [2, 3]], [0]);
    var s2 := LexState([[2, 3]], [0, 1]);
    var s3 := LexState([[3]], [0, 1, 2]);
    DisjointRound1();
    DisjointRound2();
    DisjointRound3();
    DisjointRound4();
    assert LexRun(g, s0) == LexRun(g, s1) == LexRun(g, s2) == LexRun(g, s3) == [0, 1, 2, 3];
  }

  lemma DisjointRound1()
    ensures Covers(4, LexState([[0], [1, 2, 3]], []))
    ensures LexStep([[1], [0], [3], [2]], LexState([[0], [1, 2, 3]], [])) == LexState([[1], [2, 3]], [0])
  {
    var c: seq<nat> := [1, 2, 3];
    DisjointCovers([[0], c], [], [0], c);
    var a: seq<nat> := [1];
    var cells := [[], c];
    var h: seq<nat> := [0];
    assert h[1..] == [];
    assert Pop([h, c]) == cells;
    DisjointScan1();
    DisjointClean1();
    var g: Graph := [[1], [0], [3], [2]];
    assert g[0] == a;
    assert LexStep(g, LexState([h, c], [])).cells == RemoveEmpty([[], [1], [2, 3]]);
  }

  lemma DisjointScan1()
    ensures ScanCells([[], [1, 2, 3]], [1], 0, 0) == [[], [1], [2, 3]]
  {
    var a: seq<nat> := [1];
    var cells: seq<seq<nat>> := [[], [1, 2, 3]];
    DisjointSplit();
    assert cells[0 := []] == cells;
    assert ScanCells(cells, a, 0, 0) == ScanCells(cells, a, 1, 0);
    var split := cells[1 := [2, 3]];
    assert split[..1] + [[1]] + split[1..] == [[], [1], [2, 3]];
  }

  lemma DisjointClean1()
    ensures RemoveEmpty([[], [1], [2, 3]]) == [[1], [2, 3]]
  {
    var one: seq<nat> := [1];
    var two: seq<nat> := [2, 3];
    RemoveEmptyCons(two, []);
    RemoveEmptyCons(one, [two]);
    RemoveEmptyCons([], [one, two]);
    assert [two] + [] == [two] && [one] + [two] == [one, two];
    assert [[]] + [one, two] == [[], [1], [2, 3]];
  }

  lemma DisjointSplit()
    ensures Extract([1], []) == ([], [])
    ensures Extract([1], [1, 2, 3]) == ([1], [2, 3])
  {
    var a: seq<nat> := [1];
    var c: seq<nat> := [1, 2, 3];
    assert RemoveFirst(c, a[0]) == [2, 3];
    assert Extract(a[1..], [2, 3]) == ([], [2, 3]);
    assert [a[0]] + [] == [1];
  }

  lemma DisjointRound2()
    ensures Covers(4, LexState([[1], [2, 3]], [0]))
    ensures LexStep([[1], [0], [3], [2]], LexState([[1], [2, 3]], [0])) == LexState([[2, 3]], [0, 1])
  {
    var c: seq<nat> := [2, 3];
    DisjointCovers([[1], c], [0], [0, 1], c);
    var h: seq<nat> := [1];
    assert h[1..] == [];
    assert Pop([h, c]) == [[], c];
    DisjointScan2();
    DisjointClean2();
  }

  lemma DisjointScan2()
    ensures ScanCells([[], [2, 3]], [0], 0, 0) == [[], [2, 3]]
  {
    var a: seq<nat> := [0];
    var c: seq<nat> := [2, 3];
    var cells := [[], c];
    assert Extract(a, []) == ([], []);
    assert Extract(a[1..], c) == ([], c);
    assert Extract(a, c) == ([], c);
    assert cells[0 := []] == cells && cells[1 := c] == cells;
    assert ScanCells(cells, a, 0, 0) == ScanCells(cells, a, 1, 0);
    assert ScanCells(cells, a, 1, 0) == ScanCells(cells, a, 2, 0);
  }

  lemma DisjointClean2()
    ensures RemoveEmpty([[], [2, 3]]) == [[2, 3]]
  {
    var c: seq<nat> := [2, 3];
    RemoveEmptyCons(c, []);
    RemoveEmptyCons([], [c]);
    assert [c] + [] == [c] && [[]] + [c] == [[], c];
  }

  lemma DisjointRound3()
    ensures Covers(4, LexState([[2, 3]], [0, 1]))
    ensures LexStep([[1], [0], [3], [2]], LexState([[2, 3]], [0, 1])) == LexState([[3]], [0, 1, 2])
  {
    DisjointCovers([[2, 3]], [0, 1], [0, 1], [2, 3]);
    DisjointScan3();
    DisjointClean3();
  }

  lemma DisjointScan3()
    ensures ScanCells([[3]], [3], 0, 0) == [[3], []]
  {
    var a: seq<nat> := [3];
    assert RemoveFirst(a, a[0]) == [];
    assert Extract(a[1..], []) == ([], []);
    assert [a[0]] + [] == [3];
    assert Extract(a, a) == ([3], []);
  }

  lemma DisjointClean3()
    ensures RemoveEmpty([[3], []]) == [[3]]
  {
    var a: seq<nat> := [3];
    var e: seq<nat> := [];
    RemoveEmptyCons(e, []);
    RemoveEmptyCons(a, [e]);
    assert [e] + [] == [e] && [a] + [e] == [a, e] && [a] + [] == [a];
  }

  lemma DisjointRound4()
    ensures Covers(4, LexState([[3]], [0, 1, 2]))
    ensures LexStep([[1], [0], [3], [2]], LexState([[3]], [0, 1, 2])) == LexState([], [0, 1, 2, 3])
  {
    DisjointCovers([[3]], [0, 1, 2], [0, 1, 2], [3]);
    assert Extract([2], []) == ([], []);
    assert ScanCells([[]], [2], 0, 0) == [[]];
    assert RemoveEmpty([[]]) == [];
  }

  /** A state of the run on two disjoint edges covers the four vertices. */
  lemma DisjointCovers(cells: seq<seq<nat>>, order: seq<nat>, front: seq<nat>, back: seq<nat>)
    requires front + back == [0, 1, 2, 3] && 1 <= |cells| <= 2 && cells[|cells| - 1] == back
    requires |cells| == 1 ==> order == front
    requires |cells| == 2 ==> order + cells[0] == front
    ensures Covers(4, LexState(cells, order))
  {
    assert Range(4) == [0, 1, 2, 3];
    var flat := Flatten(cells);
    if |cells| == 1 {
      assert flat == back + Flatten([]);
      assert order + flat == Range(4);
    } else {
      assert flat == cells[0] + Flatten(cells[1..]);
      assert Flatten(cells[1..]) == back + Flatten([]);
      assert order + flat == (order + cells[0]) + back;
      assert order + flat == Range(4);
    }
    assert multiset(order + flat) == multiset(order) + multiset(flat);
  }
}
