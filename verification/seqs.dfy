/** Sequence helpers shared by the model: distinctness, the vertex range
    `0..n-1`, flattening a sequence of cells, order-preserving filtering and
    the list operations `list.remove` and `list.index`. */
module Seqs {

  /** No element occurs twice. */
  predicate Distinct(s: seq<nat>) {
    forall i, j :: 0 <= i < j < |s| ==> s[i] != s[j]
  }

  /** The vertex ids `0, 1, ..., n-1` in increasing order (`range(n)`). */
  function Range(n: nat): (r: seq<nat>)
    ensures |r| == n
    ensures forall i :: 0 <= i < n ==> r[i] == i
  {
    seq(n, i => i)
  }

  lemma RangeCount(n: nat)
    ensures forall v: nat :: multiset(Range(n))[v] == (if v < n then 1 else 0)
  {
    if n > 0 {
      var last: nat := n - 1;
      RangeCount(last);
      assert Range(n) == Range(last) + [last];
      assert multiset(Range(n)) == multiset(Range(last)) + multiset{last};
    } else {
      assert multiset(Range(n)) == multiset{};
    }
  }

  /** The concatenation of all cells, front to back. */
  function Flatten(cells: seq<seq<nat>>): (r: seq<nat>)
    ensures |cells| == 0 ==> r == []
  {
    if cells == [] then [] else cells[0] + Flatten(cells[1..])
  }

  lemma FlattenAppend(a: seq<seq<nat>>, b: seq<seq<nat>>)
    ensures Flatten(a + b) == Flatten(a) + Flatten(b)
  {
    if a == [] {
      assert a + b == b;
    } else {
      assert (a + b)[1..] == a[1..] + b;
      FlattenAppend(a[1..], b);
    }
  }

  /** The elements of `s` that do not occur in `a`, in their order in `s`. */
  function FilterOut(s: seq<nat>, a: seq<nat>): (r: seq<nat>)
    ensures |r| <= |s|
    ensures forall x :: x in r <==> x in s && x !in a
  {
    if s == [] then []
    else (if s[0] in a then [] else [s[0]]) + FilterOut(s[1..], a)
  }

  /** Filtering distributes over concatenation: with the singleton case in
      the definition, the kept elements stay in order, repeats included. */
  lemma {:induction false} FilterOutAppend(s: seq<nat>, t: seq<nat>, a: seq<nat>)
    ensures FilterOut(s + t, a) == FilterOut(s, a) + FilterOut(t, a)
  {
    if s == [] {
      assert s + t == t;
    } else {
      assert (s + t)[0] == s[0];
      assert (s + t)[1..] == s[1..] + t;
      FilterOutAppend(s[1..], t, a);
    }
  }

  lemma FilterOutCompose(s: seq<nat>, b: seq<nat>, c: seq<nat>)
    ensures FilterOut(FilterOut(s, b), c) == FilterOut(s, b + c)
  {
    if s != [] {
      FilterOutCompose(s[1..], b, c);
      if s[0] in b {
        assert FilterOut(s, b) == FilterOut(s[1..], b);
      } else {
        assert FilterOut(s, b) == [s[0]] + FilterOut(s[1..], b);
        assert FilterOut(s, b)[1..] == FilterOut(s[1..], b);
      }
    }
  }

  lemma FilterOutNothing(s: seq<nat>, a: seq<nat>)
    requires forall x :: x in s ==> x !in a
    ensures FilterOut(s, a) == s
  {
    if s != [] {
      FilterOutNothing(s[1..], a);
      assert s == [s[0]] + s[1..];
    }
  }

  lemma FilterOutCongruent(s: seq<nat>, b: seq<nat>, c: seq<nat>)
    requires forall x :: x in s ==> (x in b <==> x in c)
    ensures FilterOut(s, b) == FilterOut(s, c)
  {
    if s != [] {
      FilterOutCongruent(s[1..], b, c);
    }
  }

  /** Filtering keeps a sequence distinct. */
  lemma {:induction false} FilterOutDistinct(s: seq<nat>, a: seq<nat>)
    requires Distinct(s)
    ensures Distinct(FilterOut(s, a))
  {
    if s != [] {
      DistinctTail(s);
      FilterOutDistinct(s[1..], a);
      DistinctConcat(if s[0] in a then [] else [s[0]], FilterOut(s[1..], a));
    }
  }

  /** Python's `list.reverse()`, as a value. */
  function Reverse(s: seq<nat>): (r: seq<nat>)
    ensures |r| == |s|
    ensures forall i :: 0 <= i < |s| ==> r[i] == s[|s| - 1 - i]
  {
    if s == [] then [] else Reverse(s[1..]) + [s[0]]
  }

  /** Python's `list.remove(x)`: drops the first occurrence of `x`. */
  function RemoveFirst(s: seq<nat>, x: nat): (r: seq<nat>)
    requires x in s
    ensures multiset(r) == multiset(s) - multiset{x}
  {
    assert s == [s[0]] + s[1..];
    if s[0] == x then s[1..] else [s[0]] + RemoveFirst(s[1..], x)
  }

  /** On a distinct sequence, removing the first occurrence removes every occurrence. */
  lemma {:induction false} RemoveFirstDistinct(s: seq<nat>, x: nat)
    requires x in s && Distinct(s)
    ensures RemoveFirst(s, x) == FilterOut(s, [x])
  {
    DistinctTail(s);
    if s[0] == x {
      FilterOutNothing(s[1..], [x]);
    } else {
      RemoveFirstDistinct(s[1..], x);
    }
  }

  /** Position of the first occurrence of `x` in `s` (Python's `list.index`). */
  function IndexOf(s: seq<nat>, x: nat): (r: nat)
    requires x in s
    ensures r < |s| && s[r] == x
    ensures forall i :: 0 <= i < r ==> s[i] != x
  {
    if s[0] == x then 0 else 1 + IndexOf(s[1..], x)
  }

  lemma DistinctTail(s: seq<nat>)
    requires Distinct(s) && |s| > 0
    ensures Distinct(s[1..]) && s[0] !in s[1..]
  {
  }

  lemma DistinctConcat(a: seq<nat>, b: seq<nat>)
    ensures Distinct(a + b) <==> Distinct(a) && Distinct(b) && (forall x :: x in a ==> x !in b)
  {
    if Distinct(a + b) {
      forall i, j | 0 <= i < j < |a| ensures a[i] != a[j] {
        assert a[i] == (a + b)[i] && a[j] == (a + b)[j];
      }
      forall i, j | 0 <= i < j < |b| ensures b[i] != b[j] {
        assert b[i] == (a + b)[|a| + i] && b[j] == (a + b)[|a| + j];
      }
      forall x | x in a ensures x !in b {
        var i :| 0 <= i < |a| && a[i] == x;
        assert (a + b)[i] == x;
        forall j | 0 <= j < |b| ensures b[j] != x {
          assert (a + b)[|a| + j] == b[j];
        }
      }
    }
    if Distinct(a) && Distinct(b) && (forall x :: x in a ==> x !in b) {
      forall i, j | 0 <= i < j < |a + b| ensures (a + b)[i] != (a + b)[j] {
        if j < |a| {
        } else if i >= |a| {
          assert (a + b)[i] == b[i - |a|] && (a + b)[j] == b[j - |a|];
        } else {
          assert (a + b)[i] == a[i] && (a + b)[j] == b[j - |a|];
          assert a[i] in a && b[j - |a|] in b;
        }
      }
    }
  }

  /** A sequence is distinct exactly when no element has multiplicity above one. */
  lemma {:induction false} DistinctMultiset(s: seq<nat>)
    ensures Distinct(s) <==> forall x :: multiset(s)[x] <= 1
  {
    if s == [] {
    } else {
      DistinctMultiset(s[1..]);
      assert s == [s[0]] + s[1..];
      assert multiset(s) == multiset{s[0]} + multiset(s[1..]);
      DistinctConcat([s[0]], s[1..]);
      if Distinct(s) {
        assert s[0] !in multiset(s[1..]);
      }
      if forall x :: multiset(s)[x] <= 1 {
        assert multiset(s)[s[0]] <= 1;
        assert forall x :: multiset(s[1..])[x] <= multiset(s)[x];
      }
    }
  }

  /** Distinctness depends only on the multiset of elements. */
  lemma DistinctPermutation(s: seq<nat>, t: seq<nat>)
    requires Distinct(s) && multiset(s) == multiset(t)
    ensures Distinct(t)
  {
    DistinctMultiset(s);
    DistinctMultiset(t);
  }

  /** A sub-multiset of a distinct sequence is distinct. */
  lemma DistinctSubMultiset(s: seq<nat>, t: seq<nat>)
    requires Distinct(s) && multiset(t) <= multiset(s)
    ensures Distinct(t)
  {
    DistinctMultiset(s);
    DistinctMultiset(t);
    forall x ensures multiset(t)[x] <= 1 {
      assert multiset(t)[x] <= multiset(s)[x];
    }
  }

  /** The set of elements of a sequence. */
  function Elems(s: seq<nat>): (r: set<nat>)
    ensures forall x :: x in r <==> x in s
  {
    set x | x in s
  }

  /** A distinct sequence has as many distinct elements as it is long. */
  lemma {:induction false} DistinctCard(s: seq<nat>)
    requires Distinct(s)
    ensures |Elems(s)| == |s|
  {
    if s == [] {
      assert Elems(s) == {};
    } else {
      DistinctTail(s);
      DistinctCard(s[1..]);
      assert Elems(s) == {s[0]} + Elems(s[1..]);
    }
  }

  /** A sequence has at most as many distinct elements as it is long. */
  lemma {:induction false} SetCard(s: seq<nat>)
    ensures |Elems(s)| <= |s|
  {
    if s == [] {
      assert Elems(s) == {};
    } else {
      SetCard(s[1..]);
      assert Elems(s) == {s[0]} + Elems(s[1..]);
    }
  }

  /** A subset at least as large as its superset is the whole superset. */
  lemma SubsetFull(a: set<nat>, b: set<nat>)
    requires a <= b && |a| >= |b|
    ensures a == b
  {
    assert b == a + (b - a);
    assert |b| == |a| + |b - a|;
  }

  /** Replacing a block by a permutation of it keeps a sequence distinct. */
  lemma DistinctReplace(x: seq<nat>, c: seq<nat>, m: seq<nat>, y: seq<nat>)
    requires Distinct(x + (c + y)) && multiset(m) == multiset(c)
    ensures Distinct((x + m) + y)
  {
    assert multiset(x + (c + y)) == multiset(x) + multiset(c) + multiset(y);
    assert multiset((x + m) + y) == multiset(x) + multiset(m) + multiset(y);
    DistinctPermutation(x + (c + y), (x + m) + y);
  }

  /** The parts of a distinct concatenation share no element. */
  lemma DistinctDisjoint(a: seq<nat>, b: seq<nat>)
    requires Distinct(a + b)
    ensures forall x :: x in a ==> x !in b
  {
    DistinctConcat(a, b);
  }

  /** A block inside a distinct sequence is distinct, and so is what ends with it. */
  lemma DistinctMiddle(x: seq<nat>, c: seq<nat>, y: seq<nat>)
    requires Distinct(x + (c + y))
    ensures Distinct(c) && Distinct(x + c)
  {
    DistinctConcat(x, c + y);
    DistinctConcat(c, y);
    DistinctConcat(x, c);
  }
}
