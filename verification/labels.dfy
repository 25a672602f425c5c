/** The component registry (`components` and its counter `componentsAdd`)
    that `bfs` shares across rows, and the write of one component's label
    into a row of the label matrix `C`. */
module Labels {

  /** `components` maps each label to the exact visitation list it was
      allocated for; `counter` is `componentsAdd`, the last label handed out. */
  datatype Registry = Registry(components: map<nat, seq<nat>>, counter: nat)

  /** The labels in use are exactly `1..counter`, and no list is registered
      under two labels. */
  ghost predicate Valid(r: Registry) {
    && (forall k :: k in r.components <==> 1 <= k <= r.counter)
    && (forall k, j :: k in r.components && j in r.components && r.components[k] == r.components[j] ==> k == j)
  }

  /** `r2` keeps every entry of `r` and a counter at least as large. */
  predicate Extends(r: Registry, r2: Registry) {
    && r.counter <= r2.counter
    && (forall k :: k in r.components ==> k in r2.components && r2.components[k] == r.components[k])
  }

  /** The empty registry the program starts with. */
  function Empty(): (r: Registry)
    ensures Valid(r) && r.counter == 0 && r.components == map[]
  {
    Registry(map[], 0)
  }

  /** The scan `for key in components.keys()` for the label of `list`,
      trying the labels in the order they were allocated, from `k` on. */
  function FindKey(r: Registry, list: seq<nat>, k: nat): (key: nat)
    requires Valid(r) && 1 <= k
    requires exists j :: k <= j <= r.counter && r.components[j] == list
    ensures k <= key <= r.counter && r.components[key] == list
    ensures forall j :: k <= j < key ==> r.components[j] != list
    decreases r.counter - k
  {
    if r.components[k] == list then k else FindKey(r, list, k + 1)
  }

  /** The registration step of `bfs`: an unseen list gets the next label,
      a list already registered gets its existing label back. */
  function Register(r: Registry, list: seq<nat>): (res: (Registry, nat))
    requires Valid(r)
    ensures Valid(res.0) && Extends(r, res.0)
    ensures 1 <= res.1 <= res.0.counter && res.0.components[res.1] == list
    ensures list in r.components.Values ==> res.0 == r
    ensures list !in r.components.Values ==> res.1 == res.0.counter == r.counter + 1
  {
    if list !in r.components.Values then
      var key := r.counter + 1;
      var r2 := Registry(r.components[key := list], key);
      assert forall k :: k in r2.components && k != key ==> r2.components[k] in r.components.Values;
      (r2, key)
    else
      assert exists j :: 1 <= j <= r.counter && r.components[j] == list;
      (r, FindKey(r, list, 1))
  }

  /** Registering a list a second time changes nothing and yields the same label. */
  lemma RegisterIdempotent(r: Registry, list: seq<nat>)
    requires Valid(r)
    ensures Register(Register(r, list).0, list) == Register(r, list)
  {
    var (r2, key) := Register(r, list);
    assert list in r2.components.Values by {
      assert r2.components[key] == list;
    }
    var key2 := Register(r2, list).1;
    assert r2.components[key2] == list;
  }

  /** Two lists registered one after the other share a label exactly when
      they are the same list, and the first keeps its label. */
  lemma RegisterSeparates(r: Registry, a: seq<nat>, b: seq<nat>)
    requires Valid(r)
    ensures var (r1, ka) := Register(r, a);
            var (r2, kb) := Register(r1, b);
            r2.components[ka] == a && (ka == kb <==> a == b)
  {
    var (r1, ka) := Register(r, a);
    if a == b {
      RegisterIdempotent(r, a);
    }
  }

  /** `for i in keepNodes: C[start][i] = key`, on the row `C[start]`. */
  function Write(row: seq<nat>, keep: seq<nat>, key: nat): (r: seq<nat>)
    requires forall v :: v in keep ==> v < |row|
    ensures |r| == |row|
    ensures forall i :: 0 <= i < |row| ==> r[i] == (if i in keep then key else row[i])
    decreases |keep|
  {
    if keep == [] then row
    else
      assert keep[0] in keep;
      assert forall v :: v in keep[1..] ==> v in keep;
      Write(row[keep[0] := key], keep[1..], key)
  }
}
