/** `create_dlx`: the matrix built from a problem, a list of `(label, subset)` pairs.

    Every constraint gets a column header the first time it is met, appended to the root
    ring; every member of a subset gets a node, appended to the row of its subset and to
    the bottom of its column, and its column size grows by one. Constraints are any type
    with equality (the JavaScript program keys a `Map` by them). */
module Builder {
  import opened Links

  /** The state of `create_dlx` between two constraints: the arena and the `headers` map. */
  datatype Building<L, E(==)> = Building(m: Dlx<L>, headers: map<E, nat>)

  /** The arena holds the root, and every header in the map is one of its nodes. */
  ghost predicate Arena<L, E>(b: Building<L, E>) {
    && Closed(b.m) && 0 < N(b.m)
    && forall e | e in b.headers :: b.headers[e] < N(b.m)
  }

  /** The root alone, and no header yet. */
  function Start<L, E(==)>(): (b: Building<L, E>)
    ensures Arena(b) && N(b.m) == 1 && b.headers == map[]
  {
    Building(CreateHeader(Empty()).0, map[])
  }

  /** The column header of constraint `e`: the one in the map, or a fresh header inserted
      left of the root, that is, at the end of the root ring. */
  function ColumnOf<L, E(==)>(b: Building<L, E>, e: E): (r: (Building<L, E>, nat))
    requires Arena(b)
    ensures Arena(r.0) && N(b.m) <= N(r.0.m) && r.1 < N(r.0.m)
    ensures r.0.headers == b.headers[e := r.1]
    ensures e in b.headers ==> r == (b, b.headers[e])
    ensures e !in b.headers ==> r.1 == N(b.m) && N(r.0.m) == N(b.m) + 1
  {
    if e in b.headers then (b, b.headers[e])
    else
      var (m1, c) := CreateHeader(b.m);
      (Building(InsertLeft(m1, Root, c), b.headers[e := c]), c)
  }

  /** One member `e` of the subset of the row labelled `rowLabel`: find or make its column,
      create its node, append it to the row whose first node is `rowHead` (or start the row
      with it), append it to the bottom of its column, and count it. */
  function AddElem<L, E(==)>(b: Building<L, E>, rowLabel: L, rowHead: Option<nat>, e: E): (r: (Building<L, E>, nat))
    requires Arena(b) && (rowHead.Some? ==> rowHead.value < N(b.m))
    ensures Arena(r.0) && r.1 < N(r.0.m) && N(b.m) < N(r.0.m)
  {
    var (b1, c) := ColumnOf(b, e);
    var (m2, x) := CreateNode(b1.m, c, rowLabel);
    var row := if rowHead.Some? then rowHead.value else x;
    (Building(Place(m2, rowHead, c, x), b1.headers), row)
  }

  /** Lines 158-165 for the fresh node `x` of column `c`: append it to the row whose first
      node is `rowHead`, if any, then to the bottom of the column, and count it. */
  function Place<L>(m: Dlx<L>, rowHead: Option<nat>, c: nat, x: nat): (r: Dlx<L>)
    requires Closed(m) && c < N(m) && x < N(m) && c != x
    requires rowHead.Some? ==> rowHead.value < N(m) && rowHead.value != x
    ensures Closed(r) && N(r) == N(m)
  {
    JoinColumn(JoinRow(m, rowHead, x), c, x)
  }

  /** Lines 158-162: `insert_left(row_header, node)` when the row has a first node. */
  function JoinRow<L>(m: Dlx<L>, rowHead: Option<nat>, x: nat): (r: Dlx<L>)
    requires Closed(m) && x < N(m)
    requires rowHead.Some? ==> rowHead.value < N(m) && rowHead.value != x
    ensures Closed(r) && N(r) == N(m)
  {
    if rowHead.Some? then InsertLeft(m, rowHead.value, x) else m
  }

  /** Lines 164-165: `insert_up(col_header, node)` and `col_header.size++`. */
  function JoinColumn<L>(m: Dlx<L>, c: nat, x: nat): (r: Dlx<L>)
    requires Closed(m) && c < N(m) && x < N(m) && c != x
    ensures Closed(r) && N(r) == N(m)
  {
    var m1 := InsertUp(m, c, x);
    m1.(size := m1.size[c := m1.size[c] + 1])
  }

  /** The inner loop of `create_dlx` over a subset, `rowHead` being the first node of the
      row so far. */
  function AddSubset<L, E(==)>(b: Building<L, E>, rowLabel: L, rowHead: Option<nat>, subset: seq<E>): (r: Building<L, E>)
    requires Arena(b) && (rowHead.Some? ==> rowHead.value < N(b.m))
    ensures Arena(r) && N(b.m) <= N(r.m)
    decreases |subset|
  {
    if subset == [] then b
    else
      var (b1, row) := AddElem(b, rowLabel, rowHead, subset[0]);
      AddSubset(b1, rowLabel, Some(row), subset[1..])
  }

  /** The outer loop of `create_dlx` over the problem's rows. */
  function AddRows<L, E(==)>(b: Building<L, E>, problem: seq<(L, seq<E>)>): (r: Building<L, E>)
    requires Arena(b)
    ensures Arena(r) && N(b.m) <= N(r.m)
    decreases |problem|
  {
    if problem == [] then b
    else AddRows(AddSubset(b, problem[0].0, None, problem[0].1), problem[1..])
  }

  /** `create_dlx(problem)`: the root of the built matrix is node 0. */
  function CreateDlx<L, E(==)>(problem: seq<(L, seq<E>)>): (m: Dlx<L>)
    ensures Closed(m) && 0 < N(m)
  {
    AddRows(Start(), problem).m
  }
}
