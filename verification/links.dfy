/** The node arena of the dancing-links matrix and its link primitives.

    The JavaScript program builds a graph of objects with four pointers each. Here every
    object is an index into an arena: `up`, `down`, `left` and `right` hold the indices of
    the neighbours, `size` the column counters of header nodes, and `cell` tells a header
    (`Head`) from a matrix node (`Item`, with its column header and its row label).
    Node 0 is the root header. Each primitive performs the same field writes, in the same
    order, as its JavaScript counterpart. */
module Links {

  datatype Option<T> = None | Some(value: T)

  /** What a node is: a column header (or the root), or a matrix node of some row. */
  datatype Cell<L> = Head | Item(header: nat, rowLabel: L)

  datatype Dlx<L> = Dlx(up: seq<nat>, down: seq<nat>, left: seq<nat>, right: seq<nat>,
                        size: seq<int>, cell: seq<Cell<L>>)

  /** The root header: the matrix is solved when its ring is empty. */
  const Root: nat := 0

  function N<L>(m: Dlx<L>): nat { |m.cell| }

  /** All fields have one entry per node, and every pointer (including an item's header)
      names a node of the arena. */
  ghost predicate Closed<L>(m: Dlx<L>) {
    && |m.up| == |m.cell| && |m.down| == |m.cell| && |m.left| == |m.cell|
    && |m.right| == |m.cell| && |m.size| == |m.cell|
    && (forall i | 0 <= i < |m.cell| ::
          m.up[i] < |m.cell| && m.down[i] < |m.cell| && m.left[i] < |m.cell| && m.right[i] < |m.cell|)
    && (forall i | 0 <= i < |m.cell| && m.cell[i].Item? :: m.cell[i].header < |m.cell|)
  }

  /** The header of an item. */
  function Hd<L>(m: Dlx<L>, x: nat): nat
    requires x < |m.cell| && m.cell[x].Item?
  {
    m.cell[x].header
  }

  function Empty<L>(): (m: Dlx<L>)
    ensures Closed(m) && N(m) == 0
  {
    Dlx([], [], [], [], [], [])
  }

  /** `create_header`: a fresh header, linked to itself in all four directions, size 0.
      It is appended to the arena, so every existing node keeps all its fields. */
  function CreateHeader<L>(m: Dlx<L>): (r: (Dlx<L>, nat))
    requires Closed(m)
    ensures Closed(r.0) && r.1 == N(m) && N(r.0) == N(m) + 1
    ensures r.0.up[r.1] == r.1 && r.0.down[r.1] == r.1
    ensures r.0.left[r.1] == r.1 && r.0.right[r.1] == r.1
    ensures r.0.size[r.1] == 0 && r.0.cell[r.1] == Head
    ensures r.0.up[..N(m)] == m.up && r.0.down[..N(m)] == m.down
    ensures r.0.left[..N(m)] == m.left && r.0.right[..N(m)] == m.right
    ensures r.0.size[..N(m)] == m.size && r.0.cell[..N(m)] == m.cell
  {
    var id := |m.cell|;
    (Dlx(m.up + [id], m.down + [id], m.left + [id], m.right + [id], m.size + [0], m.cell + [Head]), id)
  }

  /** `create_node(header, label)`: a fresh matrix node of column `header`, linked to itself
      in all four directions. Existing nodes keep all their fields. */
  function CreateNode<L>(m: Dlx<L>, header: nat, rowLabel: L): (r: (Dlx<L>, nat))
    requires Closed(m) && header < N(m)
    ensures Closed(r.0) && r.1 == N(m) && N(r.0) == N(m) + 1
    ensures r.0.up[r.1] == r.1 && r.0.down[r.1] == r.1
    ensures r.0.left[r.1] == r.1 && r.0.right[r.1] == r.1
    ensures r.0.cell[r.1] == Item(header, rowLabel)
    ensures r.0.up[..N(m)] == m.up && r.0.down[..N(m)] == m.down
    ensures r.0.left[..N(m)] == m.left && r.0.right[..N(m)] == m.right
    ensures r.0.size[..N(m)] == m.size && r.0.cell[..N(m)] == m.cell
  {
    var id := |m.cell|;
    (Dlx(m.up + [id], m.down + [id], m.left + [id], m.right + [id], m.size + [0],
         m.cell + [Item(header, rowLabel)]), id)
  }

  /** `insert_up(node, other)`: splice `other` into the vertical cycle directly above
      `node`. Afterwards `node` and its former upper neighbour `p` point to `other`, and
      `other` points to them; no other up/down field changes. */
  function InsertUp<L>(m: Dlx<L>, node: nat, other: nat): (r: Dlx<L>)
    requires Closed(m) && node < N(m) && other < N(m) && other != node
    ensures Closed(r)
    ensures r.left == m.left && r.right == m.right && r.size == m.size && r.cell == m.cell
    ensures r.up[node] == other && r.down[m.up[node]] == other && r.up[other] == m.up[node]
    ensures m.up[node] != other ==> r.down[other] == node
    ensures forall i | 0 <= i < N(m) && i != other && i != m.up[node] :: r.down[i] == m.down[i]
    ensures forall i | 0 <= i < N(m) && i != other && i != node :: r.up[i] == m.up[i]
  {
    var m1 := m.(down := m.down[other := node]);
    var m2 := m1.(up := m1.up[other := m1.up[node]]);
    var m3 := m2.(down := m2.down[m2.up[node] := other]);
    m3.(up := m3.up[node := other])
  }

  /** `insert_left(node, other)`: splice `other` into the horizontal cycle directly left of
      `node`; the mirror image of `InsertUp`. */
  function InsertLeft<L>(m: Dlx<L>, node: nat, other: nat): (r: Dlx<L>)
    requires Closed(m) && node < N(m) && other < N(m) && other != node
    ensures Closed(r)
    ensures r.up == m.up && r.down == m.down && r.size == m.size && r.cell == m.cell
    ensures r.left[node] == other && r.right[m.left[node]] == other && r.left[other] == m.left[node]
    ensures m.left[node] != other ==> r.right[other] == node
    ensures forall i | 0 <= i < N(m) && i != other && i != m.left[node] :: r.right[i] == m.right[i]
    ensures forall i | 0 <= i < N(m) && i != other && i != node :: r.left[i] == m.left[i]
  {
    var m1 := m.(right := m.right[other := node]);
    var m2 := m1.(left := m1.left[other := m1.left[node]]);
    var m3 := m2.(right := m2.right[m2.left[node] := other]);
    m3.(left := m3.left[node := other])
  }

  /** `unlink_ud(node)`: the upper and lower neighbours of an item now point past it and
      its column shrinks by one. The item's own up/down fields are left as they were,
      which is what lets `RelinkUD` put it back. */
  function UnlinkUD<L>(m: Dlx<L>, node: nat): (r: Dlx<L>)
    requires Closed(m) && node < N(m) && m.cell[node].Item?
    ensures Closed(r)
    ensures r.left == m.left && r.right == m.right && r.cell == m.cell
  {
    var m1 := m.(down := m.down[m.up[node] := m.down[node]]);
    var m2 := m1.(up := m1.up[m1.down[node] := m1.up[node]]);
    var h := m2.cell[node].header;
    m2.(size := m2.size[h := m2.size[h] - 1])
  }

  /** What `unlink_ud` changes: the two neighbours of the item and the size of its column. */
  lemma UnlinkUDFrame<L>(m: Dlx<L>, node: nat)
    requires Closed(m) && node < N(m) && m.cell[node].Item?
    ensures UnlinkUD(m, node).down[m.up[node]] == m.down[node] && UnlinkUD(m, node).up[m.down[node]] == m.up[node]
    ensures UnlinkUD(m, node).up[node] == m.up[node] && UnlinkUD(m, node).down[node] == m.down[node]
    ensures forall i | 0 <= i < N(m) && i != m.up[node] :: UnlinkUD(m, node).down[i] == m.down[i]
    ensures forall i | 0 <= i < N(m) && i != m.down[node] :: UnlinkUD(m, node).up[i] == m.up[i]
    ensures UnlinkUD(m, node).size == m.size[Hd(m, node) := m.size[Hd(m, node)] - 1]
  {
  }

  /** `relink_ud(node)`: the neighbours recorded in the item's own fields point back to
      it, and its column grows by one. */
  function RelinkUD<L>(m: Dlx<L>, node: nat): (r: Dlx<L>)
    requires Closed(m) && node < N(m) && m.cell[node].Item?
    ensures Closed(r)
    ensures r.left == m.left && r.right == m.right && r.cell == m.cell
  {
    var m1 := m.(down := m.down[m.up[node] := node]);
    var m2 := m1.(up := m1.up[m1.down[node] := node]);
    var h := m2.cell[node].header;
    m2.(size := m2.size[h := m2.size[h] + 1])
  }

  /** What `relink_ud` changes: the two neighbours of the item and the size of its column. */
  lemma RelinkUDFrame<L>(m: Dlx<L>, node: nat)
    requires Closed(m) && node < N(m) && m.cell[node].Item?
    ensures RelinkUD(m, node).down[m.up[node]] == node && (m.up[node] != node ==> RelinkUD(m, node).up[m.down[node]] == node)
    ensures forall i | 0 <= i < N(m) && i != m.up[node] :: RelinkUD(m, node).down[i] == m.down[i]
    ensures forall i | 0 <= i < N(m) && i != m.down[node] && i != node :: RelinkUD(m, node).up[i] == m.up[i]
    ensures RelinkUD(m, node).size == m.size[Hd(m, node) := m.size[Hd(m, node)] + 1]
  {
  }

  /** `unlink_lr(node)`: the left and right neighbours of a header point past it; the
      header's own left/right fields are left as they were. */
  function UnlinkLR<L>(m: Dlx<L>, node: nat): (r: Dlx<L>)
    requires Closed(m) && node < N(m)
    ensures Closed(r)
    ensures r.up == m.up && r.down == m.down && r.size == m.size && r.cell == m.cell
  {
    var m1 := m.(right := m.right[m.left[node] := m.right[node]]);
    m1.(left := m1.left[m1.right[node] := m1.left[node]])
  }

  /** What `unlink_lr` changes: the two neighbours of the header. */
  lemma UnlinkLRFrame<L>(m: Dlx<L>, node: nat)
    requires Closed(m) && node < N(m)
    ensures UnlinkLR(m, node).right[m.left[node]] == m.right[node] && UnlinkLR(m, node).left[m.right[node]] == m.left[node]
    ensures UnlinkLR(m, node).left[node] == m.left[node] && UnlinkLR(m, node).right[node] == m.right[node]
    ensures forall i | 0 <= i < N(m) && i != m.left[node] :: UnlinkLR(m, node).right[i] == m.right[i]
    ensures forall i | 0 <= i < N(m) && i != m.right[node] :: UnlinkLR(m, node).left[i] == m.left[i]
  {
  }

  /** `relink_lr(node)`: the neighbours recorded in the header's own fields point back to it. */
  function RelinkLR<L>(m: Dlx<L>, node: nat): (r: Dlx<L>)
    requires Closed(m) && node < N(m)
    ensures Closed(r)
    ensures r.up == m.up && r.down == m.down && r.size == m.size && r.cell == m.cell
  {
    var m1 := m.(right := m.right[m.left[node] := node]);
    m1.(left := m1.left[m1.right[node] := node])
  }

  /** What `relink_lr` changes: the two neighbours of the header. */
  lemma RelinkLRFrame<L>(m: Dlx<L>, node: nat)
    requires Closed(m) && node < N(m)
    ensures RelinkLR(m, node).right[m.left[node]] == node && (m.left[node] != node ==> RelinkLR(m, node).left[m.right[node]] == node)
    ensures forall i | 0 <= i < N(m) && i != m.left[node] :: RelinkLR(m, node).right[i] == m.right[i]
    ensures forall i | 0 <= i < N(m) && i != m.right[node] && i != node :: RelinkLR(m, node).left[i] == m.left[i]
  {
  }

  /** A node is vertically in place when both neighbours point back to it. */
  ghost predicate InPlaceUD<L>(m: Dlx<L>, x: nat)
    requires Closed(m) && x < N(m)
  {
    m.down[m.up[x]] == x && m.up[m.down[x]] == x
  }

  /** A node is vertically detached when its neighbours are other nodes and point to each
      other past it. */
  ghost predicate DetachedUD<L>(m: Dlx<L>, x: nat)
    requires Closed(m) && x < N(m)
  {
    m.up[x] != x && m.down[x] != x && m.down[m.up[x]] == m.down[x] && m.up[m.down[x]] == m.up[x]
  }

  ghost predicate InPlaceLR<L>(m: Dlx<L>, x: nat)
    requires Closed(m) && x < N(m)
  {
    m.right[m.left[x]] == x && m.left[m.right[x]] == x
  }

  ghost predicate DetachedLR<L>(m: Dlx<L>, x: nat)
    requires Closed(m) && x < N(m)
  {
    m.left[x] != x && m.right[x] != x && m.right[m.left[x]] == m.right[x] && m.left[m.right[x]] == m.left[x]
  }

  /** `relink_ud` undoes `unlink_ud` exactly, pointers and column size alike, for any item
      whose neighbours pointed back to it. */
  lemma RelinkUnlinkUD<L>(m: Dlx<L>, x: nat)
    requires Closed(m) && x < N(m) && m.cell[x].Item? && InPlaceUD(m, x)
    ensures RelinkUD(UnlinkUD(m, x), x) == m
  {
    var r := RelinkUD(UnlinkUD(m, x), x);
    assert forall i | 0 <= i < N(m) :: r.down[i] == m.down[i];
    assert forall i | 0 <= i < N(m) :: r.up[i] == m.up[i];
  }

  /** Conversely `unlink_ud` undoes `relink_ud` for an item that was detached. */
  lemma UnlinkRelinkUD<L>(m: Dlx<L>, x: nat)
    requires Closed(m) && x < N(m) && m.cell[x].Item? && DetachedUD(m, x)
    ensures UnlinkUD(RelinkUD(m, x), x) == m
  {
    var r := UnlinkUD(RelinkUD(m, x), x);
    assert forall i | 0 <= i < N(m) :: r.down[i] == m.down[i];
    assert forall i | 0 <= i < N(m) :: r.up[i] == m.up[i];
  }

  /** After `unlink_ud` an item that was not alone in its cycle is detached, so the two
      operations swap the item between the two states. */
  lemma UnlinkDetachesUD<L>(m: Dlx<L>, x: nat)
    requires Closed(m) && x < N(m) && m.cell[x].Item? && InPlaceUD(m, x) && m.up[x] != x
    ensures DetachedUD(UnlinkUD(m, x), x)
    ensures InPlaceUD(RelinkUD(UnlinkUD(m, x), x), x)
  {
    RelinkUnlinkUD(m, x);
  }

  /** When the item is not its own upper neighbour, the two sequential writes of
      `unlink_ud` are the textbook splice of both pointer arrays. */
  lemma UnlinkUDSplice<L>(m: Dlx<L>, x: nat)
    requires Closed(m) && x < N(m) && m.cell[x].Item? && m.up[x] != x
    ensures UnlinkUD(m, x).down == m.down[m.up[x] := m.down[x]]
    ensures UnlinkUD(m, x).up == m.up[m.down[x] := m.up[x]]
  {
  }

  lemma RelinkUnlinkLR<L>(m: Dlx<L>, x: nat)
    requires Closed(m) && x < N(m) && InPlaceLR(m, x)
    ensures RelinkLR(UnlinkLR(m, x), x) == m
  {
    var r := RelinkLR(UnlinkLR(m, x), x);
    assert forall i | 0 <= i < N(m) :: r.right[i] == m.right[i];
    assert forall i | 0 <= i < N(m) :: r.left[i] == m.left[i];
  }

  lemma UnlinkRelinkLR<L>(m: Dlx<L>, x: nat)
    requires Closed(m) && x < N(m) && DetachedLR(m, x)
    ensures UnlinkLR(RelinkLR(m, x), x) == m
  {
    var r := UnlinkLR(RelinkLR(m, x), x);
    assert forall i | 0 <= i < N(m) :: r.right[i] == m.right[i];
    assert forall i | 0 <= i < N(m) :: r.left[i] == m.left[i];
  }

  /** Every entry of a pointer field names a node. */
  ghost predicate Pointers(next: seq<nat>) {
    forall i | 0 <= i < |next| :: next[i] < |next|
  }

  /** The generator `iter(dir, start)` resumed at `cur`: it yields `cur`, moves to
      `next[cur]`, and stops as soon as it is back at `start`. A walk that has not closed
      after `fuel` yields is reported as `None` (the generator would run forever). */
  function Walk(next: seq<nat>, start: nat, cur: nat, fuel: nat): (r: Option<seq<nat>>)
    requires Pointers(next) && start < |next| && cur < |next|
    ensures r.Some? ==> 0 < |r.value| <= fuel && r.value[0] == cur
    ensures r.Some? ==> forall i | 0 <= i < |r.value| :: r.value[i] < |next|
    ensures r.Some? ==> forall i | 0 <= i < |r.value| - 1 :: next[r.value[i]] == r.value[i + 1]
    ensures r.Some? ==> next[r.value[|r.value| - 1]] == start
    ensures r.Some? ==> forall i | 1 <= i < |r.value| :: r.value[i] != start
    decreases fuel
  {
    if fuel == 0 then None
    else if next[cur] == start then Some([cur])
    else
      match Walk(next, start, next[cur], fuel - 1)
      case None => None
      case Some(rest) => Some([cur] + rest)
  }

  /** `iter(dir, start)`: the nodes met from `start` following `next` until the cycle
      closes, `start` first; at most `|next|` of them. */
  function Iter(next: seq<nat>, start: nat): (r: Option<seq<nat>>)
    requires Pointers(next) && start < |next|
    ensures r.Some? ==> 0 < |r.value| <= |next| && r.value[0] == start
    ensures r.Some? ==> forall i | 0 <= i < |r.value| :: r.value[i] < |next|
    ensures r.Some? ==> forall i | 0 <= i < |r.value| - 1 :: next[r.value[i]] == r.value[i + 1]
    ensures r.Some? ==> next[r.value[|r.value| - 1]] == start
    ensures r.Some? ==> forall i | 1 <= i < |r.value| :: r.value[i] != start
  {
    Walk(next, start, start, |next|)
  }

  /** `skip(n, it)`: the iterator advanced past its first `n` values. */
  function Skip(n: nat, xs: seq<nat>): (r: seq<nat>)
    ensures |r| == if n <= |xs| then |xs| - n else 0
    ensures forall i | 0 <= i < |r| :: r[i] == xs[n + i]
  {
    if n <= |xs| then xs[n..] else []
  }
}
