/** Why `create_dlx` builds a well-formed matrix: each of its steps keeps the shape
    invariant, with nothing covered, for a `Base` that grows along with the arena. A new
    header joins the end of the root ring with an empty column; a new node joins the end
    of its row and the bottom of its column. */
module BuildSteps {
  import opened Links
  import opened Cycles
  import opened Structure
  import opened Builder

  /** The shape invariant with nothing covered, stated on the full lists. */
  ghost predicate Whole<L>(m: Dlx<L>, B: Base) {
    && Closed(m) && BaseOK(B, m.cell)
    && Linked(m.right, m.left, [Root] + B.ring)
    && ColumnsWhole(m, B)
    && SizesWhole(m, B)
    && RowsOK(m, B)
  }

  /** Every column size counts all the items of its column. */
  ghost predicate SizesWhole<L>(m: Dlx<L>, B: Base) {
    forall h | h in B.cols :: h < |m.size| && m.size[h] == |B.cols[h]|
  }

  /** Every column is the cycle of its header and all its items. */
  ghost predicate ColumnsWhole<L>(m: Dlx<L>, B: Base) {
    forall h | h in B.cols :: Linked(m.down, m.up, [h] + B.cols[h])
  }

  /** The base of the root alone. */
  function NoBase(): Base {
    Base([], map[], [], map[])
  }

  /** The first node of a row, if it has one. */
  function RowHead(row: seq<nat>): (r: Option<nat>)
    ensures r.Some? <==> row != []
    ensures r.Some? ==> r.value == row[0]
  {
    if row == [] then None else Some(row[0])
  }

  /** The base after a new header `c`: the end of the ring, with an empty column. */
  function WithHeader(B: Base, c: nat): Base {
    B.(ring := B.ring + [c], cols := B.cols[c := []])
  }

  /** The base after a new node `x` of column `c` at the end of row `i`. */
  function WithNode(B: Base, c: nat, i: nat, x: nat): Base
    requires c in B.cols && i < |B.rows|
  {
    B.(cols := B.cols[c := B.cols[c] + [x]], rows := B.rows[i := B.rows[i] + [x]], rowOf := B.rowOf[x := i])
  }

  /** With nothing covered, the invariant is the search's shape invariant. */
  lemma WholeStruct<L>(m: Dlx<L>, B: Base)
    requires Whole(m, B)
    ensures Struct(m, B, {}, {})
  {
    WithoutNone(B.ring);
    forall h | h in B.cols
      ensures Linked(m.down, m.up, ColList(B, h, {}))
    {
      WithoutNone(B.cols[h]);
    }
    forall h | h in B.cols
      ensures m.size[h] == |Without(B.cols[h], {})|
    {
      WithoutNone(B.cols[h]);
    }
  }

  /** The root alone is a whole matrix with no column. */
  lemma StartWhole<L, E>()
    ensures Whole(Start<L, E>().m, NoBase())
  {
    var m := Start<L, E>().m;
    LinkedSingle(m.right, m.left, Root);
    assert [Root] + NoBase().ring == [Root];
  }

  /** A fresh header inserted left of the root. */
  function NewHeader<L>(m: Dlx<L>): (r: Dlx<L>)
    requires Closed(m) && 0 < N(m)
    ensures Closed(r) && N(r) == N(m) + 1
  {
    InsertLeft(CreateHeader(m).0, Root, N(m))
  }

  /** The horizontal fields after `NewHeader`: the old nodes keep theirs, except that the
      root and its former left neighbour now point to the new header. */
  lemma NewHeaderLR<L>(m: Dlx<L>)
    requires Closed(m) && 0 < N(m)
    ensures var r := NewHeader(m); var c := N(m);
            && r.right[m.left[Root]] == c && r.right[c] == Root && r.left[Root] == c && r.left[c] == m.left[Root]
            && (forall i | 0 <= i < c && i != m.left[Root] :: r.right[i] == m.right[i])
            && (forall i | 0 < i < c :: r.left[i] == m.left[i])
  {
    var (m1, c) := CreateHeader(m);
    assert m1.left[Root] == m.left[Root] && m1.left[c] == c;
    assert forall i | 0 <= i < c :: m1.right[i] == m.right[i] && m1.left[i] == m.left[i];
  }

  /** The vertical fields and the sizes after `NewHeader`: the new header is a column of
      its own, with size 0, and nothing else changes. */
  lemma NewHeaderUD<L>(m: Dlx<L>)
    requires Closed(m) && 0 < N(m)
    ensures var r := NewHeader(m); var c := N(m);
            && r.cell == m.cell + [Head] && r.size == m.size + [0]
            && r.up[c] == c && r.down[c] == c
            && (forall i | 0 <= i < c :: r.up[i] == m.up[i] && r.down[i] == m.down[i])
  {
    var (m1, c) := CreateHeader(m);
    assert forall i | 0 <= i < c :: m1.up[i] == m.up[i] && m1.down[i] == m.down[i];
  }

  /** The last member of the root ring is the root or a header. */
  lemma RingLast<L>(m: Dlx<L>, B: Base)
    requires Closed(m) && BaseOK(B, m.cell) && Linked(m.right, m.left, [Root] + B.ring)
    ensures m.left[Root] == Last([Root] + B.ring) && m.left[Root] < N(m) && m.cell[m.left[Root]] == Head
  {
    if B.ring != [] {
      assert Last([Root] + B.ring) == B.ring[|B.ring| - 1];
    }
  }

  lemma HeaderBase<L>(B: Base, cell: seq<Cell<L>>)
    requires BaseOK(B, cell)
    ensures BaseOK(WithHeader(B, |cell|), cell + [Head])
  {
    var c := |cell|;
    var cell' := cell + [Head];
    var B' := WithHeader(B, c);
    assert forall k | 0 <= k < c :: cell'[k] == cell[k];
    assert c !in B.ring;
    assert Distinct(B'.ring);
    forall i | 0 <= i < |B'.ring|
      ensures B'.ring[i] < |cell'| && cell'[B'.ring[i]] == Head && B'.ring[i] in B'.cols
    {
      if i < |B.ring| {
        assert B'.ring[i] == B.ring[i];
      }
    }
    forall h | h in B'.cols
      ensures h in B'.ring && Distinct(B'.cols[h])
    {
    }
    forall x | 0 <= x < |cell'| && cell'[x].Item?
      ensures cell'[x].header in B'.cols && x in B'.cols[cell'[x].header]
    {
      assert cell[x].Item?;
    }
    forall i, a, b | 0 <= i < |B.rows| && 0 <= a < b < |B.rows[i]|
      ensures HdOf(cell', B.rows[i][a]) != HdOf(cell', B.rows[i][b])
    {
      assert HdOf(cell, B.rows[i][a]) != HdOf(cell, B.rows[i][b]);
    }
  }

  lemma HeaderRing<L>(m: Dlx<L>, B: Base)
    requires Closed(m) && BaseOK(B, m.cell) && Linked(m.right, m.left, [Root] + B.ring)
    ensures Linked(NewHeader(m).right, NewHeader(m).left, [Root] + (B.ring + [N(m)]))
  {
    var r := NewHeader(m);
    var xs := [Root] + B.ring;
    NewHeaderLR(m);
    RingLast(m, B);
    assert N(m) !in xs;
    assert [Root] + (B.ring + [N(m)]) == xs + [N(m)];
    LinkedAppend(m.right, m.left, xs, N(m), r.right, r.left);
  }

  lemma HeaderCols<L>(m: Dlx<L>, B: Base)
    requires Closed(m) && BaseOK(B, m.cell) && ColumnsWhole(m, B)
    ensures ColumnsWhole(NewHeader(m), WithHeader(B, N(m)))
  {
    var r := NewHeader(m);
    var c := N(m);
    NewHeaderUD(m);
    forall h | h in WithHeader(B, c).cols
      ensures Linked(r.down, r.up, [h] + WithHeader(B, c).cols[h])
    {
      if h == c {
        LinkedSingle(r.down, r.up, c);
        assert [h] + WithHeader(B, c).cols[h] == [c];
      } else {
        LinkedFrame(m.down, m.up, [h] + B.cols[h], r.down, r.up);
      }
    }
  }

  /** Rows keep their cycles when no item changes its horizontal fields. */
  lemma RowsFrame<L>(m: Dlx<L>, B: Base, right: seq<nat>, left: seq<nat>)
    requires Closed(m) && BaseOK(B, m.cell) && RowsOK(m, B)
    requires |right| >= N(m) && |left| >= N(m)
    requires forall x | 0 <= x < N(m) && m.cell[x].Item? :: right[x] == m.right[x] && left[x] == m.left[x]
    ensures RowsOK(m.(right := right, left := left), B)
  {
    forall i | 0 <= i < |B.rows| && |B.rows[i]| > 0
      ensures Linked(right, left, B.rows[i])
    {
      LinkedFrame(m.right, m.left, B.rows[i], right, left);
    }
  }

  lemma HeaderRows<L>(m: Dlx<L>, B: Base)
    requires Closed(m) && BaseOK(B, m.cell) && RowsOK(m, B) && Linked(m.right, m.left, [Root] + B.ring)
    ensures RowsOK(NewHeader(m), B)
  {
    var r := NewHeader(m);
    NewHeaderLR(m);
    RingLast(m, B);
    RowsFrame(m, B, r.right, r.left);
    assert r == r.(right := r.right, left := r.left);
  }
  lemma HeaderSizes<L>(m: Dlx<L>, B: Base)
    requires Closed(m) && 0 < N(m) && SizesWhole(m, B)
    ensures SizesWhole(NewHeader(m), WithHeader(B, N(m)))
  {
    NewHeaderUD(m);
  }

  /** A new header keeps the invariant, for the base with the header at the end of the ring
      and an empty column. */
  lemma HeaderWhole<L>(m: Dlx<L>, B: Base)
    requires Whole(m, B)
    ensures Whole(NewHeader(m), WithHeader(B, N(m)))
    ensures NewHeader(m).cell == m.cell + [Head]
  {
    NewHeaderUD(m);
    HeaderBase(B, m.cell);
    HeaderRing(m, B);
    HeaderCols(m, B);
    HeaderRows(m, B);
    HeaderSizes(m, B);
    assert [Root] + WithHeader(B, N(m)).ring == [Root] + (B.ring + [N(m)]);
  }

  /** A fresh node of column `c` in the row whose first node is `rowHead`: lines 156-165. */
  function NewNode<L>(m: Dlx<L>, c: nat, rowLabel: L, rowHead: Option<nat>): (r: Dlx<L>)
    requires Closed(m) && c < N(m) && (rowHead.Some? ==> rowHead.value < N(m))
    ensures Closed(r) && N(r) == N(m) + 1
  {
    Place(CreateNode(m, c, rowLabel).0, rowHead, c, N(m))
  }

  /** The horizontal fields after `NewNode` when the node starts its row. */
  lemma NewNodeAlone<L>(m: Dlx<L>, c: nat, rowLabel: L)
    requires Closed(m) && c < N(m)
    ensures var r := NewNode(m, c, rowLabel, None); var x := N(m);
            && r.right[x] == x && r.left[x] == x
            && (forall i | 0 <= i < x :: r.right[i] == m.right[i] && r.left[i] == m.left[i])
  {
    var (m2, x) := CreateNode(m, c, rowLabel);
    assert forall i | 0 <= i < x :: m2.right[i] == m.right[i] && m2.left[i] == m.left[i];
  }

  /** The horizontal fields after `NewNode` when the row has a first node `h0`: the node
      goes between the row's last node and `h0`. */
  lemma NewNodeJoins<L>(m: Dlx<L>, c: nat, rowLabel: L, h0: nat)
    requires Closed(m) && c < N(m) && h0 < N(m)
    ensures var r := NewNode(m, c, rowLabel, Some(h0)); var x := N(m);
            && r.left[h0] == x && r.right[m.left[h0]] == x && r.left[x] == m.left[h0] && r.right[x] == h0
            && (forall i | 0 <= i < x && i != m.left[h0] :: r.right[i] == m.right[i])
            && (forall i | 0 <= i < x && i != h0 :: r.left[i] == m.left[i])
  {
    var (m2, x) := CreateNode(m, c, rowLabel);
    assert m2.left[h0] == m.left[h0];
    assert forall i | 0 <= i < x :: m2.right[i] == m.right[i] && m2.left[i] == m.left[i];
  }

  /** `JoinColumn` puts `x` between the bottom node of column `c` and its header, and
      counts it. */
  lemma JoinColumnFields<L>(m: Dlx<L>, c: nat, x: nat)
    requires Closed(m) && c < N(m) && x < N(m) && c != x && m.up[c] != x
    ensures var r := JoinColumn(m, c, x);
            && r.cell == m.cell && r.size == m.size[c := m.size[c] + 1]
            && r.up[c] == x && r.down[m.up[c]] == x && r.up[x] == m.up[c] && r.down[x] == c
            && (forall i | 0 <= i < N(m) && i != x && i != m.up[c] :: r.down[i] == m.down[i])
            && (forall i | 0 <= i < N(m) && i != x && i != c :: r.up[i] == m.up[i])
  {
  }

  /** The cells and sizes after `NewNode`: one more item, and column `c` counts one more. */
  lemma NewNodeCells<L>(m: Dlx<L>, c: nat, rowLabel: L, rowHead: Option<nat>)
    requires Closed(m) && c < N(m) && (rowHead.Some? ==> rowHead.value < N(m))
    ensures var r := NewNode(m, c, rowLabel, rowHead);
            r.cell == m.cell + [Item(c, rowLabel)] && r.size == m.size[c := m.size[c] + 1] + [0]
  {
    var (m2, x) := CreateNode(m, c, rowLabel);
    var m3 := JoinRow(m2, rowHead, x);
    assert m3.size == m2.size && m3.cell == m2.cell;
    assert m2.size == m.size + [0];
    assert m2.cell == m.cell + [Item(c, rowLabel)];
  }

  /** The vertical fields after `NewNode`: the node goes between the column's bottom node
      and its header `c`. */
  lemma NewNodeUD<L>(m: Dlx<L>, c: nat, rowLabel: L, rowHead: Option<nat>)
    requires Closed(m) && c < N(m) && (rowHead.Some? ==> rowHead.value < N(m))
    ensures var r := NewNode(m, c, rowLabel, rowHead); var x := N(m);
            && r.up[c] == x && r.down[m.up[c]] == x && r.up[x] == m.up[c] && r.down[x] == c
            && (forall i | 0 <= i < x && i != m.up[c] :: r.down[i] == m.down[i])
            && (forall i | 0 <= i < x && i != c :: r.up[i] == m.up[i])
  {
    var (m2, x) := CreateNode(m, c, rowLabel);
    var m3 := JoinRow(m2, rowHead, x);
    assert m3.up == m2.up && m3.down == m2.down;
    assert forall i | 0 <= i < x :: m3.up[i] == m.up[i] && m3.down[i] == m.down[i];
    JoinColumnFields(m3, c, x);
  }

  /** Column `c` has no item in row `i` yet. */
  ghost predicate Fits<L>(B: Base, cell: seq<Cell<L>>, c: nat, i: nat)
    requires BaseOK(B, cell) && i < |B.rows|
  {
    forall a | 0 <= a < |B.rows[i]| :: HdOf(cell, B.rows[i][a]) != c
  }

  lemma NodeBase<L>(B: Base, cell: seq<Cell<L>>, c: nat, i: nat, rowLabel: L)
    requires BaseOK(B, cell) && c in B.cols && i < |B.rows| && Fits(B, cell, c, i)
    ensures BaseOK(WithNode(B, c, i, |cell|), cell + [Item(c, rowLabel)])
  {
    var x := |cell|;
    var cell' := cell + [Item(c, rowLabel)];
    var B' := WithNode(B, c, i, x);
    assert forall k | 0 <= k < x :: cell'[k] == cell[k];
    RowOfBound(B, cell);
    assert x !in B.cols[c];
    NodeColsBase(B, cell, c, i, rowLabel);
    NodeRowsBase(B, cell, c, i, rowLabel);
  }

  lemma NodeColsBase<L>(B: Base, cell: seq<Cell<L>>, c: nat, i: nat, rowLabel: L)
    requires BaseOK(B, cell) && c in B.cols && i < |B.rows|
    requires |cell| !in B.rowOf && |cell| !in B.cols[c]
    ensures var x := |cell|; var cell' := cell + [Item(c, rowLabel)]; var B' := WithNode(B, c, i, x);
            && (forall h | h in B'.cols :: h in B'.ring && Distinct(B'.cols[h]))
            && (forall h, a | h in B'.cols && 0 <= a < |B'.cols[h]| ::
                  B'.cols[h][a] < |cell'| && cell'[B'.cols[h][a]].Item? && cell'[B'.cols[h][a]].header == h
                  && B'.cols[h][a] in B'.rowOf)
            && (forall y | 0 <= y < |cell'| && cell'[y].Item? ::
                  cell'[y].header in B'.cols && y in B'.cols[cell'[y].header])
  {
    var x := |cell|;
    var cell' := cell + [Item(c, rowLabel)];
    var B' := WithNode(B, c, i, x);
    assert forall k | 0 <= k < x :: cell'[k] == cell[k];
    forall h, a | h in B'.cols && 0 <= a < |B'.cols[h]|
      ensures B'.cols[h][a] < |cell'| && cell'[B'.cols[h][a]].Item? && cell'[B'.cols[h][a]].header == h
              && B'.cols[h][a] in B'.rowOf
    {
      if h != c || a < |B.cols[c]| {
        assert B'.cols[h][a] == B.cols[h][a];
      }
    }
    forall y | 0 <= y < |cell'| && cell'[y].Item?
      ensures cell'[y].header in B'.cols && y in B'.cols[cell'[y].header]
    {
      if y < x {
        assert cell[y].Item?;
      }
    }
  }

  /** Every node on a row is a node of the arena. */
  lemma RowOfBound<L>(B: Base, cell: seq<Cell<L>>)
    requires BaseOK(B, cell)
    ensures forall y | y in B.rowOf :: y < |cell|
  {
    forall y | y in B.rowOf
      ensures y < |cell|
    {
      var j := B.rowOf[y];
      var a :| 0 <= a < |B.rows[j]| && B.rows[j][a] == y;
    }
  }

  lemma NodeRowsBase<L>(B: Base, cell: seq<Cell<L>>, c: nat, i: nat, rowLabel: L)
    requires BaseOK(B, cell) && c in B.cols && i < |B.rows| && Fits(B, cell, c, i)
    requires |cell| !in B.rowOf
    ensures var x := |cell|; var cell' := cell + [Item(c, rowLabel)]; var B' := WithNode(B, c, i, x);
            && (forall j, a | 0 <= j < |B'.rows| && 0 <= a < |B'.rows[j]| ::
                  B'.rows[j][a] < |cell'| && cell'[B'.rows[j][a]].Item? && B'.rows[j][a] in B'.rowOf
                  && B'.rowOf[B'.rows[j][a]] == j)
            && (forall j, a, b | 0 <= j < |B'.rows| && 0 <= a < b < |B'.rows[j]| ::
                  HdOf(cell', B'.rows[j][a]) != HdOf(cell', B'.rows[j][b]))
            && (forall y | y in B'.rowOf :: B'.rowOf[y] < |B'.rows| && y in B'.rows[B'.rowOf[y]])
  {
    NodeRowMembers(B, cell, c, i, rowLabel);
    NodeRowHeads(B, cell, c, i, rowLabel);
    NodeRowOf(B, c, i, |cell|);
  }

  lemma NodeRowMembers<L>(B: Base, cell: seq<Cell<L>>, c: nat, i: nat, rowLabel: L)
    requires BaseOK(B, cell) && c in B.cols && i < |B.rows|
    requires |cell| !in B.rowOf
    ensures var x := |cell|; var cell' := cell + [Item(c, rowLabel)]; var B' := WithNode(B, c, i, x);
            forall j, a | 0 <= j < |B'.rows| && 0 <= a < |B'.rows[j]| ::
              B'.rows[j][a] < |cell'| && cell'[B'.rows[j][a]].Item? && B'.rows[j][a] in B'.rowOf
              && B'.rowOf[B'.rows[j][a]] == j
  {
    var x := |cell|;
    var cell' := cell + [Item(c, rowLabel)];
    var B' := WithNode(B, c, i, x);
    forall j, a | 0 <= j < |B'.rows| && 0 <= a < |B'.rows[j]|
      ensures B'.rows[j][a] < |cell'| && cell'[B'.rows[j][a]].Item? && B'.rows[j][a] in B'.rowOf
              && B'.rowOf[B'.rows[j][a]] == j
    {
      if j != i || a < |B.rows[i]| {
        var y := B.rows[j][a];
        assert B'.rows[j][a] == y;
        assert cell'[y] == cell[y];
      }
    }
  }

  lemma NodeRowHeads<L>(B: Base, cell: seq<Cell<L>>, c: nat, i: nat, rowLabel: L)
    requires BaseOK(B, cell) && c in B.cols && i < |B.rows| && Fits(B, cell, c, i)
    ensures var x := |cell|; var cell' := cell + [Item(c, rowLabel)]; var B' := WithNode(B, c, i, x);
            forall j, a, b | 0 <= j < |B'.rows| && 0 <= a < b < |B'.rows[j]| ::
              HdOf(cell', B'.rows[j][a]) != HdOf(cell', B'.rows[j][b])
  {
    var x := |cell|;
    var cell' := cell + [Item(c, rowLabel)];
    var B' := WithNode(B, c, i, x);
    forall j, a, b | 0 <= j < |B'.rows| && 0 <= a < b < |B'.rows[j]|
      ensures HdOf(cell', B'.rows[j][a]) != HdOf(cell', B'.rows[j][b])
    {
      var y := B.rows[j][a];
      assert B'.rows[j][a] == y && cell'[y] == cell[y];
      if j != i || b < |B.rows[i]| {
        var z := B.rows[j][b];
        assert B'.rows[j][b] == z && cell'[z] == cell[z];
        assert HdOf(cell, y) != HdOf(cell, z);
      } else {
        assert HdOf(cell, y) != c;
      }
    }
  }

  lemma NodeRowOf(B: Base, c: nat, i: nat, x: nat)
    requires c in B.cols && i < |B.rows|
    requires forall y | y in B.rowOf :: B.rowOf[y] < |B.rows| && y in B.rows[B.rowOf[y]]
    ensures var B' := WithNode(B, c, i, x);
            forall y | y in B'.rowOf :: B'.rowOf[y] < |B'.rows| && y in B'.rows[B'.rowOf[y]]
  {
    var B' := WithNode(B, c, i, x);
    forall y | y in B'.rowOf
      ensures B'.rowOf[y] < |B'.rows| && y in B'.rows[B'.rowOf[y]]
    {
      if y != x {
        var j := B.rowOf[y];
        var a :| 0 <= a < |B.rows[j]| && B.rows[j][a] == y;
        assert B'.rows[j][a] == y;
      }
    }
  }

  /** Every member of the root ring is the root or a header. */
  lemma RingHeadsAll<L>(m: Dlx<L>, B: Base)
    requires BaseOK(B, m.cell)
    ensures forall k | 0 <= k < |[Root] + B.ring| :: ([Root] + B.ring)[k] < N(m) && m.cell[([Root] + B.ring)[k]] == Head
  {
    forall k | 0 <= k < |[Root] + B.ring|
      ensures ([Root] + B.ring)[k] < N(m) && m.cell[([Root] + B.ring)[k]] == Head
    {
      if k > 0 {
        assert ([Root] + B.ring)[k] == B.ring[k - 1];
      }
    }
  }

  /** The first and the last node of a nonempty row are items of that row. */
  lemma RowEnds<L>(m: Dlx<L>, B: Base, i: nat)
    requires Closed(m) && BaseOK(B, m.cell) && RowsOK(m, B) && i < |B.rows| && B.rows[i] != []
    ensures var h0 := B.rows[i][0];
            && m.left[h0] == Last(B.rows[i]) && m.cell[h0].Item? && m.cell[m.left[h0]].Item?
            && B.rowOf[h0] == i && m.left[h0] in B.rowOf && B.rowOf[m.left[h0]] == i
  {
  }

  lemma NodeRing<L>(m: Dlx<L>, B: Base, c: nat, i: nat, rowLabel: L)
    requires Closed(m) && BaseOK(B, m.cell) && RowsOK(m, B) && Linked(m.right, m.left, [Root] + B.ring)
    requires c in B.cols && i < |B.rows|
    ensures var r := NewNode(m, c, rowLabel, RowHead(B.rows[i]));
            Linked(r.right, r.left, [Root] + B.ring)
  {
    var r := NewNode(m, c, rowLabel, RowHead(B.rows[i]));
    RingHeadsAll(m, B);
    if B.rows[i] == [] {
      NewNodeAlone(m, c, rowLabel);
    } else {
      NewNodeJoins(m, c, rowLabel, B.rows[i][0]);
      RowEnds(m, B, i);
    }
    LinkedFrame(m.right, m.left, [Root] + B.ring, r.right, r.left);
  }

  /** A cycle over the nodes below `x` grows by `x` at its end when the pointers that
      change are exactly those of its last and first members and of `x`. */
  lemma LinkedGrow(next: seq<nat>, prev: seq<nat>, xs: seq<nat>, x: nat, next': seq<nat>, prev': seq<nat>)
    requires Linked(next, prev, xs) && |next| == x && |prev| == x && |next'| > x && |prev'| > x
    requires next'[Last(xs)] == x && next'[x] == xs[0] && prev'[xs[0]] == x && prev'[x] == Last(xs)
    requires forall i | 0 <= i < x && i != Last(xs) :: next'[i] == next[i]
    requires forall i | 0 <= i < x && i != xs[0] :: prev'[i] == prev[i]
    ensures Linked(next', prev', xs + [x])
  {
    assert x !in xs;
    LinkedAppend(next, prev, xs, x, next', prev');
  }

  /** A cycle over the nodes below `x` is kept when the pointers that change are those of
      nodes outside it. */
  lemma LinkedKeep(next: seq<nat>, prev: seq<nat>, xs: seq<nat>, x: nat, next': seq<nat>, prev': seq<nat>, a: nat, b: nat)
    requires Linked(next, prev, xs) && |next| == x && |prev| == x && |next'| >= x && |prev'| >= x
    requires a !in xs && b !in xs
    requires forall i | 0 <= i < x && i != a :: next'[i] == next[i]
    requires forall i | 0 <= i < x && i != b :: prev'[i] == prev[i]
    ensures Linked(next', prev', xs)
  {
    LinkedFrame(next, prev, xs, next', prev');
  }

  lemma NodeColumn<L>(m: Dlx<L>, c: nat, rowLabel: L, rowHead: Option<nat>, col: seq<nat>)
    requires Closed(m) && c < N(m) && (rowHead.Some? ==> rowHead.value < N(m))
    requires Linked(m.down, m.up, [c] + col)
    ensures var r := NewNode(m, c, rowLabel, rowHead);
            Linked(r.down, r.up, [c] + (col + [N(m)]))
  {
    var r := NewNode(m, c, rowLabel, rowHead);
    var xs := [c] + col;
    NewNodeUD(m, c, rowLabel, rowHead);
    assert [c] + (col + [N(m)]) == xs + [N(m)];
    LinkedGrow(m.down, m.up, xs, N(m), r.down, r.up);
  }

  /** Neither header `c` nor the bottom node of its column is on another column. */
  lemma OtherColumnApart<L>(m: Dlx<L>, B: Base, c: nat, h: nat)
    requires Closed(m) && BaseOK(B, m.cell) && c in B.cols && h in B.cols && h != c
    requires Linked(m.down, m.up, [c] + B.cols[c])
    ensures m.up[c] !in [h] + B.cols[h] && c !in [h] + B.cols[h]
  {
    var u := m.up[c];
    assert u == Last([c] + B.cols[c]);
    assert u == c || (m.cell[u].Item? && m.cell[u].header == c);
  }

  lemma NodeOtherColumn<L>(m: Dlx<L>, B: Base, c: nat, rowLabel: L, rowHead: Option<nat>, h: nat)
    requires Closed(m) && BaseOK(B, m.cell) && c in B.cols && (rowHead.Some? ==> rowHead.value < N(m))
    requires h in B.cols && h != c
    requires Linked(m.down, m.up, [c] + B.cols[c]) && Linked(m.down, m.up, [h] + B.cols[h])
    ensures var r := NewNode(m, c, rowLabel, rowHead);
            Linked(r.down, r.up, [h] + B.cols[h])
  {
    var r := NewNode(m, c, rowLabel, rowHead);
    NewNodeUD(m, c, rowLabel, rowHead);
    OtherColumnApart(m, B, c, h);
    LinkedKeep(m.down, m.up, [h] + B.cols[h], N(m), r.down, r.up, m.up[c], c);
  }

  lemma NodeColumns<L>(m: Dlx<L>, B: Base, c: nat, i: nat, rowLabel: L, rowHead: Option<nat>)
    requires Closed(m) && BaseOK(B, m.cell) && ColumnsWhole(m, B) && c in B.cols && i < |B.rows|
    requires rowHead.Some? ==> rowHead.value < N(m)
    ensures ColumnsWhole(NewNode(m, c, rowLabel, rowHead), WithNode(B, c, i, N(m)))
  {
    var r := NewNode(m, c, rowLabel, rowHead);
    var B' := WithNode(B, c, i, N(m));
    assert Linked(m.down, m.up, [c] + B.cols[c]);
    forall h | h in B'.cols
      ensures Linked(r.down, r.up, [h] + B'.cols[h])
    {
      if h == c {
        NodeColumn(m, c, rowLabel, rowHead, B.cols[c]);
        assert B'.cols[h] == B.cols[c] + [N(m)];
      } else {
        NodeOtherColumn(m, B, c, rowLabel, rowHead, h);
      }
    }
  }

  lemma NodeSizes<L>(m: Dlx<L>, B: Base, c: nat, i: nat, rowLabel: L, rowHead: Option<nat>)
    requires Closed(m) && SizesWhole(m, B) && c in B.cols && c < N(m) && i < |B.rows|
    requires rowHead.Some? ==> rowHead.value < N(m)
    ensures SizesWhole(NewNode(m, c, rowLabel, rowHead), WithNode(B, c, i, N(m)))
  {
    NewNodeCells(m, c, rowLabel, rowHead);
  }

  lemma NodeRow<L>(m: Dlx<L>, c: nat, rowLabel: L, row: seq<nat>)
    requires Closed(m) && c < N(m) && (row != [] ==> Linked(m.right, m.left, row))
    ensures var r := NewNode(m, c, rowLabel, RowHead(row));
            Linked(r.right, r.left, row + [N(m)])
  {
    var r := NewNode(m, c, rowLabel, RowHead(row));
    if row == [] {
      NewNodeAlone(m, c, rowLabel);
      LinkedSingle(r.right, r.left, N(m));
      assert row + [N(m)] == [N(m)];
    } else {
      NewNodeJoins(m, c, rowLabel, row[0]);
      LinkedGrow(m.right, m.left, row, N(m), r.right, r.left);
    }
  }

  /** The ends of row `i` are on no other row. */
  lemma RowApart<L>(m: Dlx<L>, B: Base, i: nat, j: nat)
    requires Closed(m) && BaseOK(B, m.cell) && RowsOK(m, B) && i < |B.rows| && B.rows[i] != []
    requires j < |B.rows| && j != i
    ensures B.rows[i][0] !in B.rows[j] && m.left[B.rows[i][0]] !in B.rows[j]
  {
    RowEnds(m, B, i);
  }

  /** A cycle of old nodes that is not the new node's row keeps its horizontal links. */
  lemma NodeOtherRow<L>(m: Dlx<L>, c: nat, rowLabel: L, rowHead: Option<nat>, other: seq<nat>)
    requires Closed(m) && c < N(m) && (rowHead.Some? ==> rowHead.value < N(m))
    requires Linked(m.right, m.left, other)
    requires rowHead.Some? ==> rowHead.value !in other && m.left[rowHead.value] !in other
    ensures var r := NewNode(m, c, rowLabel, rowHead);
            Linked(r.right, r.left, other)
  {
    var r := NewNode(m, c, rowLabel, rowHead);
    if rowHead.None? {
      NewNodeAlone(m, c, rowLabel);
      LinkedFrame(m.right, m.left, other, r.right, r.left);
    } else {
      var h0 := rowHead.value;
      NewNodeJoins(m, c, rowLabel, h0);
      LinkedKeep(m.right, m.left, other, N(m), r.right, r.left, m.left[h0], h0);
    }
  }

  lemma NodeRows<L>(m: Dlx<L>, B: Base, c: nat, i: nat, rowLabel: L)
    requires Closed(m) && BaseOK(B, m.cell) && RowsOK(m, B) && c in B.cols && i < |B.rows|
    ensures RowsOK(NewNode(m, c, rowLabel, RowHead(B.rows[i])), WithNode(B, c, i, N(m)))
  {
    var r := NewNode(m, c, rowLabel, RowHead(B.rows[i]));
    var B' := WithNode(B, c, i, N(m));
    forall j | 0 <= j < |B'.rows| && |B'.rows[j]| > 0
      ensures Linked(r.right, r.left, B'.rows[j])
    {
      if j == i {
        NodeRow(m, c, rowLabel, B.rows[i]);
      } else {
        if B.rows[i] != [] {
          RowApart(m, B, i, j);
        }
        NodeOtherRow(m, c, rowLabel, RowHead(B.rows[i]), B.rows[j]);
      }
    }
  }

  /** A new node keeps the invariant, for the base with the node at the end of its row and
      of its column, when its column has no item in that row yet. */
  lemma NodeWhole<L>(m: Dlx<L>, B: Base, c: nat, i: nat, rowLabel: L)
    requires Whole(m, B) && c in B.cols && i < |B.rows| && Fits(B, m.cell, c, i)
    ensures Whole(NewNode(m, c, rowLabel, RowHead(B.rows[i])), WithNode(B, c, i, N(m)))
    ensures NewNode(m, c, rowLabel, RowHead(B.rows[i])).cell == m.cell + [Item(c, rowLabel)]
  {
    var rowHead := RowHead(B.rows[i]);
    NewNodeCells(m, c, rowLabel, rowHead);
    NodeBase(B, m.cell, c, i, rowLabel);
    NodeRing(m, B, c, i, rowLabel);
    NodeColumns(m, B, c, i, rowLabel, rowHead);
    NodeSizes(m, B, c, i, rowLabel, rowHead);
    NodeRows(m, B, c, i, rowLabel);
  }
}
