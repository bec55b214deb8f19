/** The innermost loops of `cover` and `uncover`: walking a row from one of its nodes and
    unlinking (or relinking) the others. Up/down updates never move a left/right pointer,
    so the lazy walk visits exactly the rest of the row, and the loop equals the eager
    `UnlinkAll` / `RelinkRev` over that list. */
module RowWalk {
  import opened Links
  import opened Cycles
  import opened Structure
  import opened Engine

  /** `y` is recorded on its row. */
  ghost predicate OnRow(B: Base, y: nat) {
    y in B.rowOf && B.rowOf[y] < |B.rows| && y in B.rows[B.rowOf[y]]
  }

  /** The row of `y` read rightwards from `y`, without `y`: the nodes the row loop of
      `cover` visits. */
  function Mates(B: Base, y: nat): (r: seq<nat>)
    requires OnRow(B, y)
    ensures |r| == |B.rows[B.rowOf[y]]| - 1
  {
    var R := B.rows[B.rowOf[y]];
    Rot(R, IndexOf(R, y))[1..]
  }

  /** Every item is recorded on its row. */
  lemma ItemOnRow<L>(B: Base, cell: seq<Cell<L>>, y: nat)
    requires BaseOK(B, cell) && y < |cell| && cell[y].Item?
    ensures OnRow(B, y)
  {
    var a :| 0 <= a < |B.cols[cell[y].header]| && B.cols[cell[y].header][a] == y;
  }

  /** A row holds no node twice, since its nodes lie in different columns. */
  lemma RowDistinct<L>(B: Base, cell: seq<Cell<L>>, i: nat)
    requires BaseOK(B, cell) && i < |B.rows|
    ensures Distinct(B.rows[i])
  {
    forall a, b | 0 <= a < b < |B.rows[i]|
      ensures B.rows[i][a] != B.rows[i][b]
    {
      assert HdOf(cell, B.rows[i][a]) != HdOf(cell, B.rows[i][b]);
    }
  }

  /** Two different nodes of one column lie on different rows. */
  lemma SameColumnRows<L>(B: Base, cell: seq<Cell<L>>, y: nat, z: nat)
    requires BaseOK(B, cell) && y < |cell| && z < |cell| && cell[y].Item? && cell[z].Item?
    requires y != z && HdOf(cell, y) == HdOf(cell, z)
    ensures OnRow(B, y) && OnRow(B, z) && B.rowOf[y] != B.rowOf[z]
  {
    ItemOnRow(B, cell, y);
    ItemOnRow(B, cell, z);
  }

  /** The mates of `y` are the other nodes of its row, each once, each in another column. */
  lemma MatesFacts<L>(B: Base, cell: seq<Cell<L>>, y: nat)
    requires BaseOK(B, cell) && OnRow(B, y)
    ensures Distinct(Mates(B, y))
    ensures forall k | 0 <= k < |Mates(B, y)| ::
              && Mates(B, y)[k] in B.rows[B.rowOf[y]] && Mates(B, y)[k] != y
              && Mates(B, y)[k] < |cell| && cell[Mates(B, y)[k]].Item?
              && Mates(B, y)[k] in B.rowOf && B.rowOf[Mates(B, y)[k]] == B.rowOf[y]
    ensures y < |cell| && cell[y].Item?
    ensures forall k | 0 <= k < |Mates(B, y)| :: HdOf(cell, Mates(B, y)[k]) != HdOf(cell, y)
  {
    var i := B.rowOf[y];
    var R := B.rows[i];
    var j := IndexOf(R, y);
    var r := Rot(R, j);
    RowDistinct(B, cell, i);
    RotMembers(R, j);
    var ys := Mates(B, y);
    assert ys == r[1..];
    forall k | 0 <= k < |ys|
      ensures ys[k] in R && ys[k] != y
    {
      assert ys[k] == r[k + 1] && r[0] == y;
    }
    forall k | 0 <= k < |ys|
      ensures HdOf(cell, ys[k]) != HdOf(cell, y)
    {
      var a := IndexOf(R, ys[k]);
      if a < j {
        assert HdOf(cell, R[a]) != HdOf(cell, R[j]);
      } else {
        assert HdOf(cell, R[j]) != HdOf(cell, R[a]);
      }
    }
  }

  /** The list walked after `start` when `next` is followed: `xs` rotated to `start` is a
      cycle, so its tail leads from `next[start]` back round to `start`. */
  lemma TailWalk(next: seq<nat>, prev: seq<nat>, xs: seq<nat>)
    requires Linked(next, prev, xs)
    ensures forall k | 0 <= k < |xs[1..]| :: xs[1..][k] != xs[0]
    ensures forall k | 0 <= k < |xs[1..]| - 1 :: next[xs[1..][k]] == xs[1..][k + 1]
    ensures forall k | 0 < k < |xs[1..]| :: prev[xs[1..][k]] == xs[1..][k - 1]
    ensures xs[1..] != [] ==> next[Last(xs[1..])] == xs[0] && prev[xs[1..][0]] == xs[0]
    ensures xs[1..] != [] ==> next[xs[0]] == xs[1..][0] && prev[xs[0]] == Last(xs[1..])
    ensures xs[1..] == [] ==> next[xs[0]] == xs[0] && prev[xs[0]] == xs[0]
  {
    var t := xs[1..];
    forall k | 0 <= k < |t|
      ensures t[k] != xs[0]
    {
      assert t[k] == xs[k + 1];
    }
    forall k | 0 <= k < |t| - 1
      ensures next[t[k]] == t[k + 1]
    {
      assert t[k] == xs[k + 1] && t[k + 1] == xs[k + 2];
    }
    forall k | 0 < k < |t|
      ensures prev[t[k]] == t[k - 1]
    {
      assert t[k] == xs[k + 1] && t[k - 1] == xs[k];
    }
    if t != [] {
      assert Last(t) == Last(xs);
    }
  }

  /** The mates of `y` are walked from `right[y]` round to `y`, and backwards from
      `left[y]`. */
  lemma MatesWalk<L>(m: Dlx<L>, B: Base, y: nat)
    requires Closed(m) && BaseOK(B, m.cell) && OnRow(B, y)
    requires Linked(m.right, m.left, B.rows[B.rowOf[y]])
    ensures y < N(m)
    ensures WalkFrom(m, m.right, y, m.right[y], Mates(B, y))
    ensures WalkBack(m, m.left, y, m.left[y], Mates(B, y))
  {
    var R := B.rows[B.rowOf[y]];
    var xs := Rot(R, IndexOf(R, y));
    MatesFacts(B, m.cell, y);
    LinkedRot(m.right, m.left, R, IndexOf(R, y));
    TailWalk(m.right, m.left, xs);
    assert xs[1..] == Mates(B, y);
  }

  /** `ys` is the list a row loop visits from `cur` following `next` until it is back at
      `start`: items, none of them `start`, each the `next` of the one before. */
  ghost predicate WalkFrom<L>(m: Dlx<L>, next: seq<nat>, start: nat, cur: nat, ys: seq<nat>) {
    && Closed(m) && start < N(m) && cur < N(m) && |next| == N(m)
    && (forall k | 0 <= k < |ys| :: ys[k] < N(m) && m.cell[ys[k]].Item? && ys[k] != start)
    && (forall k | 0 <= k < |ys| - 1 :: next[ys[k]] == ys[k + 1])
    && (|ys| == 0 ==> cur == start)
    && (|ys| > 0 ==> cur == ys[0] && next[ys[|ys| - 1]] == start)
  }

  lemma WalkFromTail<L>(m: Dlx<L>, next: seq<nat>, start: nat, cur: nat, ys: seq<nat>, m1: Dlx<L>)
    requires WalkFrom(m, next, start, cur, ys) && |ys| > 0
    requires Closed(m1) && m1.cell == m.cell
    ensures WalkFrom(m1, next, start, next[cur], ys[1..])
  {
    var t := ys[1..];
    forall k | 0 <= k < |t|
      ensures t[k] < N(m1) && m1.cell[t[k]].Item? && t[k] != start
    {
      assert t[k] == ys[k + 1];
    }
    forall k | 0 <= k < |t| - 1
      ensures next[t[k]] == t[k + 1]
    {
      assert t[k] == ys[k + 1] && t[k + 1] == ys[k + 2];
    }
    if |t| > 0 {
      assert next[cur] == ys[1] == t[0];
      assert t[|t| - 1] == ys[|ys| - 1];
    }
  }

  /** The row loop of `cover` unlinks `cur` and moves to its right neighbour, which the
      unlink has not moved. */
  lemma UnlinkRowStep<L>(m: Dlx<L>, start: nat, cur: nat, f1: nat)
    requires Closed(m) && start < N(m) && cur < N(m) && cur != start
    requires m.cell[cur].Item?
    ensures UnlinkRow(m, start, cur, f1 + 1) == UnlinkRow(UnlinkUD(m, cur), start, m.right[cur], f1)
  {
  }

  lemma UnlinkAllUnfold<L>(m: Dlx<L>, ys: seq<nat>)
    requires Closed(m) && |ys| > 0 && forall k | 0 <= k < |ys| :: ys[k] < N(m) && m.cell[ys[k]].Item?
    ensures UnlinkAll(m, ys) == UnlinkAll(UnlinkUD(m, ys[0]), ys[1..])
  {
  }

  /** One step of the row loop of `cover`: if the loop resumed after `cur` unlinks the
      rest of the list, the loop at `cur` unlinks all of it. */
  lemma UnlinkRowCons<L>(m: Dlx<L>, start: nat, cur: nat, ys: seq<nat>, fuel: nat, m1: Dlx<L>, f1: nat)
    requires Closed(m) && start < N(m) && cur < N(m) && cur != start && fuel == f1 + 1
    requires |ys| > 0 && ys[0] == cur
    requires forall k | 0 <= k < |ys| :: ys[k] < N(m) && m.cell[ys[k]].Item?
    requires m1 == UnlinkUD(m, cur)
    requires UnlinkRow(m1, start, m.right[cur], f1) == Some(UnlinkAll(m1, ys[1..]))
    ensures UnlinkRow(m, start, cur, fuel) == Some(UnlinkAll(m, ys))
  {
    UnlinkRowStep(m, start, cur, f1);
    UnlinkAllUnfold(m, ys);
  }

  /** The lazy row loop of `cover` is the eager `UnlinkAll` over the walked list. */
  lemma {:induction false} UnlinkRowWalk<L>(m: Dlx<L>, start: nat, cur: nat, ys: seq<nat>, fuel: nat)
    requires WalkFrom(m, m.right, start, cur, ys) && fuel >= |ys|
    ensures UnlinkRow(m, start, cur, fuel) == Some(UnlinkAll(m, ys))
    decreases |ys|
  {
    if |ys| == 0 {
      assert UnlinkAll(m, ys) == m;
    } else {
      var m1 := UnlinkUD(m, cur);
      var f1: nat :| f1 + 1 == fuel;
      WalkFromTail(m, m.right, start, cur, ys, m1);
      UnlinkRowWalk(m1, start, m.right[cur], ys[1..], f1);
      UnlinkRowCons(m, start, cur, ys, fuel, m1, f1);
    }
  }

  /** Relinking `p + [z]` from the back starts with `z`. */
  lemma {:induction false} RelinkRevSnoc<L>(m: Dlx<L>, p: seq<nat>, z: nat)
    requires Closed(m) && z < N(m) && m.cell[z].Item?
    requires forall k | 0 <= k < |p| :: p[k] < N(m) && m.cell[p[k]].Item?
    ensures RelinkRev(m, p + [z]) == RelinkRev(RelinkUD(m, z), p)
    decreases |p|
  {
    if p != [] {
      assert (p + [z])[1..] == p[1..] + [z];
      RelinkRevSnoc(m, p[1..], z);
    }
  }

  /** `ys` is the list a row loop visits from `cur` following `prev` until it is back at
      `start`, read in the opposite order: `ys` ends at `cur` and starts after `start`. */
  ghost predicate WalkBack<L>(m: Dlx<L>, prev: seq<nat>, start: nat, cur: nat, ys: seq<nat>) {
    && Closed(m) && start < N(m) && cur < N(m) && |prev| == N(m)
    && (forall k | 0 <= k < |ys| :: ys[k] < N(m) && m.cell[ys[k]].Item? && ys[k] != start)
    && (forall k | 0 < k < |ys| :: prev[ys[k]] == ys[k - 1])
    && (|ys| == 0 ==> cur == start)
    && (|ys| > 0 ==> cur == ys[|ys| - 1] && prev[ys[0]] == start)
  }

  lemma WalkBackFront<L>(m: Dlx<L>, prev: seq<nat>, start: nat, cur: nat, ys: seq<nat>, m1: Dlx<L>)
    requires WalkBack(m, prev, start, cur, ys) && |ys| > 0
    requires Closed(m1) && m1.cell == m.cell
    ensures WalkBack(m1, prev, start, prev[cur], ys[..|ys| - 1])
  {
    var p := ys[..|ys| - 1];
    forall k | 0 <= k < |p|
      ensures p[k] < N(m1) && m1.cell[p[k]].Item? && p[k] != start
    {
      assert p[k] == ys[k];
    }
    forall k | 0 < k < |p|
      ensures prev[p[k]] == p[k - 1]
    {
      assert p[k] == ys[k] && p[k - 1] == ys[k - 1];
    }
    if |p| > 0 {
      assert prev[cur] == ys[|ys| - 2] == p[|p| - 1];
      assert p[0] == ys[0];
    }
  }

  /** The row loop of `uncover` relinks `cur` and moves to its left neighbour, which
      the relink has not moved. */
  lemma RelinkRowStep<L>(m: Dlx<L>, start: nat, cur: nat, f1: nat)
    requires Closed(m) && start < N(m) && cur < N(m) && cur != start
    requires m.cell[cur].Item?
    ensures RelinkRow(m, start, cur, f1 + 1) == RelinkRow(RelinkUD(m, cur), start, m.left[cur], f1)
  {
  }

  /** Relinking `ys` from the back starts with its last node. */
  lemma RelinkRevLast<L>(m: Dlx<L>, ys: seq<nat>)
    requires Closed(m) && |ys| > 0 && forall k | 0 <= k < |ys| :: ys[k] < N(m) && m.cell[ys[k]].Item?
    ensures RelinkRev(m, ys) == RelinkRev(RelinkUD(m, ys[|ys| - 1]), ys[..|ys| - 1])
  {
    var p := ys[..|ys| - 1];
    assert ys == p + [ys[|ys| - 1]];
    assert forall k | 0 <= k < |p| :: p[k] == ys[k];
    RelinkRevSnoc(m, p, ys[|ys| - 1]);
  }

  /** One step of the row loop of `uncover`: relinking `cur`, the last node of the list,
      and then the rest from the back relinks all of it. */
  lemma RelinkRowCons<L>(m: Dlx<L>, start: nat, cur: nat, ys: seq<nat>, fuel: nat, m1: Dlx<L>, f1: nat)
    requires Closed(m) && start < N(m) && cur < N(m) && cur != start && fuel == f1 + 1
    requires |ys| > 0 && ys[|ys| - 1] == cur
    requires forall k | 0 <= k < |ys| :: ys[k] < N(m) && m.cell[ys[k]].Item?
    requires m1 == RelinkUD(m, cur)
    requires RelinkRow(m1, start, m.left[cur], f1) == Some(RelinkRev(m1, ys[..|ys| - 1]))
    ensures RelinkRow(m, start, cur, fuel) == Some(RelinkRev(m, ys))
  {
    RelinkRevLast(m, ys);
    RelinkRowStep(m, start, cur, f1);
  }

  /** The lazy row loop of `uncover`, started at the last node of `ys` and walking left,
      is the eager `RelinkRev` over `ys`. */
  lemma {:induction false} RelinkRowWalk<L>(m: Dlx<L>, start: nat, cur: nat, ys: seq<nat>, fuel: nat)
    requires WalkBack(m, m.left, start, cur, ys) && fuel >= |ys|
    ensures RelinkRow(m, start, cur, fuel) == Some(RelinkRev(m, ys))
    decreases |ys|
  {
    if |ys| == 0 {
      assert RelinkRev(m, ys) == m;
    } else {
      var m1 := RelinkUD(m, cur);
      var f1: nat :| f1 + 1 == fuel;
      WalkBackFront(m, m.left, start, cur, ys, m1);
      RelinkRowWalk(m1, start, m.left[cur], ys[..|ys| - 1], f1);
      RelinkRowCons(m, start, cur, ys, fuel, m1, f1);
    }
  }

  /** The row loop of `cover` at an item of a well-formed matrix unlinks exactly its mates. */
  lemma UnlinkMates<L>(m: Dlx<L>, B: Base, y: nat)
    requires Closed(m) && BaseOK(B, m.cell) && y < N(m) && OnRow(B, y)
    requires Linked(m.right, m.left, B.rows[B.rowOf[y]])
    ensures forall k | 0 <= k < |Mates(B, y)| :: Mates(B, y)[k] < N(m) && m.cell[Mates(B, y)[k]].Item?
    ensures UnlinkRow(m, y, m.right[y], N(m)) == Some(UnlinkAll(m, Mates(B, y)))
  {
    MatesWalk(m, B, y);
    DistinctBound(B.rows[B.rowOf[y]], N(m));
    UnlinkRowWalk(m, y, m.right[y], Mates(B, y), N(m));
  }

  /** The row loop of `uncover` at an item relinks its mates, last one first. */
  lemma RelinkMates<L>(m: Dlx<L>, B: Base, y: nat)
    requires Closed(m) && BaseOK(B, m.cell) && y < N(m) && OnRow(B, y)
    requires Linked(m.right, m.left, B.rows[B.rowOf[y]])
    ensures forall k | 0 <= k < |Mates(B, y)| :: Mates(B, y)[k] < N(m) && m.cell[Mates(B, y)[k]].Item?
    ensures RelinkRow(m, y, m.left[y], N(m)) == Some(RelinkRev(m, Mates(B, y)))
  {
    MatesWalk(m, B, y);
    DistinctBound(B.rows[B.rowOf[y]], N(m));
    RelinkRowWalk(m, y, m.left[y], Mates(B, y), N(m));
  }
}
