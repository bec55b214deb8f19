/** The shape invariant of a settled matrix, and the proof that each single unlink step
    keeps it.

    A matrix built from a problem has a fixed `Base`: the order of the column headers on
    the root ring, the full item list of every column (in down order) and the items of
    every row (in right order). While the search runs, two sets describe what has been
    taken out: `H`, the headers unlinked from the root ring, and `G`, the items unlinked
    from their columns. `Struct(m, B, H, G)` says that the pointer fields of `m` are
    exactly the doubly linked cycles of the ring without `H`, of every column without `G`
    (covered columns included), and of every row, and that each column size counts its
    cycle. */
module Structure {
  import opened Links
  import opened Cycles

  datatype Base = Base(ring: seq<nat>, cols: map<nat, seq<nat>>, rows: seq<seq<nat>>, rowOf: map<nat, nat>)

  /** The header of an item according to the arena's static `cell` field. */
  function HdOf<L>(cell: seq<Cell<L>>, x: nat): nat
    requires x < |cell| && cell[x].Item?
  {
    cell[x].header
  }

  /** The static part: who is a header, which items each column and each row holds. The
      root is a header that is on no column list; every item is on the list of its own
      column and on exactly one row, and no row has two items of the same column. */
  ghost predicate BaseOK<L>(B: Base, cell: seq<Cell<L>>) {
    && |cell| > 0 && cell[Root] == Head
    && Root !in B.ring && Distinct(B.ring)
    && (forall i | 0 <= i < |B.ring| :: B.ring[i] < |cell| && cell[B.ring[i]] == Head && B.ring[i] in B.cols)
    && (forall h | h in B.cols :: h in B.ring && Distinct(B.cols[h]))
    && (forall h, a | h in B.cols && 0 <= a < |B.cols[h]| ::
          B.cols[h][a] < |cell| && cell[B.cols[h][a]].Item? && cell[B.cols[h][a]].header == h
          && B.cols[h][a] in B.rowOf)
    && (forall x | 0 <= x < |cell| && cell[x].Item? ::
          cell[x].header in B.cols && x in B.cols[cell[x].header])
    && (forall i, a | 0 <= i < |B.rows| && 0 <= a < |B.rows[i]| ::
          B.rows[i][a] < |cell| && cell[B.rows[i][a]].Item? && B.rows[i][a] in B.rowOf
          && B.rowOf[B.rows[i][a]] == i)
    && (forall i, a, b | 0 <= i < |B.rows| && 0 <= a < b < |B.rows[i]| ::
          HdOf(cell, B.rows[i][a]) != HdOf(cell, B.rows[i][b]))
    && (forall x | x in B.rowOf :: B.rowOf[x] < |B.rows| && x in B.rows[B.rowOf[x]])
  }

  /** The root ring: the root followed by the headers not yet covered, in build order. */
  function RingList(B: Base, H: set<nat>): seq<nat> {
    [Root] + Without(B.ring, H)
  }

  /** A column's vertical cycle: its header followed by the items still linked in. */
  function ColList(B: Base, h: nat, G: set<nat>): seq<nat>
    requires h in B.cols
  {
    [h] + Without(B.cols[h], G)
  }

  ghost predicate RingOK<L>(m: Dlx<L>, B: Base, H: set<nat>) {
    Linked(m.right, m.left, RingList(B, H))
  }

  ghost predicate ColsOK<L>(m: Dlx<L>, B: Base, G: set<nat>) {
    forall h | h in B.cols :: Linked(m.down, m.up, ColList(B, h, G))
  }

  ghost predicate SizesOK<L>(m: Dlx<L>, B: Base, G: set<nat>) {
    forall h | h in B.cols :: h < |m.size| && m.size[h] == |Without(B.cols[h], G)|
  }

  ghost predicate RowsOK<L>(m: Dlx<L>, B: Base) {
    forall i | 0 <= i < |B.rows| && |B.rows[i]| > 0 :: Linked(m.right, m.left, B.rows[i])
  }

  ghost predicate Struct<L>(m: Dlx<L>, B: Base, H: set<nat>, G: set<nat>) {
    && Closed(m)
    && BaseOK(B, m.cell)
    && RingOK(m, B, H)
    && ColsOK(m, B, G)
    && SizesOK(m, B, G)
    && RowsOK(m, B)
  }

  /** The members of a list, as a set. */
  function Elems(xs: seq<nat>): set<nat> {
    set y | y in xs
  }

  lemma ElemsCons(G: set<nat>, ys: seq<nat>)
    requires ys != []
    ensures G + {ys[0]} + Elems(ys[1..]) == G + Elems(ys)
  {
    assert ys == [ys[0]] + ys[1..];
  }

  /** Every node on the ring is the root or a column header. */
  lemma RingHeads<L>(m: Dlx<L>, B: Base, H: set<nat>, k: nat)
    requires BaseOK(B, m.cell) && k < |RingList(B, H)|
    ensures RingList(B, H)[k] < |m.cell| && m.cell[RingList(B, H)[k]] == Head
  {
    if k > 0 {
      var y := RingList(B, H)[k];
      assert y in Without(B.ring, H);
      var j :| 0 <= j < |B.ring| && B.ring[j] == y;
    }
  }

  /** Every node on the cycle of column `h` is `h` itself or an item of column `h`. */
  lemma ColMembers<L>(B: Base, cell: seq<Cell<L>>, h: nat, G: set<nat>, k: nat)
    requires BaseOK(B, cell) && h in B.cols && k < |ColList(B, h, G)|
    ensures var y := ColList(B, h, G)[k];
            y < |cell| && (y == h || (cell[y].Item? && cell[y].header == h))
    ensures k > 0 ==> ColList(B, h, G)[k] in B.cols[h] && cell[ColList(B, h, G)[k]].Item?
  {
    var y := ColList(B, h, G)[k];
    if k > 0 {
      assert y in Without(B.cols[h], G);
      var a :| 0 <= a < |B.cols[h]| && B.cols[h][a] == y;
    } else {
      var j :| 0 <= j < |B.ring| && B.ring[j] == h;
    }
  }

  /** Unlinking an uncovered header from the root ring keeps the invariant, with the
      header now counted as covered. Its neighbours pointed back to it, so `RelinkLR`
      restores the state; the neighbours are ring members (headers or the root). */
  lemma StepLR<L>(m: Dlx<L>, B: Base, H: set<nat>, G: set<nat>, c: nat)
    requires Struct(m, B, H, G) && c in B.ring && c !in H
    ensures c < N(m) && InPlaceLR(m, c)
    ensures m.cell[m.left[c]] == Head && m.cell[m.right[c]] == Head
    ensures Struct(UnlinkLR(m, c), B, H + {c}, G)
  {
    var k := RingUnlink(m, B, H, c);
    RingHeads(m, B, H, k - 1);
    RingHeads(m, B, H, Succ(k, |RingList(B, H)|));
    UnlinkLRFrame(m, c);
    RowsFrameLR(m, B, UnlinkLR(m, c));
  }

  /** The ring part of `StepLR`: `c` sits at position `k > 0` of the ring cycle, between
      positions `k - 1` and `k + 1`, and is spliced out of it. */
  lemma RingUnlink<L>(m: Dlx<L>, B: Base, H: set<nat>, c: nat) returns (k: nat)
    requires Closed(m) && RingOK(m, B, H) && Root !in B.ring && Distinct(B.ring)
    requires c in B.ring && c !in H
    ensures 0 < k < |RingList(B, H)| && RingList(B, H)[k] == c
    ensures c < N(m) && InPlaceLR(m, c)
    ensures m.left[c] == RingList(B, H)[k - 1] && m.right[c] == RingList(B, H)[Succ(k, |RingList(B, H)|)]
    ensures RingOK(UnlinkLR(m, c), B, H + {c})
  {
    var ring := RingList(B, H);
    WithoutDistinct(B.ring, H);
    assert c in Without(B.ring, H);
    k := IndexOf(ring, c);
    var r := UnlinkLR(m, c);
    LinkedRemove(m.right, m.left, ring, k, r.right, r.left);
    WithoutOne(B.ring, H, c);
    ConsRemove(Root, Without(B.ring, H), c);
  }

  /** Rows consist of items, so pointer changes confined to headers leave them intact. */
  lemma RowsFrameLR<L>(m: Dlx<L>, B: Base, r: Dlx<L>)
    requires Closed(m) && BaseOK(B, m.cell) && RowsOK(m, B)
    requires |r.right| == |m.right| && |r.left| == |m.left|
    requires forall x | 0 <= x < N(m) && m.cell[x].Item? :: r.right[x] == m.right[x] && r.left[x] == m.left[x]
    ensures RowsOK(r, B)
  {
    forall k | 0 <= k < |B.rows| && |B.rows[k]| > 0
      ensures Linked(r.right, r.left, B.rows[k])
    {
      forall a | 0 <= a < |B.rows[k]|
        ensures r.right[B.rows[k][a]] == m.right[B.rows[k][a]] && r.left[B.rows[k][a]] == m.left[B.rows[k][a]]
      {
        assert m.cell[B.rows[k][a]].Item?;
      }
      LinkedFrame(m.right, m.left, B.rows[k], r.right, r.left);
    }
  }

  /** Unlinking an item that is still in its column keeps the invariant, with the item now
      counted as unlinked. Its neighbours pointed back to it, so `RelinkUD` restores the
      state. */
  lemma StepUD<L>(m: Dlx<L>, B: Base, H: set<nat>, G: set<nat>, y: nat)
    requires Struct(m, B, H, G) && y < N(m) && m.cell[y].Item? && y !in G
    ensures InPlaceUD(m, y)
    ensures Struct(UnlinkUD(m, y), B, H, G + {y})
  {
    ColUnlink(m, B, G, y);
    OtherColsFrame(m, B, G, y);
    var r := UnlinkUD(m, y);
    forall h' | h' in B.cols
      ensures h' < |r.size| && r.size[h'] == |Without(B.cols[h'], G + {y})|
    {
      if h' != Hd(m, y) {
        assert y !in B.cols[h'];
        WithoutOther(B.cols[h'], G, y);
      }
    }
  }

  /** The column part of `StepUD`: the item is spliced out of its own column's cycle,
      which shrinks by exactly that item; its neighbours are nodes of that column. */
  lemma ColUnlink<L>(m: Dlx<L>, B: Base, G: set<nat>, y: nat)
    requires Closed(m) && y < N(m) && m.cell[y].Item? && y !in G
    requires Hd(m, y) in B.cols && Distinct(B.cols[Hd(m, y)]) && y in B.cols[Hd(m, y)]
    requires Linked(m.down, m.up, ColList(B, Hd(m, y), G))
    ensures InPlaceUD(m, y)
    ensures Linked(UnlinkUD(m, y).down, UnlinkUD(m, y).up, ColList(B, Hd(m, y), G + {y}))
    ensures |Without(B.cols[Hd(m, y)], G + {y})| == |Without(B.cols[Hd(m, y)], G)| - 1
    ensures m.up[y] in ColList(B, Hd(m, y), G) && m.down[y] in ColList(B, Hd(m, y), G)
  {
    var h := Hd(m, y);
    var col := ColList(B, h, G);
    var w := Without(B.cols[h], G);
    WithoutDistinct(B.cols[h], G);
    assert y in w;
    assert h != y by {
      var j := IndexOf(w, y);
      assert col[0] == h && col[1 + j] == y;
    }
    var i := IndexOf(col, y);
    LinkedSplice(m.down, m.up, col, i);
    var j := Succ(i, |col|);
    assert m.down[col[i - 1]] == col[i];
    if j == 0 {
      assert m.up[col[0]] == Last(col) == col[i];
    } else {
      assert m.up[col[j]] == col[i];
    }
    assert m.up[y] in col && m.down[y] in col;
    UnlinkUDSplice(m, y);
    WithoutOne(B.cols[h], G, y);
    ConsRemove(h, w, y);
  }

  /** A node of column `h`: the header itself or one of its items. */
  ghost predicate OfColumn<L>(cell: seq<Cell<L>>, x: nat, h: nat) {
    x < |cell| && (x == h || (cell[x].Item? && cell[x].header == h))
  }

  /** The other columns of `StepUD`: their cycles do not meet the changed pointers. */
  lemma OtherColsFrame<L>(m: Dlx<L>, B: Base, G: set<nat>, y: nat)
    requires Closed(m) && BaseOK(B, m.cell) && ColsOK(m, B, G)
    requires y < N(m) && m.cell[y].Item? && y !in G
    requires m.up[y] in ColList(B, Hd(m, y), G) && m.down[y] in ColList(B, Hd(m, y), G)
    ensures forall h' | h' in B.cols && h' != Hd(m, y) ::
              Linked(UnlinkUD(m, y).down, UnlinkUD(m, y).up, ColList(B, h', G + {y}))
  {
    var h := Hd(m, y);
    var iu := IndexOf(ColList(B, h, G), m.up[y]);
    var id := IndexOf(ColList(B, h, G), m.down[y]);
    ColMembers(B, m.cell, h, G, iu);
    ColMembers(B, m.cell, h, G, id);
    forall h' | h' in B.cols && h' != h
      ensures Linked(UnlinkUD(m, y).down, UnlinkUD(m, y).up, ColList(B, h', G + {y}))
    {
      ColFrame(m, B, G, y, h');
    }
  }

  /** One other column of `StepUD`. */
  lemma ColFrame<L>(m: Dlx<L>, B: Base, G: set<nat>, y: nat, h': nat)
    requires Closed(m) && BaseOK(B, m.cell)
    requires y < N(m) && m.cell[y].Item? && y !in G
    requires h' in B.cols && h' != Hd(m, y) && Linked(m.down, m.up, ColList(B, h', G))
    requires OfColumn(m.cell, m.up[y], Hd(m, y)) && OfColumn(m.cell, m.down[y], Hd(m, y))
    ensures Linked(UnlinkUD(m, y).down, UnlinkUD(m, y).up, ColList(B, h', G + {y}))
  {
    var h := Hd(m, y);
    var r := UnlinkUD(m, y);
    UnlinkUDFrame(m, y);
    assert m.cell[h] == Head by {
      var j :| 0 <= j < |B.ring| && B.ring[j] == h;
    }
    assert m.cell[h'] == Head by {
      var j :| 0 <= j < |B.ring| && B.ring[j] == h';
    }
    assert y !in B.cols[h'];
    WithoutOther(B.cols[h'], G, y);
    var col' := ColList(B, h', G);
    forall a | 0 <= a < |col'|
      ensures r.down[col'[a]] == m.down[col'[a]] && r.up[col'[a]] == m.up[col'[a]]
    {
      ColMembers(B, m.cell, h', G, a);
    }
    LinkedFrame(m.down, m.up, col', r.down, r.up);
  }

  /** Unlinking a list of items one after the other (the order `cover` uses). */
  ghost function UnlinkAll<L>(m: Dlx<L>, ys: seq<nat>): (r: Dlx<L>)
    requires Closed(m) && forall k | 0 <= k < |ys| :: ys[k] < N(m) && m.cell[ys[k]].Item?
    ensures Closed(r) && r.cell == m.cell && r.left == m.left && r.right == m.right
    decreases |ys|
  {
    if ys == [] then m else UnlinkAll(UnlinkUD(m, ys[0]), ys[1..])
  }

  /** Relinking a list of items from the last to the first (the order `uncover` uses). */
  ghost function RelinkRev<L>(m: Dlx<L>, ys: seq<nat>): (r: Dlx<L>)
    requires Closed(m) && forall k | 0 <= k < |ys| :: ys[k] < N(m) && m.cell[ys[k]].Item?
    ensures Closed(r) && r.cell == m.cell && r.left == m.left && r.right == m.right
  {
    if ys == [] then m else RelinkUD(RelinkRev(m, ys[1..]), ys[0])
  }

  /** Unlinking `a + b` is unlinking `a`, then `b`. */
  lemma {:induction false} UnlinkAllAppend<L>(m: Dlx<L>, a: seq<nat>, b: seq<nat>)
    requires Closed(m) && forall k | 0 <= k < |a + b| :: (a + b)[k] < N(m) && m.cell[(a + b)[k]].Item?
    ensures forall k | 0 <= k < |a| :: a[k] < N(m) && m.cell[a[k]].Item?
    ensures forall k | 0 <= k < |b| :: b[k] < N(m) && m.cell[b[k]].Item?
    ensures UnlinkAll(m, a + b) == UnlinkAll(UnlinkAll(m, a), b)
    decreases |a|
  {
    assert forall k | 0 <= k < |b| :: b[k] == (a + b)[|a| + k];
    assert forall k | 0 <= k < |a| :: a[k] == (a + b)[k];
    if |a| > 0 {
      assert (a + b)[1..] == a[1..] + b;
      UnlinkAllAppend(UnlinkUD(m, a[0]), a[1..], b);
    } else {
      assert a + b == b;
    }
  }

  /** Relinking `a + b` from the back is relinking `b` from the back, then `a`. */
  lemma {:induction false} RelinkRevAppend<L>(m: Dlx<L>, a: seq<nat>, b: seq<nat>)
    requires Closed(m) && forall k | 0 <= k < |a + b| :: (a + b)[k] < N(m) && m.cell[(a + b)[k]].Item?
    ensures forall k | 0 <= k < |b| :: b[k] < N(m) && m.cell[b[k]].Item?
    ensures forall k | 0 <= k < |a| :: a[k] < N(m) && m.cell[a[k]].Item?
    ensures RelinkRev(m, a + b) == RelinkRev(RelinkRev(m, b), a)
    decreases |a|
  {
    assert forall k | 0 <= k < |b| :: b[k] == (a + b)[|a| + k];
    assert forall k | 0 <= k < |a| :: a[k] == (a + b)[k];
    if |a| > 0 {
      assert (a + b)[1..] == a[1..] + b;
      RelinkRevAppend(m, a[1..], b);
    } else {
      assert a + b == b;
    }
  }

  /** The nodes of `ys` are distinct items, none of them unlinked yet. */
  ghost predicate Pending<L>(m: Dlx<L>, G: set<nat>, ys: seq<nat>) {
    Distinct(ys) && forall k | 0 <= k < |ys| :: ys[k] < N(m) && m.cell[ys[k]].Item? && ys[k] !in G
  }

  lemma PendingTail<L>(m: Dlx<L>, G: set<nat>, ys: seq<nat>, m1: Dlx<L>)
    requires Pending(m, G, ys) && ys != [] && m1.cell == m.cell
    ensures Pending(m1, G + {ys[0]}, ys[1..])
  {
    forall k | 0 <= k < |ys[1..]|
      ensures ys[1..][k] != ys[0] && ys[1..][k] !in G
    {
      assert ys[1..][k] == ys[k + 1];
    }
  }

  /** Unlinking distinct items that are all still in their columns keeps the invariant,
      and relinking them in reverse order restores the state exactly. */
  lemma {:induction false} StepsUD<L>(m: Dlx<L>, B: Base, H: set<nat>, G: set<nat>, ys: seq<nat>)
    requires Struct(m, B, H, G) && Pending(m, G, ys)
    ensures Struct(UnlinkAll(m, ys), B, H, G + Elems(ys))
    ensures RelinkRev(UnlinkAll(m, ys), ys) == m
    decreases |ys|
  {
    if ys == [] {
      assert G + Elems(ys) == G;
    } else {
      StepUD(m, B, H, G, ys[0]);
      var m1 := UnlinkUD(m, ys[0]);
      PendingTail(m, G, ys, m1);
      StepsUD(m1, B, H, G + {ys[0]}, ys[1..]);
      ElemsCons(G, ys);
      RelinkUnlinkUD(m, ys[0]);
    }
  }

  /** Relinking a header commutes with relinking items: they touch disjoint fields. */
  lemma {:induction false} RelinkRevLR<L>(m: Dlx<L>, ys: seq<nat>, c: nat)
    requires Closed(m) && c < N(m) && forall k | 0 <= k < |ys| :: ys[k] < N(m) && m.cell[ys[k]].Item?
    ensures RelinkRev(RelinkLR(m, c), ys) == RelinkLR(RelinkRev(m, ys), c)
  {
    if ys != [] {
      RelinkRevLR(m, ys[1..], c);
      SwapRelink(RelinkRev(m, ys[1..]), ys[0], c);
    }
  }

  lemma SwapRelink<L>(m: Dlx<L>, y: nat, c: nat)
    requires Closed(m) && c < N(m) && y < N(m) && m.cell[y].Item?
    ensures RelinkUD(RelinkLR(m, c), y) == RelinkLR(RelinkUD(m, y), c)
  {
    var a := RelinkUD(RelinkLR(m, c), y);
    var b := RelinkLR(RelinkUD(m, y), c);
    assert a.up == b.up && a.down == b.down && a.size == b.size;
    assert a.left == b.left && a.right == b.right;
  }

  /** Unlinking a header commutes with unlinking items: they touch disjoint fields. */
  lemma {:induction false} UnlinkAllLR<L>(m: Dlx<L>, ys: seq<nat>, c: nat)
    requires Closed(m) && c < N(m) && forall k | 0 <= k < |ys| :: ys[k] < N(m) && m.cell[ys[k]].Item?
    ensures UnlinkAll(UnlinkLR(m, c), ys) == UnlinkLR(UnlinkAll(m, ys), c)
    decreases |ys|
  {
    if ys != [] {
      SwapUnlink(m, ys[0], c);
      UnlinkAllLR(UnlinkUD(m, ys[0]), ys[1..], c);
    }
  }

  lemma SwapUnlink<L>(m: Dlx<L>, y: nat, c: nat)
    requires Closed(m) && c < N(m) && y < N(m) && m.cell[y].Item?
    ensures UnlinkUD(UnlinkLR(m, c), y) == UnlinkLR(UnlinkUD(m, y), c)
  {
    var a := UnlinkUD(UnlinkLR(m, c), y);
    var b := UnlinkLR(UnlinkUD(m, y), c);
    assert a.up == b.up && a.down == b.down && a.size == b.size;
    assert a.left == b.left && a.right == b.right;
  }
}
