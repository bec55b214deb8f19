/** What `solve` computes on a well-formed matrix. With `H` the covered columns, the
    search from a state is an exact cover search for the uncovered columns by the rows
    that meet no covered column: it never fails, a `"solved"` throw carries a selection
    of rows that covers every uncovered column exactly once, and a normal return leaves
    the matrix exactly as it found it and means that no such selection exists. */
module Search {
  import opened Links
  import opened Cycles
  import opened Structure
  import opened Engine
  import opened RowWalk
  import opened Closure
  import opened SelectRow

  /** The headers still on the root ring. */
  function Open(B: Base, H: set<nat>): seq<nat> {
    Without(B.ring, H)
  }

  /** The rows `rs` cover every uncovered column exactly once and meet no covered one. */
  ghost predicate ExactRows<L>(B: Base, cell: seq<Cell<L>>, H: set<nat>, rs: seq<nat>) {
    && (forall i | 0 <= i < |rs| :: RowAvoids(B, cell, H, rs[i]))
    && (forall i, j | 0 <= i < j < |rs| :: RowCols(B, cell, rs[i]) !! RowCols(B, cell, rs[j]))
    && (forall c | c in B.ring && c !in H :: exists i | 0 <= i < |rs| :: c in RowCols(B, cell, rs[i]))
  }

  /** The rows of the selected nodes. */
  ghost function PickRows(B: Base, picks: seq<nat>): (rs: seq<nat>)
    requires forall i | 0 <= i < |picks| :: picks[i] in B.rowOf
    ensures |rs| == |picks| && forall i | 0 <= i < |picks| :: rs[i] == B.rowOf[picks[i]]
  {
    seq(|picks|, i requires 0 <= i < |picks| => B.rowOf[picks[i]])
  }

  /** The selected nodes are items on rows, and their rows are an exact cover of the
      uncovered columns. */
  ghost predicate Picked<L>(B: Base, cell: seq<Cell<L>>, H: set<nat>, picks: seq<nat>) {
    && (forall i | 0 <= i < |picks| :: picks[i] < |cell| && cell[picks[i]].Item? && OnRow(B, picks[i]))
    && ExactRows(B, cell, H, PickRows(B, picks))
  }

  /** The state of the search: the shape invariant and both closure properties. */
  ghost predicate Searchable<L>(m: Dlx<L>, B: Base, H: set<nat>, G: set<nat>) {
    Struct(m, B, H, G) && Settled(B, m.cell, H, G) && Untouched(B, m.cell, H, G)
  }

  /** The covered columns after selecting `x`: those before, and the columns of its row. */
  ghost function After<L>(B: Base, cell: seq<Cell<L>>, H: set<nat>, x: nat): set<nat> {
    if OnRow(B, x) then H + RowCols(B, cell, B.rowOf[x]) else H
  }

  /** `is_solved` and `min_size_col` read the root ring: the matrix is solved exactly when
      every column is covered, and otherwise the chosen column is the first uncovered one
      of smallest size. */
  lemma RingState<L>(m: Dlx<L>, B: Base, H: set<nat>, G: set<nat>)
    requires Struct(m, B, H, G)
    ensures forall i | 0 <= i < |Open(B, H)| :: Open(B, H)[i] < |m.size|
    ensures IsSolved(m) <==> Open(B, H) == []
    ensures Open(B, H) != [] ==> MinSizeCol(m) == Some(ReduceMin(m.size, Open(B, H)))
  {
    var ring := RingList(B, H);
    assert Linked(m.right, m.left, ring);
    assert Pointers(m.right);
    IterLinked(m.right, m.left, ring);
    assert Skip(1, ring) == Open(B, H);
    forall i | 0 <= i < |Open(B, H)|
      ensures Open(B, H)[i] < |m.size|
    {
      RingHeads(m, B, H, i + 1);
    }
    if Open(B, H) != [] {
      assert ring[1] != ring[0];
    }
  }

  /** Covering a further open column shrinks the open list. */
  lemma OpenShrink(B: Base, H: set<nat>, H': set<nat>, c: nat)
    requires H <= H' && c in B.ring && c !in H && c in H'
    ensures |Open(B, H')| < |Open(B, H)|
  {
    WithoutUnion(B.ring, H, H');
    assert H + H' == H';
    WithoutDrops(Without(B.ring, H), H', c);
  }

  /** When every column is covered, the empty selection is an exact cover. */
  lemma PickedNone<L>(B: Base, cell: seq<Cell<L>>, H: set<nat>)
    requires Open(B, H) == []
    ensures Picked(B, cell, H, [])
  {
    forall c | c in B.ring
      ensures c in H
    {
      assert c !in Open(B, H);
    }
  }

  /** A node of a row meets the row's column set. */
  lemma InRowCols<L>(B: Base, cell: seq<Cell<L>>, r: nat, x: nat)
    requires r < |B.rows| && x in B.rows[r] && x < |cell| && cell[x].Item?
    ensures HdOf(cell, x) in RowCols(B, cell, r)
  {
  }

  /** Selecting `x`, whose row meets no covered column, in front of an exact cover of what
      is left after covering its row gives an exact cover. */
  lemma PickedCons<L>(B: Base, cell: seq<Cell<L>>, H: set<nat>, x: nat, picks: seq<nat>)
    requires x < |cell| && cell[x].Item? && RowOpen(B, cell, H, x)
    requires Picked(B, cell, After(B, cell, H, x), picks)
    ensures Picked(B, cell, H, [x] + picks)
  {
    var r := B.rowOf[x];
    var H1 := H + RowCols(B, cell, r);
    var rs := PickRows(B, picks);
    var rs' := PickRows(B, [x] + picks);
    assert rs' == [r] + rs;
    forall i | 0 <= i < |rs|
      ensures RowAvoids(B, cell, H, rs[i]) && RowCols(B, cell, r) !! RowCols(B, cell, rs[i])
    {
      assert RowAvoids(B, cell, H1, rs[i]);
      forall c | c in RowCols(B, cell, rs[i])
        ensures c !in RowCols(B, cell, r)
      {
        var y :| y in B.rows[rs[i]] && y < |cell| && cell[y].Item? && cell[y].header == c;
        var a := IndexOf(B.rows[rs[i]], y);
      }
    }
    assert RowAvoids(B, cell, H, r);
    forall c | c in B.ring && c !in H
      ensures exists i | 0 <= i < |rs'| :: c in RowCols(B, cell, rs'[i])
    {
      if c in RowCols(B, cell, r) {
        assert c in RowCols(B, cell, rs'[0]);
      } else {
        var i :| 0 <= i < |rs| && c in RowCols(B, cell, rs[i]);
        assert c in RowCols(B, cell, rs'[i + 1]);
      }
    }
  }

  /** Some choice of rows is an exact cover of the uncovered columns. */
  ghost predicate HasCover<L>(B: Base, cell: seq<Cell<L>>, H: set<nat>) {
    exists rs :: ExactRows(B, cell, H, rs)
  }

  /** A selection the search reports is a witness. */
  lemma PickedCover<L>(B: Base, cell: seq<Cell<L>>, H: set<nat>, picks: seq<nat>)
    requires Picked(B, cell, H, picks)
    ensures HasCover(B, cell, H)
  {
    assert ExactRows(B, cell, H, PickRows(B, picks));
  }

  /** Taking one row out of an exact cover leaves an exact cover of what its columns do
      not cover. */
  lemma ExactDrop<L>(B: Base, cell: seq<Cell<L>>, H: set<nat>, rs: seq<nat>, i: nat)
    requires ExactRows(B, cell, H, rs) && i < |rs|
    ensures ExactRows(B, cell, H + RowCols(B, cell, rs[i]), RemoveAt(rs, i))
  {
    var R := RowCols(B, cell, rs[i]);
    var rs' := RemoveAt(rs, i);
    forall k | 0 <= k < |rs'|
      ensures RowAvoids(B, cell, H + R, rs'[k])
    {
      var k' := if k < i then k else k + 1;
      assert rs'[k] == rs[k'];
      assert RowCols(B, cell, rs[k']) !! R by {
        if k' < i {
          assert RowCols(B, cell, rs[k']) !! RowCols(B, cell, rs[i]);
        } else {
          assert RowCols(B, cell, rs[i]) !! RowCols(B, cell, rs[k']);
        }
      }
      forall a | 0 <= a < |B.rows[rs'[k]]|
        ensures HdOf(cell, B.rows[rs'[k]][a]) !in R
      {
        assert HdOf(cell, B.rows[rs'[k]][a]) in RowCols(B, cell, rs'[k]);
      }
    }
    forall k1, k2 | 0 <= k1 < k2 < |rs'|
      ensures RowCols(B, cell, rs'[k1]) !! RowCols(B, cell, rs'[k2])
    {
      var a := if k1 < i then k1 else k1 + 1;
      var b := if k2 < i then k2 else k2 + 1;
      assert rs'[k1] == rs[a] && rs'[k2] == rs[b] && a < b;
    }
    forall c | c in B.ring && c !in H + R
      ensures exists k | 0 <= k < |rs'| :: c in RowCols(B, cell, rs'[k])
    {
      var i0 :| 0 <= i0 < |rs| && c in RowCols(B, cell, rs[i0]);
      var k := if i0 < i then i0 else i0 - 1;
      assert rs'[k] == rs[i0];
    }
  }

  /** A row that avoids the covered columns and meets column `h` does so through an item
      still linked in `h`. */
  lemma RowMeets<L>(B: Base, cell: seq<Cell<L>>, H: set<nat>, G: set<nat>, h: nat, r: nat)
    returns (x: nat)
    requires BaseOK(B, cell) && Untouched(B, cell, H, G)
    requires RowAvoids(B, cell, H, r) && h in RowCols(B, cell, r)
    ensures h in B.cols && x in Without(B.cols[h], G)
    ensures OnRow(B, x) && B.rowOf[x] == r
  {
    x :| x in B.rows[r] && x < |cell| && cell[x].Item? && cell[x].header == h;
    var a := IndexOf(B.rows[r], x);
    assert x !in G;
  }

  /** Every exact cover selects, for an uncovered column `h`, a row through one of the
      items still linked in `h`; the rest of it is an exact cover of what that row leaves
      uncovered. */
  lemma CoverSplit<L>(B: Base, cell: seq<Cell<L>>, H: set<nat>, G: set<nat>, h: nat)
    requires BaseOK(B, cell) && Untouched(B, cell, H, G) && h in B.ring && h !in H
    ensures h in B.cols
    ensures HasCover(B, cell, H) ==>
              exists j | 0 <= j < |Without(B.cols[h], G)| ::
                HasCover(B, cell, After(B, cell, H, Without(B.cols[h], G)[j]))
  {
    if HasCover(B, cell, H) {
      var rs :| ExactRows(B, cell, H, rs);
      var i :| 0 <= i < |rs| && h in RowCols(B, cell, rs[i]);
      var x := RowMeets(B, cell, H, G, h, rs[i]);
      var xs := Without(B.cols[h], G);
      var j := IndexOf(xs, x);
      ExactDrop(B, cell, H, rs, i);
      assert ExactRows(B, cell, After(B, cell, H, xs[j]), RemoveAt(rs, i));
    }
  }

  /** The node `solve_sub`'s loop over column `h` stands at after passing `j` items: the
      `j`-th item still linked in the column, or the header once they are all passed. */
  function ColAt(B: Base, G: set<nat>, h: nat, j: nat): nat
    requires h in B.cols && j <= |Without(B.cols[h], G)|
  {
    if j < |Without(B.cols[h], G)| then Without(B.cols[h], G)[j] else h
  }

  /** Walking down column `h` visits its linked items in order and then the header. */
  lemma ColumnAt<L>(m: Dlx<L>, B: Base, G: set<nat>, h: nat, j: nat)
    requires Closed(m) && BaseOK(B, m.cell) && ColsOK(m, B, G)
    requires h in B.cols && j <= |Without(B.cols[h], G)|
    ensures ColAt(B, G, h, j) < N(m) && h < N(m) && m.down[h] == ColAt(B, G, h, 0)
    ensures j < |Without(B.cols[h], G)| ==>
              var x := Without(B.cols[h], G)[j];
              && x != h && m.cell[x].Item? && Hd(m, x) == h && x !in G
              && m.down[x] == ColAt(B, G, h, j + 1)
  {
    var xs := Without(B.cols[h], G);
    DownAt(m.down, m.up, h, xs, j);
    if j < |xs| {
      ColMembers(B, m.cell, h, G, j + 1);
      assert ColList(B, h, G)[j + 1] == xs[j];
    }
  }

  /** The `next` links of a cycle `[h] + xs`, read from position `j` of `xs`. */
  lemma DownAt(next: seq<nat>, prev: seq<nat>, h: nat, xs: seq<nat>, j: nat)
    requires Linked(next, prev, [h] + xs) && j <= |xs|
    ensures h < |next| && (j < |xs| ==> xs[j] < |next|)
    ensures next[h] == if 0 < |xs| then xs[0] else h
    ensures j < |xs| ==> xs[j] != h && next[xs[j]] == if j + 1 < |xs| then xs[j + 1] else h
  {
    var col := [h] + xs;
    assert col[0] == h;
    if j < |xs| {
      assert col[j + 1] == xs[j];
      if j + 1 < |xs| {
        assert next[col[j + 1]] == col[j + 2];
      } else {
        assert next[Last(col)] == col[0];
      }
    }
    if |col| > 1 {
      assert next[col[0]] == col[1];
    } else {
      assert next[Last(col)] == col[0];
    }
  }

  /** One turn of the loop of `solve_sub`, as an equation: when covering the item `x` and
      uncovering it again are inverse, the turn runs the deeper search and, on a normal
      return, goes on below `x` in the same state. */
  lemma TryRowsTurn<L>(m: Dlx<L>, h: nat, x: nat, depth: nat, f1: nat, m1: Dlx<L>)
    requires Closed(m) && N(m) > 0 && h < N(m) && x < N(m) && depth > 0 && x != h
    requires Cover(m, x) == Some(m1) && Uncover(m1, x) == Some(m)
    ensures Closed(m1) && N(m1) == N(m)
    ensures SolveSub(m1, depth - 1).Failed? ==> TryRows(m, h, x, depth, f1 + 1).Failed?
    ensures SolveSub(m1, depth - 1).Solved? ==>
              TryRows(m, h, x, depth, f1 + 1)
              == Solved([x] + SolveSub(m1, depth - 1).picks, SolveSub(m1, depth - 1).final)
    ensures SolveSub(m1, depth - 1) == Exhausted(m1) ==>
              TryRows(m, h, x, depth, f1 + 1) == TryRows(m, h, m.down[x], depth, f1)
  {
  }

  /** What `solve_sub` promises about its outcome `r` from the state `m` whose covered
      columns are `H`: it does not fail, a throw carries an exact cover of the uncovered
      columns, and a normal return leaves the state as it was and means that there is no
      exact cover. */
  ghost predicate SearchPromise<L>(r: Outcome<L>, m: Dlx<L>, B: Base, H: set<nat>) {
    && !r.Failed?
    && (r.Solved? ==> Picked(B, m.cell, H, r.picks))
    && (r.Exhausted? ==> r.state == m && !HasCover(B, m.cell, H))
  }

  /** `solve_sub` from `m`, with `depth` levels to go, keeps its promise. */
  ghost predicate SearchOK<L>(m: Dlx<L>, B: Base, H: set<nat>, depth: nat) {
    Closed(m) && 0 < N(m) && SearchPromise(SolveSub(m, depth), m, B, H)
  }

  /** What the loop of `solve_sub` over column `h`, resumed after `j` of its items,
      promises about its outcome `r`: it does not fail, a throw carries an exact cover,
      and a normal return leaves the state as it was and means that no exact cover selects
      the row of any remaining item. */
  ghost predicate LoopPromise<L>(r: Outcome<L>, m: Dlx<L>, B: Base, H: set<nat>, G: set<nat>, h: nat, j: nat) {
    && !r.Failed?
    && (r.Solved? ==> Picked(B, m.cell, H, r.picks))
    && (r.Exhausted? ==>
          r.state == m && h in B.cols
          && forall k | j <= k < |Without(B.cols[h], G)| ::
               !HasCover(B, m.cell, After(B, m.cell, H, Without(B.cols[h], G)[k])))
  }

  /** The loop of `solve_sub` over column `h`, resumed after `j` of its items with `fuel`
      turns left, keeps its promise. */
  ghost predicate LoopOK<L>(m: Dlx<L>, B: Base, H: set<nat>, G: set<nat>, h: nat, j: nat, depth: nat, fuel: nat) {
    && Closed(m) && 0 < N(m) && 0 < depth && h < N(m)
    && h in B.cols && j <= |Without(B.cols[h], G)| && ColAt(B, G, h, j) < N(m)
    && LoopPromise(TryRows(m, h, ColAt(B, G, h, j), depth, fuel), m, B, H, G, h, j)
  }

  /** `cover(x)` succeeds and `uncover(x)` restores the state. */
  ghost predicate RoundTrip<L>(m: Dlx<L>, x: nat) {
    Closed(m) && x < N(m) && Cover(m, x).Some? && Uncover(Cover(m, x).value, x) == Some(m)
  }

  /** The turn of the loop at the `j`-th item `x` still linked in column `h` is ready:
      `cover(x)` and `uncover(x)` are inverse, the loop goes on below `x`, and the deeper
      search from the state after `cover(x)` keeps its promise. */
  ghost predicate TurnReady<L>(m: Dlx<L>, B: Base, H: set<nat>, G: set<nat>, h: nat, j: nat, depth: nat)
    requires 0 < depth && h in B.cols && j < |Without(B.cols[h], G)|
  {
    var x := Without(B.cols[h], G)[j];
    && x != h && RoundTrip(m, x) && m.cell[x].Item? && RowOpen(B, m.cell, H, x)
    && m.down[x] == ColAt(B, G, h, j + 1) && ColAt(B, G, h, j + 1) < N(m)
    && SearchOK(Cover(m, x).value, B, After(B, m.cell, H, x), depth - 1)
  }

  /** Every turn of the loop from the `j`-th item on is ready. */
  ghost predicate AllReady<L>(m: Dlx<L>, B: Base, H: set<nat>, G: set<nat>, h: nat, j: nat, depth: nat)
    requires 0 < depth && h in B.cols && j <= |Without(B.cols[h], G)|
    decreases |Without(B.cols[h], G)| - j
  {
    j == |Without(B.cols[h], G)|
    || (TurnReady(m, B, H, G, h, j, depth) && AllReady(m, B, H, G, h, j + 1, depth))
  }

  /** The loop has passed every item of the column: it returns normally. */
  lemma LoopEnd<L>(m: Dlx<L>, B: Base, H: set<nat>, G: set<nat>, h: nat, j: nat, depth: nat, fuel: nat)
    requires Closed(m) && 0 < N(m) && 0 < depth && h < N(m) && h in B.cols
    requires j == |Without(B.cols[h], G)|
    ensures LoopOK(m, B, H, G, h, j, depth, fuel)
  {
  }

  /** One turn of the loop, as an equation on outcomes. */
  lemma LoopTurnAt<L>(m: Dlx<L>, B: Base, H: set<nat>, G: set<nat>, h: nat, j: nat, depth: nat, f1: nat)
    requires 0 < depth && h in B.cols && j < |Without(B.cols[h], G)|
    requires TurnReady(m, B, H, G, h, j, depth) && LoopOK(m, B, H, G, h, j + 1, depth, f1)
    ensures LoopOK(m, B, H, G, h, j, depth, f1 + 1)
  {
    var x := Without(B.cols[h], G)[j];
    var m1 := Cover(m, x).value;
    TryRowsTurn(m, h, x, depth, f1, m1);
    if SolveSub(m1, depth - 1).Solved? {
      PickedCons(B, m.cell, H, x, SolveSub(m1, depth - 1).picks);
    }
  }

  /** One turn of the loop, from what the deeper search and the rest of the loop promise. */
  lemma LoopTurn<L>(m: Dlx<L>, B: Base, H: set<nat>, G: set<nat>, h: nat, j: nat, depth: nat, fuel: nat, f1: nat)
    requires 0 < depth && h in B.cols && j < |Without(B.cols[h], G)| && fuel == f1 + 1
    requires TurnReady(m, B, H, G, h, j, depth) && LoopOK(m, B, H, G, h, j + 1, depth, f1)
    ensures LoopOK(m, B, H, G, h, j, depth, fuel)
  {
    LoopTurnAt(m, B, H, G, h, j, depth, f1);
  }

  /** The loop of `solve_sub` over column `h`, resumed after `j` of its items, keeps its
      promise when every remaining turn is ready. */
  lemma {:induction false} LoopRun<L>(m: Dlx<L>, B: Base, H: set<nat>, G: set<nat>, h: nat, j: nat, depth: nat, fuel: nat)
    requires Closed(m) && 0 < N(m) && 0 < depth && h < N(m) && h in B.cols
    requires j <= |Without(B.cols[h], G)| && |Without(B.cols[h], G)| - j <= fuel
    requires AllReady(m, B, H, G, h, j, depth)
    ensures LoopOK(m, B, H, G, h, j, depth, fuel)
    decreases |Without(B.cols[h], G)| - j, 1
  {
    if j < |Without(B.cols[h], G)| {
      LoopMore(m, B, H, G, h, j, depth, fuel, fuel - 1);
    } else {
      LoopEnd(m, B, H, G, h, j, depth, fuel);
    }
  }

  /** The loop keeps its promise from an item it has not passed yet. */
  lemma {:induction false} LoopMore<L>(m: Dlx<L>, B: Base, H: set<nat>, G: set<nat>, h: nat, j: nat, depth: nat, fuel: nat, f1: nat)
    requires Closed(m) && 0 < N(m) && 0 < depth && h < N(m) && h in B.cols
    requires j < |Without(B.cols[h], G)| && |Without(B.cols[h], G)| - j <= fuel && fuel == f1 + 1
    requires AllReady(m, B, H, G, h, j, depth)
    ensures LoopOK(m, B, H, G, h, j, depth, fuel)
    decreases |Without(B.cols[h], G)| - j, 0
  {
    LoopRun(m, B, H, G, h, j + 1, depth, f1);
    LoopTurn(m, B, H, G, h, j, depth, fuel, f1);
  }

  /** Selecting the `j`-th item still linked in an uncovered column `h`: `cover` and
      `uncover` of it are inverse, the state after `cover` is searchable with the item's
      row covered, and fewer columns stay uncovered. */
  lemma SelectItem<L>(m: Dlx<L>, B: Base, H: set<nat>, G: set<nat>, h: nat, j: nat)
    returns (m1: Dlx<L>, G1: set<nat>)
    requires Searchable(m, B, H, G) && h in B.ring && h !in H && h in B.cols
    requires j < |Without(B.cols[h], G)|
    ensures var x := Without(B.cols[h], G)[j];
            && x != h && RoundTrip(m, x) && m.cell[x].Item? && RowOpen(B, m.cell, H, x)
            && m.down[x] == ColAt(B, G, h, j + 1) && ColAt(B, G, h, j + 1) < N(m)
            && Cover(m, x) == Some(m1)
    ensures var H1 := After(B, m.cell, H, Without(B.cols[h], G)[j]);
            Searchable(m1, B, H1, G1) && |Open(B, H1)| < |Open(B, H)|
  {
    var x := Without(B.cols[h], G)[j];
    ColumnAt(m, B, G, h, j);
    ColumnAt(m, B, G, h, j + 1);
    var H1;
    m1, H1, G1 := CoverRow(m, B, H, G, x);
    InRowCols(B, m.cell, B.rowOf[x], x);
    OpenShrink(B, H, H1, h);
    SettledOpen(B, m.cell, H, G, x);
    assert H1 == After(B, m.cell, H, x);
  }

  /** Every turn of the loop over an uncovered column is ready, given enough depth. */
  lemma {:induction false} TurnSpec<L>(m: Dlx<L>, B: Base, H: set<nat>, G: set<nat>, h: nat, j: nat, depth: nat, d1: nat)
    requires Searchable(m, B, H, G) && h in B.ring && h !in H && h in B.cols
    requires depth == d1 + 1 && |Open(B, H)| <= depth && j < |Without(B.cols[h], G)|
    ensures TurnReady(m, B, H, G, h, j, depth)
    decreases depth, 0, 0, 0
  {
    var m1, G1 := SelectItem(m, B, H, G, h, j);
    SolveSubSpec(m1, B, After(B, m.cell, H, Without(B.cols[h], G)[j]), G1, d1);
    TurnDone(m, B, H, G, h, j, depth, m1);
  }

  /** The turn is ready once the deeper search from the state after `cover` keeps its
      promise. */
  lemma TurnDone<L>(m: Dlx<L>, B: Base, H: set<nat>, G: set<nat>, h: nat, j: nat, depth: nat, m1: Dlx<L>)
    requires 0 < depth && h in B.cols && j < |Without(B.cols[h], G)|
    requires var x := Without(B.cols[h], G)[j];
            && x != h && RoundTrip(m, x) && m.cell[x].Item? && RowOpen(B, m.cell, H, x)
            && m.down[x] == ColAt(B, G, h, j + 1) && ColAt(B, G, h, j + 1) < N(m)
            && Cover(m, x) == Some(m1)
    requires SearchOK(m1, B, After(B, m.cell, H, Without(B.cols[h], G)[j]), depth - 1)
    ensures TurnReady(m, B, H, G, h, j, depth)
  {
  }

  /** Every turn from the `j`-th item on is ready, given enough depth. */
  lemma {:induction false} ReadyFrom<L>(m: Dlx<L>, B: Base, H: set<nat>, G: set<nat>, h: nat, j: nat, depth: nat, d1: nat)
    requires Searchable(m, B, H, G) && h in B.ring && h !in H && h in B.cols
    requires depth == d1 + 1 && |Open(B, H)| <= depth && j <= |Without(B.cols[h], G)|
    ensures AllReady(m, B, H, G, h, j, depth)
    decreases depth, 0, |Without(B.cols[h], G)| - j, 1
  {
    if j < |Without(B.cols[h], G)| {
      ReadyMore(m, B, H, G, h, j, depth, d1);
    }
  }

  /** Every turn from the `j`-th item on is ready, when there is such an item. */
  lemma {:induction false} ReadyMore<L>(m: Dlx<L>, B: Base, H: set<nat>, G: set<nat>, h: nat, j: nat, depth: nat, d1: nat)
    requires Searchable(m, B, H, G) && h in B.ring && h !in H && h in B.cols
    requires depth == d1 + 1 && |Open(B, H)| <= depth && j < |Without(B.cols[h], G)|
    ensures AllReady(m, B, H, G, h, j, depth)
    decreases depth, 0, |Without(B.cols[h], G)| - j, 0
  {
    TurnSpec(m, B, H, G, h, j, depth, d1);
    ReadyFrom(m, B, H, G, h, j + 1, depth, d1);
  }

  /** `solve_sub` at a solved state throws at once with the empty selection. */
  lemma SearchDone<L>(m: Dlx<L>, B: Base, H: set<nat>, depth: nat)
    requires Closed(m) && 0 < N(m) && IsSolved(m) && Picked(B, m.cell, H, [])
    ensures SearchOK(m, B, H, depth)
  {
  }

  /** `solve_sub` at an unsolved state runs the loop over the column `h` it chooses, and
      the loop's promise from its start is the search's promise. */
  lemma SearchLoop<L>(m: Dlx<L>, B: Base, H: set<nat>, G: set<nat>, h: nat, depth: nat)
    requires Closed(m) && 0 < N(m) && 0 < depth && !IsSolved(m) && MinSizeCol(m) == Some(h)
    requires h in B.cols && m.down[h] == ColAt(B, G, h, 0)
    requires LoopOK(m, B, H, G, h, 0, depth, N(m))
    requires HasCover(B, m.cell, H) ==>
               exists j | 0 <= j < |Without(B.cols[h], G)| ::
                 HasCover(B, m.cell, After(B, m.cell, H, Without(B.cols[h], G)[j]))
    ensures SearchOK(m, B, H, depth)
  {
    SearchStep(m, h, ColAt(B, G, h, 0), depth);
  }

  /** `solve_sub` at an unsolved state runs the loop over the column it chooses. */
  lemma SearchStep<L>(m: Dlx<L>, h: nat, first: nat, depth: nat)
    requires Closed(m) && 0 < N(m) && 0 < depth && !IsSolved(m) && MinSizeCol(m) == Some(h)
    requires h < N(m) && m.down[h] == first
    ensures SolveSub(m, depth) == TryRows(m, h, first, depth, N(m))
  {
  }

  /** `solve_sub` on a searchable state with enough depth for every uncovered column keeps
      its promise. */
  lemma {:induction false} SolveSubSpec<L>(m: Dlx<L>, B: Base, H: set<nat>, G: set<nat>, depth: nat)
    requires Searchable(m, B, H, G) && |Open(B, H)| <= depth
    ensures SearchOK(m, B, H, depth)
    decreases depth, 2
  {
    RingState(m, B, H, G);
    if Open(B, H) == [] {
      PickedNone(B, m.cell, H);
      SearchDone(m, B, H, depth);
    } else {
      SearchMore(m, B, H, G, depth, depth - 1);
    }
  }

  /** `solve_sub` keeps its promise on a searchable state with an uncovered column. */
  lemma {:induction false} SearchMore<L>(m: Dlx<L>, B: Base, H: set<nat>, G: set<nat>, depth: nat, d1: nat)
    requires Searchable(m, B, H, G) && Open(B, H) != [] && |Open(B, H)| <= depth && depth == d1 + 1
    ensures SearchOK(m, B, H, depth)
    decreases depth, 1
  {
    var h := ChooseColumn(m, B, H, G);
    ReadyFrom(m, B, H, G, h, 0, depth, d1);
    LoopRun(m, B, H, G, h, 0, depth, N(m));
    CoverSplit(B, m.cell, H, G, h);
    SearchLoop(m, B, H, G, h, depth);
  }

  /** The column `solve_sub` chooses at a searchable unsolved state is an uncovered column,
      and walking down it visits at most as many items as there are nodes. */
  lemma ChooseColumn<L>(m: Dlx<L>, B: Base, H: set<nat>, G: set<nat>) returns (h: nat)
    requires Searchable(m, B, H, G) && Open(B, H) != []
    ensures !IsSolved(m) && MinSizeCol(m) == Some(h)
    ensures h in B.ring && h !in H && h in B.cols && h < N(m)
    ensures |Without(B.cols[h], G)| <= N(m)
    ensures ColAt(B, G, h, 0) < N(m) && m.down[h] == ColAt(B, G, h, 0)
  {
    RingState(m, B, H, G);
    h := ReduceMin(m.size, Open(B, H));
    ColumnBound(m, B, G, h);
    ColumnAt(m, B, G, h, 0);
  }

  /** A column links at most as many items as there are nodes. */
  lemma ColumnBound<L>(m: Dlx<L>, B: Base, G: set<nat>, h: nat)
    requires Closed(m) && BaseOK(B, m.cell) && h in B.cols
    ensures |Without(B.cols[h], G)| <= N(m)
  {
    var xs := Without(B.cols[h], G);
    WithoutDistinct(B.cols[h], G);
    forall i | 0 <= i < |xs|
      ensures xs[i] < N(m)
    {
      assert xs[i] in B.cols[h];
    }
    DistinctBound(xs, N(m));
  }

  /** `solve` on a searchable matrix with nothing covered yet: it never fails, it returns
      true exactly when the rows have an exact cover of all columns, the selection it stops
      at is such a cover, and when it returns false every cover has been undone. */
  lemma SolveSpec<L>(m: Dlx<L>, B: Base)
    requires Searchable(m, B, {}, {})
    ensures Closed(m) && 0 < N(m)
    ensures Solve(m).Some?
    ensures Solve(m) == Some(true) <==> HasCover(B, m.cell, {})
    ensures SolveSub(m, N(m)).Solved? ==> Picked(B, m.cell, {}, SolveSub(m, N(m)).picks)
    ensures SolveSub(m, N(m)).Exhausted? ==> SolveSub(m, N(m)).state == m
  {
    RingBound(m, B);
    SolveSubSpec(m, B, {}, {}, N(m));
    SolveKept(m, B);
  }

  /** The root ring holds at most as many headers as there are nodes. */
  lemma RingBound<L>(m: Dlx<L>, B: Base)
    requires Closed(m) && BaseOK(B, m.cell)
    ensures |Open(B, {})| <= N(m)
  {
    DistinctBound(B.ring, N(m));
  }

  /** The search's promise from the untouched matrix, read as the result of `solve`. */
  lemma SolveKept<L>(m: Dlx<L>, B: Base)
    requires SearchOK(m, B, {}, N(m))
    ensures Closed(m) && 0 < N(m)
    ensures Solve(m).Some?
    ensures Solve(m) == Some(true) <==> HasCover(B, m.cell, {})
    ensures SolveSub(m, N(m)).Solved? ==> Picked(B, m.cell, {}, SolveSub(m, N(m)).picks)
    ensures SolveSub(m, N(m)).Exhausted? ==> SolveSub(m, N(m)).state == m
  {
    if SolveSub(m, N(m)).Solved? {
      PickedCover(B, m.cell, {}, SolveSub(m, N(m)).picks);
    }
  }

  /** A column of size 0 chosen by `min_size_col` has no item below its header: the loop
      of `solve_sub` over it runs no branch and returns at once, the dead end that makes
      the search backtrack. */
  lemma EmptyColumnBacktracks<L>(m: Dlx<L>, B: Base, H: set<nat>, G: set<nat>, depth: nat)
    requires Struct(m, B, H, G) && depth > 0 && !IsSolved(m)
    requires MinSizeCol(m).Some? && m.size[MinSizeCol(m).value] == 0
    ensures m.down[MinSizeCol(m).value] == MinSizeCol(m).value
    ensures SolveSub(m, depth) == Exhausted(m)
  {
    RingState(m, B, H, G);
    var h := MinSizeCol(m).value;
    assert h in B.ring;
    var xs := ColList(B, h, G);
    assert |xs| == 1;
    assert m.down[Last(xs)] == xs[0];
  }
}
