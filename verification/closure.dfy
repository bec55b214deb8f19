/** Why `cover` never meets a half-removed row. Outside the covered columns, every item
    still linked lies on a row that is wholly linked and meets no covered column. `cover`
    keeps this: a row met in a column it covers is taken out of every other column, and
    a row it does not meet keeps all its nodes. While `cover` walks the selected row, that
    row is exempt from the second half, since its own columns are the ones being covered. */
module Closure {
  import opened Links
  import opened Cycles
  import opened Structure
  import opened RowWalk
  import opened ColumnWalk
  import opened NodeStep

  /** Every node of row `r` is an item in a column outside `H`. */
  ghost predicate RowAvoids<L>(B: Base, cell: seq<Cell<L>>, H: set<nat>, r: nat) {
    && r < |B.rows|
    && forall a | 0 <= a < |B.rows[r]| ::
         B.rows[r][a] < |cell| && cell[B.rows[r][a]].Item? && HdOf(cell, B.rows[r][a]) !in H
  }

  /** Every node of the row of `z` is an item in a column outside `H`. */
  ghost predicate RowOpen<L>(B: Base, cell: seq<Cell<L>>, H: set<nat>, z: nat) {
    OnRow(B, z) && RowAvoids(B, cell, H, B.rowOf[z])
  }

  /** Nothing is unlinked from a row that meets no covered column. */
  ghost predicate Untouched<L>(B: Base, cell: seq<Cell<L>>, H: set<nat>, G: set<nat>) {
    forall r, a | 0 <= r < |B.rows| && 0 <= a < |B.rows[r]| && RowAvoids(B, cell, H, r) :: B.rows[r][a] !in G
  }

  /** Every item still linked in a column outside `H` lies on a wholly linked row that
      meets no column of `H`. */
  ghost predicate Settled<L>(B: Base, cell: seq<Cell<L>>, H: set<nat>, G: set<nat>) {
    forall z | 0 <= z < |cell| && cell[z].Item? && z !in G && cell[z].header !in H ::
      RowLive(B, G, z) && RowOpen(B, cell, H, z)
  }

  /** `Settled` while the columns of row `r` are being covered: row `r` is wholly linked
      and may meet covered columns. */
  ghost predicate MidSettled<L>(B: Base, cell: seq<Cell<L>>, H: set<nat>, G: set<nat>, r: nat) {
    && r < |B.rows| && (forall a | 0 <= a < |B.rows[r]| :: B.rows[r][a] !in G)
    && forall z | 0 <= z < |cell| && cell[z].Item? && z !in G && cell[z].header !in H ::
         RowLive(B, G, z) && (B.rowOf[z] == r || RowOpen(B, cell, H, z))
  }

  /** Before `cover` of a linked item in an uncovered column, the closure holds with the
      item's row exempt. */
  lemma SettledStart<L>(B: Base, cell: seq<Cell<L>>, H: set<nat>, G: set<nat>, sel: nat)
    requires Settled(B, cell, H, G) && sel < |cell| && cell[sel].Item? && sel !in G && cell[sel].header !in H
    ensures OnRow(B, sel) && MidSettled(B, cell, H, G, B.rowOf[sel])
  {
  }

  /** At a node of the selected row whose column is not covered yet, a pass may run. */
  lemma SettledReady<L>(B: Base, cell: seq<Cell<L>>, H: set<nat>, G: set<nat>, r: nat, n: nat)
    requires BaseOK(B, cell) && MidSettled(B, cell, H, G, r)
    requires n < |cell| && cell[n].Item? && n in B.rowOf && B.rowOf[n] == r && HdOf(cell, n) !in H
    ensures n !in G && HdOf(cell, n) in B.cols && ColumnLive(B, G, HdOf(cell, n))
  {
    var a := IndexOf(B.rows[r], n);
    var h := HdOf(cell, n);
    forall z | z in B.cols[h] && z !in G
      ensures RowLive(B, G, z)
    {
      var b := IndexOf(B.cols[h], z);
    }
  }

  /** A row holds at most one node of each column. */
  lemma RowColumnOnce<L>(B: Base, cell: seq<Cell<L>>, r: nat, n: nat, z: nat)
    requires BaseOK(B, cell) && r < |B.rows| && n in B.rows[r] && z in B.rows[r]
    requires HdOf(cell, n) == HdOf(cell, z)
    ensures z == n
  {
    var i := IndexOf(B.rows[r], n);
    var j := IndexOf(B.rows[r], z);
  }

  /** A node of a row met by the pass, other than the row's node in the column, is swept. */
  lemma SweptMember(B: Base, G: set<nat>, h: nat, n: nat, w: nat, y: nat)
    requires h in B.cols && w in B.cols[h] && w !in G && w != n && OnRow(B, w)
    requires y in B.rows[B.rowOf[w]] && y != w
    ensures y in Swept(B, G, h, n)
  {
  }

  /** A node whose row has no linked node in the column, other than `n` or itself, is not
      swept. */
  lemma NotSwept<L>(B: Base, cell: seq<Cell<L>>, G: set<nat>, h: nat, n: nat, y: nat)
    requires BaseOK(B, cell) && h in B.cols && OnRow(B, y)
    requires forall w | w in B.rows[B.rowOf[y]] && w in B.cols[h] && w !in G :: w == n || w == y
    ensures y !in Swept(B, G, h, n)
  {
    forall w | w in B.cols[h] && w !in G && w != n && OnRow(B, w) && y in B.rows[B.rowOf[w]]
      ensures w == y
    {
      var c := IndexOf(B.rows[B.rowOf[w]], y);
    }
  }

  /** No node of the selected row is swept by a pass at one of its own nodes. */
  lemma SweptApart<L>(B: Base, cell: seq<Cell<L>>, G: set<nat>, r: nat, n: nat)
    requires BaseOK(B, cell) && r < |B.rows|
    requires n < |cell| && cell[n].Item? && n in B.rowOf && B.rowOf[n] == r
    ensures forall a | 0 <= a < |B.rows[r]| :: B.rows[r][a] !in Swept(B, G, HdOf(cell, n), n)
  {
    var h := HdOf(cell, n);
    forall w | w in B.rows[r] && w in B.cols[h]
      ensures w == n
    {
      var b := IndexOf(B.cols[h], w);
      RowColumnOnce(B, cell, r, n, w);
    }
    forall a | 0 <= a < |B.rows[r]|
      ensures B.rows[r][a] !in Swept(B, G, h, n)
    {
      NotSwept(B, cell, G, h, n, B.rows[r][a]);
    }
  }

  /** A live row other than the selected one is either met by the pass, and then swept
      apart from its node in the column, or keeps all its nodes and meets no column the pass
      covers. */
  lemma SweptOther<L>(B: Base, cell: seq<Cell<L>>, G: set<nat>, n: nat, z: nat)
    requires BaseOK(B, cell) && n < |cell| && cell[n].Item? && OnRow(B, n)
    requires z < |cell| && cell[z].Item? && HdOf(cell, z) != HdOf(cell, n)
    requires RowLive(B, G, z) && B.rowOf[z] != B.rowOf[n]
    ensures z in Swept(B, G, HdOf(cell, n), n)
            || forall a | 0 <= a < |B.rows[B.rowOf[z]]| ::
                 B.rows[B.rowOf[z]][a] !in Swept(B, G, HdOf(cell, n), n)
                 && HdOf(cell, B.rows[B.rowOf[z]][a]) != HdOf(cell, n)
  {
    var h := HdOf(cell, n);
    var R := B.rows[B.rowOf[z]];
    if a :| 0 <= a < |R| && HdOf(cell, R[a]) == h {
      var i := IndexOf(R, z);
      SweptMember(B, G, h, n, R[a], z);
    } else {
      forall w | w in R && w in B.cols[h]
        ensures false
      {
        var b := IndexOf(R, w);
      }
      forall a | 0 <= a < |R|
        ensures R[a] !in Swept(B, G, h, n)
      {
        NotSwept(B, cell, G, h, n, R[a]);
      }
    }
  }

  /** A pass at a node of the selected row keeps the closure: the header joins `H` and the
      swept nodes join `G`. */
  lemma SettledStep<L>(B: Base, cell: seq<Cell<L>>, H: set<nat>, G: set<nat>, r: nat, n: nat)
    requires BaseOK(B, cell) && MidSettled(B, cell, H, G, r)
    requires n < |cell| && cell[n].Item? && n in B.rowOf && B.rowOf[n] == r && HdOf(cell, n) !in H
    ensures HdOf(cell, n) in B.cols
    ensures MidSettled(B, cell, H + {HdOf(cell, n)}, G + Swept(B, G, HdOf(cell, n), n), r)
  {
    var h := HdOf(cell, n);
    SettledReady(B, cell, H, G, r, n);
    var S := Swept(B, G, h, n);
    SweptApart(B, cell, G, r, n);
    forall z | 0 <= z < |cell| && cell[z].Item? && z !in G + S && cell[z].header !in H + {h}
      ensures RowLive(B, G + S, z) && (B.rowOf[z] == r || RowOpen(B, cell, H + {h}, z))
    {
      if B.rowOf[z] != r {
        SweptOther(B, cell, G, n, z);
      }
    }
  }

  /** Once every column of the selected row is covered, the exemption is no longer needed. */
  lemma SettledEnd<L>(B: Base, cell: seq<Cell<L>>, H: set<nat>, G: set<nat>, r: nat)
    requires BaseOK(B, cell) && MidSettled(B, cell, H, G, r)
    requires forall a | 0 <= a < |B.rows[r]| :: HdOf(cell, B.rows[r][a]) in H
    ensures Settled(B, cell, H, G)
  {
    forall z | 0 <= z < |cell| && cell[z].Item? && z !in G && cell[z].header !in H
      ensures B.rowOf[z] != r
    {
      if B.rowOf[z] == r {
        var a := IndexOf(B.rows[r], z);
      }
    }
  }

  /** A pass unlinks nothing from a row that avoids the column it covers. */
  lemma UntouchedStep<L>(B: Base, cell: seq<Cell<L>>, H: set<nat>, G: set<nat>, h: nat, n: nat)
    requires BaseOK(B, cell) && Untouched(B, cell, H, G) && h in B.cols
    ensures Untouched(B, cell, H + {h}, G + Swept(B, G, h, n))
  {
    forall r, a | 0 <= r < |B.rows| && 0 <= a < |B.rows[r]| && RowAvoids(B, cell, H + {h}, r)
      ensures B.rows[r][a] !in Swept(B, G, h, n)
    {
      var y := B.rows[r][a];
      forall w | w in B.rows[r]
        ensures w !in B.cols[h]
      {
        var b := IndexOf(B.rows[r], w);
        assert HdOf(cell, w) != h;
      }
      NotSwept(B, cell, G, h, n, y);
    }
  }
}
