/** The middle loops of `cover` and `uncover`: walking the column of one node of the
    selected row, and unlinking (or relinking) the rest of every other row met there.
    Those rows lie in other columns, so the column being walked keeps its cycle, and the
    lazy loop is the eager `UnlinkAll` / `RelinkRev` over the mates of the visited rows. */
module ColumnWalk {
  import opened Links
  import opened Cycles
  import opened Structure
  import opened Engine
  import opened RowWalk
  import opened ColumnSteps

  /** No node of the row of `z` has been unlinked from its column. */
  ghost predicate RowLive(B: Base, G: set<nat>, z: nat) {
    OnRow(B, z) && forall a | 0 <= a < |B.rows[B.rowOf[z]]| :: B.rows[B.rowOf[z]][a] !in G
  }

  /** What the column loop unlinks at `z`: nothing at the header, the mates of an item. */
  ghost function Chunk(B: Base, h: nat, z: nat): seq<nat>
    requires z == h || OnRow(B, z)
  {
    if z == h then [] else Mates(B, z)
  }

  /** A stretch of the cycle of column `h`: nodes of the column, each once, and every item
      among them on a live row. */
  ghost predicate Visits(B: Base, G: set<nat>, h: nat, zs: seq<nat>) {
    && h in B.cols && Distinct(zs)
    && (forall k | 0 <= k < |zs| :: zs[k] in ColList(B, h, G))
    && (forall k | 0 <= k < |zs| && zs[k] != h :: RowLive(B, G, zs[k]))
  }

  /** Everything the column loop unlinks while it visits `zs`, in order. */
  ghost function SweepMates(B: Base, h: nat, zs: seq<nat>): seq<nat>
    requires forall k | 0 <= k < |zs| :: zs[k] == h || OnRow(B, zs[k])
    decreases |zs|
  {
    if |zs| == 0 then [] else Chunk(B, h, zs[0]) + SweepMates(B, h, zs[1..])
  }

  /** The rows of the items among `zs`. */
  ghost function RowsOf(B: Base, h: nat, zs: seq<nat>): set<nat> {
    set k | 0 <= k < |zs| && zs[k] != h && zs[k] in B.rowOf :: B.rowOf[zs[k]]
  }

  lemma VisitsTail(B: Base, G: set<nat>, h: nat, zs: seq<nat>)
    requires Visits(B, G, h, zs) && |zs| > 0
    ensures Visits(B, G, h, zs[1..])
    ensures zs[0] !in zs[1..]
  {
    var t := zs[1..];
    forall k | 0 <= k < |t|
      ensures t[k] in ColList(B, h, G) && (t[k] != h ==> RowLive(B, G, t[k])) && t[k] != zs[0]
    {
      assert t[k] == zs[k + 1];
    }
  }

  /** An item visited in column `h` is an item of that column. */
  lemma VisitedItem<L>(B: Base, cell: seq<Cell<L>>, G: set<nat>, h: nat, z: nat)
    requires BaseOK(B, cell) && h in B.cols && z in ColList(B, h, G) && z != h
    ensures z < |cell| && cell[z].Item? && HdOf(cell, z) == h && z in B.cols[h] && z !in G
  {
    var k := IndexOf(ColList(B, h, G), z);
    ColMembers(B, cell, h, G, k);
  }

  /** The mates of a visited item are items on its row, none unlinked yet, none in the
      column being walked. */
  lemma ChunkFacts<L>(B: Base, cell: seq<Cell<L>>, G: set<nat>, h: nat, z: nat)
    requires BaseOK(B, cell) && h in B.cols && z in ColList(B, h, G) && z != h && RowLive(B, G, z)
    ensures Distinct(Chunk(B, h, z))
    ensures forall k | 0 <= k < |Chunk(B, h, z)| ::
              && Chunk(B, h, z)[k] < |cell| && cell[Chunk(B, h, z)[k]].Item?
              && Chunk(B, h, z)[k] !in G && Chunk(B, h, z)[k] !in B.cols[h]
              && Chunk(B, h, z)[k] in B.rowOf && B.rowOf[Chunk(B, h, z)[k]] == B.rowOf[z]
  {
    VisitedItem(B, cell, G, h, z);
    MatesFacts(B, cell, z);
    var c := Chunk(B, h, z);
    forall k | 0 <= k < |c|
      ensures c[k] !in G
    {
      var a := IndexOf(B.rows[B.rowOf[z]], c[k]);
    }
  }

  /** Each node swept over `zs` is an item still linked, outside column `h`, on the row
      of an item of `zs`. */
  lemma {:induction false} SweepFacts<L>(B: Base, cell: seq<Cell<L>>, G: set<nat>, h: nat, zs: seq<nat>)
    requires BaseOK(B, cell) && Visits(B, G, h, zs)
    ensures forall k | 0 <= k < |SweepMates(B, h, zs)| ::
              && SweepMates(B, h, zs)[k] < |cell| && cell[SweepMates(B, h, zs)[k]].Item?
              && SweepMates(B, h, zs)[k] !in G && SweepMates(B, h, zs)[k] !in B.cols[h]
              && SweepMates(B, h, zs)[k] in B.rowOf
              && B.rowOf[SweepMates(B, h, zs)[k]] in RowsOf(B, h, zs)
    decreases |zs|
  {
    if |zs| > 0 {
      var z := zs[0];
      var t := zs[1..];
      VisitsTail(B, G, h, zs);
      SweepFacts(B, cell, G, h, t);
      var c := Chunk(B, h, z);
      var rest := SweepMates(B, h, t);
      var all: seq<nat> := c + rest;
      assert SweepMates(B, h, zs) == all;
      if z != h {
        ChunkFacts(B, cell, G, h, z);
      }
      forall k | 0 <= k < |all|
        ensures all[k] < |cell| && cell[all[k]].Item? && all[k] !in G && all[k] !in B.cols[h]
        ensures all[k] in B.rowOf && B.rowOf[all[k]] in RowsOf(B, h, zs)
      {
        if k < |c| {
          assert all[k] == c[k] && zs[0] == z;
        } else {
          var r := B.rowOf[rest[k - |c|]];
          var j :| 0 <= j < |t| && t[j] != h && t[j] in B.rowOf && B.rowOf[t[j]] == r;
          assert zs[j + 1] == t[j];
        }
      }
    }
  }

  /** The later visited items lie on other rows than the first one. */
  lemma RowApart<L>(B: Base, cell: seq<Cell<L>>, G: set<nat>, h: nat, zs: seq<nat>)
    requires BaseOK(B, cell) && Visits(B, G, h, zs) && |zs| > 0 && zs[0] != h
    ensures zs[0] in B.rowOf && B.rowOf[zs[0]] !in RowsOf(B, h, zs[1..])
  {
    var t := zs[1..];
    VisitsTail(B, G, h, zs);
    VisitedItem(B, cell, G, h, zs[0]);
    if B.rowOf[zs[0]] in RowsOf(B, h, t) {
      var i :| 0 <= i < |t| && t[i] != h && t[i] in B.rowOf && B.rowOf[t[i]] == B.rowOf[zs[0]];
      VisitedItem(B, cell, G, h, t[i]);
      SameColumnRows(B, cell, zs[0], t[i]);
    }
  }

  /** The first visited item's mates are swept by no later visit. */
  lemma ChunkApart<L>(B: Base, cell: seq<Cell<L>>, G: set<nat>, h: nat, zs: seq<nat>)
    requires BaseOK(B, cell) && Visits(B, G, h, zs) && |zs| > 0 && zs[0] != h
    ensures forall y | y in Chunk(B, h, zs[0]) :: y !in SweepMates(B, h, zs[1..])
  {
    var z := zs[0];
    var t := zs[1..];
    VisitsTail(B, G, h, zs);
    ChunkFacts(B, cell, G, h, z);
    SweepFacts(B, cell, G, h, t);
    RowApart(B, cell, G, h, zs);
    var c := Chunk(B, h, z);
    var rest := SweepMates(B, h, t);
    forall y | y in c
      ensures y !in rest
    {
      var k := IndexOf(c, y);
      assert B.rowOf[y] == B.rowOf[z];
    }
  }

  /** No node is swept twice: the visited items lie on different rows. */
  lemma {:induction false} SweepDistinct<L>(B: Base, cell: seq<Cell<L>>, G: set<nat>, h: nat, zs: seq<nat>)
    requires BaseOK(B, cell) && Visits(B, G, h, zs)
    ensures Distinct(SweepMates(B, h, zs))
    decreases |zs|
  {
    if |zs| > 0 {
      var z := zs[0];
      var t := zs[1..];
      VisitsTail(B, G, h, zs);
      SweepDistinct(B, cell, G, h, t);
      var c := Chunk(B, h, z);
      var rest := SweepMates(B, h, t);
      assert SweepMates(B, h, zs) == c + rest;
      if z != h {
        ChunkFacts(B, cell, G, h, z);
        ChunkApart(B, cell, G, h, zs);
        DistinctAppend(c, rest);
      } else {
        assert c + rest == rest;
      }
    }
  }

  /** The mates swept over `zs` may be unlinked one by one. */
  lemma SweepPending<L>(m: Dlx<L>, B: Base, G: set<nat>, h: nat, zs: seq<nat>)
    requires Closed(m) && BaseOK(B, m.cell) && Visits(B, G, h, zs)
    ensures Pending(m, G, SweepMates(B, h, zs))
    ensures forall k | 0 <= k < |SweepMates(B, h, zs)| :: SweepMates(B, h, zs)[k] !in B.cols[h]
  {
    SweepFacts(B, m.cell, G, h, zs);
    SweepDistinct(B, m.cell, G, h, zs);
  }

  /** Sweeping keeps the shape invariant, leaves the walked column's cycle as it was, and
      relinking the swept nodes from the back restores the state. */
  lemma SweepStruct<L>(m: Dlx<L>, B: Base, H: set<nat>, G: set<nat>, h: nat, zs: seq<nat>)
    requires Struct(m, B, H, G) && Visits(B, G, h, zs)
    ensures Pending(m, G, SweepMates(B, h, zs))
    ensures Struct(UnlinkAll(m, SweepMates(B, h, zs)), B, H, G + Elems(SweepMates(B, h, zs)))
    ensures RelinkRev(UnlinkAll(m, SweepMates(B, h, zs)), SweepMates(B, h, zs)) == m
    ensures ColList(B, h, G + Elems(SweepMates(B, h, zs))) == ColList(B, h, G)
  {
    SweepPending(m, B, G, h, zs);
    StepsUD(m, B, H, G, SweepMates(B, h, zs));
    WithoutDisjoint(B.cols[h], G, Elems(SweepMates(B, h, zs)));
  }

  /** After the mates of the first item of a stretch are unlinked, the rest of the stretch
      is still a stretch of the same column: the mates lie in other columns, and on a row
      none of the later items shares. */
  lemma VisitsAfter<L>(B: Base, cell: seq<Cell<L>>, G: set<nat>, h: nat, zs: seq<nat>)
    requires BaseOK(B, cell) && Visits(B, G, h, zs) && |zs| > 0 && zs[0] != h
    ensures ColList(B, h, G + Elems(Mates(B, zs[0]))) == ColList(B, h, G)
    ensures Visits(B, G + Elems(Mates(B, zs[0])), h, zs[1..])
  {
    var z := zs[0];
    var t := zs[1..];
    var G1 := G + Elems(Mates(B, z));
    VisitsTail(B, G, h, zs);
    ChunkFacts(B, cell, G, h, z);
    assert Chunk(B, h, z) == Mates(B, z);
    WithoutDisjoint(B.cols[h], G, Elems(Mates(B, z)));
    RowApart(B, cell, G, h, zs);
    forall k | 0 <= k < |t| && t[k] != h
      ensures RowLive(B, G1, t[k])
    {
      assert B.rowOf[t[k]] in RowsOf(B, h, t);
      var R := B.rows[B.rowOf[t[k]]];
      forall a | 0 <= a < |R|
        ensures R[a] !in G1
      {
        assert B.rowOf[R[a]] != B.rowOf[z];
      }
    }
  }

  /** A stretch walked along `next` keeps its shape under any other linking of the same
      cycle: the pointers out of its nodes are the same. */
  lemma ChainKeep(next: seq<nat>, prev: seq<nat>, next': seq<nat>, prev': seq<nat>, col: seq<nat>, x: nat, zs: seq<nat>)
    requires Linked(next, prev, col) && Linked(next', prev', col) && |next'| == |next|
    requires |zs| > 0 && Chain(next, x, zs[0], zs)
    requires forall k | 0 <= k < |zs| :: zs[k] in col
    ensures Chain(next', x, next'[zs[0]], zs[1..])
  {
    LinkedSame(next, prev, next', prev', col);
    forall k | 0 <= k < |zs|
      ensures next'[zs[k]] == next[zs[k]]
    {
      var i := IndexOf(col, zs[k]);
    }
    ChainTail(next, x, zs[0], zs, next');
  }

  /** Every node of `ys` is an item of `m`. */
  ghost predicate Items<L>(m: Dlx<L>, ys: seq<nat>) {
    forall k | 0 <= k < |ys| :: ys[k] < N(m) && m.cell[ys[k]].Item?
  }

  /** Items of the same arena, listed one after the other. */
  lemma ItemsAppend<L>(m: Dlx<L>, m1: Dlx<L>, a: seq<nat>, b: seq<nat>)
    requires Items(m, a) && Items(m1, b) && m1.cell == m.cell
    ensures Items(m, a + b)
  {
    forall k | 0 <= k < |a + b|
      ensures (a + b)[k] < N(m) && m.cell[(a + b)[k]].Item?
    {
      if k < |a| { assert (a + b)[k] == a[k]; } else { assert (a + b)[k] == b[k - |a|]; }
    }
  }

  /** Where the column loop of `cover` may stand: the matrix is well formed, `zs` is the
      rest of the walk down column `h` from `cur` back to `x`, and every row met is live. */
  ghost predicate Sweepable<L>(m: Dlx<L>, B: Base, H: set<nat>, G: set<nat>, x: nat, h: nat, cur: nat, zs: seq<nat>) {
    && Struct(m, B, H, G) && Visits(B, G, h, zs) && x < N(m) && cur < N(m)
    && Chain(m.down, x, cur, zs)
  }

  /** Passing over the header leaves a walk from the node below it. */
  lemma HeadVisit<L>(m: Dlx<L>, B: Base, H: set<nat>, G: set<nat>, x: nat, h: nat, zs: seq<nat>)
    requires Sweepable(m, B, H, G, x, h, h, zs) && |zs| > 0
    ensures h != x && Sweepable(m, B, H, G, x, h, m.down[h], zs[1..])
    ensures SweepMates(B, h, zs) == SweepMates(B, h, zs[1..])
  {
    VisitsTail(B, G, h, zs);
    ChainTail(m.down, x, h, zs, m.down);
  }

  /** The visit of the first item `z` of `zs`: unlinking the mates of `z` keeps the
      invariant, the rest of the walk and the down pointers along it. */
  lemma CoverVisit<L>(m: Dlx<L>, B: Base, H: set<nat>, G: set<nat>, x: nat, h: nat, zs: seq<nat>)
    requires |zs| > 0 && Sweepable(m, B, H, G, x, h, zs[0], zs) && zs[0] != h
    ensures Items(m, Mates(B, zs[0]))
    ensures UnlinkRow(m, zs[0], m.right[zs[0]], N(m)) == Some(UnlinkAll(m, Mates(B, zs[0])))
    ensures Sweepable(UnlinkAll(m, Mates(B, zs[0])), B, H, G + Elems(Mates(B, zs[0])), x, h,
                      UnlinkAll(m, Mates(B, zs[0])).down[zs[0]], zs[1..])
  {
    var z := zs[0];
    ChunkFacts(B, m.cell, G, h, z);
    assert Chunk(B, h, z) == Mates(B, z);
    var m1 := UnlinkAll(m, Mates(B, z));
    VisitedItem(B, m.cell, G, h, z);
    assert z in B.rows[B.rowOf[z]];
    UnlinkMates(m, B, z);
    StepsUD(m, B, H, G, Mates(B, z));
    VisitsAfter(B, m.cell, G, h, zs);
    ChainKeep(m.down, m.up, m1.down, m1.up, ColList(B, h, G), x, zs);
  }

  /** After the visit of the first item, the rest of the walk finishes the loop. */
  lemma CoverVisitDone<L>(m: Dlx<L>, B: Base, x: nat, h: nat, zs: seq<nat>, fuel: nat, f1: nat, m1: Dlx<L>)
    requires Closed(m) && x < N(m) && fuel == f1 + 1
    requires |zs| > 0 && zs[0] < N(m) && zs[0] != x && zs[0] != h
    requires forall k | 0 <= k < |zs| :: zs[k] == h || OnRow(B, zs[k])
    requires Items(m, SweepMates(B, h, zs))
    requires Items(m, Mates(B, zs[0])) && m1 == UnlinkAll(m, Mates(B, zs[0]))
    requires UnlinkRow(m, zs[0], m.right[zs[0]], N(m)) == Some(m1)
    requires Items(m1, SweepMates(B, h, zs[1..]))
    requires CoverColumn(m1, x, h, m1.down[zs[0]], f1) == Some(UnlinkAll(m1, SweepMates(B, h, zs[1..])))
    ensures CoverColumn(m, x, h, zs[0], fuel) == Some(UnlinkAll(m, SweepMates(B, h, zs)))
  {
    var z := zs[0];
    assert SweepMates(B, h, zs) == Mates(B, z) + SweepMates(B, h, zs[1..]);
    CoverColumnCons(m, x, h, z, fuel, f1, Mates(B, z), SweepMates(B, h, zs[1..]), m1);
  }

  /** Chaining one visit to the rest of the walk. */
  lemma CoverColumnCons<L>(m: Dlx<L>, x: nat, h: nat, z: nat, fuel: nat, f1: nat, a: seq<nat>, b: seq<nat>, m1: Dlx<L>)
    requires Closed(m) && x < N(m) && z < N(m) && z != x && z != h && fuel == f1 + 1
    requires Items(m, a) && UnlinkRow(m, z, m.right[z], N(m)) == Some(m1) && m1 == UnlinkAll(m, a)
    requires Items(m1, b) && CoverColumn(m1, x, h, m1.down[z], f1) == Some(UnlinkAll(m1, b))
    ensures Items(m, a + b)
    ensures CoverColumn(m, x, h, z, fuel) == Some(UnlinkAll(m, a + b))
  {
    ItemsAppend(m, m1, a, b);
    UnlinkAllAppend(m, a, b);
    CoverColumnItemStep(m, x, h, z, f1, m1);
  }

  /** The lazy column loop of `cover`, resumed at `cur` with `zs` still to visit, is the
      eager unlinking of their mates. */
  lemma {:induction false} CoverColumnWalk<L>(m: Dlx<L>, B: Base, H: set<nat>, G: set<nat>, x: nat, h: nat, cur: nat, zs: seq<nat>, fuel: nat)
    requires Sweepable(m, B, H, G, x, h, cur, zs) && fuel >= |zs|
    ensures Pending(m, G, SweepMates(B, h, zs))
    ensures CoverColumn(m, x, h, cur, fuel) == Some(UnlinkAll(m, SweepMates(B, h, zs)))
    decreases |zs|, 1
  {
    if |zs| == 0 {
      SweepPending(m, B, G, h, zs);
      assert UnlinkAll(m, SweepMates(B, h, zs)) == m;
    } else if cur == h {
      CoverHeadWalk(m, B, H, G, x, h, zs, fuel);
    } else {
      CoverItemWalk(m, B, H, G, x, h, zs, fuel);
    }
  }

  /** `CoverColumnWalk` standing at the header. */
  lemma {:induction false} CoverHeadWalk<L>(m: Dlx<L>, B: Base, H: set<nat>, G: set<nat>, x: nat, h: nat, zs: seq<nat>, fuel: nat)
    requires |zs| > 0 && Sweepable(m, B, H, G, x, h, h, zs) && fuel >= |zs|
    ensures Pending(m, G, SweepMates(B, h, zs))
    ensures CoverColumn(m, x, h, h, fuel) == Some(UnlinkAll(m, SweepMates(B, h, zs)))
    decreases |zs|, 0
  {
    SweepPending(m, B, G, h, zs);
    var f1: nat :| f1 + 1 == fuel;
    var t := zs[1..];
    HeadVisit(m, B, H, G, x, h, zs);
    CoverColumnWalk(m, B, H, G, x, h, m.down[h], t, f1);
    CoverColumnHeadFuel(m, x, h, fuel, f1);
  }

  /** `CoverColumnWalk` standing at an item. */
  lemma {:induction false} CoverItemWalk<L>(m: Dlx<L>, B: Base, H: set<nat>, G: set<nat>, x: nat, h: nat, zs: seq<nat>, fuel: nat)
    requires |zs| > 0 && Sweepable(m, B, H, G, x, h, zs[0], zs) && zs[0] != h && fuel >= |zs|
    ensures Pending(m, G, SweepMates(B, h, zs))
    ensures CoverColumn(m, x, h, zs[0], fuel) == Some(UnlinkAll(m, SweepMates(B, h, zs)))
    decreases |zs|, 0
  {
    SweepPending(m, B, G, h, zs);
    var f1: nat :| f1 + 1 == fuel;
    var z := zs[0];
    CoverVisit(m, B, H, G, x, h, zs);
    var m1 := UnlinkAll(m, Mates(B, z));
    CoverColumnWalk(m1, B, H, G + Elems(Mates(B, z)), x, h, m1.down[z], zs[1..], f1);
    CoverVisitDone(m, B, x, h, zs, fuel, f1, m1);
  }
}
