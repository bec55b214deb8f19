/** The column loop of `uncover` undoes the column loop of `cover`. Walking up from the
    node above `x`, it meets the visited nodes in the opposite order, and at each item
    relinks the row that `cover` unlinked there; the states it passes through are those of
    `cover`, read backwards. */
module UncoverWalk {
  import opened Links
  import opened Cycles
  import opened Structure
  import opened Engine
  import opened RowWalk
  import opened ColumnSteps
  import opened ColumnWalk

  /** The row loop of `uncover` at the first visited item undoes what the row loop of
      `cover` did there. */
  lemma UncoverVisit<L>(m: Dlx<L>, B: Base, H: set<nat>, G: set<nat>, x: nat, h: nat, zs: seq<nat>)
    requires |zs| > 0 && Sweepable(m, B, H, G, x, h, zs[0], zs) && zs[0] != h
    ensures Items(m, Mates(B, zs[0]))
    ensures RelinkRow(UnlinkAll(m, Mates(B, zs[0])), zs[0], UnlinkAll(m, Mates(B, zs[0])).left[zs[0]], N(m))
            == Some(m)
  {
    var z := zs[0];
    ChunkFacts(B, m.cell, G, h, z);
    assert Chunk(B, h, z) == Mates(B, z);
    VisitedItem(B, m.cell, G, h, z);
    assert z in B.rows[B.rowOf[z]];
    StepsUD(m, B, H, G, Mates(B, z));
    var m1 := UnlinkAll(m, Mates(B, z));
    RelinkMates(m1, B, z);
  }

  /** Following `next` from `z` leads to the first node of a chain; on a cycle through
      `z`, the `prev` of that node is `z` again. */
  lemma UpAfterVisit(next: seq<nat>, prev: seq<nat>, col: seq<nat>, x: nat, z: nat, zs: seq<nat>)
    requires Linked(next, prev, col) && z in col && |zs| > 0 && Chain(next, x, next[z], zs)
    ensures zs[0] < |prev| && prev[zs[0]] == z
  {
    LinkedBack(next, prev, col, z);
  }

  /** What `cover` does at a visited node: nothing at the header, unlink the mates of an
      item. */
  ghost function Visit<L>(m: Dlx<L>, B: Base, h: nat, z: nat): (r: Dlx<L>)
    requires Closed(m) && (z == h || OnRow(B, z)) && Items(m, Chunk(B, h, z))
    ensures Closed(r) && r.cell == m.cell
  {
    UnlinkAll(m, Chunk(B, h, z))
  }

  /** The column loop of `uncover` can retrace the visits `zs` of `cover` from `m`: each
      visit to an item is undone by the row loop of `uncover`, and walking up from the
      next visited node leads back to it. */
  ghost predicate Undoable<L>(m: Dlx<L>, B: Base, x: nat, h: nat, zs: seq<nat>)
    decreases |zs|
  {
    && Closed(m) && x < N(m) && |zs| > 0 && zs[0] != x
    && (forall k | 0 <= k < |zs| :: zs[k] < N(m) && (zs[k] == h || OnRow(B, zs[k])))
    && Items(m, Chunk(B, h, zs[0]))
    && (zs[0] != h ==>
          RelinkRow(Visit(m, B, h, zs[0]), zs[0], Visit(m, B, h, zs[0]).left[zs[0]], N(m)) == Some(m))
    && (|zs| > 1 ==>
          && Visit(m, B, h, zs[0]).up[zs[1]] == zs[0]
          && Undoable(Visit(m, B, h, zs[0]), B, x, h, zs[1..]))
  }

  /** From the state `cover` leaves after visiting `zs`, the column loop of `uncover`,
      started at the last of them with `F` steps of fuel, comes back to the state before
      the first one, standing above it, with `|zs|` steps fewer. */
  lemma {:induction false} UncoverColumnWalk<L>(m: Dlx<L>, B: Base, x: nat, h: nat, zs: seq<nat>, fuel: nat, F: nat)
    requires Undoable(m, B, x, h, zs) && F == fuel + |zs|
    ensures Items(m, SweepMates(B, h, zs))
    ensures UncoverColumn(UnlinkAll(m, SweepMates(B, h, zs)), x, h, Last(zs), F)
            == UncoverColumn(m, x, h, m.up[zs[0]], fuel)
    decreases |zs|, 1
  {
    if |zs| == 1 {
      UncoverColumnLast(m, B, x, h, zs, fuel, F);
    } else {
      UncoverColumnMore(m, B, x, h, zs, fuel, F);
    }
  }

  /** `UncoverColumnWalk` for a single visit. */
  lemma UncoverColumnLast<L>(m: Dlx<L>, B: Base, x: nat, h: nat, zs: seq<nat>, fuel: nat, F: nat)
    requires Undoable(m, B, x, h, zs) && F == fuel + |zs| && |zs| == 1
    ensures Items(m, SweepMates(B, h, zs))
    ensures UncoverColumn(UnlinkAll(m, SweepMates(B, h, zs)), x, h, Last(zs), F)
            == UncoverColumn(m, x, h, m.up[zs[0]], fuel)
  {
    var z := zs[0];
    var m1 := Visit(m, B, h, z);
    assert SweepMates(B, h, zs) == Chunk(B, h, z) + SweepMates(B, h, zs[1..]);
    assert SweepMates(B, h, zs) == Chunk(B, h, z);
    UncoverStepDone(UnlinkAll(m, SweepMates(B, h, zs)), m1, m1, m, B, x, h, z, Last(zs), z, F, z, fuel + 1, fuel);
  }

  /** `UncoverColumnWalk` for two visits or more: the later ones first, then the first. */
  lemma {:induction false} UncoverColumnMore<L>(m: Dlx<L>, B: Base, x: nat, h: nat, zs: seq<nat>, fuel: nat, F: nat)
    requires Undoable(m, B, x, h, zs) && F == fuel + |zs| && |zs| > 1
    ensures Items(m, SweepMates(B, h, zs))
    ensures UncoverColumn(UnlinkAll(m, SweepMates(B, h, zs)), x, h, Last(zs), F)
            == UncoverColumn(m, x, h, m.up[zs[0]], fuel)
    decreases |zs|, 0
  {
    var z := zs[0];
    var t := zs[1..];
    var f2 := fuel + 1;
    var m1 := Visit(m, B, h, z);
    assert SweepMates(B, h, zs) == Chunk(B, h, z) + SweepMates(B, h, t);
    UncoverColumnWalk(m1, B, x, h, t, f2, F);
    ItemsAppend(m, m1, Chunk(B, h, z), SweepMates(B, h, t));
    UnlinkAllAppend(m, Chunk(B, h, z), SweepMates(B, h, t));
    assert Last(t) == Last(zs);
    UncoverStepDone(UnlinkAll(m, SweepMates(B, h, zs)), UnlinkAll(m1, SweepMates(B, h, t)), m1, m, B, x, h, z,
                    Last(zs), Last(t), F, m1.up[t[0]], f2, fuel);
  }

  /** The last step of a visit, as an equation between loop calls: the loop that retraces
      the later visits ends above `z` with one step of fuel more, undoes the visit of `z`
      and moves up. */
  lemma UncoverStepDone<L>(mC: Dlx<L>, mT: Dlx<L>, m1: Dlx<L>, m: Dlx<L>, B: Base, x: nat, h: nat, z: nat,
                           last: nat, lastT: nat, F: nat, up0: nat, f2: nat, fuel: nat)
    requires Closed(m) && Closed(mT) && x < N(mT) && lastT < N(mT) && x < N(m) && z < N(m) && z != x
    requires (z == h || OnRow(B, z)) && Items(m, Chunk(B, h, z)) && m1 == Visit(m, B, h, z)
    requires z != h ==> RelinkRow(m1, z, m1.left[z], N(m)) == Some(m)
    requires mC == mT && last == lastT && up0 == z && f2 == fuel + 1
    requires UncoverColumn(mT, x, h, lastT, F) == UncoverColumn(m1, x, h, up0, f2)
    ensures Closed(mC) && x < N(mC) && last < N(mC)
    ensures UncoverColumn(mC, x, h, last, F) == UncoverColumn(m, x, h, m.up[z], fuel)
  {
    if z == h {
      assert m1 == m;
      UncoverColumnHeadStep(m, x, h, fuel);
    } else {
      UncoverColumnItemStep(m1, x, h, z, fuel, m);
    }
  }

  /** Every stretch `cover` can sweep can be retraced by `uncover`. */
  lemma {:induction false} SweepUndoable<L>(m: Dlx<L>, B: Base, H: set<nat>, G: set<nat>, x: nat, h: nat, zs: seq<nat>)
    requires |zs| > 0 && Sweepable(m, B, H, G, x, h, zs[0], zs)
    ensures Undoable(m, B, x, h, zs)
    decreases |zs|, 1
  {
    if zs[0] == h {
      HeadUndoable(m, B, H, G, x, h, zs);
    } else {
      ItemUndoable(m, B, H, G, x, h, zs);
    }
  }

  /** The visited nodes are nodes of the arena, and the items among them lie on rows. */
  lemma SweepableNodes<L>(m: Dlx<L>, B: Base, H: set<nat>, G: set<nat>, x: nat, h: nat, cur: nat, zs: seq<nat>)
    requires Sweepable(m, B, H, G, x, h, cur, zs)
    ensures forall k | 0 <= k < |zs| :: zs[k] < N(m) && (zs[k] == h || OnRow(B, zs[k]))
  {
  }

  /** `SweepUndoable` when the first visited node is the header. */
  lemma {:induction false} HeadUndoable<L>(m: Dlx<L>, B: Base, H: set<nat>, G: set<nat>, x: nat, h: nat, zs: seq<nat>)
    requires |zs| > 0 && Sweepable(m, B, H, G, x, h, h, zs)
    ensures Undoable(m, B, x, h, zs)
    decreases |zs|, 0
  {
    var t := zs[1..];
    HeadVisit(m, B, H, G, x, h, zs);
    SweepableNodes(m, B, H, G, x, h, h, zs);
    assert Visit(m, B, h, h) == m;
    if |t| > 0 {
      SweepUndoable(m, B, H, G, x, h, t);
      UpAfterVisit(m.down, m.up, ColList(B, h, G), x, h, t);
    }
  }

  /** `SweepUndoable` when the first visited node is an item. */
  lemma {:induction false} ItemUndoable<L>(m: Dlx<L>, B: Base, H: set<nat>, G: set<nat>, x: nat, h: nat, zs: seq<nat>)
    requires |zs| > 0 && Sweepable(m, B, H, G, x, h, zs[0], zs) && zs[0] != h
    ensures Undoable(m, B, x, h, zs)
    decreases |zs|, 0
  {
    var z := zs[0];
    var t := zs[1..];
    SweepableNodes(m, B, H, G, x, h, z, zs);
    CoverVisit(m, B, H, G, x, h, zs);
    UncoverVisit(m, B, H, G, x, h, zs);
    var m1 := UnlinkAll(m, Mates(B, z));
    var G1 := G + Elems(Mates(B, z));
    assert Visit(m, B, h, z) == m1;
    if |t| > 0 {
      SweepUndoable(m1, B, H, G1, x, h, t);
      VisitsAfter(B, m.cell, G, h, zs);
      UpAfterVisit(m1.down, m1.up, ColList(B, h, G1), x, z, t);
    }
  }
}
