/** One pass of the outer loop of `cover` and of `uncover`: at a node `n` of the selected
    row, `cover` unlinks the header of its column from the root ring and runs the column
    loop from `n`; `uncover` relinks the header and runs its column loop from `n`. On a
    well-formed matrix whose rows met in that column are all live, the second undoes the
    first exactly. */
module NodeStep {
  import opened Links
  import opened Cycles
  import opened Structure
  import opened Engine
  import opened RowWalk
  import opened ColumnWalk
  import opened UncoverWalk

  /** Every item still linked in column `h` lies on a live row. */
  ghost predicate ColumnLive(B: Base, G: set<nat>, h: nat)
    requires h in B.cols
  {
    forall z | z in B.cols[h] && z !in G :: RowLive(B, G, z)
  }

  /** The pass of `cover` at `n` ends in `m'`. */
  ghost predicate NodeCovered<L>(m: Dlx<L>, n: nat, m': Dlx<L>) {
    && Closed(m) && n < N(m) && m.cell[n].Item?
    && CoverColumn(UnlinkLR(m, Hd(m, n)), n, Hd(m, n), UnlinkLR(m, Hd(m, n)).down[n], N(m)) == Some(m')
  }

  /** The pass of `uncover` at `n` ends in `m`. */
  ghost predicate NodeUncovered<L>(m': Dlx<L>, n: nat, m: Dlx<L>) {
    && Closed(m') && n < N(m') && m'.cell[n].Item?
    && UncoverColumn(RelinkLR(m', Hd(m', n)), n, Hd(m', n), RelinkLR(m', Hd(m', n)).up[n], N(m')) == Some(m)
  }

  /** The rows met by the column loop from `n`: those of the items still linked in column
      `h`, other than `n`. */
  ghost function RowsMet(B: Base, G: set<nat>, h: nat, n: nat): set<nat>
    requires h in B.cols
  {
    set z | z in B.cols[h] && z !in G && z != n && z in B.rowOf :: B.rowOf[z]
  }

  /** `ys` is what the column loop from `n` unlinks: nodes of the rows met, and every node
      of those rows except the one in column `h`. */
  ghost predicate SweptBy(B: Base, G: set<nat>, h: nat, n: nat, ys: seq<nat>)
    requires h in B.cols
  {
    && (forall k | 0 <= k < |ys| ::
          ys[k] in B.rowOf && ys[k] !in B.cols[h] && B.rowOf[ys[k]] in RowsMet(B, G, h, n))
    && (forall z, y | z in B.cols[h] && z !in G && z != n && OnRow(B, z) && y in B.rows[B.rowOf[z]] && y != z ::
          y in ys)
  }

  /** The nodes the column loop from `n` unlinks: every node of a row met, other than
      the row's node in column `h`. */
  ghost function Swept(B: Base, G: set<nat>, h: nat, n: nat): set<nat>
    requires h in B.cols
  {
    set z, y | z in B.cols[h] && z !in G && z != n && OnRow(B, z) && y in B.rows[B.rowOf[z]] && y != z :: y
  }

  /** A list with `SweptBy` holds the set `Swept`. */
  lemma SweptElems<L>(B: Base, cell: seq<Cell<L>>, G: set<nat>, h: nat, n: nat, ys: seq<nat>)
    requires BaseOK(B, cell) && h in B.cols && SweptBy(B, G, h, n, ys)
    ensures Elems(ys) == Swept(B, G, h, n)
  {
    forall y | y in ys
      ensures y in Swept(B, G, h, n)
    {
      var k := IndexOf(ys, y);
      var z :| z in B.cols[h] && z !in G && z != n && z in B.rowOf && B.rowOf[z] == B.rowOf[y];
      assert OnRow(B, z) && y in B.rows[B.rowOf[z]] && y != z;
    }
  }

  /** The sweep from `x`: the cycle of column `h` read from below `x` round to the node
      above it. Following `down` from `x` passes through it and comes back to `x`;
      following `up` from `x` passes through it backwards. */
  lemma SweepChain<L>(m: Dlx<L>, B: Base, h: nat, G: set<nat>, x: nat) returns (s: seq<nat>)
    requires Closed(m) && h in B.cols && x in ColList(B, h, G) && x != h
    requires Linked(m.down, m.up, ColList(B, h, G))
    ensures |s| > 0 && Distinct(s)
    ensures forall k | 0 <= k < |s| :: s[k] in ColList(B, h, G)
    ensures forall y :: y in s <==> y in ColList(B, h, G) && y != x
    ensures Chain(m.down, x, m.down[x], s)
    ensures m.up[x] == Last(s) && m.up[s[0]] == x
  {
    var c := ColList(B, h, G);
    var i := IndexOf(c, x);
    assert c[0] == h;
    LinkedRot(m.down, m.up, c, i);
    CycleChains(m.down, m.up, Rot(c, i));
    RotMembers(c, i);
    RotTail(c, i);
    s := Rot(c, i)[1..];
    forall k | 0 <= k < |s|
      ensures s[k] in c
    {
      assert s[k] == Rot(c, i)[k + 1];
    }
  }

  /** An item still linked in its column sits on that column's cycle, whose nodes are
      all nodes of the arena. */
  lemma NodeColumn<L>(m: Dlx<L>, B: Base, H: set<nat>, G: set<nat>, n: nat)
    requires Struct(m, B, H, G) && n < N(m) && m.cell[n].Item? && n !in G
    ensures Hd(m, n) in B.cols && Hd(m, n) in B.ring && n != Hd(m, n)
    ensures n in ColList(B, Hd(m, n), G)
    ensures Linked(m.down, m.up, ColList(B, Hd(m, n), G))
    ensures forall y | y in ColList(B, Hd(m, n), G) :: y < N(m)
  {
    var h := Hd(m, n);
    assert n in B.cols[h];
    assert n in ColList(B, h, G);
    var j :| 0 <= j < |B.ring| && B.ring[j] == h;
    forall y | y in ColList(B, h, G)
      ensures y < N(m)
    {
      ColMembers(B, m.cell, h, G, IndexOf(ColList(B, h, G), y));
    }
  }

  /** The sweep from an item of a column whose rows are all live is a stretch the column
      loop of `cover` may walk, and the node above the item closes it. */
  lemma SweepVisits<L>(m: Dlx<L>, B: Base, G: set<nat>, h: nat, n: nat) returns (s: seq<nat>)
    requires Closed(m) && h in B.cols && n in ColList(B, h, G) && n != h
    requires Linked(m.down, m.up, ColList(B, h, G)) && ColumnLive(B, G, h)
    requires forall y | y in ColList(B, h, G) :: y < N(m)
    ensures Visits(B, G, h, s) && Chain(m.down, n, m.down[n], s)
    ensures forall y :: y in s <==> y in ColList(B, h, G) && y != n
    ensures |s| > 0 && |s| <= N(m)
    ensures m.up[n] == Last(s) && m.up[s[0]] == n
  {
    s := SweepChain(m, B, h, G, n);
    SweepLive(B, G, h, s);
    DistinctBound(s, N(m));
  }

  /** The items of a stretch of a column whose rows are all live are on live rows. */
  lemma SweepLive(B: Base, G: set<nat>, h: nat, s: seq<nat>)
    requires h in B.cols && ColumnLive(B, G, h)
    requires forall k | 0 <= k < |s| :: s[k] in ColList(B, h, G)
    ensures forall k | 0 <= k < |s| && s[k] != h :: RowLive(B, G, s[k])
  {
    forall k | 0 <= k < |s| && s[k] != h
      ensures RowLive(B, G, s[k])
    {
      assert s[k] in Without(B.cols[h], G);
    }
  }

  /** At an item of an uncovered column whose rows are all live, the column loop of
      `cover` may run. */
  lemma NodeSweepable<L>(m: Dlx<L>, B: Base, H: set<nat>, G: set<nat>, n: nat) returns (s: seq<nat>)
    requires Struct(m, B, H, G) && n < N(m) && m.cell[n].Item? && n !in G && Hd(m, n) !in H
    requires Hd(m, n) in B.cols && ColumnLive(B, G, Hd(m, n))
    ensures Hd(m, n) in B.ring && n != Hd(m, n) && n in ColList(B, Hd(m, n), G)
    ensures Sweepable(m, B, H, G, n, Hd(m, n), m.down[n], s)
    ensures forall y :: y in s <==> y in ColList(B, Hd(m, n), G) && y != n
    ensures |s| > 0 && |s| <= N(m)
    ensures m.up[n] == Last(s) && m.up[s[0]] == n
  {
    NodeColumn(m, B, H, G, n);
    s := SweepVisits(m, B, G, Hd(m, n), n);
  }

  /** The header leaving the ring changes no down pointer. */
  lemma SweepableLR<L>(m: Dlx<L>, B: Base, H: set<nat>, G: set<nat>, x: nat, h: nat, cur: nat, zs: seq<nat>)
    requires Sweepable(m, B, H, G, x, h, cur, zs) && h in B.ring && h !in H
    ensures Sweepable(UnlinkLR(m, h), B, H + {h}, G, x, h, cur, zs)
  {
    StepLR(m, B, H, G, h);
  }

  /** The column loop of `cover` over a whole sweep unlinks the mates of the rows met, and
      keeps the shape invariant. */
  lemma CoverSweep<L>(m: Dlx<L>, B: Base, H: set<nat>, G: set<nat>, x: nat, h: nat, zs: seq<nat>)
    requires Closed(m) && x < N(m) && Sweepable(m, B, H, G, x, h, m.down[x], zs) && |zs| <= N(m)
    ensures Items(m, SweepMates(B, h, zs)) && Pending(m, G, SweepMates(B, h, zs))
    ensures CoverColumn(m, x, h, m.down[x], N(m)) == Some(UnlinkAll(m, SweepMates(B, h, zs)))
    ensures Struct(UnlinkAll(m, SweepMates(B, h, zs)), B, H, G + Elems(SweepMates(B, h, zs)))
  {
    CoverColumnWalk(m, B, H, G, x, h, m.down[x], zs, N(m));
    SweepStruct(m, B, H, G, h, zs);
  }

  /** The column loop of `cover` from `n`, run after the header left the ring. */
  lemma CoverHalf<L>(m: Dlx<L>, B: Base, H: set<nat>, G: set<nat>, n: nat, h: nat, zs: seq<nat>)
    requires Closed(m) && n < N(m) && Sweepable(m, B, H, G, n, h, m.down[n], zs) && |zs| <= N(m)
    requires m.cell[n].Item? && h == Hd(m, n) && h in B.ring && h !in H
    ensures Pending(m, G, SweepMates(B, h, zs))
    ensures NodeCovered(m, n, UnlinkAll(UnlinkLR(m, h), SweepMates(B, h, zs)))
    ensures Struct(UnlinkAll(UnlinkLR(m, h), SweepMates(B, h, zs)), B, H + {h}, G + Elems(SweepMates(B, h, zs)))
  {
    SweepableLR(m, B, H, G, n, h, m.down[n], zs);
    CoverSweep(UnlinkLR(m, h), B, H + {h}, G, n, h, zs);
  }

  /** The column loop of `uncover` from `n`, run after the header is back on the ring. */
  lemma UncoverHalf<L>(m: Dlx<L>, B: Base, H: set<nat>, G: set<nat>, n: nat, h: nat, zs: seq<nat>)
    requires Closed(m) && n < N(m) && Sweepable(m, B, H, G, n, h, m.down[n], zs)
    requires |zs| > 0 && |zs| <= N(m) && m.up[zs[0]] == n && m.up[n] == Last(zs) && n in ColList(B, h, G)
    requires m.cell[n].Item? && h == Hd(m, n) && h in B.ring && h !in H
    ensures Items(m, SweepMates(B, h, zs))
    ensures NodeUncovered(UnlinkAll(UnlinkLR(m, h), SweepMates(B, h, zs)), n, m)
  {
    UncoverSweep(m, B, H, G, n, h, zs);
    StepLR(m, B, H, G, h);
    RelinkAfterSweep(m, h, SweepMates(B, h, zs));
  }

  /** Where a pass may run: at an item of the selected row in an uncovered column, all
      of whose items lie on live rows. */
  ghost predicate PassReady<L>(m: Dlx<L>, B: Base, H: set<nat>, G: set<nat>, n: nat) {
    && Struct(m, B, H, G) && n < N(m) && m.cell[n].Item? && n !in G && Hd(m, n) !in H
    && Hd(m, n) in B.cols && ColumnLive(B, G, Hd(m, n))
  }

  /** The pass of `cover` at `n`: the header leaves the ring and the rows met in its column
      leave their other columns; the result keeps the shape invariant with the header
      covered and the rest of those rows unlinked. */
  lemma CoverPass<L>(m: Dlx<L>, B: Base, H: set<nat>, G: set<nat>, n: nat) returns (m': Dlx<L>)
    requires PassReady(m, B, H, G, n)
    ensures NodeCovered(m, n, m')
    ensures Struct(m', B, H + {Hd(m, n)}, G + Swept(B, G, Hd(m, n), n))
  {
    var h := Hd(m, n);
    var s := NodeSweepable(m, B, H, G, n);
    var ys := SweepMates(B, h, s);
    CoverHalf(m, B, H, G, n, h, s);
    m' := UnlinkAll(UnlinkLR(m, h), ys);
    SweptSweep(B, m.cell, G, h, n, s);
    SweptElems(B, m.cell, G, h, n, ys);
  }

  /** The pass of `uncover` at `n` undoes the pass of `cover` there. */
  lemma UncoverPass<L>(m: Dlx<L>, B: Base, H: set<nat>, G: set<nat>, n: nat, m': Dlx<L>)
    requires PassReady(m, B, H, G, n) && NodeCovered(m, n, m')
    ensures NodeUncovered(m', n, m)
  {
    var h := Hd(m, n);
    var s := NodeSweepable(m, B, H, G, n);
    CoverHalf(m, B, H, G, n, h, s);
    UncoverHalf(m, B, H, G, n, h, s);
  }

  /** From the end of a sweep, the column loop of `uncover` started at the last node visited
      walks back up to the start and restores the state. */
  lemma UncoverSweep<L>(m: Dlx<L>, B: Base, H: set<nat>, G: set<nat>, x: nat, h: nat, zs: seq<nat>)
    requires Closed(m) && x < N(m) && Sweepable(m, B, H, G, x, h, m.down[x], zs) && |zs| > 0 && |zs| <= N(m)
    requires m.up[zs[0]] == x && m.up[x] == Last(zs) && x in ColList(B, h, G)
    ensures Items(m, SweepMates(B, h, zs))
    ensures UnlinkAll(m, SweepMates(B, h, zs)).up[x] == Last(zs)
    ensures UncoverColumn(UnlinkAll(m, SweepMates(B, h, zs)), x, h, Last(zs), N(m)) == Some(m)
  {
    SweepUndoable(m, B, H, G, x, h, zs);
    UncoverColumnWalk(m, B, x, h, zs, N(m) - |zs|, N(m));
    UncoverReturn(m, UnlinkAll(m, SweepMates(B, h, zs)), x, h, zs, N(m) - |zs|, N(m));
    SweepUp(m, B, H, G, x, h, zs);
  }

  /** Unlinking the swept mates leaves the pointer above `x` alone. */
  lemma SweepUp<L>(m: Dlx<L>, B: Base, H: set<nat>, G: set<nat>, x: nat, h: nat, zs: seq<nat>)
    requires Closed(m) && x < N(m) && Sweepable(m, B, H, G, x, h, m.down[x], zs) && |zs| > 0 && x in ColList(B, h, G)
    ensures Items(m, SweepMates(B, h, zs))
    ensures UnlinkAll(m, SweepMates(B, h, zs)).up[x] == m.up[x]
  {
    SweepStruct(m, B, H, G, h, zs);
    var r := UnlinkAll(m, SweepMates(B, h, zs));
    LinkedSame(m.down, m.up, r.down, r.up, ColList(B, h, G));
    var i := IndexOf(ColList(B, h, G), x);
  }

  /** The column loop of `uncover` that has walked back to `n` stops there. */
  lemma UncoverReturn<L>(m: Dlx<L>, x: Dlx<L>, n: nat, h: nat, s: seq<nat>, fuel: nat, F: nat)
    requires Closed(m) && Closed(x) && n < N(m) && n < N(x) && |s| > 0 && Last(s) < N(x)
    requires s[0] < N(m) && m.up[s[0]] == n
    requires UncoverColumn(x, n, h, Last(s), F) == UncoverColumn(m, n, h, m.up[s[0]], fuel)
    ensures UncoverColumn(x, n, h, Last(s), F) == Some(m)
  {
  }

  /** Relinking the header after the rows are unlinked leaves the rows unlinked and the
      header back in its place. */
  lemma RelinkAfterSweep<L>(m: Dlx<L>, h: nat, ys: seq<nat>)
    requires Closed(m) && h < N(m) && InPlaceLR(m, h) && Items(m, ys)
    ensures RelinkLR(UnlinkAll(UnlinkLR(m, h), ys), h) == UnlinkAll(m, ys)
  {
    UnlinkAllLR(m, ys, h);
    RelinkUnlinkLR(UnlinkAll(m, ys), h);
  }

  /** The rows of the items of a sweep are rows met from its start. */
  lemma RowsOfMet(B: Base, G: set<nat>, h: nat, n: nat, s: seq<nat>)
    requires h in B.cols && forall y :: y in s <==> y in ColList(B, h, G) && y != n
    ensures RowsOf(B, h, s) <= RowsMet(B, G, h, n)
  {
    forall r | r in RowsOf(B, h, s)
      ensures r in RowsMet(B, G, h, n)
    {
      var k :| 0 <= k < |s| && s[k] != h && s[k] in B.rowOf && B.rowOf[s[k]] == r;
      assert s[k] in s;
      assert s[k] in Without(B.cols[h], G);
    }
  }

  /** The chunk of every visited node is part of what the sweep unlinks. */
  lemma {:induction false} SweepHas(B: Base, h: nat, zs: seq<nat>, k: nat)
    requires forall j | 0 <= j < |zs| :: zs[j] == h || OnRow(B, zs[j])
    requires k < |zs|
    ensures forall y | y in Chunk(B, h, zs[k]) :: y in SweepMates(B, h, zs)
    decreases k
  {
    assert SweepMates(B, h, zs) == Chunk(B, h, zs[0]) + SweepMates(B, h, zs[1..]);
    if k > 0 {
      SweepHas(B, h, zs[1..], k - 1);
      assert zs[1..][k - 1] == zs[k];
    }
  }

  /** The mates of an item are all the other nodes of its row. */
  lemma MatesHas<L>(B: Base, cell: seq<Cell<L>>, z: nat)
    requires BaseOK(B, cell) && OnRow(B, z)
    ensures forall y | y in B.rows[B.rowOf[z]] && y != z :: y in Mates(B, z)
  {
    var R := B.rows[B.rowOf[z]];
    RowDistinct(B, cell, B.rowOf[z]);
    RotTail(R, IndexOf(R, z));
  }

  /** What the sweep from `n` unlinks is exactly the rest of the rows met. */
  lemma SweptSweep<L>(B: Base, cell: seq<Cell<L>>, G: set<nat>, h: nat, n: nat, s: seq<nat>)
    requires BaseOK(B, cell) && Visits(B, G, h, s)
    requires forall y :: y in s <==> y in ColList(B, h, G) && y != n
    ensures SweptBy(B, G, h, n, SweepMates(B, h, s))
  {
    SweepFacts(B, cell, G, h, s);
    RowsOfMet(B, G, h, n, s);
    SweptCovers(B, cell, G, h, n, s);
  }

  /** Every node of a row met, other than its node in the column, is unlinked by the
      sweep. */
  lemma SweptCovers<L>(B: Base, cell: seq<Cell<L>>, G: set<nat>, h: nat, n: nat, s: seq<nat>)
    requires BaseOK(B, cell) && Visits(B, G, h, s)
    requires forall y :: y in s <==> y in ColList(B, h, G) && y != n
    ensures forall z, y | z in B.cols[h] && z !in G && z != n && OnRow(B, z) && y in B.rows[B.rowOf[z]] && y != z ::
              y in SweepMates(B, h, s)
  {
    var j :| 0 <= j < |B.ring| && B.ring[j] == h;
    forall z, y | z in B.cols[h] && z !in G && z != n && OnRow(B, z) && y in B.rows[B.rowOf[z]] && y != z
      ensures y in SweepMates(B, h, s)
    {
      var a := IndexOf(B.cols[h], z);
      assert z in Without(B.cols[h], G);
      assert z in s;
      var k := IndexOf(s, z);
      MatesHas(B, cell, z);
      SweepHas(B, h, s, k);
    }
  }
}
