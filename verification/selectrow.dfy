/** `cover` and `uncover` of a whole selected row on a well-formed matrix. Starting at the
    selected node, every node of the row has its pass; each pass covers one more column of
    the row, keeps the shape invariant and the closure, and is undone by the matching
    pass of `uncover`. */
module SelectRow {
  import opened Links
  import opened Cycles
  import opened Structure
  import opened Engine
  import opened RowWalk
  import opened NodeStep
  import opened Closure
  import opened RowCover

  /** The columns of the nodes in `xs`. */
  ghost function HeadsOf<L>(cell: seq<Cell<L>>, xs: seq<nat>): set<nat> {
    set x | x in xs && x < |cell| && cell[x].Item? :: cell[x].header
  }

  /** The columns a row meets. */
  ghost function RowCols<L>(B: Base, cell: seq<Cell<L>>, r: nat): set<nat>
    requires r < |B.rows|
  {
    HeadsOf(cell, B.rows[r])
  }

  /** The run of `cover` from the `i`-th node of the row `ns` on: `ms[t]`, for `t` from
      `i` on, is the state before the pass at `ns[t]`, and `ms[|ns|]` the state after the
      last pass. The entries before `i` are not constrained. */
  ghost predicate RunFrom<L>(ms: seq<Dlx<L>>, ns: seq<nat>, i: nat) {
    && i <= |ns| && |ms| == |ns| + 1
    && (forall t | i <= t <= |ns| :: ms[t].cell == ms[i].cell)
    && (forall t | i <= t < |ns| :: PassPair(ms[t], ns[t], ms[t + 1], ns))
  }

  /** Past the last node the run is the state alone. */
  lemma RunNone<L>(m: Dlx<L>, ns: seq<nat>) returns (ms: seq<Dlx<L>>)
    ensures RunFrom(ms, ns, |ns|) && ms[|ns|] == m
  {
    ms := seq(|ns| + 1, t => m);
  }

  /** A pass in front of a run is a longer run. */
  lemma RunCons<L>(m: Dlx<L>, ms: seq<Dlx<L>>, ns: seq<nat>, i: nat)
    requires i < |ns| && RunFrom(ms, ns, i + 1) && PassPair(m, ns[i], ms[i + 1], ns) && ms[i + 1].cell == m.cell
    ensures RunFrom(ms[i := m], ns, i)
  {
  }

  /** A run from the first node is the run `cover` makes. */
  lemma RunPasses<L>(ms: seq<Dlx<L>>, ns: seq<nat>)
    requires |ns| > 0 && RunFrom(ms, ns, 0)
    ensures Passes(ms, ns)
  {
  }

  /** Every state with the shape invariant links the selected row read from any node. */
  lemma RowRotLinked<L>(m: Dlx<L>, B: Base, r: nat, k: nat)
    requires RowsOK(m, B) && r < |B.rows| && k < |B.rows[r]|
    ensures Linked(m.right, m.left, Rot(B.rows[r], k))
  {
    LinkedRot(m.right, m.left, B.rows[r], k);
  }

  /** The pass at a node of the selected row whose column is not yet covered. */
  lemma RowStep<L>(m: Dlx<L>, B: Base, H: set<nat>, G: set<nat>, r: nat, k: nat, n: nat) returns (m1: Dlx<L>)
    requires Struct(m, B, H, G) && MidSettled(B, m.cell, H, G, r) && k < |B.rows[r]|
    requires n < N(m) && m.cell[n].Item? && n in B.rowOf && B.rowOf[n] == r && Hd(m, n) !in H
    ensures Hd(m, n) in B.cols && m1.cell == m.cell
    ensures PassPair(m, n, m1, Rot(B.rows[r], k))
    ensures Struct(m1, B, H + {Hd(m, n)}, G + Swept(B, G, Hd(m, n), n))
    ensures MidSettled(B, m.cell, H + {Hd(m, n)}, G + Swept(B, G, Hd(m, n), n), r)
  {
    SettledReady(B, m.cell, H, G, r, n);
    m1 := CoverPass(m, B, H, G, n);
    UncoverPass(m, B, H, G, n, m1);
    SettledStep(B, m.cell, H, G, r, n);
    RowRotLinked(m, B, r, k);
    RowRotLinked(m1, B, r, k);
  }

  /** The headers of a row's nodes are pairwise different, read from any node. */
  lemma RowHeadsApart<L>(B: Base, cell: seq<Cell<L>>, r: nat, k: nat, a: nat, b: nat)
    requires BaseOK(B, cell) && r < |B.rows| && k < |B.rows[r]| && Distinct(B.rows[r])
    requires a < b < |B.rows[r]|
    ensures Rot(B.rows[r], k)[a] in B.rows[r] && Rot(B.rows[r], k)[b] in B.rows[r]
    ensures HdOf(cell, Rot(B.rows[r], k)[a]) != HdOf(cell, Rot(B.rows[r], k)[b])
  {
    var ns := Rot(B.rows[r], k);
    RotMembers(B.rows[r], k);
    if HdOf(cell, ns[a]) == HdOf(cell, ns[b]) {
      RowColumnOnce(B, cell, r, ns[a], ns[b]);
    }
  }

  /** The nodes of the row from the `i`-th on, read from the `k`-th, are in columns
      outside `H`. */
  ghost predicate RowGap<L>(B: Base, cell: seq<Cell<L>>, H: set<nat>, r: nat, k: nat, i: nat)
    requires r < |B.rows| && k < |B.rows[r]|
  {
    forall j | i <= j < |B.rows[r]| ::
      Rot(B.rows[r], k)[j] < |cell| && cell[Rot(B.rows[r], k)[j]].Item?
      && HdOf(cell, Rot(B.rows[r], k)[j]) !in H
  }

  /** A node of the row read from the `k`-th is a node of the row. */
  lemma RowMember<L>(B: Base, cell: seq<Cell<L>>, r: nat, k: nat, i: nat)
    requires BaseOK(B, cell) && r < |B.rows| && k < |B.rows[r]| && i < |B.rows[r]|
    ensures Rot(B.rows[r], k)[i] in B.rows[r] && Rot(B.rows[r], k)[i] < |cell|
    ensures cell[Rot(B.rows[r], k)[i]].Item? && Rot(B.rows[r], k)[i] in B.rowOf
    ensures B.rowOf[Rot(B.rows[r], k)[i]] == r
  {
    RotMembers(B.rows[r], k);
    var a := IndexOf(B.rows[r], Rot(B.rows[r], k)[i]);
  }

  /** Covering the column of the `i`-th node leaves the later ones outside. */
  lemma RowGapNext<L>(B: Base, cell: seq<Cell<L>>, H: set<nat>, r: nat, k: nat, i: nat)
    requires BaseOK(B, cell) && r < |B.rows| && k < |B.rows[r]| && Distinct(B.rows[r])
    requires i < |B.rows[r]| && RowGap(B, cell, H, r, k, i)
    ensures RowGap(B, cell, H + {HdOf(cell, Rot(B.rows[r], k)[i])}, r, k, i + 1)
  {
    forall j | i + 1 <= j < |B.rows[r]|
      ensures HdOf(cell, Rot(B.rows[r], k)[j]) != HdOf(cell, Rot(B.rows[r], k)[i])
    {
      RowHeadsApart(B, cell, r, k, i, j);
    }
  }

  /** The columns met from the `i`-th node on: that node's and those after it. */
  lemma HeadsStep<L>(H: set<nat>, cell: seq<Cell<L>>, ns: seq<nat>, i: nat)
    requires i < |ns| && ns[i] < |cell| && cell[ns[i]].Item?
    ensures (H + {HdOf(cell, ns[i])}) + HeadsOf(cell, ns[i + 1..]) == H + HeadsOf(cell, ns[i..])
  {
    assert ns[i..] == [ns[i]] + ns[i + 1..];
  }

  /** Past the last node no column is met. */
  lemma HeadsNone<L>(H: set<nat>, cell: seq<Cell<L>>, ns: seq<nat>)
    ensures H + HeadsOf(cell, ns[|ns|..]) == H
  {
    assert ns[|ns|..] == [];
  }

  /** A row of a well-formed matrix holds no node twice. */
  lemma RowDistinct<L>(m: Dlx<L>, B: Base, r: nat)
    requires RowsOK(m, B) && r < |B.rows| && |B.rows[r]| > 0
    ensures Distinct(B.rows[r])
  {
    assert Linked(m.right, m.left, B.rows[r]);
  }

  /** From the `i`-th node of the row on, `cover` runs one pass per node; each covers the
      node's column and keeps the shape invariant and the closure. */
  lemma {:induction false} BuildRun<L>(m: Dlx<L>, B: Base, H: set<nat>, G: set<nat>, r: nat, k: nat, i: nat)
    returns (ms: seq<Dlx<L>>, H': set<nat>, G': set<nat>)
    requires Struct(m, B, H, G) && MidSettled(B, m.cell, H, G, r) && k < |B.rows[r]|
    requires i <= |B.rows[r]| && RowGap(B, m.cell, H, r, k, i)
    requires Untouched(B, m.cell, H, G)
    ensures |ms| > 0 && Struct(Final(ms), B, H', G') && MidSettled(B, m.cell, H', G', r)
    ensures Untouched(B, m.cell, H', G')
    ensures RunFrom(ms, Rot(B.rows[r], k), i) && ms[i] == m && Final(ms).cell == m.cell
    ensures H' == H + HeadsOf(m.cell, Rot(B.rows[r], k)[i..]) && G <= G'
    decreases |B.rows[r]| - i, 1
  {
    if i == |B.rows[r]| {
      ms, H', G' := BuildLast(m, B, H, G, r, k, i);
    } else {
      ms, H', G' := BuildMore(m, B, H, G, r, k, i);
    }
  }

  /** `BuildRun` past the last node: the empty run. */
  lemma BuildLast<L>(m: Dlx<L>, B: Base, H: set<nat>, G: set<nat>, r: nat, k: nat, i: nat)
    returns (ms: seq<Dlx<L>>, H': set<nat>, G': set<nat>)
    requires Struct(m, B, H, G) && MidSettled(B, m.cell, H, G, r) && k < |B.rows[r]| && i == |B.rows[r]|
    requires Untouched(B, m.cell, H, G)
    ensures |ms| > 0 && Struct(Final(ms), B, H', G') && MidSettled(B, m.cell, H', G', r)
    ensures Untouched(B, m.cell, H', G')
    ensures RunFrom(ms, Rot(B.rows[r], k), i) && ms[i] == m && Final(ms).cell == m.cell
    ensures H' == H + HeadsOf(m.cell, Rot(B.rows[r], k)[i..]) && G <= G'
  {
    ms := RunNone(m, Rot(B.rows[r], k));
    H', G' := H, G;
    assert Final(ms) == m;
    HeadsNone(H, m.cell, Rot(B.rows[r], k));
  }

  /** `BuildRun` when a node is left: its pass, then the run from the next one. */
  lemma {:induction false} BuildMore<L>(m: Dlx<L>, B: Base, H: set<nat>, G: set<nat>, r: nat, k: nat, i: nat)
    returns (ms: seq<Dlx<L>>, H': set<nat>, G': set<nat>)
    requires Struct(m, B, H, G) && MidSettled(B, m.cell, H, G, r) && k < |B.rows[r]|
    requires i < |B.rows[r]| && RowGap(B, m.cell, H, r, k, i)
    requires Untouched(B, m.cell, H, G)
    ensures |ms| > 0 && Struct(Final(ms), B, H', G') && MidSettled(B, m.cell, H', G', r)
    ensures Untouched(B, m.cell, H', G')
    ensures RunFrom(ms, Rot(B.rows[r], k), i) && ms[i] == m && Final(ms).cell == m.cell
    ensures H' == H + HeadsOf(m.cell, Rot(B.rows[r], k)[i..]) && G <= G'
    decreases |B.rows[r]| - i, 0
  {
    var ns := Rot(B.rows[r], k);
    var n := ns[i];
    RowMember(B, m.cell, r, k, i);
    RowDistinct(m, B, r);
    RowGapNext(B, m.cell, H, r, k, i);
    var m1 := RowStep(m, B, H, G, r, k, n);
    UntouchedStep(B, m.cell, H, G, Hd(m, n), n);
    var ms1;
    ms1, H', G' := BuildRun(m1, B, H + {Hd(m, n)}, G + Swept(B, G, Hd(m, n), n), r, k, i + 1);
    ms := ms1[i := m];
    RunCons(m, ms1, ns, i);
    HeadsStep(H, m.cell, ns, i);
    assert Final(ms) == Final(ms1);
  }

  /** Before `cover`, the columns of the selected row are all uncovered. */
  lemma RowGapStart<L>(B: Base, cell: seq<Cell<L>>, H: set<nat>, sel: nat, k: nat)
    requires BaseOK(B, cell) && RowOpen(B, cell, H, sel) && k < |B.rows[B.rowOf[sel]]|
    ensures RowGap(B, cell, H, B.rowOf[sel], k, 0)
  {
    var r := B.rowOf[sel];
    RotMembers(B.rows[r], k);
    forall j | 0 <= j < |B.rows[r]|
      ensures Rot(B.rows[r], k)[j] < |cell| && cell[Rot(B.rows[r], k)[j]].Item?
              && HdOf(cell, Rot(B.rows[r], k)[j]) !in H
    {
      var a := IndexOf(B.rows[r], Rot(B.rows[r], k)[j]);
    }
  }

  /** The columns of a row that meets no column of `H` are apart from `H`. */
  lemma RowColsApart<L>(B: Base, cell: seq<Cell<L>>, H: set<nat>, sel: nat)
    requires RowOpen(B, cell, H, sel)
    ensures RowCols(B, cell, B.rowOf[sel]) !! H
  {
    var r := B.rowOf[sel];
    forall c | c in RowCols(B, cell, r)
      ensures c !in H
    {
      var x :| x in B.rows[r] && x < |cell| && cell[x].Item? && cell[x].header == c;
      var a := IndexOf(B.rows[r], x);
    }
  }

  /** The item chosen by `cover` lies on an open row. */
  lemma SettledOpen<L>(B: Base, cell: seq<Cell<L>>, H: set<nat>, G: set<nat>, sel: nat)
    requires Settled(B, cell, H, G)
    requires sel < |cell| && cell[sel].Item? && sel !in G && cell[sel].header !in H
    ensures RowOpen(B, cell, H, sel)
  {
  }

  /** The columns met along the rotated row are the row's columns, and all of them are
      covered once the run is over. */
  lemma HeadsRot<L>(H: set<nat>, H': set<nat>, cell: seq<Cell<L>>, B: Base, r: nat, k: nat)
    requires r < |B.rows| && k < |B.rows[r]| && H' == H + HeadsOf(cell, Rot(B.rows[r], k)[0..])
    requires forall a | 0 <= a < |B.rows[r]| :: B.rows[r][a] < |cell| && cell[B.rows[r][a]].Item?
    ensures H' == H + RowCols(B, cell, r)
    ensures forall a | 0 <= a < |B.rows[r]| :: HdOf(cell, B.rows[r][a]) in H'
  {
    RotMembers(B.rows[r], k);
    assert Rot(B.rows[r], k)[0..] == Rot(B.rows[r], k);
    assert HeadsOf(cell, Rot(B.rows[r], k)) == HeadsOf(cell, B.rows[r]);
  }

  /** `cover(selected)` on a well-formed matrix whose closure holds, at a linked item in an
      uncovered column: it succeeds, covers exactly the columns of the selected row (none of
      them covered before), keeps the shape invariant and the closure, and `uncover` of the
      same node brings back the matrix it started from. */
  lemma CoverRow<L>(m: Dlx<L>, B: Base, H: set<nat>, G: set<nat>, sel: nat) returns (m': Dlx<L>, H': set<nat>, G': set<nat>)
    requires Struct(m, B, H, G) && Settled(B, m.cell, H, G) && Untouched(B, m.cell, H, G)
    requires sel < N(m) && m.cell[sel].Item? && sel !in G && Hd(m, sel) !in H
    ensures Closed(m') && sel < N(m') && m'.cell == m.cell
    ensures Cover(m, sel) == Some(m') && Uncover(m', sel) == Some(m)
    ensures Struct(m', B, H', G') && Settled(B, m.cell, H', G') && Untouched(B, m.cell, H', G')
    ensures OnRow(B, sel) && H' == H + RowCols(B, m.cell, B.rowOf[sel]) && G <= G'
    ensures RowCols(B, m.cell, B.rowOf[sel]) !! H
  {
    SettledStart(B, m.cell, H, G, sel);
    var r := B.rowOf[sel];
    var k := IndexOf(B.rows[r], sel);
    var ns := Rot(B.rows[r], k);
    SettledOpen(B, m.cell, H, G, sel);
    RowGapStart(B, m.cell, H, sel, k);
    RowColsApart(B, m.cell, H, sel);
    var ms;
    ms, H', G' := BuildRun(m, B, H, G, r, k, 0);
    m' := Final(ms);
    RunPasses(ms, ns);
    RowRoundTrip(ms, ns);
    RowMember(B, m.cell, r, k, 0);
    HeadsRot(H, H', m.cell, B, r, k);
    SettledEnd(B, m.cell, H', G', r);
  }
}
