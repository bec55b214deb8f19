/** The outer loops of `cover` and `uncover`. `cover` walks the selected row rightwards
    from the selected node, running one pass at each node; `uncover` walks it leftwards
    from the node left of the selected one, undoing those passes in the opposite order.
    Given the states the passes of `cover` go through, both loops are a plain induction
    over the row. */
module RowCover {
  import opened Links
  import opened Cycles
  import opened Engine
  import opened NodeStep

  /** The pass of `cover` at `n` leads from `m` to `m'`, the pass of `uncover` at `n` leads
      back, and both states link the selected row as the cycle `row`. */
  ghost predicate PassPair<L>(m: Dlx<L>, n: nat, m': Dlx<L>, row: seq<nat>) {
    && NodeCovered(m, n, m') && NodeUncovered(m', n, m) && m'.cell == m.cell
    && Linked(m.right, m.left, row) && Linked(m'.right, m'.left, row)
  }

  /** The states `ms` of `cover` along the row `ns`, read from the selected node. */
  ghost predicate Passes<L>(ms: seq<Dlx<L>>, ns: seq<nat>) {
    && |ns| > 0 && |ms| == |ns| + 1
    && (forall i | 0 <= i < |ms| :: ms[i].cell == ms[0].cell)
    && (forall i | 0 <= i < |ns| :: PassPair(ms[i], ns[i], ms[i + 1], ns))
  }

  /** One turn of the outer loop of `cover`, as an equation. */
  lemma CoverFromStep<L>(m: Dlx<L>, sel: nat, cur: nat, f1: nat, m': Dlx<L>)
    requires NodeCovered(m, cur, m') && sel < N(m)
    ensures Closed(m') && cur < N(m') && sel < N(m')
    ensures CoverFrom(m, sel, cur, f1 + 1)
            == if m'.right[cur] == sel then Some(m') else CoverFrom(m', sel, m'.right[cur], f1)
  {
  }

  lemma CoverFromFuel<L>(m: Dlx<L>, sel: nat, cur: nat, fuel: nat, f1: nat, m': Dlx<L>)
    requires NodeCovered(m, cur, m') && sel < N(m) && fuel == f1 + 1
    ensures Closed(m') && cur < N(m') && sel < N(m')
    ensures CoverFrom(m, sel, cur, fuel)
            == if m'.right[cur] == sel then Some(m') else CoverFrom(m', sel, m'.right[cur], f1)
  {
    CoverFromStep(m, sel, cur, f1, m');
  }

  /** One turn of the outer loop of `uncover`, as an equation. */
  lemma UncoverFromStep<L>(m': Dlx<L>, start: nat, cur: nat, f1: nat, m: Dlx<L>)
    requires NodeUncovered(m', cur, m) && start < N(m')
    ensures Closed(m) && cur < N(m) && start < N(m)
    ensures UncoverFrom(m', start, cur, f1 + 1)
            == if m.left[cur] == start then Some(m) else UncoverFrom(m, start, m.left[cur], f1)
  {
  }

  lemma UncoverFromFuel<L>(m': Dlx<L>, start: nat, cur: nat, fuel: nat, f1: nat, m: Dlx<L>)
    requires NodeUncovered(m', cur, m) && start < N(m') && fuel == f1 + 1
    ensures Closed(m) && cur < N(m) && start < N(m)
    ensures UncoverFrom(m', start, cur, fuel)
            == if m.left[cur] == start then Some(m) else UncoverFrom(m, start, m.left[cur], f1)
  {
    UncoverFromStep(m', start, cur, f1, m);
  }

  /** The passes at the `i`-th node of the row, read off a run. */
  lemma PassAt<L>(ms: seq<Dlx<L>>, ns: seq<nat>, i: nat)
    requires Passes(ms, ns) && i < |ns|
    ensures NodeCovered(ms[i], ns[i], ms[i + 1]) && NodeUncovered(ms[i + 1], ns[i], ms[i])
    ensures ns[0] < N(ms[i]) && Last(ns) < N(ms[i + 1])
  {
    assert PassPair(ms[i], ns[i], ms[i + 1], ns);
  }

  /** After the pass at the `i`-th node, the row still leads on to the next node and back
      to the one before. */
  lemma RowAt<L>(ms: seq<Dlx<L>>, ns: seq<nat>, i: nat)
    requires Passes(ms, ns) && i < |ns|
    ensures ms[i + 1].right[ns[i]] == ns[Succ(i, |ns|)]
    ensures ms[i].left[ns[i]] == if i > 0 then ns[i - 1] else Last(ns)
    ensures i + 1 < |ns| ==> ns[i + 1] != ns[0]
    ensures i > 0 ==> ns[i - 1] != Last(ns)
  {
    assert PassPair(ms[i], ns[i], ms[i + 1], ns);
    assert Linked(ms[i + 1].right, ms[i + 1].left, ns);
    assert Linked(ms[i].right, ms[i].left, ns);
  }

  /** One turn of the outer loop of `cover` at the `i`-th node of the row: the pass there,
      then on to the next node, or the end at the last one. */
  lemma CoverTurn<L>(ms: seq<Dlx<L>>, ns: seq<nat>, i: nat, fuel: nat, f1: nat)
    requires Passes(ms, ns) && i < |ns| && fuel == f1 + 1
    ensures Closed(ms[i]) && ns[0] < N(ms[i]) && ns[i] < N(ms[i])
    ensures i + 1 < |ns| ==> Closed(ms[i + 1]) && ns[0] < N(ms[i + 1]) && ns[i + 1] < N(ms[i + 1])
    ensures CoverFrom(ms[i], ns[0], ns[i], fuel)
            == if i + 1 < |ns| then CoverFrom(ms[i + 1], ns[0], ns[i + 1], f1) else Some(ms[|ns|])
  {
    PassAt(ms, ns, i);
    RowAt(ms, ns, i);
    CoverFromFuel(ms[i], ns[0], ns[i], fuel, f1, ms[i + 1]);
  }

  /** The outer loop of `cover`, resumed at the `i`-th node of the row, runs the remaining
      passes and stops when the row leads back to the selected node. */
  lemma {:induction false} CoverFromWalk<L>(ms: seq<Dlx<L>>, ns: seq<nat>, i: nat, fuel: nat)
    requires Passes(ms, ns) && i < |ns| && fuel >= |ns| - i
    ensures Closed(ms[i]) && ns[0] < N(ms[i]) && ns[i] < N(ms[i])
    ensures CoverFrom(ms[i], ns[0], ns[i], fuel) == Some(ms[|ns|])
    decreases |ns| - i
  {
    var f1: nat := fuel - 1;
    CoverTurn(ms, ns, i, fuel, f1);
    if i + 1 < |ns| {
      CoverFromWalk(ms, ns, i + 1, f1);
    }
  }

  /** One turn of the outer loop of `uncover` at the `j`-th node of the row: the pass
      there, then on to the node before it, or the end at the selected node. */
  lemma UncoverTurn<L>(ms: seq<Dlx<L>>, ns: seq<nat>, j: nat, fuel: nat, f1: nat)
    requires Passes(ms, ns) && j < |ns| && fuel == f1 + 1
    ensures Closed(ms[j + 1]) && Last(ns) < N(ms[j + 1]) && ns[j] < N(ms[j + 1])
    ensures j > 0 ==> Closed(ms[j]) && Last(ns) < N(ms[j]) && ns[j - 1] < N(ms[j])
    ensures UncoverFrom(ms[j + 1], Last(ns), ns[j], fuel)
            == if j > 0 then UncoverFrom(ms[j], Last(ns), ns[j - 1], f1) else Some(ms[0])
  {
    PassAt(ms, ns, j);
    RowAt(ms, ns, j);
    UncoverFromFuel(ms[j + 1], Last(ns), ns[j], fuel, f1, ms[j]);
  }

  /** The outer loop of `uncover`, resumed at the `j`-th node of the row in the state after
      the pass of `cover` there, undoes that pass and every earlier one. */
  lemma {:induction false} UncoverFromWalk<L>(ms: seq<Dlx<L>>, ns: seq<nat>, j: nat, fuel: nat)
    requires Passes(ms, ns) && j < |ns| && fuel > j
    ensures Closed(ms[j + 1]) && Last(ns) < N(ms[j + 1]) && ns[j] < N(ms[j + 1])
    ensures UncoverFrom(ms[j + 1], Last(ns), ns[j], fuel) == Some(ms[0])
    decreases j
  {
    var f1: nat := fuel - 1;
    UncoverTurn(ms, ns, j, fuel, f1);
    if j > 0 {
      UncoverFromWalk(ms, ns, j - 1, f1);
    }
  }

  /** `cover(selected)` runs through the states `ms`, and `uncover(selected)` brings the
      last of them back to the first. */
  lemma RowRoundTrip<L>(ms: seq<Dlx<L>>, ns: seq<nat>)
    requires Passes(ms, ns)
    ensures Closed(ms[0]) && ns[0] < N(ms[0]) && Closed(Final(ms)) && ns[0] < N(Final(ms))
    ensures Cover(ms[0], ns[0]) == Some(Final(ms))
    ensures Uncover(Final(ms), ns[0]) == Some(ms[0])
  {
    var K := |ns|;
    assert PassPair(ms[0], ns[0], ms[1], ns);
    assert PassPair(ms[K - 1], ns[K - 1], ms[K], ns);
    assert Final(ms) == ms[K];
    DistinctBound(ns, N(ms[0]));
    CoverFromWalk(ms, ns, 0, N(ms[0]));
    assert ms[K].left[ns[0]] == Last(ns);
    assert N(ms[K]) == N(ms[0]);
    UncoverFromWalk(ms, ns, K - 1, N(ms[K]));
  }

  /** The last state of a run. */
  function Final<L>(ms: seq<Dlx<L>>): Dlx<L>
    requires |ms| > 0
  {
    ms[|ms| - 1]
  }
}
