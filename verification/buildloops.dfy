/** The loops of `create_dlx` keep the builder invariant: the inner loop over a subset,
    then the outer loop over the rows. */
module BuildLoops {
  import opened Links
  import opened Cycles
  import opened Structure
  import opened Builder
  import opened BuildSteps
  import opened BuildSpec
  import opened Problem

  /** The state of the inner loop of `create_dlx`: the invariant holds, and `rowHead` is the
      first node of the row being read, if it has one yet. */
  ghost predicate InRow<L, E>(b: Building<L, E>, B: Base, done: seq<(L, seq<E>)>, rowHead: Option<nat>) {
    match rowHead
    case None => done != [] && Built(b, B, done) && B.rows[|done| - 1] == []
    case Some(x) => done != [] && Built(b, B, done) && B.rows[|done| - 1] != [] && x == B.rows[|done| - 1][0]
  }

  /** The inner loop's state, unpacked. */
  lemma InRowBuilt<L, E>(b: Building<L, E>, B: Base, done: seq<(L, seq<E>)>, rowHead: Option<nat>)
    requires InRow(b, B, done, rowHead)
    ensures done != [] && Built(b, B, done) && rowHead == RowHead(B.rows[|done| - 1])
  {
  }

  /** The inner loop's state, packed. */
  lemma InRowOf<L, E>(b: Building<L, E>, B: Base, done: seq<(L, seq<E>)>, rowHead: Option<nat>)
    requires done != [] && Built(b, B, done) && rowHead == RowHead(B.rows[|done| - 1])
    ensures InRow(b, B, done, rowHead)
  {
  }

  /** The inner loop of `create_dlx` over the rest of a subset keeps the invariant, provided
      the subset lists no constraint twice. */
  lemma {:induction false} SubsetBuilt<L, E>(b: Building<L, E>, B: Base, done: seq<(L, seq<E>)>,
                                            rowHead: Option<nat>, subset: seq<E>)
      returns (B': Base, rowHead': Option<nat>)
    requires done != [] && InRow(b, B, done, rowHead)
    requires FreshAfter(done[|done| - 1].1, subset)
    ensures Arena(b) && (rowHead.Some? ==> rowHead.value < N(b.m))
    ensures InRow(AddSubset(b, done[|done| - 1].0, rowHead, subset), B', Append(done, subset), rowHead')
    decreases |subset|, 1
  {
    InRowBuilt(b, B, done, rowHead);
    BuiltArena(b, B, done);
    if subset == [] {
      B', rowHead' := B, rowHead;
      AppendNone(done);
    } else {
      B', rowHead' := SubsetMore(b, B, done, rowHead, subset);
    }
  }

  /** One turn of the inner loop, then the rest of it. */
  lemma {:induction false} SubsetMore<L, E>(b: Building<L, E>, B: Base, done: seq<(L, seq<E>)>,
                                           rowHead: Option<nat>, subset: seq<E>)
      returns (B': Base, rowHead': Option<nat>)
    requires done != [] && subset != [] && InRow(b, B, done, rowHead)
    requires FreshAfter(done[|done| - 1].1, subset)
    ensures InRow(AddSubset(b, done[|done| - 1].0, rowHead, subset), B', Append(done, subset), rowHead')
    decreases |subset|, 0
  {
    var B1, b1, x, done1 := ElemInRow(b, B, done, rowHead, subset);
    B', rowHead' := SubsetBuilt(b1, B1, done1, Some(x), subset[1..]);
  }

  /** One turn of the inner loop, for the next member of the subset: the state `b1` it
      leaves, whose row starts at `x`, with `done1` read, then reads the rest of the subset. */
  lemma ElemInRow<L, E>(b: Building<L, E>, B: Base, done: seq<(L, seq<E>)>, rowHead: Option<nat>,
                        subset: seq<E>)
      returns (B1: Base, b1: Building<L, E>, x: nat, done1: seq<(L, seq<E>)>)
    requires done != [] && subset != [] && InRow(b, B, done, rowHead)
    requires FreshAfter(done[|done| - 1].1, subset)
    ensures Arena(b) && (rowHead.Some? ==> rowHead.value < N(b.m))
    ensures |done1| == |done| && done1[|done| - 1].0 == done[|done| - 1].0
    ensures InRow(b1, B1, done1, Some(x)) && Arena(b1) && x < N(b1.m)
    ensures FreshAfter(done1[|done| - 1].1, subset[1..])
    ensures Append(done1, subset[1..]) == Append(done, subset)
    ensures AddSubset(b, done[|done| - 1].0, rowHead, subset) == AddSubset(b1, done[|done| - 1].0, Some(x), subset[1..])
  {
    InRowBuilt(b, B, done, rowHead);
    BuiltArena(b, B, done);
    FreshStep(done, subset);
    B1 := ElemBuilt(b, B, done, subset[0], rowHead);
    var r := AddElem(b, done[|done| - 1].0, rowHead, subset[0]);
    b1, x, done1 := r.0, r.1, Extend(done, subset[0]);
    InRowOf(b1, B1, done1, Some(x));
    AddSubsetStep(b, done[|done| - 1].0, rowHead, subset);
    AppendStep(done, subset);
  }

  /** The inner loop's first turn. */
  lemma AddSubsetStep<L, E>(b: Building<L, E>, rowLabel: L, rowHead: Option<nat>, subset: seq<E>)
    requires Arena(b) && (rowHead.Some? ==> rowHead.value < N(b.m)) && subset != []
    ensures var r := AddElem(b, rowLabel, rowHead, subset[0]);
            AddSubset(b, rowLabel, rowHead, subset) == AddSubset(r.0, rowLabel, Some(r.1), subset[1..])
  {
  }

  /** The outer loop of `create_dlx` over the remaining rows keeps the invariant, for a
      problem whose subsets list no constraint twice. */
  lemma {:induction false} RowsBuilt<L, E>(b: Building<L, E>, B: Base, done: seq<(L, seq<E>)>,
                                          rest: seq<(L, seq<E>)>)
      returns (B': Base)
    requires Built(b, B, done) && WellFormed(rest)
    ensures Arena(b)
    ensures Built(AddRows(b, rest), B', done + rest)
    decreases |rest|
  {
    BuiltArena(b, B, done);
    if rest == [] {
      B' := B;
      AppendNone(done);
    } else {
      OpenBuilt(b, B, done, rest[0].0);
      OpenRowEmpty(B);
      AppendOpen(done, rest);
      InRowOf(b, OpenRow(B), done + [(rest[0].0, [])], None);
      var B1, rowHead := SubsetBuilt(b, OpenRow(B), done + [(rest[0].0, [])], None, rest[0].1);
      InRowBuilt(AddSubset(b, rest[0].0, None, rest[0].1), B1, done + [rest[0]], rowHead);
      B' := RowsBuilt(AddSubset(b, rest[0].0, None, rest[0].1), B1, done + [rest[0]], rest[1..]);
    }
  }
}
