/** The matrix `create_dlx` returns, described against its problem: which nodes it holds
    and how they are linked. `hdr` is the `headers` map of the JavaScript function, from
    each constraint to its column header. */
module Shape {
  import opened Links
  import opened Cycles
  import opened Structure
  import opened Builder
  import opened BuildSteps
  import opened BuildSpec
  import opened Problem
  import opened Correctness

  /** The root ring: the root, then one header per constraint of the problem, in order of
      first appearance; distinct constraints have distinct headers. */
  ghost predicate RingShape<L, E>(m: Dlx<L>, B: Base, hdr: map<E, nat>, p: seq<(L, seq<E>)>) {
    && Linked(m.right, m.left, [Root] + B.ring)
    && (forall e | e in hdr :: e in Flatten(p))
    && (forall e | e in Flatten(p) :: e in hdr)
    && (forall e1, e2 | e1 in hdr && e2 in hdr && e1 != e2 :: hdr[e1] != hdr[e2])
    && |B.ring| == |Dedup(Flatten(p))|
    && (forall k | 0 <= k < |B.ring| ::
          Dedup(Flatten(p))[k] in hdr && B.ring[k] == hdr[Dedup(Flatten(p))[k]])
  }

  /** Row `i`: one node per member of subset `i`, linked left to right in subset order,
      each in the column of its constraint and labelled with the row's label. */
  ghost predicate RowShape<L, E>(m: Dlx<L>, B: Base, hdr: map<E, nat>, p: seq<(L, seq<E>)>) {
    && |B.rows| == |p|
    && (forall i | 0 <= i < |p| :: |B.rows[i]| == |p[i].1|)
    && (forall i | 0 <= i < |p| && p[i].1 != [] :: Linked(m.right, m.left, B.rows[i]))
    && (forall i, a | 0 <= i < |p| && 0 <= a < |p[i].1| && a < |B.rows[i]| ::
          && p[i].1[a] in hdr && B.rows[i][a] < N(m)
          && m.cell[B.rows[i][a]] == Item(hdr[p[i].1[a]], p[i].0))
  }

  /** The column of constraint `e`: its header, then one node per row containing `e`,
      linked top to bottom in row order; its size is that number of rows. */
  ghost predicate ColumnShape<L, E>(m: Dlx<L>, B: Base, hdr: map<E, nat>, p: seq<(L, seq<E>)>) {
    && (forall e | e in hdr ::
          && hdr[e] in B.cols && hdr[e] < N(m) && hdr[e] < |m.size|
          && Linked(m.down, m.up, [hdr[e]] + B.cols[hdr[e]])
          && |B.cols[hdr[e]]| == Count(p, e) && m.size[hdr[e]] == Count(p, e))
    && (forall h, a | h in B.cols && 0 <= a < |B.cols[h]| ::
          B.cols[h][a] in B.rowOf && B.rowOf[B.cols[h][a]] < |B.rows|
          && B.cols[h][a] in B.rows[B.rowOf[B.cols[h][a]]])
    && (forall h, a1, a2 | h in B.cols && 0 <= a1 < a2 < |B.cols[h]| ::
          B.cols[h][a1] in B.rowOf && B.cols[h][a2] in B.rowOf
          && B.rowOf[B.cols[h][a1]] < B.rowOf[B.cols[h][a2]])
  }

  lemma BuiltRing<L, E>(b: Building<L, E>, B: Base, p: seq<(L, seq<E>)>)
    requires Whole(b.m, B) && RowsMatch(b, B, p) && HeadersMatch(b, B, p)
    ensures RingShape(b.m, B, b.headers, p)
  {
    FlattenKeys(b, B, p);
  }

  lemma BuiltRows<L, E>(b: Building<L, E>, B: Base, p: seq<(L, seq<E>)>)
    requires Whole(b.m, B) && RowsMatch(b, B, p)
    ensures RowShape(b.m, B, b.headers, p)
  {
  }

  lemma BuiltColumns<L, E>(b: Building<L, E>, B: Base, p: seq<(L, seq<E>)>)
    requires Whole(b.m, B) && ColumnsMatch(b, B, p)
    ensures ColumnShape(b.m, B, b.headers, p)
  {
    HeadsBelow(b, B, p);
  }

  /** `create_dlx(problem)`, for a problem whose subsets list no constraint twice, builds
      the ring, rows and columns described above. */
  lemma CreateDlxShape<L, E>(p: seq<(L, seq<E>)>) returns (B: Base, hdr: map<E, nat>)
    requires WellFormed(p)
    ensures RingShape(CreateDlx(p), B, hdr, p)
    ensures RowShape(CreateDlx(p), B, hdr, p)
    ensures ColumnShape(CreateDlx(p), B, hdr, p)
  {
    B := BuildInvariant(p);
    var b := AddRows(Start(), p);
    hdr := b.headers;
    BuiltRing(b, B, p);
    BuiltRows(b, B, p);
    BuiltColumns(b, B, p);
  }
}
