/** What `create_dlx` builds, stated against the problem: the invariant of its loops over
    the rows read so far (`done`, whose last subset may be only partly read).

    - Row `i` of the matrix holds one node per member of subset `i`, left to right in
      subset order, each labelled with row `i`'s label and in the column of its constraint.
    - The root ring lists the columns in order of first appearance of their constraints.
    - Each column lists its nodes top to bottom in row order, one per row containing its
      constraint, and its size is that count. */
module BuildSpec {
  import opened Links
  import opened Cycles
  import opened Structure
  import opened Builder
  import opened BuildSteps
  import opened Problem

  /** Row `i` of the matrix is subset `i` of the problem, node for node. */
  ghost predicate RowsMatch<L, E>(b: Building<L, E>, B: Base, done: seq<(L, seq<E>)>) {
    && |B.rows| == |done|
    && (forall i | 0 <= i < |done| :: |B.rows[i]| == |done[i].1|)
    && (forall i, a | 0 <= i < |done| && 0 <= a < |done[i].1| && a < |B.rows[i]| ::
          && done[i].1[a] in b.headers
          && B.rows[i][a] < N(b.m)
          && b.m.cell[B.rows[i][a]] == Item(b.headers[done[i].1[a]], done[i].0))
  }

  /** The headers map names each constraint met so far by its own column, and the root
      ring lists those columns in order of first appearance. */
  ghost predicate HeadersMatch<L, E>(b: Building<L, E>, B: Base, done: seq<(L, seq<E>)>) {
    && (forall e | e in b.headers :: e in Flatten(done))
    && (forall e1, e2 | e1 in b.headers && e2 in b.headers && e1 != e2 :: b.headers[e1] != b.headers[e2])
    && |B.ring| == |Dedup(Flatten(done))|
    && (forall k | 0 <= k < |B.ring| ::
          Dedup(Flatten(done))[k] in b.headers && B.ring[k] == b.headers[Dedup(Flatten(done))[k]])
  }

  /** Each column holds one node per row containing its constraint, in row order. */
  ghost predicate ColumnsMatch<L, E>(b: Building<L, E>, B: Base, done: seq<(L, seq<E>)>) {
    && (forall e | e in b.headers :: b.headers[e] in B.cols && |B.cols[b.headers[e]]| == Count(done, e))
    && RowOrdered(B)
  }

  /** Down each column, the rows of the nodes strictly increase. */
  ghost predicate RowOrdered(B: Base) {
    forall h, a1, a2 | h in B.cols && 0 <= a1 < a2 < |B.cols[h]| ::
      B.cols[h][a1] in B.rowOf && B.cols[h][a2] in B.rowOf
      && B.rowOf[B.cols[h][a1]] < B.rowOf[B.cols[h][a2]]
  }

  /** The invariant of `create_dlx` after reading `done`. */
  ghost predicate Built<L, E>(b: Building<L, E>, B: Base, done: seq<(L, seq<E>)>) {
    && Whole(b.m, B)
    && RowsMatch(b, B, done)
    && HeadersMatch(b, B, done)
    && ColumnsMatch(b, B, done)
  }

  /** Before any row, the matrix is the root alone. */
  lemma StartBuilt<L, E>()
    ensures Built(Start<L, E>(), NoBase(), [])
  {
    StartWhole<L, E>();
  }

  /** The base with one more row, still empty. */
  function OpenRow(B: Base): Base {
    B.(rows := B.rows + [[]])
  }

  /** The new row has no first node yet. */
  lemma OpenRowEmpty(B: Base)
    ensures |OpenRow(B).rows| == |B.rows| + 1 && RowHead(OpenRow(B).rows[|B.rows|]) == None
  {
  }

  lemma OpenBase<L>(B: Base, cell: seq<Cell<L>>)
    requires BaseOK(B, cell)
    ensures BaseOK(OpenRow(B), cell)
  {
    var B' := OpenRow(B);
    assert forall i | 0 <= i < |B.rows| :: B'.rows[i] == B.rows[i];
  }

  lemma OpenWhole<L>(m: Dlx<L>, B: Base)
    requires Whole(m, B)
    ensures Whole(m, OpenRow(B))
  {
    var B' := OpenRow(B);
    OpenBase(B, m.cell);
    assert B'.ring == B.ring && B'.cols == B.cols;
    assert ColumnsWhole(m, B') && SizesWhole(m, B');
    forall i | 0 <= i < |B'.rows| && |B'.rows[i]| > 0
      ensures Linked(m.right, m.left, B'.rows[i])
    {
      assert B'.rows[i] == B.rows[i];
    }
  }

  lemma OpenRows<L, E>(b: Building<L, E>, B: Base, done: seq<(L, seq<E>)>, rowLabel: L)
    requires RowsMatch(b, B, done)
    ensures RowsMatch(b, OpenRow(B), done + [(rowLabel, [])])
  {
    var B' := OpenRow(B);
    var done' := done + [(rowLabel, [])];
    assert forall i | 0 <= i < |done| :: done'[i] == done[i] && B'.rows[i] == B.rows[i];
  }

  lemma OpenHeaders<L, E>(b: Building<L, E>, B: Base, done: seq<(L, seq<E>)>, rowLabel: L)
    requires HeadersMatch(b, B, done)
    ensures HeadersMatch(b, OpenRow(B), done + [(rowLabel, [])])
  {
    FlattenOpen(done, rowLabel);
  }

  lemma OpenColumns<L, E>(b: Building<L, E>, B: Base, done: seq<(L, seq<E>)>, rowLabel: L)
    requires ColumnsMatch(b, B, done)
    ensures ColumnsMatch(b, OpenRow(B), done + [(rowLabel, [])])
  {
    var B' := OpenRow(B);
    assert B'.cols == B.cols && B'.rowOf == B.rowOf;
    forall h, a1, a2 | h in B'.cols && 0 <= a1 < a2 < |B'.cols[h]|
      ensures B'.cols[h][a1] in B'.rowOf && B'.cols[h][a2] in B'.rowOf
      ensures B'.rowOf[B'.cols[h][a1]] < B'.rowOf[B'.cols[h][a2]]
    {
      assert RowOrdered(B) && h in B.cols && B'.cols[h] == B.cols[h];
      assert B.rowOf[B.cols[h][a1]] < B.rowOf[B.cols[h][a2]];
    }
    forall e | e in b.headers
      ensures Count(done + [(rowLabel, [])], e) == Count(done, e)
    {
      CountOpen(done, rowLabel, e);
    }
  }

  /** A new row starts empty. */
  lemma OpenBuilt<L, E>(b: Building<L, E>, B: Base, done: seq<(L, seq<E>)>, rowLabel: L)
    requires Built(b, B, done)
    ensures Built(b, OpenRow(B), done + [(rowLabel, [])])
  {
    OpenWhole(b.m, B);
    OpenRows(b, B, done, rowLabel);
    OpenHeaders(b, B, done, rowLabel);
    OpenColumns(b, B, done, rowLabel);
  }

  /** Every constraint read so far has a column. */
  lemma FlattenKeys<L, E>(b: Building<L, E>, B: Base, done: seq<(L, seq<E>)>)
    requires RowsMatch(b, B, done)
    ensures forall e | e in Flatten(done) :: e in b.headers
  {
    forall e | e in Flatten(done)
      ensures e in b.headers
    {
      FlattenIn(done, e);
    }
  }

  /** `AddElem` for a constraint met before: a new node in its column. */
  lemma AddElemOld<L, E>(b: Building<L, E>, rowLabel: L, rowHead: Option<nat>, e: E)
    requires Arena(b) && (rowHead.Some? ==> rowHead.value < N(b.m)) && e in b.headers
    ensures AddElem(b, rowLabel, rowHead, e)
            == (Building(NewNode(b.m, b.headers[e], rowLabel, rowHead), b.headers),
                if rowHead.Some? then rowHead.value else N(b.m))
  {
  }

  /** `AddElem` for a constraint met for the first time: a new header, then a new node in
      its column. */
  lemma AddElemNew<L, E>(b: Building<L, E>, rowLabel: L, rowHead: Option<nat>, e: E)
    requires Arena(b) && (rowHead.Some? ==> rowHead.value < N(b.m)) && e !in b.headers
    ensures AddElem(b, rowLabel, rowHead, e)
            == (Building(NewNode(NewHeader(b.m), N(b.m), rowLabel, rowHead), b.headers[e := N(b.m)]),
                if rowHead.Some? then rowHead.value else N(b.m) + 1)
  {
  }

  /** The rows after a node for `e` joins the last row. */
  lemma RowsGrow<L, E>(b: Building<L, E>, B: Base, done: seq<(L, seq<E>)>, e: E,
                       b': Building<L, E>, B': Base, x: nat, c: nat)
    requires RowsMatch(b, B, done) && done != []
    requires B'.rows == B.rows[|done| - 1 := B.rows[|done| - 1] + [x]]
    requires N(b.m) <= N(b'.m) && x < N(b'.m)
    requires forall y | 0 <= y < N(b.m) :: b'.m.cell[y] == b.m.cell[y]
    requires forall e' | e' in b.headers :: e' in b'.headers && b'.headers[e'] == b.headers[e']
    requires e in b'.headers && b'.headers[e] == c && b'.m.cell[x] == Item(c, done[|done| - 1].0)
    ensures RowsMatch(b', B', Extend(done, e))
  {
    var done' := Extend(done, e);
    var n := |done| - 1;
    forall i, a | 0 <= i < |done'| && 0 <= a < |done'[i].1| && a < |B'.rows[i]|
      ensures && done'[i].1[a] in b'.headers
              && B'.rows[i][a] < N(b'.m)
              && b'.m.cell[B'.rows[i][a]] == Item(b'.headers[done'[i].1[a]], done'[i].0)
    {
      if i < n {
        assert done'[i] == done[i] && B'.rows[i] == B.rows[i];
      } else if a < |done[n].1| {
        assert done'[i].1[a] == done[n].1[a] && B'.rows[i][a] == B.rows[n][a];
      }
    }
  }

  /** The headers after a constraint met before: nothing changes. */
  lemma HeadersOld<L, E>(b: Building<L, E>, B: Base, done: seq<(L, seq<E>)>, e: E,
                         b': Building<L, E>, B': Base)
    requires HeadersMatch(b, B, done) && done != [] && e in b.headers
    requires b'.headers == b.headers && B'.ring == B.ring
    ensures HeadersMatch(b', B', Extend(done, e))
  {
    FlattenExtend(done, e);
    DedupSnoc(Flatten(done), e);
  }

  /** The headers after a constraint met for the first time: its fresh header `c` goes to
      the end of the ring. */
  lemma HeadersNew<L, E>(b: Building<L, E>, B: Base, done: seq<(L, seq<E>)>, e: E,
                         b': Building<L, E>, B': Base, c: nat)
    requires HeadersMatch(b, B, done) && done != [] && e !in b.headers && e !in Flatten(done)
    requires forall e' | e' in b.headers :: b.headers[e'] < c
    requires b'.headers == b.headers[e := c] && B'.ring == B.ring + [c]
    ensures HeadersMatch(b', B', Extend(done, e))
  {
    FlattenExtend(done, e);
    DedupSnoc(Flatten(done), e);
    DedupSpec(Flatten(done));
    var D := Dedup(Flatten(done));
    assert Dedup(Flatten(Extend(done, e))) == D + [e];
    forall k | 0 <= k < |B'.ring|
      ensures (D + [e])[k] in b'.headers && B'.ring[k] == b'.headers[(D + [e])[k]]
    {
      if k < |B.ring| {
        assert (D + [e])[k] == D[k] && D[k] != e;
      }
    }
  }

  /** The columns after a node `x` of row `i` joins the column of `e`, met before. */
  lemma ColumnsOld<L, E>(b: Building<L, E>, B: Base, done: seq<(L, seq<E>)>, e: E,
                         b': Building<L, E>, B': Base, x: nat)
    requires b'.headers == b.headers
    requires ColumnsMatch(b, B, done) && done != [] && e in b.headers && e !in done[|done| - 1].1
    requires forall e' | e' in b.headers && e' != e :: b.headers[e'] != b.headers[e]
    requires x !in B.rowOf
    requires forall a | 0 <= a < |B.cols[b.headers[e]]| ::
               B.cols[b.headers[e]][a] in B.rowOf && B.rowOf[B.cols[b.headers[e]][a]] < |done| - 1
    requires B'.cols == B.cols[b.headers[e] := B.cols[b.headers[e]] + [x]]
    requires B'.rowOf == B.rowOf[x := |done| - 1]
    ensures ColumnsMatch(b', B', Extend(done, e))
  {
    var c := b.headers[e];
    forall e' | e' in b.headers
      ensures b.headers[e'] in B'.cols && |B'.cols[b.headers[e']]| == Count(Extend(done, e), e')
    {
      CountExtend(done, e, e');
    }
    forall h, a1, a2 | h in B'.cols && 0 <= a1 < a2 < |B'.cols[h]|
      ensures B'.cols[h][a1] in B'.rowOf && B'.cols[h][a2] in B'.rowOf
              && B'.rowOf[B'.cols[h][a1]] < B'.rowOf[B'.cols[h][a2]]
    {
      if h == c && a2 == |B.cols[c]| {
        assert B'.cols[h][a1] == B.cols[c][a1] && B'.cols[h][a2] == x;
      } else {
        assert B'.cols[h][a1] == B.cols[h][a1] && B'.cols[h][a2] == B.cols[h][a2];
      }
    }
  }

  /** The columns after a fresh header `c` for `e`, whose one node is `x`. */
  lemma ColumnsNew<L, E>(b: Building<L, E>, B: Base, done: seq<(L, seq<E>)>, e: E,
                         b': Building<L, E>, B': Base, x: nat, c: nat)
    requires ColumnsMatch(b, B, done) && done != [] && e !in b.headers && e !in Flatten(done)
    requires x !in B.rowOf && c !in B.cols
    requires b'.headers == b.headers[e := c]
    requires B'.cols == B.cols[c := [x]]
    requires B'.rowOf == B.rowOf[x := |done| - 1]
    ensures ColumnsMatch(b', B', Extend(done, e))
  {
    CountsNew(b, B, done, e, b', B', x, c);
    OrderedNew(B, B', x, c, |done| - 1);
  }

  /** A fresh column with one node keeps the columns in row order. */
  lemma OrderedNew(B: Base, B': Base, x: nat, c: nat, i: nat)
    requires RowOrdered(B) && x !in B.rowOf && c !in B.cols
    requires B'.cols == B.cols[c := [x]] && B'.rowOf == B.rowOf[x := i]
    ensures RowOrdered(B')
  {
    forall h, a1, a2 | h in B'.cols && 0 <= a1 < a2 < |B'.cols[h]|
      ensures B'.cols[h][a1] in B'.rowOf && B'.cols[h][a2] in B'.rowOf
              && B'.rowOf[B'.cols[h][a1]] < B'.rowOf[B'.cols[h][a2]]
    {
      assert h != c;
      var y1, y2 := B.cols[h][a1], B.cols[h][a2];
      assert B'.cols[h][a1] == y1 && B'.cols[h][a2] == y2;
      assert y1 in B.rowOf && y2 in B.rowOf && B.rowOf[y1] < B.rowOf[y2];
      assert y1 != x && y2 != x;
    }
  }

  lemma CountsNew<L, E>(b: Building<L, E>, B: Base, done: seq<(L, seq<E>)>, e: E,
                        b': Building<L, E>, B': Base, x: nat, c: nat)
    requires ColumnsMatch(b, B, done) && done != [] && e !in b.headers && e !in Flatten(done)
    requires c !in B.cols
    requires b'.headers == b.headers[e := c]
    requires B'.cols == B.cols[c := [x]]
    ensures forall e' | e' in b'.headers ::
              b'.headers[e'] in B'.cols && |B'.cols[b'.headers[e']]| == Count(Extend(done, e), e')
  {
    CountAbsent(done, e);
    forall e' | e' in b'.headers
      ensures b'.headers[e'] in B'.cols && |B'.cols[b'.headers[e']]| == Count(Extend(done, e), e')
    {
      CountExtend(done, e, e');
      if e' != e {
        assert b'.headers[e'] == b.headers[e'] != c;
      }
    }
  }

  /** No node of the last row is in the column of a constraint its subset does not list. */
  lemma OldFits<L, E>(b: Building<L, E>, B: Base, done: seq<(L, seq<E>)>, e: E)
    requires Whole(b.m, B) && RowsMatch(b, B, done) && HeadersMatch(b, B, done)
    requires done != [] && e in b.headers && e !in done[|done| - 1].1
    ensures Fits(B, b.m.cell, b.headers[e], |done| - 1)
  {
    var i := |done| - 1;
    forall a | 0 <= a < |B.rows[i]|
      ensures HdOf(b.m.cell, B.rows[i][a]) != b.headers[e]
    {
      assert done[i].1[a] != e;
    }
  }

  /** A column whose constraint the last subset does not list has all its nodes on
      earlier rows. */
  lemma ColumnBefore<L>(B: Base, cell: seq<Cell<L>>, c: nat, i: nat)
    requires BaseOK(B, cell) && c in B.cols && i < |B.rows| && |B.rows| == i + 1 && Fits(B, cell, c, i)
    ensures forall a | 0 <= a < |B.cols[c]| :: B.cols[c][a] in B.rowOf && B.rowOf[B.cols[c][a]] < i
  {
    forall a | 0 <= a < |B.cols[c]|
      ensures B.cols[c][a] in B.rowOf && B.rowOf[B.cols[c][a]] < i
    {
      var y := B.cols[c][a];
      var j := B.rowOf[y];
      var a' :| 0 <= a' < |B.rows[j]| && B.rows[j][a'] == y;
      assert HdOf(cell, B.rows[j][a']) == c;
      assert j != i;
    }
  }

  /** The problem-side invariant after a node for `e`, met before, joins the last row. */
  lemma ElemOldMatch<L, E>(b: Building<L, E>, B: Base, done: seq<(L, seq<E>)>, e: E, m': Dlx<L>)
    requires Built(b, B, done) && done != [] && e in b.headers && e !in done[|done| - 1].1
    requires m'.cell == b.m.cell + [Item(b.headers[e], done[|done| - 1].0)]
    ensures var B' := WithNode(B, b.headers[e], |done| - 1, N(b.m)); var b' := Building(m', b.headers);
            RowsMatch(b', B', Extend(done, e)) && HeadersMatch(b', B', Extend(done, e))
            && ColumnsMatch(b', B', Extend(done, e))
  {
    var i := |done| - 1;
    var c := b.headers[e];
    var x := N(b.m);
    var b' := Building(m', b.headers);
    var B' := WithNode(B, c, i, x);
    RowsGrow(b, B, done, e, b', B', x, c);
    HeadersOld(b, B, done, e, b', B');
    ElemOldColumns(b, B, done, e, b');
  }

  lemma ElemOldColumns<L, E>(b: Building<L, E>, B: Base, done: seq<(L, seq<E>)>, e: E, b': Building<L, E>)
    requires Built(b, B, done) && done != [] && e in b.headers && e !in done[|done| - 1].1
    requires b'.headers == b.headers
    ensures ColumnsMatch(b', WithNode(B, b.headers[e], |done| - 1, N(b.m)), Extend(done, e))
  {
    var i := |done| - 1;
    var c := b.headers[e];
    OldFits(b, B, done, e);
    ColumnBefore(B, b.m.cell, c, i);
    RowOfBound(B, b.m.cell);
    ColumnsOld(b, B, done, e, b', WithNode(B, c, i, N(b.m)), N(b.m));
  }

  /** One member `e` of the last subset, met before. */
  lemma ElemOldBuilt<L, E>(b: Building<L, E>, B: Base, done: seq<(L, seq<E>)>, e: E, rowHead: Option<nat>)
      returns (B': Base)
    requires Built(b, B, done) && done != [] && e in b.headers && e !in done[|done| - 1].1
    requires rowHead == RowHead(B.rows[|done| - 1])
    ensures Arena(b) && (rowHead.Some? ==> rowHead.value < N(b.m))
    ensures var r := AddElem(b, done[|done| - 1].0, rowHead, e);
            Built(r.0, B', Extend(done, e)) && |B'.rows| == |done| && B'.rows[|done| - 1] != []
            && r.1 == B'.rows[|done| - 1][0]
  {
    var i := |done| - 1;
    var c := b.headers[e];
    B' := WithNode(B, c, i, N(b.m));
    OldFits(b, B, done, e);
    NodeWhole(b.m, B, c, i, done[i].0);
    var m' := NewNode(b.m, c, done[i].0, rowHead);
    ElemOldMatch(b, B, done, e, m');
    assert Built(Building(m', b.headers), B', Extend(done, e));
    AddElemOld(b, done[i].0, rowHead, e);
    RowHeadNext(B.rows[i], N(b.m), rowHead);
  }

  /** Every column header names a node below the next fresh one. */
  lemma HeadsBelow<L, E>(b: Building<L, E>, B: Base, done: seq<(L, seq<E>)>)
    requires Whole(b.m, B) && ColumnsMatch(b, B, done)
    ensures forall e | e in b.headers :: b.headers[e] < N(b.m)
    ensures N(b.m) !in B.cols
  {
    forall h | h in B.cols
      ensures h < N(b.m)
    {
      var k :| 0 <= k < |B.ring| && B.ring[k] == h;
    }
  }

  /** A fresh header has no node on any row yet. */
  lemma NewFits<L>(m: Dlx<L>, B: Base, i: nat)
    requires Closed(m) && BaseOK(B, m.cell) && i < |B.rows| && N(m) !in B.cols
    ensures BaseOK(WithHeader(B, N(m)), m.cell + [Head])
    ensures Fits(WithHeader(B, N(m)), m.cell + [Head], N(m), i)
  {
    HeaderBase(B, m.cell);
    var cell := m.cell + [Head];
    forall a | 0 <= a < |B.rows[i]|
      ensures HdOf(cell, B.rows[i][a]) != N(m)
    {
      var y := B.rows[i][a];
      assert cell[y] == m.cell[y];
    }
  }

  /** The matrix after a fresh header and its first node, on row `i`. */
  lemma ElemNewShape<L>(m: Dlx<L>, B: Base, i: nat, rowLabel: L)
    requires Whole(m, B) && i < |B.rows| && N(m) !in B.cols
    ensures var m' := NewNode(NewHeader(m), N(m), rowLabel, RowHead(B.rows[i]));
            && Whole(m', WithNode(WithHeader(B, N(m)), N(m), i, N(m) + 1))
            && m'.cell == m.cell + [Head] + [Item(N(m), rowLabel)]
  {
    var c := N(m);
    NewFits(m, B, i);
    HeaderWhole(m, B);
    assert WithHeader(B, c).rows == B.rows;
    NodeWhole(NewHeader(m), WithHeader(B, c), c, i, rowLabel);
  }

  /** The problem-side invariant after a fresh header `c` and its first node `x` joined
      the last row. */
  lemma ElemNewMatch<L, E>(b: Building<L, E>, B: Base, done: seq<(L, seq<E>)>, e: E, m': Dlx<L>)
    requires Built(b, B, done) && done != [] && e !in b.headers
    requires m'.cell == b.m.cell + [Head] + [Item(N(b.m), done[|done| - 1].0)]
    ensures var c := N(b.m); var B' := WithNode(WithHeader(B, c), c, |done| - 1, c + 1);
            var b' := Building(m', b.headers[e := c]);
            RowsMatch(b', B', Extend(done, e)) && HeadersMatch(b', B', Extend(done, e))
            && ColumnsMatch(b', B', Extend(done, e))
  {
    FlattenKeys(b, B, done);
    HeadsBelow(b, B, done);
    ElemNewRows(b, B, done, e, m');
    ElemNewHeaders(b, B, done, e, m');
    ElemNewColumns(b, B, done, e, Building(m', b.headers[e := N(b.m)]));
  }

  lemma ElemNewRows<L, E>(b: Building<L, E>, B: Base, done: seq<(L, seq<E>)>, e: E, m': Dlx<L>)
    requires RowsMatch(b, B, done) && done != [] && e !in b.headers && |B.rows| == |done|
    requires m'.cell == b.m.cell + [Head] + [Item(N(b.m), done[|done| - 1].0)]
    ensures var c := N(b.m);
            RowsMatch(Building(m', b.headers[e := c]), WithNode(WithHeader(B, c), c, |done| - 1, c + 1), Extend(done, e))
  {
    var c := N(b.m);
    var b' := Building(m', b.headers[e := c]);
    var B' := WithNode(WithHeader(B, c), c, |done| - 1, c + 1);
    RowsGrow(b, B, done, e, b', B', c + 1, c);
  }

  lemma ElemNewHeaders<L, E>(b: Building<L, E>, B: Base, done: seq<(L, seq<E>)>, e: E, m': Dlx<L>)
    requires HeadersMatch(b, B, done) && done != [] && e !in b.headers && |B.rows| == |done|
    requires forall e' | e' in Flatten(done) :: e' in b.headers
    requires forall e' | e' in b.headers :: b.headers[e'] < N(b.m)
    ensures var c := N(b.m);
            HeadersMatch(Building(m', b.headers[e := c]), WithNode(WithHeader(B, c), c, |done| - 1, c + 1), Extend(done, e))
  {
    var c := N(b.m);
    var b' := Building(m', b.headers[e := c]);
    var B' := WithNode(WithHeader(B, c), c, |done| - 1, c + 1);
    HeadersNew(b, B, done, e, b', B', c);
  }

  lemma ElemNewColumns<L, E>(b: Building<L, E>, B: Base, done: seq<(L, seq<E>)>, e: E, b': Building<L, E>)
    requires Built(b, B, done) && done != [] && e !in b.headers
    requires b'.headers == b.headers[e := N(b.m)]
    ensures ColumnsMatch(b', WithNode(WithHeader(B, N(b.m)), N(b.m), |done| - 1, N(b.m) + 1), Extend(done, e))
  {
    var c := N(b.m);
    var x := c + 1;
    var B' := WithNode(WithHeader(B, c), c, |done| - 1, x);
    FlattenKeys(b, B, done);
    HeadsBelow(b, B, done);
    RowOfBound(B, b.m.cell);
    NewColumnIs(B, c, |done| - 1, x);
    ColumnsNew(b, B, done, e, b', B', x, c);
  }

  /** A fresh header's column holds just its first node. */
  lemma NewColumnIs(B: Base, c: nat, i: nat, x: nat)
    requires i < |B.rows|
    ensures WithNode(WithHeader(B, c), c, i, x).cols == B.cols[c := [x]]
  {
    assert WithHeader(B, c).cols[c] + [x] == [x];
  }

  /** The state after `AddElem` for a constraint `e` met for the first time. */
  function AfterNew<L, E(==)>(b: Building<L, E>, rowLabel: L, rowHead: Option<nat>, e: E): Building<L, E>
    requires Arena(b) && (rowHead.Some? ==> rowHead.value < N(b.m))
  {
    Building(NewNode(NewHeader(b.m), N(b.m), rowLabel, rowHead), b.headers[e := N(b.m)])
  }

  /** One member `e` of the last subset, met for the first time: the invariant for the
      state after a fresh header and its first node. */
  lemma ElemNewState<L, E>(b: Building<L, E>, B: Base, done: seq<(L, seq<E>)>, e: E, rowHead: Option<nat>)
      returns (B': Base)
    requires Built(b, B, done) && done != [] && e !in b.headers
    requires rowHead == RowHead(B.rows[|done| - 1])
    ensures Arena(b) && (rowHead.Some? ==> rowHead.value < N(b.m))
    ensures Built(AfterNew(b, done[|done| - 1].0, rowHead, e), B', Extend(done, e))
    ensures B' == WithNode(WithHeader(B, N(b.m)), N(b.m), |done| - 1, N(b.m) + 1)
  {
    var i := |done| - 1;
    var c := N(b.m);
    HeadsBelow(b, B, done);
    ElemNewShape(b.m, B, i, done[i].0);
    B' := WithNode(WithHeader(B, c), c, i, c + 1);
    var m' := NewNode(NewHeader(b.m), c, done[i].0, rowHead);
    ElemNewMatch(b, B, done, e, m');
  }

  /** One member `e` of the last subset, met for the first time. */
  lemma ElemNewBuilt<L, E>(b: Building<L, E>, B: Base, done: seq<(L, seq<E>)>, e: E, rowHead: Option<nat>)
      returns (B': Base)
    requires Built(b, B, done) && done != [] && e !in b.headers
    requires rowHead == RowHead(B.rows[|done| - 1])
    ensures Arena(b) && (rowHead.Some? ==> rowHead.value < N(b.m))
    ensures var r := AddElem(b, done[|done| - 1].0, rowHead, e);
            Built(r.0, B', Extend(done, e)) && |B'.rows| == |done| && B'.rows[|done| - 1] != []
            && r.1 == B'.rows[|done| - 1][0]
  {
    B' := ElemNewState(b, B, done, e, rowHead);
    ElemNewTail(b, done[|done| - 1].0, rowHead, e, B', Extend(done, e));
    RowHeadNext(B.rows[|done| - 1], N(b.m) + 1, rowHead);
  }

  lemma ElemNewTail<L, E>(b: Building<L, E>, rowLabel: L, rowHead: Option<nat>, e: E, B': Base, done': seq<(L, seq<E>)>)
    requires Arena(b) && (rowHead.Some? ==> rowHead.value < N(b.m)) && e !in b.headers
    requires Built(AfterNew(b, rowLabel, rowHead, e), B', done')
    ensures Built(AddElem(b, rowLabel, rowHead, e).0, B', done')
    ensures AddElem(b, rowLabel, rowHead, e).1 == if rowHead.Some? then rowHead.value else N(b.m) + 1
  {
    AddElemNew(b, rowLabel, rowHead, e);
  }

  /** The first node of a row after `x` joins its end: the old first node, or `x`. */
  lemma RowHeadNext(row: seq<nat>, x: nat, rowHead: Option<nat>)
    requires rowHead == RowHead(row)
    ensures (if rowHead.Some? then rowHead.value else x) == (row + [x])[0]
  {
  }

  /** The invariant bounds the arena: every header and every row node is one of its nodes. */
  lemma BuiltArena<L, E>(b: Building<L, E>, B: Base, done: seq<(L, seq<E>)>)
    requires Built(b, B, done)
    ensures Arena(b)
    ensures forall i, a | 0 <= i < |B.rows| && 0 <= a < |B.rows[i]| :: B.rows[i][a] < N(b.m)
  {
    HeadsBelow(b, B, done);
  }

  /** One member `e` of the last subset, not yet listed in it. */
  lemma ElemBuilt<L, E>(b: Building<L, E>, B: Base, done: seq<(L, seq<E>)>, e: E, rowHead: Option<nat>)
      returns (B': Base)
    requires Built(b, B, done) && done != [] && e !in done[|done| - 1].1
    requires rowHead == RowHead(B.rows[|done| - 1])
    ensures Arena(b) && (rowHead.Some? ==> rowHead.value < N(b.m))
    ensures var r := AddElem(b, done[|done| - 1].0, rowHead, e);
            Built(r.0, B', Extend(done, e)) && |B'.rows| == |done| && B'.rows[|done| - 1] != []
            && r.1 == B'.rows[|done| - 1][0]
  {
    if e in b.headers {
      B' := ElemOldBuilt(b, B, done, e, rowHead);
    } else {
      B' := ElemNewBuilt(b, B, done, e, rowHead);
    }
  }
}
