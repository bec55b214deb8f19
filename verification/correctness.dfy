/** What `solve(create_dlx(problem))` decides: the matrix `create_dlx` builds has the shape
    the search needs, and `solve` answers `true` exactly when some choice of the problem's
    rows is an exact cover. The selected nodes carry the labels of such a choice, and a
    `false` answer leaves the matrix as `create_dlx` built it. */
module Correctness {
  import opened Links
  import opened Cycles
  import opened Structure
  import opened Engine
  import opened RowWalk
  import opened ColumnWalk
  import opened Closure
  import opened SelectRow
  import opened Search
  import opened Builder
  import opened BuildSteps
  import opened BuildSpec
  import opened BuildLoops
  import opened Problem

  /** The loops of `create_dlx` over a whole problem establish the invariant. */
  lemma BuildInvariant<L, E>(p: seq<(L, seq<E>)>) returns (B: Base)
    requires WellFormed(p)
    ensures Built(AddRows(Start(), p), B, p)
  {
    StartBuilt<L, E>();
    B := RowsBuilt(Start(), NoBase(), [], p);
    assert [] + p == p;
  }

  /** A freshly built matrix is a search state with nothing covered. */
  lemma WholeSearchable<L>(m: Dlx<L>, B: Base)
    requires Whole(m, B)
    ensures Searchable(m, B, {}, {})
  {
    WholeStruct(m, B);
    FreshClosure(B, m.cell);
  }

  /** With nothing covered and nothing unlinked, every row is whole and open. */
  lemma FreshClosure<L>(B: Base, cell: seq<Cell<L>>)
    requires BaseOK(B, cell)
    ensures Settled(B, cell, {}, {}) && Untouched(B, cell, {}, {})
  {
    forall z | 0 <= z < |cell| && cell[z].Item? && z !in {} && cell[z].header !in {}
      ensures RowLive(B, {}, z) && RowOpen(B, cell, {}, z)
    {
      var h := cell[z].header;
      var a := IndexOf(B.cols[h], z);
      assert B.cols[h][a] in B.rowOf;
    }
  }

  /** The columns of row `r` are the columns of the constraints of subset `r`. */
  lemma RowColsAre<L, E>(b: Building<L, E>, B: Base, p: seq<(L, seq<E>)>, r: nat)
    requires RowsMatch(b, B, p) && r < |p|
    ensures forall c | c in RowCols(B, b.m.cell, r) ::
              exists a | 0 <= a < |p[r].1| :: p[r].1[a] in b.headers && c == b.headers[p[r].1[a]]
    ensures forall e | e in p[r].1 :: e in b.headers && b.headers[e] in RowCols(B, b.m.cell, r)
  {
    var cell := b.m.cell;
    forall c | c in RowCols(B, cell, r)
      ensures exists a | 0 <= a < |p[r].1| :: p[r].1[a] in b.headers && c == b.headers[p[r].1[a]]
    {
      var x :| x in B.rows[r] && x < |cell| && cell[x].Item? && cell[x].header == c;
      var a := IndexOf(B.rows[r], x);
      assert cell[B.rows[r][a]] == Item(b.headers[p[r].1[a]], p[r].0);
    }
    forall e | e in p[r].1
      ensures e in b.headers && b.headers[e] in RowCols(B, cell, r)
    {
      var a :| 0 <= a < |p[r].1| && p[r].1[a] == e;
      var x := B.rows[r][a];
      assert cell[x] == Item(b.headers[e], p[r].0);
    }
  }

  /** A header is on the root ring exactly when it is the column of some constraint of the
      problem. */
  lemma RingIs<L, E>(b: Building<L, E>, B: Base, p: seq<(L, seq<E>)>, c: nat)
    requires HeadersMatch(b, B, p)
    ensures c in B.ring <==> exists e | e in b.headers :: e in Flatten(p) && c == b.headers[e]
  {
    var D := Dedup(Flatten(p));
    DedupSpec(Flatten(p));
    if c in B.ring {
      var k :| 0 <= k < |B.ring| && B.ring[k] == c;
      assert D[k] in D;
    }
    if exists e | e in b.headers :: e in Flatten(p) && c == b.headers[e] {
      var e :| e in b.headers && e in Flatten(p) && c == b.headers[e];
      var k :| 0 <= k < |D| && D[k] == e;
      assert B.ring[k] == c;
    }
  }

  /** A choice of rows is an exact cover of the matrix's columns exactly when it is an
      exact cover of the problem's constraints. */
  lemma CoverIff<L, E>(b: Building<L, E>, B: Base, p: seq<(L, seq<E>)>, rs: seq<nat>)
    requires Built(b, B, p)
    ensures ExactRows(B, b.m.cell, {}, rs) <==> ExactCover(p, rs)
  {
    if ExactRows(B, b.m.cell, {}, rs) {
      RowsToCover(b, B, p, rs);
    }
    if ExactCover(p, rs) {
      CoverToRows(b, B, p, rs);
    }
  }

  lemma RowsToCover<L, E>(b: Building<L, E>, B: Base, p: seq<(L, seq<E>)>, rs: seq<nat>)
    requires RowsMatch(b, B, p) && HeadersMatch(b, B, p)
    requires ExactRows(B, b.m.cell, {}, rs)
    ensures ExactCover(p, rs)
  {
    var cell := b.m.cell;
    forall k | 0 <= k < |rs|
      ensures rs[k] < |p|
    {
      assert RowAvoids(B, cell, {}, rs[k]);
    }
    forall k, l, e | 0 <= k < l < |rs| && rs[k] < |p| && rs[l] < |p| && e in p[rs[k]].1
      ensures e !in p[rs[l]].1
    {
      RowColsAre(b, B, p, rs[k]);
      RowColsAre(b, B, p, rs[l]);
      assert b.headers[e] in RowCols(B, cell, rs[k]);
    }
    forall i, a | 0 <= i < |p| && 0 <= a < |p[i].1|
      ensures Met(p, rs, p[i].1[a])
    {
      var k := RowsMeet(b, B, p, rs, i, a);
    }
  }

  /** Each constraint of the problem is met by a row of an exact cover of the columns. */
  lemma RowsMeet<L, E>(b: Building<L, E>, B: Base, p: seq<(L, seq<E>)>, rs: seq<nat>, i: nat, a: nat)
      returns (k: nat)
    requires RowsMatch(b, B, p) && HeadersMatch(b, B, p)
    requires ExactRows(B, b.m.cell, {}, rs)
    requires i < |p| && a < |p[i].1|
    ensures k < |rs| && rs[k] < |p| && p[i].1[a] in p[rs[k]].1
  {
    var cell := b.m.cell;
    var e := p[i].1[a];
    FlattenIn(p, e);
    RowColsAre(b, B, p, i);
    var c := b.headers[e];
    RingIs(b, B, p, c);
    k :| 0 <= k < |rs| && c in RowCols(B, cell, rs[k]);
    RowColsAre(b, B, p, rs[k]);
    var a' :| 0 <= a' < |p[rs[k]].1| && p[rs[k]].1[a'] in b.headers && c == b.headers[p[rs[k]].1[a']];
    assert p[rs[k]].1[a'] == e;
    assert RowAvoids(B, cell, {}, rs[k]);
  }

  lemma CoverToRows<L, E>(b: Building<L, E>, B: Base, p: seq<(L, seq<E>)>, rs: seq<nat>)
    requires BaseOK(B, b.m.cell) && RowsMatch(b, B, p) && HeadersMatch(b, B, p)
    requires ExactCover(p, rs)
    ensures ExactRows(B, b.m.cell, {}, rs)
  {
    var cell := b.m.cell;
    forall i, j | 0 <= i < j < |rs|
      ensures RowCols(B, cell, rs[i]) !! RowCols(B, cell, rs[j])
    {
      RowColsAre(b, B, p, rs[i]);
      RowColsAre(b, B, p, rs[j]);
      forall c | c in RowCols(B, cell, rs[i])
        ensures c !in RowCols(B, cell, rs[j])
      {
        var a :| 0 <= a < |p[rs[i]].1| && p[rs[i]].1[a] in b.headers && c == b.headers[p[rs[i]].1[a]];
        var e := p[rs[i]].1[a];
        assert e !in p[rs[j]].1;
        forall a' | 0 <= a' < |p[rs[j]].1| && p[rs[j]].1[a'] in b.headers
          ensures c != b.headers[p[rs[j]].1[a']]
        {
          assert p[rs[j]].1[a'] != e;
        }
      }
    }
    forall c | c in B.ring && c !in {}
      ensures exists k | 0 <= k < |rs| :: c in RowCols(B, cell, rs[k])
    {
      RingIs(b, B, p, c);
      var e :| e in b.headers && e in Flatten(p) && c == b.headers[e];
      FlattenIn(p, e);
      var i, a :| 0 <= i < |p| && 0 <= a < |p[i].1| && p[i].1[a] == e;
      assert Met(p, rs, p[i].1[a]);
      var k :| 0 <= k < |rs| && rs[k] < |p| && p[i].1[a] in p[rs[k]].1;
      RowColsAre(b, B, p, rs[k]);
    }
  }

  /** The matrix has an exact cover of its columns exactly when the problem has one. */
  lemma CoverExists<L, E>(b: Building<L, E>, B: Base, p: seq<(L, seq<E>)>)
    requires Built(b, B, p)
    ensures HasCover(B, b.m.cell, {}) <==> exists sel :: ExactCover(p, sel)
  {
    if HasCover(B, b.m.cell, {}) {
      var rs :| ExactRows(B, b.m.cell, {}, rs);
      CoverIff(b, B, p, rs);
    }
    if exists sel :: ExactCover(p, sel) {
      var sel :| ExactCover(p, sel);
      CoverIff(b, B, p, sel);
    }
  }

  /** `picks` are nodes of `m` on rows of `p` that form an exact cover, each node labelled
      with its row's label. */
  ghost predicate LabelledCover<L, E>(p: seq<(L, seq<E>)>, m: Dlx<L>, picks: seq<nat>) {
    exists sel ::
      && ExactCover(p, sel) && |sel| == |picks|
      && forall k | 0 <= k < |sel| ::
           picks[k] < N(m) && sel[k] < |p| && m.cell[picks[k]].Item?
           && m.cell[picks[k]].rowLabel == p[sel[k]].0
  }

  /** The nodes a search selects carry the labels of the rows it picks. */
  lemma PickedLabels<L, E>(b: Building<L, E>, B: Base, p: seq<(L, seq<E>)>, picks: seq<nat>)
    requires Built(b, B, p) && Picked(B, b.m.cell, {}, picks)
    ensures LabelledCover(p, b.m, picks)
  {
    var rs := PickRows(B, picks);
    CoverIff(b, B, p, rs);
    forall k | 0 <= k < |picks|
      ensures picks[k] < N(b.m) && rs[k] < |p| && b.m.cell[picks[k]].Item?
              && b.m.cell[picks[k]].rowLabel == p[rs[k]].0
    {
      var i := B.rowOf[picks[k]];
      var a := IndexOf(B.rows[i], picks[k]);
      assert b.m.cell[B.rows[i][a]] == Item(b.headers[p[i].1[a]], p[i].0);
    }
  }

  /** What the search needs to know of the matrix `create_dlx` builds. */
  lemma BuildSummary<L, E>(p: seq<(L, seq<E>)>) returns (B: Base)
    requires WellFormed(p)
    ensures Searchable(CreateDlx(p), B, {}, {})
    ensures HasCover(B, CreateDlx(p).cell, {}) <==> exists sel :: ExactCover(p, sel)
    ensures forall picks | Picked(B, CreateDlx(p).cell, {}, picks) :: LabelledCover(p, CreateDlx(p), picks)
  {
    B := BuildInvariant(p);
    var b := AddRows(Start(), p);
    WholeSearchable(b.m, B);
    CoverExists(b, B, p);
    forall picks | Picked(B, b.m.cell, {}, picks)
      ensures LabelledCover(p, b.m, picks)
    {
      PickedLabels(b, B, p, picks);
    }
  }

  /** The search's promise on a matrix whose exact covers are those of `p`. */
  lemma SolveOn<L, E>(m: Dlx<L>, B: Base, p: seq<(L, seq<E>)>)
    requires Searchable(m, B, {}, {})
    requires HasCover(B, m.cell, {}) <==> exists sel :: ExactCover(p, sel)
    requires forall picks | Picked(B, m.cell, {}, picks) :: LabelledCover(p, m, picks)
    ensures Closed(m) && 0 < N(m)
    ensures Solve(m).Some?
    ensures Solve(m) == Some(true) <==> exists sel :: ExactCover(p, sel)
    ensures SolveSub(m, N(m)).Solved? ==> LabelledCover(p, m, SolveSub(m, N(m)).picks)
    ensures SolveSub(m, N(m)).Exhausted? ==> SolveSub(m, N(m)).state == m
  {
    SolveSpec(m, B);
  }

  /** `solve(create_dlx(problem))`, for a problem whose subsets list no constraint twice:
      the search never fails; it reports `true` exactly when the problem has an exact
      cover; when it does, the selected nodes, outermost first, are nodes of rows that
      form an exact cover, each labelled with its row's label; when it does not, every
      `cover` has been undone and the matrix is as `create_dlx` built it. */
  lemma SolveCreateDlx<L, E>(p: seq<(L, seq<E>)>)
    requires WellFormed(p)
    ensures Solve(CreateDlx(p)).Some?
    ensures Solve(CreateDlx(p)) == Some(true) <==> exists sel :: ExactCover(p, sel)
    ensures var m := CreateDlx(p); var r := SolveSub(m, N(m));
            r.Solved? ==> LabelledCover(p, m, r.picks)
    ensures var m := CreateDlx(p); var r := SolveSub(m, N(m));
            r.Exhausted? ==> r.state == m
  {
    var B := BuildSummary(p);
    SolveOn(CreateDlx(p), B, p);
  }
}
