/** Two small matrices on which the search of `solve` does not return normally, and what
    the model answers there.

    The first is built by `create_dlx` from the problem `[(0, [1, 1])]`, whose one subset
    lists constraint 1 twice: `cover` then walks a column that no longer holds the node it
    started from, and never ends. The second is a closed arena in which a row's neighbour
    is the root: `cover` reads the `header` of a node that has none, which in JavaScript
    throws a `TypeError` that the bare `catch` of `solve` turns into `true`. The model
    answers `None` for both. */
module Witnesses {
  import opened Links
  import opened Engine
  import opened Builder
  import opened Problem

  /** The matrix `create_dlx` builds from `[(0, [1, 1])]`: the root, the header of
      column 1, and the two nodes of the row, both in column 1. */
  function Doubled(): Dlx<int> {
    Dlx([0, 3, 1, 2], [0, 2, 3, 1], [1, 0, 3, 2], [1, 0, 3, 2], [0, 2, 0, 0], [Head, Head, Item(1, 0), Item(1, 0)])
  }

  /** The same matrix after the first member of the subset. */
  function HalfBuilt(): Dlx<int> {
    Dlx([0, 2, 1], [0, 2, 1], [1, 0, 2], [1, 0, 2], [0, 1, 0], [Head, Head, Item(1, 0)])
  }

  /** The problem is not well formed, so `Correctness.SolveCreateDlx` says nothing about it. */
  lemma DoubledIllFormed()
    ensures !WellFormed([(0, [1, 1])])
  {
    var es := [(0, [1, 1])][0].1;
    assert es[0] == es[1];
    assert !Unrepeated(es);
  }

  /** Node 2's right neighbour is the root, whose cell has no header. */
  function Headerless(): Dlx<int> {
    Dlx([0, 2, 1], [0, 2, 1], [1, 0, 2], [1, 0, 0], [0, 1, 0], [Head, Head, Item(1, 7)])
  }

  /** The search on `Headerless()` fails: `cover(2)` moves right from node 2 onto the
      root and reads its header. */
  lemma HeaderlessFails()
    ensures Closed(Headerless()) && Solve(Headerless()) == None
  {
    HeaderlessCover();
    var m := Headerless();
    assert [0] + [1] == [0, 1];
    assert MinSizeCol(m) == Some(1);
    assert TryRows(m, 1, 2, 3, 3) == Failed;
  }

  /** `cover(2)` on `Headerless()`: column 1 is covered, then the walk along the row
      reaches the root. */
  lemma HeaderlessCover()
    ensures Closed(Headerless()) && Cover(Headerless(), 2) == None
  {
    var m1 := Dlx([0, 2, 1], [0, 2, 1], [0, 0, 2], [0, 0, 0], [0, 1, 0], [Head, Head, Item(1, 7)]);
    assert UnlinkLR(Headerless(), 1) == m1;
    assert CoverColumn(m1, 2, 1, 1, 3) == Some(m1);
    assert CoverFrom(m1, 2, 0, 2) == None;
  }

  function RootOnly(): Dlx<int> { Dlx([0], [0], [0], [0], [0], [Head]) }
  function FreshHeader(): Dlx<int> { Dlx([0, 1], [0, 1], [0, 1], [0, 1], [0, 0], [Head, Head]) }
  function HeaderInRing(): Dlx<int> { Dlx([0, 1], [0, 1], [1, 0], [1, 0], [0, 0], [Head, Head]) }
  function FreshNode(): Dlx<int> { Dlx([0, 1, 2], [0, 1, 2], [1, 0, 2], [1, 0, 2], [0, 0, 0], [Head, Head, Item(1, 0)]) }

  lemma StartRoot() ensures Start<int, int>() == Building(RootOnly(), map[])
  {
    assert [] + [0] == [0];
    assert Empty<int>().cell + [Head] == [Head];
  }

  lemma FirstHeader() ensures ColumnOf(Building(RootOnly(), map[]), 1) == (Building(HeaderInRing(), map[1 := 1]), 1)
  {
    assert [0] + [1] == [0, 1] && [0] + [0] == [0, 0];
    assert RootOnly().cell + [Head] == [Head, Head];
    assert CreateHeader(RootOnly()) == (FreshHeader(), 1);
    assert InsertLeft(FreshHeader(), Root, 1) == HeaderInRing();
  }

  lemma FirstNode() ensures CreateNode(HeaderInRing(), 1, 0) == (FreshNode(), 2)
  {
    var h := HeaderInRing();
    assert h.up + [2] == [0, 1, 2] && h.down + [2] == [0, 1, 2];
    assert h.left + [2] == [1, 0, 2] && h.right + [2] == [1, 0, 2] && h.size + [0] == [0, 0, 0];
    assert h.cell + [Item(1, 0)] == [Head, Head, Item(1, 0)];
  }

  lemma FirstPlace() ensures Place(FreshNode(), None, 1, 2) == HalfBuilt() { }

  lemma FirstMember()
    ensures AddElem(Start<int, int>(), 0, None, 1) == (Building(HalfBuilt(), map[1 := 1]), 2)
  {
    StartRoot();
    FirstHeader();
    FirstNode();
    FirstPlace();
  }

  lemma SecondMember()
    ensures AddElem(Building(HalfBuilt(), map[1 := 1]), 0, Some(2), 1) == (Building(Doubled(), map[1 := 1]), 2)
  {
    var n := Dlx([0, 2, 1, 3], [0, 2, 1, 3], [1, 0, 2, 3], [1, 0, 2, 3], [0, 1, 0, 0], [Head, Head, Item(1, 0), Item(1, 0)]);
    var o := HalfBuilt();
    assert o.up + [3] == [0, 2, 1, 3] && o.down + [3] == [0, 2, 1, 3];
    assert o.left + [3] == [1, 0, 2, 3] && o.right + [3] == [1, 0, 2, 3] && o.size + [0] == [0, 1, 0, 0];
    assert o.cell + [Item(1, 0)] == [Head, Head, Item(1, 0), Item(1, 0)];
    assert CreateNode(HalfBuilt(), 1, 0) == (n, 3);
    var r := Dlx([0, 2, 1, 3], [0, 2, 1, 3], [1, 0, 3, 2], [1, 0, 3, 2], [0, 1, 0, 0], [Head, Head, Item(1, 0), Item(1, 0)]);
    assert JoinRow(n, Some(2), 3) == r;
    assert JoinColumn(r, 1, 3) == Doubled();
  }

  lemma DoubledRow()
    ensures AddSubset(Start<int, int>(), 0, None, [1, 1]) == Building(Doubled(), map[1 := 1])
  {
    FirstMember();
    SecondMember();
    var b1 := Building(HalfBuilt(), map[1 := 1]);
    var b2 := Building(Doubled(), map[1 := 1]);
    assert AddSubset(b2, 0, Some(2), []) == b2;
    assert [1, 1][1..] == [1];
    assert [1][1..] == [];
    assert AddSubset(b1, 0, Some(2), [1]) == b2;
  }

  lemma DoubledBuilt()
    ensures CreateDlx([(0, [1, 1])]) == Doubled()
  {
    DoubledRow();
    var b := Building(Doubled(), map[1 := 1]);
    assert AddRows(b, []) == b;
    DoubledAddRows();
  }

  lemma DoubledAddRows()
    ensures AddRows(Start<int, int>(), [(0, [1, 1])]) == AddRows(AddSubset(Start<int, int>(), 0, None, [1, 1]), [])
  {
    assert [(0, [1, 1])][1..] == [];
  }

  lemma DoubledUnlinkLR()
    ensures UnlinkLR(Doubled(), 1) == Dlx([0, 3, 1, 2], [0, 2, 3, 1], [0, 0, 3, 2], [0, 0, 3, 2], [0, 2, 0, 0], [Head, Head, Item(1, 0), Item(1, 0)])
  {
  }

  function LapStart(): Dlx<int> { Dlx([0, 3, 1, 2], [0, 2, 3, 1], [0, 0, 3, 2], [0, 0, 3, 2], [0, 2, 0, 0], [Head, Head, Item(1, 0), Item(1, 0)]) }
  function FirstLap(): Dlx<int> { Dlx([0, 3, 1, 1], [0, 3, 3, 1], [0, 0, 3, 2], [0, 0, 3, 2], [0, 1, 0, 0], [Head, Head, Item(1, 0), Item(1, 0)]) }
  function SecondLap(): Dlx<int> { Dlx([0, 3, 1, 1], [0, 3, 3, 1], [0, 0, 3, 2], [0, 0, 3, 2], [0, 0, 0, 0], [Head, Head, Item(1, 0), Item(1, 0)]) }

  lemma UnlinkFirstLap() ensures UnlinkUD(LapStart(), 2) == FirstLap() { }
  lemma UnlinkSecondLap() ensures UnlinkUD(FirstLap(), 2) == SecondLap() { }
  lemma RowFirstLap() ensures UnlinkRow(LapStart(), 3, 2, 4) == Some(FirstLap()) { UnlinkFirstLap(); assert UnlinkRow(FirstLap(), 3, 3, 3) == Some(FirstLap()); }
  lemma RowSecondLap() ensures UnlinkRow(FirstLap(), 3, 2, 4) == Some(SecondLap()) { UnlinkSecondLap(); assert UnlinkRow(SecondLap(), 3, 3, 3) == Some(SecondLap()); }
  lemma ColumnThirdLap() ensures CoverColumn(SecondLap(), 2, 1, 1, 1) == None { assert CoverColumn(SecondLap(), 2, 1, 3, 0) == None; }
  lemma ColumnSecondLap() ensures CoverColumn(FirstLap(), 2, 1, 1, 3) == None { RowSecondLap(); ColumnThirdLap(); assert CoverColumn(FirstLap(), 2, 1, 3, 2) == None; }
  lemma ColumnFirstLap() ensures CoverColumn(LapStart(), 2, 1, 3, 4) == None { RowFirstLap(); ColumnSecondLap(); }

  lemma DoubledCoverLoops()
    ensures Cover(Doubled(), 2) == None
  {
    DoubledUnlinkLR();
    ColumnFirstLap();
    assert CoverFrom(Doubled(), 2, 2, 4) == None;
  }

  lemma DoubledMinSize()
    ensures MinSizeCol(Doubled()) == Some(1)
  {
    var r := Doubled().right;
    assert Walk(r, 0, 1, 3) == Some([1]);
    assert [0] + [1] == [0, 1];
    assert Walk(r, 0, 0, 4) == Some([0, 1]);
    assert Skip(1, [0, 1]) == [1];
  }

  lemma DoubledRowFail()
    ensures TryRows(Doubled(), 1, 2, 4, 4) == Failed
  {
    DoubledCoverLoops();
  }

  lemma DoubledSolveSub()
    ensures SolveSub(Doubled(), 4) == Failed
  {
    DoubledMinSize();
    DoubledRowFail();
  }

  lemma DoubledClosed()
    ensures Closed(Doubled()) && N(Doubled()) == 4
  {
  }

  lemma DoubledSolveLoops()
    ensures Closed(Doubled()) && Solve(Doubled()) == None
  {
    DoubledClosed();
    DoubledSolveSub();
  }
}
