/** The exact-cover problem `solve_sudoku` feeds to `create_dlx`: one row per candidate
    placement of a digit `n` in cell `(r, c)`, listing the four constraints the placement
    meets: the cell is filled, row `r` has `n`, column `c` has `n`, box `b` has `n`.

    The grid has `size == k * k` rows and columns (the JavaScript program computes `k` as
    `Math.sqrt(size)`), and the boxes are the `k`-by-`k` blocks numbered row by row. A
    given cell holds a number; a cell with a given number only gets the candidate for that
    number. */
module Sudoku {
  import opened Links
  import opened Engine
  import opened Builder
  import opened Problem
  import opened Correctness

  /** The four kinds of constraint keys: `R{r}C{c}`, `R{r}N{n}`, `C{c}N{n}` and `B{b}N{n}`. */
  datatype Constraint = Cell(r: nat, c: nat) | RowN(r: nat, n: nat) | ColN(c: nat, n: nat) | BoxN(b: nat, n: nat)

  /** The label of a candidate: selecting it writes digit `n` into cell `(r, c)`. */
  datatype Place = Place(r: nat, c: nat, n: nat)

  /** A grid of side `k * k`; `given[r][c]` is what `grid.get(r, c)` returns, `None` for
      an empty cell. */
  datatype Grid = Grid(k: nat, given: seq<seq<Option<int>>>)

  function Size(g: Grid): nat {
    g.k * g.k
  }

  /** `grid.get(r, c)` answers for every cell. */
  predicate Shaped(g: Grid) {
    |g.given| == Size(g) && forall r | 0 <= r < |g.given| :: |g.given[r]| == Size(g)
  }

  /** `sqrt * Math.floor(r / sqrt) + Math.floor(c / sqrt)`: the box of cell `(r, c)`. */
  function Box(k: nat, r: nat, c: nat): (b: nat)
    requires r < k * k && c < k * k
    ensures b < k * k
    ensures b / k == r / k && b % k == c / k
  {
    BlockBound(k, r);
    BlockBound(k, c);
    BoxBelow(k, r / k, c / k);
    k * (r / k) + c / k
  }

  /** A coordinate of the grid lies in one of the `k` bands. */
  lemma BlockBound(k: nat, r: nat)
    requires r < k * k
    ensures 0 < k && r / k < k
  {
    assert 0 < k;
    DivIs(k, r, r / k, r % k);
    MulBelow(k, r / k, k);
  }

  /** `k * a < k * b` for a positive `k` means `a < b`. */
  lemma MulBelow(k: nat, a: int, b: int)
    requires 0 < k && k * a < k * b
    ensures a < b
  {
    assert k * (a - b) == k * a - k * b;
    MulBound(k, a - b);
  }

  /** A nonzero multiple of `k` is at least `k` away from zero. */
  lemma MulBound(k: int, d: int)
    requires 0 <= k
    ensures d >= 1 ==> k * d >= k
    ensures d <= -1 ==> k * d <= 0 - k
  {
    if d >= 1 {
      assert k * d == k + k * (d - 1);
    } else if d <= -1 {
      assert k * d == k * (d + 1) - k;
    }
  }

  /** `x == k * q + m` with `0 <= m < k` names the quotient and remainder of `x` by `k`. */
  lemma DivIs(k: nat, x: int, q: int, m: int)
    requires 0 < k && x == k * q + m && 0 <= m < k
    ensures x / k == q && x % k == m
  {
    var q', m' := x / k, x % k;
    assert k * q' + m' == x;
    assert k * (q - q') == k * q - k * q';
    MulBound(k, q - q');
  }

  /** The box number `k * i + j` of band `i` and stack `j` is below `k * k`, and names
      them back. */
  lemma BoxBelow(k: nat, i: nat, j: nat)
    requires i < k && j < k
    ensures k * i + j < k * k
    ensures (k * i + j) / k == i && (k * i + j) % k == j
  {
    assert k * (k - i) == k * k - k * i;
    MulBound(k, k - i);
    DivIs(k, k * i + j, i, j);
  }

  /** The candidate placing `n` in cell `(r, c)`, with its four constraints. */
  function Candidate(k: nat, r: nat, c: nat, n: nat): (x: (Place, seq<Constraint>))
    requires r < k * k && c < k * k
    ensures |x.1| == 4 && Unrepeated(x.1)
    ensures x.1[0] == Cell(x.0.r, x.0.c)
    ensures forall a | 1 <= a < 4 :: !x.1[a].Cell? && x.1[a].n == x.0.n
    ensures x.1[3].BoxN? && x.1[3].b < k * k
  {
    (Place(r, c, n), [Cell(r, c), RowN(r, n), ColN(c, n), BoxN(Box(k, r, c), n)])
  }

  /** The loop over `n` in `1..last` for cell `(r, c)`: a given cell skips every digit but
      its own. */
  function Digits(g: Grid, r: nat, c: nat, last: nat): (p: seq<(Place, seq<Constraint>)>)
    requires Shaped(g) && r < Size(g) && c < Size(g)
    decreases last
  {
    if last == 0 then []
    else
      var num := g.given[r][c];
      Digits(g, r, c, last - 1)
      + (if num.Some? && last != num.value then [] else [Candidate(g.k, r, c, last)])
  }

  /** The candidates of cell `(r, c)`. */
  function CellCandidates(g: Grid, r: nat, c: nat): (p: seq<(Place, seq<Constraint>)>)
    requires Shaped(g) && r < Size(g) && c < Size(g)
  {
    Digits(g, r, c, Size(g))
  }

  /** The candidates of the first `i` cells, row by row. */
  function Cells(g: Grid, i: nat): (p: seq<(Place, seq<Constraint>)>)
    requires Shaped(g) && i <= Size(g) * Size(g)
    decreases i
  {
    if i == 0 then []
    else
      CellIndex(g, i - 1);
      Cells(g, i - 1) + CellCandidates(g, (i - 1) / Size(g), (i - 1) % Size(g))
  }

  /** Cell number `i` of the row-by-row order lies on the grid. */
  lemma CellIndex(g: Grid, i: nat)
    requires i < Size(g) * Size(g)
    ensures 0 < Size(g) && i / Size(g) < Size(g) && i % Size(g) < Size(g)
  {
    BlockBound(Size(g), i);
  }

  /** The whole problem the generator yields. */
  function Candidates(g: Grid): (p: seq<(Place, seq<Constraint>)>)
    requires Shaped(g)
  {
    Cells(g, Size(g) * Size(g))
  }

  /** The digit loop of one cell: an empty cell gets the candidates for `1..last` in
      order; a cell given `d` gets the candidate for `d` alone when `1 <= d <= last`, and
      none otherwise. */
  lemma {:induction false} DigitsSpec(g: Grid, r: nat, c: nat, last: nat)
    requires Shaped(g) && r < Size(g) && c < Size(g)
    ensures var num := g.given[r][c]; var p := Digits(g, r, c, last);
            && (num.None? ==> |p| == last && forall j | 0 <= j < last :: p[j] == Candidate(g.k, r, c, j + 1))
            && (num.Some? && 1 <= num.value <= last ==> p == [Candidate(g.k, r, c, num.value)])
            && (num.Some? && !(1 <= num.value <= last) ==> p == [])
    decreases last
  {
    if last > 0 {
      DigitsSpec(g, r, c, last - 1);
    }
  }

  /** Cell `(r, c)`: a given cell gets exactly the candidate for its digit (none when the
      digit is outside `1..size`), an empty cell one candidate per digit `1..size`. */
  lemma CellSpec(g: Grid, r: nat, c: nat)
    requires Shaped(g) && r < Size(g) && c < Size(g)
    ensures var num := g.given[r][c]; var p := CellCandidates(g, r, c);
            && (num.None? ==> |p| == Size(g) && forall j | 0 <= j < Size(g) :: p[j] == Candidate(g.k, r, c, j + 1))
            && (num.Some? && 1 <= num.value <= Size(g) ==> p == [Candidate(g.k, r, c, num.value)])
            && (num.Some? && !(1 <= num.value <= Size(g)) ==> p == [])
  {
    DigitsSpec(g, r, c, Size(g));
  }

  /** Every candidate of a cell places a digit of `1..size` that agrees with the given
      one. */
  lemma CellShape(g: Grid, r: nat, c: nat, x: (Place, seq<Constraint>))
    requires Shaped(g) && r < Size(g) && c < Size(g) && x in CellCandidates(g, r, c)
    ensures 1 <= x.0.n <= Size(g) && x == Candidate(g.k, r, c, x.0.n)
    ensures g.given[r][c].Some? ==> x.0.n == g.given[r][c].value
  {
    CellSpec(g, r, c);
    if g.given[r][c].None? {
      var j :| 0 <= j < Size(g) && CellCandidates(g, r, c)[j] == x;
    }
  }

  /** `x` is a candidate of cell number `j` of the row-by-row order. */
  predicate InCell(g: Grid, j: nat, x: (Place, seq<Constraint>))
    requires Shaped(g) && j < Size(g) * Size(g)
  {
    CellIndex(g, j);
    x in CellCandidates(g, j / Size(g), j % Size(g))
  }

  /** The candidates of the first `i` cells are those of the cells numbered below `i`. */
  lemma {:induction false} CellsIn(g: Grid, i: nat, x: (Place, seq<Constraint>))
    requires Shaped(g) && i <= Size(g) * Size(g)
    ensures x in Cells(g, i) <==> exists j | 0 <= j < i :: InCell(g, j, x)
    decreases i
  {
    if i > 0 {
      CellsIn(g, i - 1, x);
      CellsLast(g, i - 1);
      if x in Cells(g, i) && x !in Cells(g, i - 1) {
        assert InCell(g, i - 1, x);
      }
      if exists j | 0 <= j < i :: InCell(g, j, x) {
        var j :| 0 <= j < i && InCell(g, j, x);
        if j == i - 1 {
          assert x in Cells(g, i);
        }
      }
    }
  }

  /** The candidates of cell number `j` follow those of the cells before it. */
  lemma CellsLast(g: Grid, j: nat)
    requires Shaped(g) && j < Size(g) * Size(g)
    ensures forall x :: x in Cells(g, j + 1) <==> x in Cells(g, j) || InCell(g, j, x)
  {
  }

  /** Cell number `j` is the cell in row `j / size` and column `j % size`. */
  lemma CellOf(g: Grid, j: nat) returns (r: nat, c: nat)
    requires Shaped(g) && j < Size(g) * Size(g)
    ensures r < Size(g) && c < Size(g)
    ensures forall x :: InCell(g, j, x) <==> x in CellCandidates(g, r, c)
  {
    CellIndex(g, j);
    r, c := j / Size(g), j % Size(g);
  }

  /** Cell `(r, c)` has number `r * size + c`. */
  lemma NumberOf(g: Grid, r: nat, c: nat) returns (j: nat)
    requires Shaped(g) && r < Size(g) && c < Size(g)
    ensures j < Size(g) * Size(g)
    ensures forall x :: InCell(g, j, x) <==> x in CellCandidates(g, r, c)
  {
    BoxBelow(Size(g), r, c);
    j := Size(g) * r + c;
  }

  /** A row of the problem is a candidate of some cell, and every candidate of every cell
      is a row of the problem. */
  lemma CandidatesIn(g: Grid, x: (Place, seq<Constraint>))
    requires Shaped(g)
    ensures x in Candidates(g) <==>
            exists r, c | 0 <= r < Size(g) && 0 <= c < Size(g) :: x in CellCandidates(g, r, c)
  {
    var s := Size(g);
    CellsIn(g, s * s, x);
    if x in Candidates(g) {
      var j :| 0 <= j < s * s && InCell(g, j, x);
      var r, c := CellOf(g, j);
    }
    if exists r, c | 0 <= r < s && 0 <= c < s :: x in CellCandidates(g, r, c) {
      var r, c :| 0 <= r < s && 0 <= c < s && x in CellCandidates(g, r, c);
      var j := NumberOf(g, r, c);
    }
  }

  /** Every row of the problem places a digit of `1..size` in a cell of the grid, agrees
      with the given digit, and lists the four constraints of that placement, with a box
      number below `size`. */
  lemma CandidateShape(g: Grid, x: (Place, seq<Constraint>))
    requires Shaped(g) && x in Candidates(g)
    ensures x.0.r < Size(g) && x.0.c < Size(g) && 1 <= x.0.n <= Size(g)
    ensures x == Candidate(g.k, x.0.r, x.0.c, x.0.n)
    ensures g.given[x.0.r][x.0.c].Some? ==> x.0.n == g.given[x.0.r][x.0.c].value
  {
    CandidatesIn(g, x);
    var r, c :| 0 <= r < Size(g) && 0 <= c < Size(g) && x in CellCandidates(g, r, c);
    CellShape(g, r, c, x);
  }

  /** No candidate lists a constraint twice, so `create_dlx` may take the problem. */
  lemma CandidatesWellFormed(g: Grid)
    requires Shaped(g)
    ensures WellFormed(Candidates(g))
  {
    var p := Candidates(g);
    forall i | 0 <= i < |p|
      ensures Unrepeated(p[i].1)
    {
      CandidateShape(g, p[i]);
    }
  }

  /** `solve_sudoku(grid)`: the search never fails and reports `true` exactly when the
      candidates have an exact cover; the selected nodes are labelled with the placements
      of such a cover. */
  lemma SolveSudoku(g: Grid)
    requires Shaped(g)
    ensures Solve(CreateDlx(Candidates(g))).Some?
    ensures Solve(CreateDlx(Candidates(g))) == Some(true) <==> exists sel :: ExactCover(Candidates(g), sel)
    ensures var m := CreateDlx(Candidates(g)); var r := SolveSub(m, N(m));
            r.Solved? ==> LabelledCover(Candidates(g), m, r.picks)
  {
    CandidatesWellFormed(g);
    SolveCreateDlx(Candidates(g));
  }

  /** The generator inside `solve_sudoku`, as its three nested loops. */
  method Generate(g: Grid) returns (p: seq<(Place, seq<Constraint>)>)
    requires Shaped(g)
    ensures p == Candidates(g)
  {
    var size := Size(g);
    p := [];
    var r, i := 0, 0;
    while r < size
      invariant 0 <= r <= size && i == CellNumber(size, r, 0) && i <= size * size
      invariant p == Cells(g, i)
    {
      var c := 0;
      while c < size
        invariant 0 <= c <= size && i == CellNumber(size, r, c) && i <= size * size
        invariant p == Cells(g, i)
      {
        var num := g.given[r][c];
        var n := 1;
        var q := p;
        while n <= size
          invariant 1 <= n <= size + 1
          invariant p == q + Digits(g, r, c, n - 1)
        {
          if num.Some? && n != num.value {
            n := n + 1;
            continue;
          }
          p := p + [Candidate(g.k, r, c, n)];
          n := n + 1;
        }
        NextCell(g, r, c);
        c, i := c + 1, i + 1;
      }
      r := r + 1;
    }
  }

  /** The number of cell `(r, c)` in the row-by-row order of a grid of side `s`. */
  function CellNumber(s: nat, r: nat, c: nat): nat {
    r * s + c
  }

  /** Cell `(r, c)` is cell number `r * size + c` of the row-by-row order. */
  lemma NextCell(g: Grid, r: nat, c: nat)
    requires Shaped(g) && r < Size(g) && c < Size(g)
    ensures CellNumber(Size(g), r, c) < Size(g) * Size(g)
    ensures Cells(g, CellNumber(Size(g), r, c) + 1) == Cells(g, CellNumber(Size(g), r, c)) + CellCandidates(g, r, c)
    ensures CellNumber(Size(g), r, c) + 1 == CellNumber(Size(g), r, c + 1)
    ensures CellNumber(Size(g), r, Size(g)) == CellNumber(Size(g), r + 1, 0)
    ensures r + 1 == Size(g) ==> CellNumber(Size(g), r + 1, 0) == Size(g) * Size(g)
  {
    var s := Size(g);
    BoxBelow(s, r, c);
    assert s * r == r * s;
  }
}
