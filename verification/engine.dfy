/** The dancing-links search itself: `cover`, `uncover`, `is_solved`, `min_size_col` and
    the recursive `solve`.

    Each JavaScript `for ... of iter(...)` loop is a generator that re-reads the next
    pointer of the current node only after the loop body has run. The functions below do
    the same: every loop is a tail-recursive function that reads the pointer in the state
    the body produced. A loop gets a fuel bound (the number of nodes); running out of fuel,
    or reaching a node whose `header` field is undefined in JavaScript, yields `None` —
    the JavaScript program would loop forever or throw a `TypeError` there. The proof
    modules show that neither happens on a well-formed matrix. */
module Engine {
  import opened Links
  import opened Cycles

  /** `for (row_node of skip(1, iter("right", col_node))) unlink_ud(row_node)`, resumed at
      `cur`: every node of the row after `start`, left to right, leaves its column. */
  function UnlinkRow<L>(m: Dlx<L>, start: nat, cur: nat, fuel: nat): (r: Option<Dlx<L>>)
    requires Closed(m) && start < N(m) && cur < N(m)
    ensures r.Some? ==> Closed(r.value) && r.value.cell == m.cell
    ensures r.Some? ==> r.value.left == m.left && r.value.right == m.right
    decreases fuel
  {
    if cur == start then Some(m)
    else if fuel == 0 || !m.cell[cur].Item? then None
    else
      var m1 := UnlinkUD(m, cur);
      UnlinkRow(m1, start, m1.right[cur], fuel - 1)
  }

  /** `for (row_node of skip(1, iter("left", col_node))) relink_ud(row_node)`, resumed at
      `cur`: every node of the row before `start`, right to left, rejoins its column. */
  function RelinkRow<L>(m: Dlx<L>, start: nat, cur: nat, fuel: nat): (r: Option<Dlx<L>>)
    requires Closed(m) && start < N(m) && cur < N(m)
    ensures r.Some? ==> Closed(r.value) && r.value.cell == m.cell
    ensures r.Some? ==> r.value.left == m.left && r.value.right == m.right
    decreases fuel
  {
    if cur == start then Some(m)
    else if fuel == 0 || !m.cell[cur].Item? then None
    else
      var m1 := RelinkUD(m, cur);
      RelinkRow(m1, start, m1.left[cur], fuel - 1)
  }

  /** The column loop of `cover` for the selected row's node `x` of column `h`, resumed at
      `cur`: walking down from `x`, the header is passed over and every other node has the
      rest of its row unlinked. */
  function CoverColumn<L>(m: Dlx<L>, x: nat, h: nat, cur: nat, fuel: nat): (r: Option<Dlx<L>>)
    requires Closed(m) && x < N(m) && cur < N(m)
    ensures r.Some? ==> Closed(r.value) && r.value.cell == m.cell
    ensures r.Some? ==> r.value.left == m.left && r.value.right == m.right
    decreases fuel
  {
    if cur == x then Some(m)
    else if fuel == 0 then None
    else if cur == h then CoverColumn(m, x, h, m.down[cur], fuel - 1)
    else
      match UnlinkRow(m, cur, m.right[cur], N(m))
      case None => None
      case Some(m1) => CoverColumn(m1, x, h, m1.down[cur], fuel - 1)
  }

  /** The column loop of `uncover`: the mirror image of `CoverColumn`, walking up from `x`
      and relinking each row right to left. */
  function UncoverColumn<L>(m: Dlx<L>, x: nat, h: nat, cur: nat, fuel: nat): (r: Option<Dlx<L>>)
    requires Closed(m) && x < N(m) && cur < N(m)
    ensures r.Some? ==> Closed(r.value) && r.value.cell == m.cell
    ensures r.Some? ==> r.value.left == m.left && r.value.right == m.right
    decreases fuel
  {
    if cur == x then Some(m)
    else if fuel == 0 then None
    else if cur == h then UncoverColumn(m, x, h, m.up[cur], fuel - 1)
    else
      match RelinkRow(m, cur, m.left[cur], N(m))
      case None => None
      case Some(m1) => UncoverColumn(m1, x, h, m1.up[cur], fuel - 1)
  }

  /** The outer loop of `cover(selected)`, resumed at the row node `cur`: unlink its
      header from the root ring, run the column loop, and move right until the walk is
      back at `selected`. */
  function CoverFrom<L>(m: Dlx<L>, selected: nat, cur: nat, fuel: nat): (r: Option<Dlx<L>>)
    requires Closed(m) && selected < N(m) && cur < N(m)
    ensures r.Some? ==> Closed(r.value) && r.value.cell == m.cell
    decreases fuel
  {
    if fuel == 0 || !m.cell[cur].Item? then None
    else
      var h := Hd(m, cur);
      var m1 := UnlinkLR(m, h);
      match CoverColumn(m1, cur, h, m1.down[cur], N(m1))
      case None => None
      case Some(m2) =>
        if m2.right[cur] == selected then Some(m2)
        else CoverFrom(m2, selected, m2.right[cur], fuel - 1)
  }

  /** `cover(selected)`: remove the columns of the selected row from the root ring, and
      every other row meeting those columns from all the columns it is still linked in. */
  function Cover<L>(m: Dlx<L>, selected: nat): (r: Option<Dlx<L>>)
    requires Closed(m) && selected < N(m)
    ensures r.Some? ==> Closed(r.value) && r.value.cell == m.cell
  {
    CoverFrom(m, selected, selected, N(m))
  }

  /** The outer loop of `uncover(selected)`, resumed at `cur`; `start` is the node the
      walk began at (`selected.left`). */
  function UncoverFrom<L>(m: Dlx<L>, start: nat, cur: nat, fuel: nat): (r: Option<Dlx<L>>)
    requires Closed(m) && start < N(m) && cur < N(m)
    ensures r.Some? ==> Closed(r.value) && r.value.cell == m.cell
    decreases fuel
  {
    if fuel == 0 || !m.cell[cur].Item? then None
    else
      var h := Hd(m, cur);
      var m1 := RelinkLR(m, h);
      match UncoverColumn(m1, cur, h, m1.up[cur], N(m1))
      case None => None
      case Some(m2) =>
        if m2.left[cur] == start then Some(m2)
        else UncoverFrom(m2, start, m2.left[cur], fuel - 1)
  }

  /** `uncover(selected)`: walk the row leftwards from `selected.left` and undo `cover`. */
  function Uncover<L>(m: Dlx<L>, selected: nat): (r: Option<Dlx<L>>)
    requires Closed(m) && selected < N(m)
    ensures r.Some? ==> Closed(r.value) && r.value.cell == m.cell
  {
    UncoverFrom(m, m.left[selected], m.left[selected], N(m))
  }

  /** `is_solved`: the root ring holds no column header. */
  predicate IsSolved<L>(m: Dlx<L>)
    requires Closed(m) && N(m) > 0
  {
    m.right[Root] == Root
  }

  /** `(prev, header) => header.size < prev.size ? header : prev` folded over `hs` from the
      left: the first node of smallest size. */
  function ReduceMin(size: seq<int>, hs: seq<nat>): (r: nat)
    requires |hs| > 0 && forall i | 0 <= i < |hs| :: hs[i] < |size|
    ensures r in hs
    ensures forall j | 0 <= j < |hs| :: size[r] <= size[hs[j]]
    ensures forall j | 0 <= j < |hs| && size[hs[j]] == size[r] :: IndexOf(hs, r) <= j
  {
    if |hs| == 1 then hs[0]
    else
      var p := ReduceMin(size, hs[..|hs| - 1]);
      var x := hs[|hs| - 1];
      assert hs == hs[..|hs| - 1] + [x];
      IndexOfPrefix(hs, p);
      if size[x] < size[p] then x else p
  }

  /** The position of a node that occurs in a prefix is its position in the prefix. */
  lemma IndexOfPrefix(hs: seq<nat>, p: nat)
    requires |hs| > 0 && p in hs[..|hs| - 1]
    ensures IndexOf(hs, p) == IndexOf(hs[..|hs| - 1], p)
  {
    var k := IndexOf(hs[..|hs| - 1], p);
    assert hs[k] == p;
    assert forall j | 0 <= j < k :: hs[j] == hs[..|hs| - 1][j];
  }

  /** `min_size_col`: the headers on the root ring, after the root, reduced to the first
      one of smallest size. `None` when the ring walk does not close or holds no header
      (`reduce` of an empty array throws). */
  function MinSizeCol<L>(m: Dlx<L>): (r: Option<nat>)
    requires Closed(m) && N(m) > 0
    ensures r.Some? ==> r.value < N(m) && r.value != Root
  {
    assert Pointers(m.right);
    match Iter(m.right, Root)
    case None => None
    case Some(ring) =>
      var hs := Skip(1, ring);
      if hs == [] then None else Some(ReduceMin(m.size, hs))
  }

  /** What `solve_sub` ends with. `Solved` is the `throw "solved"` that unwinds the search
      with the matrix left as it is, `picks` being the selected nodes from the outermost
      call inwards; `Exhausted` is a normal return; `Failed` stands for a `TypeError` or a
      loop that would not end. */
  datatype Outcome<L> = Solved(picks: seq<nat>, final: Dlx<L>) | Exhausted(state: Dlx<L>) | Failed

  /** `solve_sub`, with `depth` bounding the recursion. */
  function SolveSub<L>(m: Dlx<L>, depth: nat): (r: Outcome<L>)
    requires Closed(m) && N(m) > 0
    ensures r.Solved? ==> Closed(r.final) && r.final.cell == m.cell && IsSolved(r.final)
    ensures r.Exhausted? ==> Closed(r.state) && r.state.cell == m.cell
    decreases depth, 1, 0
  {
    if IsSolved(m) then Solved([], m)
    else if depth == 0 then Failed
    else
      match MinSizeCol(m)
      case None => Failed
      case Some(h) => TryRows(m, h, m.down[h], depth, N(m))
  }

  /** The loop of `solve_sub` over the column `h`, resumed at `cur`: select the node,
      cover, search deeper, and on a normal return uncover and move down. */
  function TryRows<L>(m: Dlx<L>, h: nat, cur: nat, depth: nat, fuel: nat): (r: Outcome<L>)
    requires Closed(m) && N(m) > 0 && h < N(m) && cur < N(m) && depth > 0
    ensures r.Solved? ==> Closed(r.final) && r.final.cell == m.cell && IsSolved(r.final)
    ensures r.Exhausted? ==> Closed(r.state) && r.state.cell == m.cell
    decreases depth, 0, fuel
  {
    if cur == h then Exhausted(m)
    else if fuel == 0 then Failed
    else
      match Cover(m, cur)
      case None => Failed
      case Some(m1) =>
        match SolveSub(m1, depth - 1)
        case Failed => Failed
        case Solved(picks, m2) => Solved([cur] + picks, m2)
        case Exhausted(m2) =>
          match Uncover(m2, cur)
          case None => Failed
          case Some(m3) => TryRows(m3, h, m3.down[cur], depth, fuel - 1)
  }

  /** `solve(dlx)`: `Some(true)` when the search throws "solved", `Some(false)` when it
      returns normally, `None` when it fails. The JavaScript `catch` would answer `true` for
      a `TypeError` too; on matrices built from well-formed problems the search never fails. */
  function Solve<L>(m: Dlx<L>): (r: Option<bool>)
    requires Closed(m) && N(m) > 0
    ensures r == Some(true) <==> SolveSub(m, N(m)).Solved?
    ensures r == Some(false) <==> SolveSub(m, N(m)).Exhausted?
  {
    match SolveSub(m, N(m))
    case Solved(_, _) => Some(true)
    case Exhausted(_) => Some(false)
    case Failed => None
  }
}
