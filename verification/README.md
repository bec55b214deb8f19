# Dancing links, modelled in Dafny

This project models the exact-cover engine of `index.js`: Knuth's Dancing Links
(Algorithm X on a toroidal, doubly linked sparse matrix), and the sudoku encoding that
feeds it.

The JavaScript program links objects through four pointers each. The model keeps every
node in an arena instead:

- `Links.Dlx` holds the `up`, `down`, `left` and `right` fields as sequences of node
  indices, the column `size` counters, and a `cell` field that tells a column header from
  a matrix node and records the node's header and row label.
- Node 0 is the root.
- Each link primitive performs the same field writes, in the same order, as its
  JavaScript counterpart.

The loops of `cover`, `uncover` and `solve` iterate lazily while they mutate the matrix,
as the JavaScript generators do. Each loop is a tail-recursive function that reads the
next pointer only after its body has run. Each loop gets a fuel bound equal to the node
count. Running out of fuel, or meeting a node with no header, yields a failure value;
this stands for the JavaScript program looping forever or throwing a `TypeError`. The
proofs show that the failure value never arises on a matrix that `create_dlx` builds from
a problem whose subsets list no constraint twice.

The proofs describe a matrix through a ghost `Structure.Base` fixed at build time:

- the order of the headers on the root ring;
- the full item list of every column;
- the nodes of every row.

Two sets describe the search state: the covered headers `H` and the items `G` unlinked
from their columns. `Structure.Struct(m, B, H, G)` says that the pointer fields are
exactly these doubly linked cycles:

- the root ring without `H`;
- every column without `G`, covered columns included;
- every row.

It also says that every `size` counts its column's cycle.

On top of `Struct`, `Closure.Settled` and `Closure.Untouched` say that a row is either
wholly linked and clear of the covered columns, or taken out. The three together are
`Search.Searchable`.

The modules follow the program:

| Module | Covers |
|---|---|
| `Links`, `Cycles` | primitives and `iter` |
| `Engine` | `cover`, `uncover`, `is_solved`, `min_size_col`, `solve` |
| `RowWalk`, `ColumnSteps`, `ColumnWalk`, `UncoverWalk`, `NodeStep`, `RowCover`, `SelectRow`, `Closure` | why `cover` and `uncover` behave |
| `Search` | why `solve` is right |
| `Builder`, `BuildSteps`, `BuildSpec`, `BuildLoops`, `Shape` | `create_dlx` |
| `Problem`, `Correctness` | exact-cover problems, and what `solve(create_dlx(p))` answers |
| `Sudoku` | the candidate generator |

## Model

| member | source | states |
|---|---|---|
| Links.CreateHeader | index.js:1-8 | The new header is appended to the arena. It is linked to itself in all four directions and has size 0. Every existing node keeps all its fields. |
| Links.CreateNode | index.js:10-17 | The new node of column `header`, carrying the row label, is appended to the arena and linked to itself in all four directions. Every existing node keeps all its fields. |
| Links.InsertUp | index.js:19-24 | `other` lands directly above `node`. `node` and its former upper neighbour point to `other`, and `other` points back to both. No other up/down field changes, and the left/right fields, sizes and cells are untouched. |
| Links.InsertLeft | index.js:26-31 | The horizontal mirror of `InsertUp`: `other` lands directly left of `node`, and no other link changes. |
| Links.UnlinkUD | index.js:33-37 | Unlinking an item vertically leaves the arena closed and its left/right fields and cells untouched. |
| Links.UnlinkUDFrame | index.js:33-37 | After `unlink_ud` the upper neighbour points down past the item and the lower neighbour points up past it. The item keeps its own up/down fields, and only its column's size changes, by minus one. |
| Links.UnlinkLR | index.js:39-42 | Unlinking a header horizontally leaves the arena closed and the up/down fields, sizes and cells untouched. |
| Links.UnlinkLRFrame | index.js:39-42 | After `unlink_lr` both neighbours point past the header. The header keeps its own fields, and no other left/right field changes. |
| Links.RelinkUD | index.js:44-48 | Relinking an item leaves the arena closed and its left/right fields and cells untouched. |
| Links.RelinkUDFrame | index.js:44-48 | After `relink_ud` the neighbours recorded in the item point back to it, and only its column's size changes, by plus one. |
| Links.RelinkLR | index.js:50-53 | Relinking a header leaves the arena closed and the up/down fields, sizes and cells untouched. |
| Links.RelinkLRFrame | index.js:50-53 | After `relink_lr` the neighbours recorded in the header point back to it, and nothing else changes. |
| Links.RelinkUnlinkUD | index.js:33-48 | For an item whose neighbours point to it, `relink_ud` after `unlink_ud` restores the whole arena, pointers and sizes alike. |
| Links.UnlinkRelinkUD | index.js:33-48 | For a detached item, `unlink_ud` after `relink_ud` restores the whole arena. |
| Links.UnlinkDetachesUD | index.js:33-48 | `unlink_ud` turns an in-place item that is not alone in its column into a detached one, and `relink_ud` puts it back in place. |
| Links.UnlinkUDSplice | index.js:33-37 | When the item is not its own upper neighbour, the two sequential writes equal the simultaneous splice of both pointer arrays. |
| Links.RelinkUnlinkLR | index.js:39-53 | For a header whose neighbours point to it, `relink_lr` after `unlink_lr` restores the whole arena. |
| Links.UnlinkRelinkLR | index.js:39-53 | For a detached header, `unlink_lr` after `relink_lr` restores the whole arena. |
| Links.Walk | index.js:65-71 | A completed walk yields the node it resumes at first and follows the pointer from each node to the next. Its last node points back to the start, and the start never recurs. It yields at most `fuel` nodes. |
| Links.Iter | index.js:65-71 | A completed `iter(dir, start)` yields `start` first and follows `dir` until the cycle closes. It yields at most as many entries as there are nodes, and never revisits `start`; that it lists no node twice follows from `Cycles.IterIsLinked` when `prev` inverts `next`. |
| Links.Skip | index.js:73-78 | `skip(n, it)` yields the values of `it` from position `n` on, or nothing when it has fewer. |
| Cycles.WalkLinked | index.js:65-71 | On a doubly linked cycle, the walk resumed at position `k` yields exactly the rest of the cycle. |
| Cycles.IterLinked | index.js:65-71 | On a doubly linked cycle, `iter` from its first member lists the cycle exactly. |
| Cycles.IterIsLinked | index.js:65-71 | Conversely, when `prev` inverts `next`, a completed `iter` lists a doubly linked cycle. |
| Cycles.LinkedSplice | index.js:33-42 | Splicing a member, other than the first, out of a doubly linked cycle leaves the cycle without it. |
| Cycles.LinkedRemove | index.js:33-42 | Any pointer update that makes a member's two neighbours point past it, and changes nothing else on the cycle, leaves the cycle without that member. |
| Engine.UnlinkRow | index.js:98-100 | The inner loop of `cover` keeps the arena closed and moves no left/right pointer. |
| RowWalk.UnlinkMates | index.js:98-100 | On a well-formed matrix, the inner loop of `cover` at an item unlinks exactly the other nodes of that item's row, once each, left to right. |
| Engine.RelinkRow | index.js:113-115 | The inner loop of `uncover` keeps the arena closed and moves no left/right pointer. |
| RowWalk.RelinkMates | index.js:113-115 | The inner loop of `uncover` at an item relinks the other nodes of its row, from right to left. |
| Engine.CoverColumn | index.js:94-101 | The column loop of `cover` keeps the arena closed and moves no left/right pointer. |
| NodeStep.CoverSweep | index.js:94-101 | The column loop of `cover` unlinks exactly the rest of every row met below the selected node, once each. The shape invariant holds afterwards with those nodes counted as unlinked. |
| NodeStep.SweptCovers | index.js:94-101 | Every node of every other row met in the column is unlinked by the column loop. |
| Engine.UncoverColumn | index.js:109-116 | The column loop of `uncover` keeps the arena closed and moves no left/right pointer. |
| NodeStep.UncoverSweep | index.js:109-116 | Walking up from the node above the selected one, the column loop of `uncover` turns the state `cover`'s column loop produced back into the state before it. |
| Engine.Cover | index.js:90-103 | `cover` keeps the arena closed and the cells unchanged. |
| Engine.CoverFrom | index.js:91-102 | The outer loop of `cover` keeps the arena closed and the cells unchanged. |
| Engine.Uncover | index.js:105-118 | `uncover` keeps the arena closed and the cells unchanged. |
| Engine.UncoverFrom | index.js:106-117 | The outer loop of `uncover` keeps the arena closed and the cells unchanged. |
| RowCover.RowRoundTrip | index.js:90-118 | Given the per-node states of `cover` along a row, `cover` from the row's first node reaches the last state. `uncover` from that state returns exactly the first state, because it replays the same passes in reverse order. |
| SelectRow.CoverRow | index.js:90-118 | On a searchable state, `cover` of a linked item in an uncovered column succeeds, and `uncover` restores the matrix exactly. Afterwards the state is searchable again. Exactly the columns of the item's row have left the root ring, and none of them was covered before. Every column still links its own cycle, every size counts the items linked in its column, and every item still linked in an uncovered column lies on a whole row that meets no covered column. |
| Engine.ReduceMin | index.js:85-87 | The `reduce` picks one of the headers whose size is at most that of every header. Among headers of equal minimal size it picks the first, because the comparison is strict. |
| Engine.MinSizeCol | index.js:84-88 | `min_size_col` returns a node of the arena other than the root. |
| Search.RingState | index.js:80-88 | On a well-formed state, `is_solved` holds exactly when every column is covered. Otherwise `min_size_col` is the first header of smallest size among the uncovered ones, in ring order. |
| Engine.SolveSub | index.js:121-133 | A throw leaves a closed matrix whose root ring is empty. A normal return leaves a closed matrix with the same cells. |
| Engine.TryRows | index.js:126-132 | The loop over the chosen column has the same outcome guarantees as `SolveSub`. |
| Search.TryRowsTurn | index.js:126-132 | One turn of the loop: a failure deeper down propagates, and a deeper throw returns with the node prepended to the selection, without uncovering. A normal return, when `uncover` restores the state, continues at the node below. |
| Search.EmptyColumnBacktracks | index.js:125-132 | When the chosen column has size 0, its header is alone in its cycle and `solve_sub` returns normally with the matrix unchanged. |
| Search.CoverSplit | index.js:125-132 | If the uncovered columns have an exact cover, then selecting the row of some item of the chosen column leaves an exact cover of the remaining columns. No branch is missed. |
| Search.PickedCover | index.js:121-133 | A selection the search reports is a witness that an exact cover exists. |
| Search.SolveSubSpec | index.js:121-133 | On any searchable state with enough depth, `solve_sub` does not fail. A throw carries the selected nodes, whose rows exactly cover the uncovered columns. A normal return restores the state and means no exact cover exists. |
| Engine.Solve | index.js:134-139 | `solve` answers true exactly when the search throws, and false exactly when it returns normally. |
| Search.SolveSpec | index.js:120-140 | On a searchable matrix with nothing covered, `solve` never fails. It answers true exactly when the columns have an exact cover; the selection it stops at is one; and after a false answer every cover has been undone. |
| Builder.Start | index.js:143-144 | The matrix starts as the root alone, with an empty header map. |
| Builder.ColumnOf | index.js:150-155 | A constraint already in the map keeps its header and the state is unchanged. A new one gets a fresh header, the next node index, which is added to the map. |
| Builder.AddElem | index.js:149-166 | One constraint of a subset adds at least one node. The result is a closed arena holding the header map, and it returns the first node of the row. |
| Builder.Place | index.js:158-165 | Placing a fresh node keeps the arena closed and its node count. |
| Builder.JoinRow | index.js:158-162 | Joining a row keeps the arena closed and its node count. |
| Builder.JoinColumn | index.js:164-165 | Joining a column keeps the arena closed and its node count. |
| Builder.AddSubset | index.js:149-166 | The loop over a subset keeps a closed arena and never shrinks it. |
| Builder.AddRows | index.js:146-167 | The loop over the problem keeps a closed arena and never shrinks it. |
| Builder.CreateDlx | index.js:142-170 | `create_dlx` returns a closed arena whose root is node 0. |
| BuildSpec.ElemBuilt | index.js:149-166 | One constraint of a subset that is new to its row extends the build invariant to the problem read one constraint further. |
| BuildLoops.SubsetBuilt | index.js:149-166 | Reading the rest of a subset, whose constraints are fresh in their row, extends the build invariant by the whole subset. |
| BuildLoops.RowsBuilt | index.js:146-167 | Reading the remaining rows of a well-formed problem extends the build invariant to all of them. |
| Correctness.BuildInvariant | index.js:142-170 | For a well-formed problem, the matrix satisfies the build invariant for that problem. The ring, rows and columns are linked, the sizes count, the rows match the subsets, and the headers follow the order in which constraints first appear. |
| Shape.CreateDlxShape | index.js:142-170 | The root ring lists one header per distinct constraint, in order of first appearance. Row `i` links one node per member of subset `i`, in subset order, each labelled with the row's label and in its constraint's column. Each column links its nodes in row order, and its size equals the number of subsets containing the constraint. |
| Correctness.CoverIff | index.js:142-170 | A choice of rows exactly covers the built matrix's columns if and only if it is an exact cover of the problem. |
| Correctness.CoverExists | index.js:142-170 | The built matrix has an exact cover of its columns exactly when the problem has an exact cover. |
| Correctness.PickedLabels | index.js:157 | The nodes of a selection the search reports carry the labels of the problem rows of an exact cover. |
| Correctness.BuildSummary | index.js:142-170 | The built matrix is a searchable state with nothing covered. Its exact covers are those of the problem, and reported selections are labelled exact covers. |
| Correctness.SolveOn | index.js:120-140 | On such a matrix, `solve` never fails and answers true exactly when the problem has an exact cover. A throw carries a labelled exact cover, and a false answer leaves the matrix as built. |
| Correctness.SolveCreateDlx | index.js:120-170 | `solve(create_dlx(p))` never fails for a well-formed problem `p`. It answers true if and only if `p` has an exact cover. The selection it stops at carries the labels of an exact cover, and a false answer leaves the matrix as built. |
| Problem.DedupSpec | index.js:150-154 | The first-appearance order of the constraints lists each constraint once, and exactly those that occur. |
| Problem.FlattenIn | index.js:146-149 | A constraint occurs in the problem exactly when some subset lists it. |
| Problem.CountExtend | index.js:164-165 | Reading one more constraint into the last row adds one to its count when the row did not list it, and changes no other count. |
| Sudoku.Box | index.js:183 | The box number is below `size`. Its band, the number divided by `k`, is that of the row, and its stack, the remainder by `k`, is that of the column. |
| Sudoku.Candidate | index.js:183-190 | A candidate lists four distinct constraints: its cell, then row, column and box with its digit, the box number below `size`. |
| Sudoku.DigitsSpec | index.js:179-191 | The digit loop for an empty cell yields candidates for 1 to `last` in order. For a given digit in range it yields just that digit's candidate, and for one out of range nothing. |
| Sudoku.CellSpec | index.js:178-191 | An empty cell yields one candidate per digit 1 to `size`, in order. A given cell yields exactly the candidate for its digit, or none if the digit is out of range. |
| Sudoku.CellShape | index.js:178-191 | Every candidate of a cell places a digit from 1 to `size`, and the given digit when the cell has one. |
| Sudoku.CandidatesIn | index.js:176-193 | The generated problem holds exactly the candidates of the grid's cells. |
| Sudoku.CandidateShape | index.js:175-194 | Every generated candidate places a digit from 1 to `size` on the grid, with the four constraints of that placement, and respects the given digit. |
| Sudoku.CandidatesWellFormed | index.js:175-194 | No generated candidate lists a constraint twice, so `create_dlx` may take the problem. |
| Sudoku.Generate | index.js:175-194 | The three nested loops of the generator yield exactly the reference problem: cells in row-by-row order, each cell's candidates in digit order. |
| Sudoku.SolveSudoku | index.js:196 | For any grid, `solve(create_dlx(problem()))` never fails and answers true exactly when the candidates have an exact cover. A throw carries the placements of such a cover. |
| Witnesses.DoubledIllFormed | index.js:146-166 | The problem `[(0, [1, 1])]`, whose one subset lists constraint 1 twice, is not well formed, so the correctness theorem does not cover it. |
| Witnesses.DoubledBuilt | index.js:142-170 | `create_dlx([(0, [1, 1])])` builds the root, one header and two nodes of one row, both linked into column 1 with `size` 2. |
| Witnesses.DoubledCoverLoops | index.js:89-101 | On that matrix the model's `cover(2)` runs out of fuel and answers `None`, standing for a loop that never ends: the row loop at node 3 unlinks node 2 from its own column, so the column walk never returns to node 2. |
| Witnesses.DoubledSolveLoops | index.js:120-140 | So `solve` on that matrix does not return, and the model answers `None`. |
| Witnesses.HeaderlessCover | index.js:89-92 | On a closed arena where a row's right neighbour is the root, `cover` reaches a node with no `header` and fails. |
| Witnesses.HeaderlessFails | index.js:120-140 | `solve` on that arena answers `None` in the model, where the bare `catch` of the JavaScript would answer `true`. |

## Left out

- The user interface (index.js:199-299) is not modelled, because it is DOM and event glue: `prepare_grid`, `listen`, the load and click handlers, and the `performance.now` timing.
- The `await node.label.select()` and `unselect()` pacing (index.js:127, 131, 186-187) is not modelled, because it is UI pacing outside the search. A row label is an opaque value carried on its nodes. The selection is the list of selected nodes in the `Solved` outcome.
- The `throw "solved"` non-local exit (index.js:123, 134-139) is the `Solved` outcome. `Solved` carries the selection and propagates out of every enclosing loop without uncovering, as the throw does.
- `Math.sqrt` and `Math.floor` (index.js:173, 183) are left out because they work on floats. The grid takes an integer box side `k` with `size == k * k`, and `Box` uses integer division.
- The template-string constraint keys (index.js:189) are the injective datatype `Sudoku.Constraint`, because only their equality matters.
- `create_iter` (index.js:55-63) is not modelled; it is an unused duplicate of `iter`.
- The grid's `get` is a field of given digits, because the grid object is outside the core. A non-integer given value is not modelled.
- Links.UnlinkUD: its own contract states only closure and the untouched fields. The fields it changes are stated by `Links.UnlinkUDFrame`, kept apart so that the loops do not carry them.
- Links.RelinkUD: its own contract states only closure and the untouched fields. The fields it changes are stated by `Links.RelinkUDFrame`.
- Links.UnlinkLR: its own contract states only closure and the untouched fields. The fields it changes are stated by `Links.UnlinkLRFrame`.
- Links.RelinkLR: its own contract states only closure and the untouched fields. The fields it changes are stated by `Links.RelinkLRFrame`.
- Engine.Solve: its own contract only maps the search outcome to the answer. What the answer means is proved by `Search.SolveSpec` and `Correctness.SolveCreateDlx`.
- Engine.Solve: the bare `catch` of `solve` (index.js:137-138) answers `true` for any exception, a `TypeError` included. The model answers `None` when the search meets a node without a header, as `Witnesses.HeaderlessFails` shows on a small arena. `Correctness.SolveCreateDlx` shows that this never happens on a matrix built from a well-formed problem.
- Engine.UnlinkRow: its own contract states only closure and the unchanged horizontal fields. What the loop unlinks is proved by `RowWalk.UnlinkMates`.
- Engine.RelinkRow: its own contract states only closure. What it relinks is proved by `RowWalk.RelinkMates`.
- Engine.CoverColumn: its own contract states only closure. Its effect is proved by `NodeStep.CoverSweep`.
- Engine.UncoverColumn: its own contract states only closure. Its effect is proved by `NodeStep.UncoverSweep`.
- Engine.Cover: its own contract states only closure. Its effect and inverse are proved by `SelectRow.CoverRow` and `RowCover.RowRoundTrip`.
- Engine.CoverFrom: its own contract states only closure, for the same reason as `Engine.Cover`.
- Engine.Uncover: its own contract states only closure. That it undoes `cover` is proved by `SelectRow.CoverRow`.
- Engine.UncoverFrom: its own contract states only closure, for the same reason as `Engine.Uncover`.
- Engine.MinSizeCol: its own contract says only that the result is a header other than the root. The minimality and first-minimum tie-break are proved by `Search.RingState`.
- Engine.SolveSub: its own contract states only closure and the solved ring. Its meaning is proved by `Search.SolveSubSpec`.
- Engine.TryRows: its own contract states only closure. Its meaning is proved by `Search.TryRowsTurn` and `Search.SolveSubSpec`.
- Builder.AddElem: its own contract states only closure and growth. What one step adds is proved by `BuildSpec.ElemBuilt`.
- Builder.Place: its own contract states only closure and growth, for the same reason as `Builder.AddElem`.
- Builder.JoinRow: its own contract states only closure and growth, for the same reason as `Builder.AddElem`.
- Builder.JoinColumn: its own contract states only closure and growth, for the same reason as `Builder.AddElem`.
- Builder.AddSubset: its own contract states only closure and growth. Its effect is proved by `BuildLoops.SubsetBuilt`.
- Builder.AddRows: its own contract states only closure and growth. Its effect is proved by `BuildLoops.RowsBuilt`.
- Builder.CreateDlx: its own contract states only closure. The shape of the matrix is proved by `Shape.CreateDlxShape`.
- Links.Walk: a walk that has not closed after `fuel` steps yields `None`. `Iter` uses the node count as fuel, and `Cycles.IterLinked` shows this is enough on every cycle.
- Engine.SolveSub: the recursion depth is bounded by the node count, and running out yields `Failed`. `Search.SolveSpec` shows that this never happens on a searchable matrix.
- Correctness.SolveCreateDlx: it assumes the problem is well formed, meaning no subset lists a constraint twice. On other input `create_dlx` links two nodes of one row into the same column, and the search need not end.
  - Example: for the problem `[(0, [1, 1])]`, `solve` selects node 2 and `cover(2)` walks column 1 from it (index.js:94-100).
  - At its twin, node 3, the row loop unlinks node 2 from that same column.
  - The walk then circles between the header and node 3, never returns to node 2, and lowers the column's `size` on every lap.
  - The model answers `None` there: `Witnesses.DoubledBuilt`, `Witnesses.DoubledCoverLoops` and `Witnesses.DoubledSolveLoops` prove each step.
