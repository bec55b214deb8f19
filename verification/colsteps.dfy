/** Single steps of the column loop of `cover`, as equations between one call of the loop
    and the next. The fuel of the first call is written `f1 + 1`, so that the equations
    apply wherever the fuel is known to be one more than `f1`. */
module ColumnSteps {
  import opened Links
  import opened Engine

  /** The column loop of `cover` passes over the header. */
  lemma CoverColumnHeadStep<L>(m: Dlx<L>, x: nat, h: nat, f1: nat)
    requires Closed(m) && x < N(m) && h < N(m) && h != x
    ensures CoverColumn(m, x, h, h, f1 + 1) == CoverColumn(m, x, h, m.down[h], f1)
  {
  }

  /** The column loop of `cover` runs the row loop at an item, then moves down from it in
      the state the row loop left. */
  lemma CoverColumnItemStep<L>(m: Dlx<L>, x: nat, h: nat, z: nat, f1: nat, m1: Dlx<L>)
    requires Closed(m) && x < N(m) && z < N(m) && z != x && z != h
    requires UnlinkRow(m, z, m.right[z], N(m)) == Some(m1)
    ensures CoverColumn(m, x, h, z, f1 + 1) == CoverColumn(m1, x, h, m1.down[z], f1)
  {
  }

  /** `CoverColumnHeadStep` for a fuel known to be one more than `f1`. */
  lemma CoverColumnHeadFuel<L>(m: Dlx<L>, x: nat, h: nat, fuel: nat, f1: nat)
    requires Closed(m) && x < N(m) && h < N(m) && h != x && fuel == f1 + 1
    ensures CoverColumn(m, x, h, h, fuel) == CoverColumn(m, x, h, m.down[h], f1)
  {
    CoverColumnHeadStep(m, x, h, f1);
  }

  /** The column loop of `uncover` passes over the header. */
  lemma UncoverColumnHeadStep<L>(m: Dlx<L>, x: nat, h: nat, f1: nat)
    requires Closed(m) && x < N(m) && h < N(m) && h != x
    ensures UncoverColumn(m, x, h, h, f1 + 1) == UncoverColumn(m, x, h, m.up[h], f1)
  {
  }

  /** The column loop of `uncover` runs the row loop at an item, then moves up from it in
      the state the row loop left. */
  lemma UncoverColumnItemStep<L>(m: Dlx<L>, x: nat, h: nat, z: nat, f1: nat, m1: Dlx<L>)
    requires Closed(m) && x < N(m) && z < N(m) && z != x && z != h
    requires RelinkRow(m, z, m.left[z], N(m)) == Some(m1)
    ensures UncoverColumn(m, x, h, z, f1 + 1) == UncoverColumn(m1, x, h, m1.up[z], f1)
  {
  }
}
