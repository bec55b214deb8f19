/** Exact-cover problems as `create_dlx` reads them: a list of `(label, subset)` pairs,
    where a subset lists constraints. The constraints of the problem are all those that
    occur in some subset, and an exact cover is a choice of rows whose subsets meet every
    constraint exactly once. */
module Problem {
  /** No constraint occurs twice in the list. */
  predicate Unrepeated<E(==)>(es: seq<E>) {
    forall a, b | 0 <= a < b < |es| :: es[a] != es[b]
  }

  /** No subset of the problem lists a constraint twice: what `create_dlx` relies on. */
  predicate WellFormed<L, E(==)>(p: seq<(L, seq<E>)>) {
    forall i | 0 <= i < |p| :: Unrepeated(p[i].1)
  }

  /** The constraints of all subsets, row after row. */
  function Flatten<L, E>(p: seq<(L, seq<E>)>): (r: seq<E>)
    decreases |p|
  {
    if p == [] then [] else Flatten(p[..|p| - 1]) + p[|p| - 1].1
  }

  /** The members of `es` in order of first appearance. */
  function Dedup<E(==)>(es: seq<E>): (r: seq<E>)
    decreases |es|
  {
    if es == [] then []
    else
      var d := Dedup(es[..|es| - 1]);
      var e := es[|es| - 1];
      if e in d then d else d + [e]
  }

  /** The first-appearance order lists each constraint once, and exactly those of `es`. */
  lemma {:induction false} DedupSpec<E>(es: seq<E>)
    ensures Unrepeated(Dedup(es))
    ensures forall e :: e in Dedup(es) <==> e in es
    decreases |es|
  {
    if es != [] {
      var q := es[..|es| - 1];
      DedupSpec(q);
      assert es == q + [es[|es| - 1]];
    }
  }

  /** The number of rows whose subset contains `e`. */
  function Count<L, E(==)>(p: seq<(L, seq<E>)>, e: E): (n: nat)
    ensures n <= |p|
    decreases |p|
  {
    if p == [] then 0
    else Count(p[..|p| - 1], e) + (if e in p[|p| - 1].1 then 1 else 0)
  }

  /** The problem with one more constraint at the end of its last subset. */
  function Extend<L, E>(p: seq<(L, seq<E>)>, e: E): (r: seq<(L, seq<E>)>)
    requires p != []
    ensures |r| == |p| && r[..|p| - 1] == p[..|p| - 1]
    ensures r[|p| - 1] == (p[|p| - 1].0, p[|p| - 1].1 + [e])
  {
    p[..|p| - 1] + [(p[|p| - 1].0, p[|p| - 1].1 + [e])]
  }

  /** Some row picked by `sel` lists constraint `e`. */
  ghost predicate Met<L, E>(p: seq<(L, seq<E>)>, sel: seq<nat>, e: E) {
    exists k | 0 <= k < |sel| && sel[k] < |p| :: e in p[sel[k]].1
  }

  /** `sel` picks rows of `p` whose subsets are pairwise disjoint and together contain
      every constraint of the problem. */
  ghost predicate ExactCover<L, E>(p: seq<(L, seq<E>)>, sel: seq<nat>) {
    && (forall k | 0 <= k < |sel| :: sel[k] < |p|)
    && (forall k, l, e | 0 <= k < l < |sel| && sel[k] < |p| && sel[l] < |p| ::
          e in p[sel[k]].1 ==> e !in p[sel[l]].1)
    && (forall i, a | 0 <= i < |p| && 0 <= a < |p[i].1| :: Met(p, sel, p[i].1[a]))
  }

  /** A constraint is in the flattened problem exactly when some subset lists it. */
  lemma {:induction false} FlattenIn<L, E>(p: seq<(L, seq<E>)>, e: E)
    ensures e in Flatten(p) <==> exists i, a | 0 <= i < |p| && 0 <= a < |p[i].1| :: p[i].1[a] == e
    decreases |p|
  {
    if p != [] {
      var q := p[..|p| - 1];
      FlattenIn(q, e);
      if e in Flatten(p) {
        if e in Flatten(q) {
          var i, a :| 0 <= i < |q| && 0 <= a < |q[i].1| && q[i].1[a] == e;
          assert p[i] == q[i];
        } else {
          var a :| 0 <= a < |p[|p| - 1].1| && p[|p| - 1].1[a] == e;
        }
      }
      if exists i, a | 0 <= i < |p| && 0 <= a < |p[i].1| :: p[i].1[a] == e {
        var i, a :| 0 <= i < |p| && 0 <= a < |p[i].1| && p[i].1[a] == e;
        if i < |q| {
          assert q[i] == p[i];
        }
      }
    }
  }

  /** Appending a constraint to the last subset appends it to the flattened problem. */
  lemma FlattenExtend<L, E>(p: seq<(L, seq<E>)>, e: E)
    requires p != []
    ensures Flatten(Extend(p, e)) == Flatten(p) + [e]
  {
    var r := Extend(p, e);
    assert r[..|r| - 1] == p[..|p| - 1];
  }

  /** A new empty subset adds nothing to the flattened problem. */
  lemma FlattenOpen<L, E>(p: seq<(L, seq<E>)>, rowLabel: L)
    ensures Flatten(p + [(rowLabel, [])]) == Flatten(p)
  {
    assert (p + [(rowLabel, [])])[..|p|] == p;
  }

  /** A constraint that is new goes to the end of the first-appearance order; one already
      seen leaves it as it is. */
  lemma DedupSnoc<E>(es: seq<E>, e: E)
    ensures Dedup(es + [e]) == if e in es then Dedup(es) else Dedup(es) + [e]
  {
    assert (es + [e])[..|es|] == es;
    DedupSpec(es);
  }

  /** Appending `e` to the last subset counts one more row for `e` when the subset did
      not list it yet, and changes no other count. */
  lemma CountExtend<L, E>(p: seq<(L, seq<E>)>, e: E, e': E)
    requires p != [] && e !in p[|p| - 1].1
    ensures Count(Extend(p, e), e') == Count(p, e') + (if e' == e then 1 else 0)
  {
    var r := Extend(p, e);
    assert r[..|r| - 1] == p[..|p| - 1];
  }

  /** A new empty subset counts for no constraint. */
  lemma CountOpen<L, E>(p: seq<(L, seq<E>)>, rowLabel: L, e: E)
    ensures Count(p + [(rowLabel, [])], e) == Count(p, e)
  {
    assert (p + [(rowLabel, [])])[..|p|] == p;
  }

  /** A constraint no subset lists is counted by no row. */
  lemma {:induction false} CountAbsent<L, E>(p: seq<(L, seq<E>)>, e: E)
    requires e !in Flatten(p)
    ensures Count(p, e) == 0
    decreases |p|
  {
    if p != [] {
      CountAbsent(p[..|p| - 1], e);
    }
  }

  /** The problem read so far with `more` appended to its last subset. */
  function Append<L, E>(done: seq<(L, seq<E>)>, more: seq<E>): (r: seq<(L, seq<E>)>)
    requires done != []
    ensures |r| == |done| && r[..|done| - 1] == done[..|done| - 1]
    ensures r[|done| - 1] == (done[|done| - 1].0, done[|done| - 1].1 + more)
  {
    done[..|done| - 1] + [(done[|done| - 1].0, done[|done| - 1].1 + more)]
  }

  /** Appending nothing leaves the problem as it is. */
  lemma AppendNone<L, E>(done: seq<(L, seq<E>)>)
    ensures done != [] ==> Append(done, []) == done
    ensures done + [] == done
  {
    if done != [] {
      assert done[|done| - 1].1 + [] == done[|done| - 1].1;
    }
  }

  /** `more` lists no constraint twice, and none that `seen` lists. */
  predicate FreshAfter<E(==)>(seen: seq<E>, more: seq<E>) {
    Unrepeated(more) && forall a | 0 <= a < |more| :: more[a] !in seen
  }

  /** Reading the next member of a fresh subset into the last row: it is new there, and
      the rest stays fresh. */
  lemma FreshStep<L, E>(done: seq<(L, seq<E>)>, more: seq<E>)
    requires done != [] && more != [] && FreshAfter(done[|done| - 1].1, more)
    ensures more[0] !in done[|done| - 1].1
    ensures FreshAfter(Extend(done, more[0])[|done| - 1].1, more[1..])
  {
    var seen := done[|done| - 1].1;
    assert Extend(done, more[0])[|done| - 1].1 == seen + [more[0]];
    forall a | 0 <= a < |more| - 1
      ensures more[1..][a] !in seen + [more[0]]
    {
      assert more[1..][a] == more[a + 1];
    }
  }

  /** Reading the next member of the subset and then the rest is reading the subset. */
  lemma AppendStep<L, E>(done: seq<(L, seq<E>)>, subset: seq<E>)
    requires done != [] && subset != []
    ensures Append(Extend(done, subset[0]), subset[1..]) == Append(done, subset)
  {
    assert done[|done| - 1].1 + [subset[0]] + subset[1..] == done[|done| - 1].1 + subset;
  }

  /** Reading a row from an empty subset, then the rows after it. */
  lemma AppendOpen<L, E>(done: seq<(L, seq<E>)>, rest: seq<(L, seq<E>)>)
    requires rest != [] && WellFormed(rest)
    ensures FreshAfter((done + [(rest[0].0, [])])[|done|].1, rest[0].1)
    ensures Append(done + [(rest[0].0, [])], rest[0].1) == done + [rest[0]]
    ensures WellFormed(rest[1..])
    ensures done + [rest[0]] + rest[1..] == done + rest
  {
    assert (done + [(rest[0].0, [])])[..|done|] == done;
    assert (done + [(rest[0].0, [])])[|done|].1 == [];
    assert (done + [(rest[0].0, [])])[|done|].1 + rest[0].1 == rest[0].1;
    forall i | 0 <= i < |rest| - 1
      ensures Unrepeated(rest[1..][i].1)
    {
      assert rest[1..][i] == rest[i + 1];
    }
  }
}
