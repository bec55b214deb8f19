/** Doubly linked cycles described by the list of their members, and the list operations
    that splicing a node out of, or into, such a cycle performs. */
module Cycles {
  import opened Links

  predicate Distinct(xs: seq<nat>) {
    forall i, j | 0 <= i < j < |xs| :: xs[i] != xs[j]
  }

  function Last(xs: seq<nat>): nat
    requires |xs| > 0
  {
    xs[|xs| - 1]
  }

  /** `xs` is a doubly linked cycle: following `next` from `xs[i]` reaches `xs[i+1]`,
      following `prev` goes back, the last member wraps round to the first, and no node
      occurs twice. */
  ghost predicate Linked(next: seq<nat>, prev: seq<nat>, xs: seq<nat>) {
    && |xs| > 0
    && (forall i | 0 <= i < |xs| :: xs[i] < |next| && xs[i] < |prev|)
    && Distinct(xs)
    && (forall i | 0 <= i < |xs| - 1 :: next[xs[i]] == xs[i + 1] && prev[xs[i + 1]] == xs[i])
    && next[Last(xs)] == xs[0] && prev[xs[0]] == Last(xs)
  }

  /** The successor of position `i` in a cycle of `n` members. */
  function Succ(i: nat, n: nat): nat
    requires i < n
  {
    if i + 1 < n then i + 1 else 0
  }

  /** The cycle read from its member at position `k`. */
  function Rot(xs: seq<nat>, k: nat): (r: seq<nat>)
    requires k < |xs|
    ensures |r| == |xs| && r[0] == xs[k]
    ensures forall i | 0 <= i < |xs| - k :: r[i] == xs[k + i]
    ensures forall i | |xs| - k <= i < |xs| :: r[i] == xs[i - (|xs| - k)]
  {
    xs[k..] + xs[..k]
  }

  /** The position of a member of a list. */
  function IndexOf(xs: seq<nat>, y: nat): (i: nat)
    requires y in xs
    ensures i < |xs| && xs[i] == y
    ensures forall j | 0 <= j < i :: xs[j] != y
  {
    if xs[0] == y then 0 else 1 + IndexOf(xs[1..], y)
  }

  /** The list without its member at position `i`. */
  function RemoveAt(xs: seq<nat>, i: nat): (r: seq<nat>)
    requires i < |xs|
    ensures |r| == |xs| - 1
    ensures forall j | 0 <= j < i :: r[j] == xs[j]
    ensures forall j | i <= j < |r| :: r[j] == xs[j + 1]
  {
    xs[..i] + xs[i + 1..]
  }

  /** Positions shift by one behind a new first member. */
  lemma ConsRemove(a: nat, w: seq<nat>, c: nat)
    requires c in w && a != c
    ensures IndexOf([a] + w, c) == 1 + IndexOf(w, c)
    ensures RemoveAt([a] + w, 1 + IndexOf(w, c)) == [a] + RemoveAt(w, IndexOf(w, c))
  {
    assert ([a] + w)[1..] == w;
  }

  /** The members of `xs` that are not in `gone`, in their order in `xs`. */
  function Without(xs: seq<nat>, gone: set<nat>): (r: seq<nat>)
    ensures forall y :: y in r <==> y in xs && y !in gone
    ensures |r| <= |xs|
  {
    if xs == [] then []
    else if xs[0] in gone then Without(xs[1..], gone)
    else [xs[0]] + Without(xs[1..], gone)
  }

  lemma {:induction false} WithoutDistinct(xs: seq<nat>, gone: set<nat>)
    requires Distinct(xs)
    ensures Distinct(Without(xs, gone))
  {
    if xs != [] {
      WithoutDistinct(xs[1..], gone);
    }
  }

  lemma {:induction false} WithoutNone(xs: seq<nat>)
    ensures Without(xs, {}) == xs
  {
    if xs != [] {
      WithoutNone(xs[1..]);
    }
  }

  /** Removing a node that is not in the list changes nothing. */
  lemma {:induction false} WithoutOther(xs: seq<nat>, gone: set<nat>, y: nat)
    requires y !in xs
    ensures Without(xs, gone + {y}) == Without(xs, gone)
  {
    if xs != [] {
      WithoutOther(xs[1..], gone, y);
    }
  }

  /** Removing a further member deletes exactly its position from the filtered list. */
  lemma {:induction false} WithoutOne(xs: seq<nat>, gone: set<nat>, y: nat)
    requires Distinct(xs) && y in xs && y !in gone
    ensures y in Without(xs, gone)
    ensures Without(xs, gone + {y}) == RemoveAt(Without(xs, gone), IndexOf(Without(xs, gone), y))
  {
    var w := Without(xs, gone);
    var t := Without(xs[1..], gone);
    if xs[0] == y {
      assert y !in xs[1..];
      WithoutOther(xs[1..], gone, y);
      assert w == [y] + t && IndexOf(w, y) == 0;
    } else {
      assert y in xs[1..];
      WithoutOne(xs[1..], gone, y);
      if xs[0] !in gone {
        assert w == [xs[0]] + t;
        ConsRemove(xs[0], t, y);
      }
    }
  }

  /** The filtered lists of a growing set are each contained in the previous one. */
  lemma {:induction false} WithoutUnion(xs: seq<nat>, a: set<nat>, b: set<nat>)
    ensures Without(Without(xs, a), b) == Without(xs, a + b)
  {
    if xs != [] {
      WithoutUnion(xs[1..], a, b);
      if xs[0] !in a {
        assert Without(xs, a) == [xs[0]] + Without(xs[1..], a);
        assert Without(xs, a)[1..] == Without(xs[1..], a);
      }
    }
  }

  /** Filtering out a member shortens the list. */
  lemma {:induction false} WithoutDrops(xs: seq<nat>, gone: set<nat>, y: nat)
    requires y in xs && y in gone
    ensures |Without(xs, gone)| < |xs|
  {
    if xs[0] != y {
      WithoutDrops(xs[1..], gone, y);
    }
  }

  /** A distinct list of nodes below `n` has at most `n` members. */
  lemma {:induction false} DistinctBound(xs: seq<nat>, n: nat)
    requires Distinct(xs) && forall i | 0 <= i < |xs| :: xs[i] < n
    ensures |xs| <= n
    decreases n
  {
    if n > 0 {
      if n - 1 in xs {
        var k := IndexOf(xs, n - 1);
        var ys := RemoveAt(xs, k);
        forall i | 0 <= i < |ys|
          ensures ys[i] < n - 1
        {
          var i' := if i < k then i else i + 1;
          assert ys[i] == xs[i'] && i' != k;
        }
        forall a, b | 0 <= a < b < |ys|
          ensures ys[a] != ys[b]
        {
          var a' := if a < k then a else a + 1;
          var b' := if b < k then b else b + 1;
          assert ys[a] == xs[a'] && ys[b] == xs[b'];
        }
        DistinctBound(ys, n - 1);
      } else {
        forall i | 0 <= i < |xs|
          ensures xs[i] < n - 1
        {
          assert xs[i] != n - 1;
        }
        DistinctBound(xs, n - 1);
      }
    }
  }

  /** Any member may serve as the starting point of a cycle. */
  lemma LinkedRot(next: seq<nat>, prev: seq<nat>, xs: seq<nat>, k: nat)
    requires Linked(next, prev, xs) && k < |xs|
    ensures Linked(next, prev, Rot(xs, k))
  {
    var r := Rot(xs, k);
    var n := |xs|;
    RotMembers(xs, k);
    forall i | 0 <= i < n - 1
      ensures next[r[i]] == r[i + 1] && prev[r[i + 1]] == r[i]
    {
      if i + 1 == n - k {
        assert r[i] == xs[n - 1] && r[i + 1] == xs[0];
      } else if i + 1 < n - k {
        assert r[i] == xs[k + i] && r[i + 1] == xs[k + i + 1];
      } else {
        assert r[i] == xs[i - (n - k)] && r[i + 1] == xs[i + 1 - (n - k)];
      }
    }
    if k == 0 {
      assert Last(r) == Last(xs) && r[0] == xs[0];
    } else {
      assert Last(r) == xs[k - 1] && r[0] == xs[k];
    }
  }

  /** A rotation holds the same members as the list, and is repetition-free with it. */
  lemma RotMembers(xs: seq<nat>, k: nat)
    requires k < |xs|
    ensures forall y :: y in Rot(xs, k) <==> y in xs
    ensures Distinct(xs) ==> Distinct(Rot(xs, k))
  {
    var r := Rot(xs, k);
    forall y | y in xs
      ensures y in r
    {
      var j :| 0 <= j < |xs| && xs[j] == y;
      if j >= k {
        assert r[j - k] == y;
      } else {
        assert r[j + (|xs| - k)] == y;
      }
    }
    if Distinct(xs) {
      forall i, j | 0 <= i < j < |r|
        ensures r[i] != r[j]
      {
        var a := if i < |xs| - k then k + i else i - (|xs| - k);
        var b := if j < |xs| - k then k + j else j - (|xs| - k);
        assert a != b;
      }
    }
  }

  /** A rotation of a repetition-free list, without its first member, holds every other
      member. */
  lemma RotTail(xs: seq<nat>, k: nat)
    requires Distinct(xs) && k < |xs|
    ensures forall y :: y in Rot(xs, k)[1..] <==> y in xs && y != xs[k]
  {
    var r := Rot(xs, k);
    RotMembers(xs, k);
    forall y | y in xs && y != xs[k]
      ensures y in r[1..]
    {
      var j :| 0 <= j < |r| && r[j] == y;
      assert r[1..][j - 1] == y;
    }
    forall y | y in r[1..]
      ensures y != xs[k]
    {
      var j :| 0 <= j < |r[1..]| && r[1..][j] == y;
      assert r[j + 1] == y;
    }
  }

  lemma DistinctAppend(a: seq<nat>, b: seq<nat>)
    requires Distinct(a) && Distinct(b) && forall y | y in a :: y !in b
    ensures Distinct(a + b)
  {
    var c := a + b;
    forall i, j | 0 <= i < j < |c|
      ensures c[i] != c[j]
    {
      if i < |a| && j >= |a| {
        assert c[i] in a && c[j] == b[j - |a|];
      }
    }
  }

  /** Removing nodes that are not on a list does not change it. */
  lemma {:induction false} WithoutDisjoint(xs: seq<nat>, gone: set<nat>, more: set<nat>)
    requires forall y | y in more :: y !in xs
    ensures Without(xs, gone + more) == Without(xs, gone)
  {
    if xs != [] {
      assert xs[0] !in more;
      assert forall y | y in more :: y !in xs[1..];
      WithoutDisjoint(xs[1..], gone, more);
    }
  }

  /** A list is linked in at most one way: two pointer arrays that both link it agree on
      its members. */
  lemma LinkedSame(next: seq<nat>, prev: seq<nat>, next': seq<nat>, prev': seq<nat>, xs: seq<nat>)
    requires Linked(next, prev, xs) && Linked(next', prev', xs)
    ensures forall i | 0 <= i < |xs| :: next'[xs[i]] == next[xs[i]] && prev'[xs[i]] == prev[xs[i]]
  {
    forall i | 0 <= i < |xs|
      ensures next'[xs[i]] == next[xs[i]] && prev'[xs[i]] == prev[xs[i]]
    {
      if i < |xs| - 1 {
        assert next'[xs[i]] == xs[i + 1] == next[xs[i]];
      } else {
        assert next'[xs[i]] == xs[0] == next[xs[i]];
      }
      if i > 0 {
        assert prev'[xs[i]] == xs[i - 1] == prev[xs[i]];
      } else {
        assert prev'[xs[i]] == Last(xs) == prev[xs[i]];
      }
    }
  }

  /** Following `next` from `cur` passes through `zs` in order and then reaches `stop`,
      which is not on `zs`. */
  ghost predicate Chain(next: seq<nat>, stop: nat, cur: nat, zs: seq<nat>) {
    && (forall k | 0 <= k < |zs| :: zs[k] < |next| && zs[k] != stop)
    && (forall k | 0 <= k < |zs| - 1 :: next[zs[k]] == zs[k + 1])
    && (|zs| == 0 ==> cur == stop)
    && (|zs| > 0 ==> cur == zs[0] && next[zs[|zs| - 1]] == stop)
  }

  /** Following `prev` from `cur` passes through `zs` backwards, from its last member to
      its first, and then reaches `stop`, which is not on `zs`. */
  ghost predicate ChainBack(prev: seq<nat>, stop: nat, cur: nat, zs: seq<nat>) {
    && (forall k | 0 <= k < |zs| :: zs[k] < |prev| && zs[k] != stop)
    && (forall k | 0 < k < |zs| :: prev[zs[k]] == zs[k - 1])
    && (|zs| == 0 ==> cur == stop)
    && (|zs| > 0 ==> cur == zs[|zs| - 1] && prev[zs[0]] == stop)
  }

  /** One step along a chain, in any pointer array that agrees on its members. */
  lemma ChainTail(next: seq<nat>, stop: nat, cur: nat, zs: seq<nat>, next': seq<nat>)
    requires Chain(next, stop, cur, zs) && |zs| > 0 && |next'| == |next|
    requires forall k | 0 <= k < |zs| :: next'[zs[k]] == next[zs[k]]
    ensures Chain(next', stop, next'[cur], zs[1..])
  {
    var t := zs[1..];
    forall k | 0 <= k < |t|
      ensures t[k] < |next'| && t[k] != stop
    {
      assert t[k] == zs[k + 1];
    }
    forall k | 0 <= k < |t| - 1
      ensures next'[t[k]] == t[k + 1]
    {
      assert t[k] == zs[k + 1] && t[k + 1] == zs[k + 2];
    }
    assert next'[cur] == next[zs[0]];
    if |t| > 0 {
      assert t[0] == zs[1] && t[|t| - 1] == zs[|zs| - 1];
    }
  }

  /** One step back along a chain, in any pointer array that agrees on its members. */
  lemma ChainBackFront(prev: seq<nat>, stop: nat, cur: nat, zs: seq<nat>, prev': seq<nat>)
    requires ChainBack(prev, stop, cur, zs) && |zs| > 0 && |prev'| == |prev|
    requires forall k | 0 <= k < |zs| :: prev'[zs[k]] == prev[zs[k]]
    ensures ChainBack(prev', stop, prev'[cur], zs[..|zs| - 1])
  {
    var p := zs[..|zs| - 1];
    forall k | 0 <= k < |p|
      ensures p[k] < |prev'| && p[k] != stop
    {
      assert p[k] == zs[k];
    }
    forall k | 0 < k < |p|
      ensures prev'[p[k]] == p[k - 1]
    {
      assert p[k] == zs[k] && p[k - 1] == zs[k - 1];
    }
    assert prev'[cur] == prev[zs[|zs| - 1]];
    if |p| > 0 {
      assert p[0] == zs[0] && p[|p| - 1] == zs[|zs| - 2];
    }
  }

  /** The rest of a cycle after its member `xs[0]` is a chain back to `xs[0]` both ways. */
  lemma CycleChains(next: seq<nat>, prev: seq<nat>, xs: seq<nat>)
    requires Linked(next, prev, xs)
    ensures Chain(next, xs[0], next[xs[0]], xs[1..])
    ensures ChainBack(prev, xs[0], prev[xs[0]], xs[1..])
    ensures Distinct(xs[1..])
  {
    var t := xs[1..];
    forall k | 0 <= k < |t|
      ensures t[k] < |next| && t[k] < |prev| && t[k] != xs[0]
    {
      assert t[k] == xs[k + 1];
    }
    forall k | 0 <= k < |t| - 1
      ensures next[t[k]] == t[k + 1]
    {
      assert t[k] == xs[k + 1] && t[k + 1] == xs[k + 2];
    }
    forall k | 0 < k < |t|
      ensures prev[t[k]] == t[k - 1]
    {
      assert t[k] == xs[k + 1] && t[k - 1] == xs[k];
    }
    if |t| > 0 {
      assert t[0] == xs[1] && t[|t| - 1] == Last(xs);
    }
    forall i, j | 0 <= i < j < |t|
      ensures t[i] != t[j]
    {
      assert t[i] == xs[i + 1] && t[j] == xs[j + 1];
    }
  }

  /** In a cycle, `prev` undoes `next`. */
  lemma LinkedBack(next: seq<nat>, prev: seq<nat>, xs: seq<nat>, a: nat)
    requires Linked(next, prev, xs) && a in xs
    ensures next[a] < |prev| && prev[next[a]] == a
  {
    var i := IndexOf(xs, a);
    if i < |xs| - 1 {
      assert next[a] == xs[i + 1];
    }
  }

  /** A cycle is unaffected by pointer updates outside its members. */
  lemma LinkedFrame(next: seq<nat>, prev: seq<nat>, xs: seq<nat>, next': seq<nat>, prev': seq<nat>)
    requires Linked(next, prev, xs)
    requires forall i | 0 <= i < |xs| :: xs[i] < |next'| && xs[i] < |prev'|
    requires forall i | 0 <= i < |xs| :: next'[xs[i]] == next[xs[i]] && prev'[xs[i]] == prev[xs[i]]
    ensures Linked(next', prev', xs)
  {
  }

  /** Splicing out the member at position `i > 0`: its predecessor now leads to its
      successor and back, and the cycle is the list without that member. */
  lemma LinkedRemove(next: seq<nat>, prev: seq<nat>, xs: seq<nat>, i: nat, next': seq<nat>, prev': seq<nat>)
    requires Linked(next, prev, xs) && 0 < i < |xs|
    requires |next'| == |next| && |prev'| == |prev|
    requires next'[xs[i - 1]] == xs[Succ(i, |xs|)] && prev'[xs[Succ(i, |xs|)]] == xs[i - 1]
    requires forall j | 0 <= j < |xs| && j != i - 1 && j != i :: next'[xs[j]] == next[xs[j]]
    requires forall j | 0 <= j < |xs| && j != Succ(i, |xs|) && j != i :: prev'[xs[j]] == prev[xs[j]]
    ensures Linked(next', prev', RemoveAt(xs, i))
  {
    var r := RemoveAt(xs, i);
    forall a, b | 0 <= a < b < |r|
      ensures r[a] != r[b]
    {
      var a' := if a < i then a else a + 1;
      var b' := if b < i then b else b + 1;
      assert r[a] == xs[a'] && r[b] == xs[b'];
    }
    forall j | 0 <= j < |r| - 1
      ensures next'[r[j]] == r[j + 1] && prev'[r[j + 1]] == r[j]
    {
      if j + 1 < i {
      } else if j + 1 == i {
        assert r[j] == xs[i - 1] && r[j + 1] == xs[i + 1];
      } else {
        assert r[j] == xs[j + 1] && r[j + 1] == xs[j + 2];
      }
    }
    if i == |xs| - 1 {
      assert Last(r) == xs[i - 1];
    } else {
      assert Last(r) == Last(xs);
    }
  }

  /** Dancing-links removal of a member other than the first: its predecessor's `next`
      jumps over it and its successor's `prev` points back past it. */
  lemma LinkedSplice(next: seq<nat>, prev: seq<nat>, xs: seq<nat>, i: nat)
    requires Linked(next, prev, xs) && 0 < i < |xs|
    ensures prev[xs[i]] == xs[i - 1] && next[xs[i]] == xs[Succ(i, |xs|)]
    ensures Linked(next[prev[xs[i]] := next[xs[i]]], prev[next[xs[i]] := prev[xs[i]]], RemoveAt(xs, i))
  {
    var x := xs[i];
    assert prev[x] == xs[i - 1];
    if i == |xs| - 1 {
      assert next[x] == xs[0];
    } else {
      assert next[x] == xs[i + 1];
    }
    var next' := next[prev[x] := next[x]];
    var prev' := prev[next[x] := prev[x]];
    forall j | 0 <= j < |xs| && j != i - 1 && j != i
      ensures next'[xs[j]] == next[xs[j]]
    {
      assert xs[j] != xs[i - 1];
    }
    forall j | 0 <= j < |xs| && j != Succ(i, |xs|) && j != i
      ensures prev'[xs[j]] == prev[xs[j]]
    {
      assert xs[j] != xs[Succ(i, |xs|)];
    }
    LinkedRemove(next, prev, xs, i, next', prev');
  }

  /** Splicing a new node in just before the first member (that is, after the last one):
      the cycle gains the node at its end. */
  lemma LinkedAppend(next: seq<nat>, prev: seq<nat>, xs: seq<nat>, x: nat, next': seq<nat>, prev': seq<nat>)
    requires Linked(next, prev, xs) && x !in xs
    requires x < |next'| && x < |prev'|
    requires forall i | 0 <= i < |xs| :: xs[i] < |next'| && xs[i] < |prev'|
    requires next'[Last(xs)] == x && next'[x] == xs[0] && prev'[xs[0]] == x && prev'[x] == Last(xs)
    requires forall j | 0 <= j < |xs| - 1 :: next'[xs[j]] == next[xs[j]]
    requires forall j | 1 <= j < |xs| :: prev'[xs[j]] == prev[xs[j]]
    ensures Linked(next', prev', xs + [x])
  {
    var r := xs + [x];
    forall a, b | 0 <= a < b < |r|
      ensures r[a] != r[b]
    {
      if b == |xs| {
        assert r[a] == xs[a];
      }
    }
  }

  /** A node linked to itself is a cycle of one. */
  lemma LinkedSingle(next: seq<nat>, prev: seq<nat>, x: nat)
    requires x < |next| && x < |prev| && next[x] == x && prev[x] == x
    ensures Linked(next, prev, [x])
  {
  }

  /** Walking a cycle from its member at position `k` back to its first member lists the
      rest of the cycle. */
  lemma {:induction false} WalkLinked(next: seq<nat>, prev: seq<nat>, xs: seq<nat>, k: nat, fuel: nat)
    requires Pointers(next) && Linked(next, prev, xs) && k < |xs| && fuel >= |xs| - k
    ensures Walk(next, xs[0], xs[k], fuel) == Some(xs[k..])
    decreases |xs| - k
  {
    if k + 1 < |xs| {
      assert next[xs[k]] == xs[k + 1];
      assert xs[k + 1] != xs[0];
      WalkLinked(next, prev, xs, k + 1, fuel - 1);
      assert xs[k..] == [xs[k]] + xs[k + 1..];
    } else {
      assert next[xs[k]] == xs[0];
      assert xs[k..] == [xs[k]];
    }
  }

  /** `iter` lists a cycle exactly, from any of its members. */
  lemma IterLinked(next: seq<nat>, prev: seq<nat>, xs: seq<nat>)
    requires Pointers(next) && Linked(next, prev, xs)
    ensures Iter(next, xs[0]) == Some(xs)
  {
    DistinctBound(xs, |next|);
    WalkLinked(next, prev, xs, 0, |next|);
  }

  /** Conversely, a completed `iter` on a doubly linked structure is a cycle. */
  lemma IterIsLinked(next: seq<nat>, prev: seq<nat>, start: nat)
    requires Pointers(next) && start < |next| && |prev| == |next|
    requires Iter(next, start).Some?
    requires forall i | 0 <= i < |next| :: prev[next[i]] == i
    ensures Linked(next, prev, Iter(next, start).value)
  {
    var xs := Iter(next, start).value;
    forall a, b | 0 <= a < b < |xs|
      ensures xs[a] != xs[b]
    {
      DistinctWalk(next, prev, xs, a, b);
    }
  }

  /** Along a walk that only returns to its start at the end, with `prev` inverting `next`,
      no node repeats. */
  lemma {:induction false} DistinctWalk(next: seq<nat>, prev: seq<nat>, xs: seq<nat>, a: nat, b: nat)
    requires Pointers(next) && |prev| == |next| && forall i | 0 <= i < |next| :: prev[next[i]] == i
    requires forall i | 0 <= i < |xs| :: xs[i] < |next|
    requires forall i | 0 <= i < |xs| - 1 :: next[xs[i]] == xs[i + 1]
    requires forall i | 1 <= i < |xs| :: xs[i] != xs[0]
    requires a < b < |xs|
    ensures xs[a] != xs[b]
    decreases a
  {
    if a > 0 && xs[a] == xs[b] {
      assert prev[next[xs[a - 1]]] == xs[a - 1];
      assert prev[next[xs[b - 1]]] == xs[b - 1];
      DistinctWalk(next, prev, xs, a - 1, b - 1);
    }
  }
}
