/**
 Walks, reachability and cycles of a binary relation. The export validator's
 navigation closure, expand check and connectivity check are all stated with these.
 */
module Walks {

  ghost predicate IsWalk<T(!new)>(r: (T, T) -> bool, p: seq<T>) {
    |p| > 0 && forall i | 0 <= i < |p| - 1 :: r(p[i], p[i + 1])
  }

  ghost predicate WalkFromTo<T(!new)>(r: (T, T) -> bool, p: seq<T>, a: T, b: T) {
    IsWalk(r, p) && p[0] == a && p[|p| - 1] == b
  }

  /** `b` can be reached from `a` in zero or more steps of `r`. */
  ghost predicate Reaches<T(!new)>(r: (T, T) -> bool, a: T, b: T) {
    exists p :: WalkFromTo(r, p, a, b)
  }

  /** `a` can be reached from itself in one or more steps of `r`. */
  ghost predicate OnCycle<T(!new)>(r: (T, T) -> bool, a: T) {
    exists p :: |p| > 1 && WalkFromTo(r, p, a, a)
  }

  ghost predicate Closed<T(!new)>(r: (T, T) -> bool, s: set<T>) {
    forall a, b | a in s && r(a, b) :: b in s
  }

  lemma ReachesSelf<T(!new)>(r: (T, T) -> bool, a: T)
    ensures Reaches(r, a, a)
  {
    assert WalkFromTo(r, [a], a, a);
  }

  lemma ReachesStep<T(!new)>(r: (T, T) -> bool, a: T, b: T, c: T)
    requires Reaches(r, a, b) && r(b, c)
    ensures Reaches(r, a, c)
  {
    var p :| WalkFromTo(r, p, a, b);
    assert WalkFromTo(r, p + [c], a, c);
  }

  lemma ReachesTransitive<T(!new)>(r: (T, T) -> bool, a: T, b: T, c: T)
    requires Reaches(r, a, b) && Reaches(r, b, c)
    ensures Reaches(r, a, c)
  {
    var p :| WalkFromTo(r, p, a, b);
    var q :| WalkFromTo(r, q, b, c);
    var w := p + q[1..];
    forall i | 0 <= i < |w| - 1
      ensures r(w[i], w[i + 1])
    {
      if i < |p| - 1 {
      } else {
        assert w[i] == q[i - (|p| - 1)] && w[i + 1] == q[i - (|p| - 1) + 1];
      }
    }
    assert WalkFromTo(r, w, a, c);
  }

  lemma ReachesSymmetric<T(!new)>(r: (T, T) -> bool, a: T, b: T)
    requires forall x, y :: r(x, y) ==> r(y, x)
    requires Reaches(r, a, b)
    ensures Reaches(r, b, a)
  {
    var p :| WalkFromTo(r, p, a, b);
    var q := seq(|p|, i requires 0 <= i < |p| => p[|p| - 1 - i]);
    forall i | 0 <= i < |q| - 1
      ensures r(q[i], q[i + 1])
    {
      assert q[i + 1] == p[|p| - 2 - i] && q[i] == p[|p| - 2 - i + 1];
    }
    assert WalkFromTo(r, q, b, a);
  }

  /** A walk that starts in a closed set stays in it. */
  lemma {:induction false} ClosedHoldsWalk<T(!new)>(r: (T, T) -> bool, s: set<T>, p: seq<T>, i: nat)
    requires Closed(r, s) && IsWalk(r, p) && p[0] in s && i < |p|
    ensures p[i] in s
  {
    if i > 0 {
      ClosedHoldsWalk(r, s, p, i - 1);
      assert r(p[i - 1], p[i - 1 + 1]);
    }
  }

  lemma ClosedHoldsReached<T(!new)>(r: (T, T) -> bool, s: set<T>, a: T, b: T)
    requires Closed(r, s) && a in s && Reaches(r, a, b)
    ensures b in s
  {
    var p :| WalkFromTo(r, p, a, b);
    ClosedHoldsWalk(r, s, p, |p| - 1);
  }

  /** Two relations that agree have the same walks. */
  lemma SameReach<T(!new)>(r: (T, T) -> bool, q: (T, T) -> bool, a: T, b: T)
    requires forall x, y :: r(x, y) <==> q(x, y)
    ensures Reaches(r, a, b) <==> Reaches(q, a, b)
  {
    if Reaches(r, a, b) {
      var p :| WalkFromTo(r, p, a, b);
      assert WalkFromTo(q, p, a, b);
    }
    if Reaches(q, a, b) {
      var p :| WalkFromTo(q, p, a, b);
      assert WalkFromTo(r, p, a, b);
    }
  }

  lemma SameCycles<T(!new)>(r: (T, T) -> bool, q: (T, T) -> bool, a: T)
    requires forall x, y :: r(x, y) <==> q(x, y)
    ensures OnCycle(r, a) <==> OnCycle(q, a)
  {
    if OnCycle(r, a) {
      var p :| |p| > 1 && WalkFromTo(r, p, a, a);
      assert WalkFromTo(q, p, a, a);
    }
    if OnCycle(q, a) {
      var p :| |p| > 1 && WalkFromTo(q, p, a, a);
      assert WalkFromTo(r, p, a, a);
    }
  }

  /** Every step of `r` goes to an element listed earlier in `order`. */
  ghost predicate StepsBack<T(!new)>(r: (T, T) -> bool, order: seq<T>) {
    forall i, b | 0 <= i < |order| && r(order[i], b) :: b in order[..i]
  }

  /** A walk of `k` steps from `order[i]` ends at least `k` places earlier. */
  lemma {:induction false} WalkDescends<T(!new)>(r: (T, T) -> bool, order: seq<T>, p: seq<T>, i: nat, k: nat) returns (j: nat)
    requires StepsBack(r, order) && IsWalk(r, p) && i < |order| && p[0] == order[i] && k < |p|
    ensures j + k <= i && p[k] == order[j]
  {
    if k == 0 {
      j := i;
    } else {
      var h := WalkDescends(r, order, p, i, k - 1);
      assert r(p[k - 1], p[k - 1 + 1]);
      assert p[k] in order[..h];
      j :| 0 <= j < h && order[j] == p[k];
    }
  }

  /**
   An element listed in such an order, without repetition, is on no cycle. This is the
   certificate the depth-first search leaves behind when it finds nothing.
   */
  lemma OrderedIsAcyclic<T(!new)>(r: (T, T) -> bool, order: seq<T>, a: T)
    requires StepsBack(r, order) && a in order
    requires forall i, j | 0 <= i < j < |order| :: order[i] != order[j]
    ensures !OnCycle(r, a)
  {
    if OnCycle(r, a) {
      var p :| |p| > 1 && WalkFromTo(r, p, a, a);
      var i :| 0 <= i < |order| && order[i] == a;
      var j := WalkDescends(r, order, p, i, |p| - 1);
    }
  }

  lemma CycleSteps<T(!new)>(r: (T, T) -> bool, a: T)
    requires OnCycle(r, a)
    ensures exists b :: r(a, b)
  {
    var p :| |p| > 1 && WalkFromTo(r, p, a, a);
    assert r(p[0], p[0 + 1]);
  }
}
