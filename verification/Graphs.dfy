/**
 Walks in a finite directed graph given by adjacency lists. `Walk(g, a, n)` is
 the set of nodes at the end of a walk of exactly `n` edges from `a`, so that
 reachability is a quantification over numbers only and the node type may be a
 class.
 */
module Graphs {

  type Graph<T(==)> = map<T, seq<T>>

  ghost function Successors<T>(g: Graph<T>, s: set<T>): set<T> {
    set x, y | x in s && x in g && y in g[x] :: y
  }

  ghost function Walk<T>(g: Graph<T>, a: T, n: nat): set<T> {
    if n == 0 then {a} else Successors(g, Walk(g, a, n - 1))
  }

  ghost predicate Reaches<T>(g: Graph<T>, a: T, b: T) {
    exists n: nat :: b in Walk(g, a, n)
  }

  /** Reachability by one or more edges. */
  ghost predicate ReachesPlus<T>(g: Graph<T>, a: T, b: T) {
    exists n: nat :: n >= 1 && b in Walk(g, a, n)
  }

  ghost predicate Closed<T>(g: Graph<T>, s: set<T>) {
    forall x, y :: x in s && x in g && y in g[x] ==> y in s
  }

  lemma ReachesSelf<T>(g: Graph<T>, a: T)
    ensures Reaches(g, a, a)
  {
    assert a in Walk(g, a, 0);
  }

  lemma ReachesEdge<T>(g: Graph<T>, a: T, b: T, c: T)
    requires Reaches(g, a, b) && b in g && c in g[b]
    ensures ReachesPlus(g, a, c) && Reaches(g, a, c)
  {
    var n: nat :| b in Walk(g, a, n);
    assert c in Walk(g, a, n + 1);
  }

  /** A set that is closed under edges holds every walk that starts in it. */
  lemma {:induction false} ClosedHoldsWalk<T>(g: Graph<T>, s: set<T>, a: T, n: nat)
    requires a in s && Closed(g, s)
    ensures Walk(g, a, n) <= s
  {
    if n > 0 {
      ClosedHoldsWalk(g, s, a, n - 1);
    }
  }

  lemma ClosedHoldsReachable<T>(g: Graph<T>, s: set<T>, a: T, b: T)
    requires a in s && Closed(g, s) && Reaches(g, a, b)
    ensures b in s
  {
    var n: nat :| b in Walk(g, a, n);
    ClosedHoldsWalk(g, s, a, n);
  }

  /** One or more edges from `a` lead first to a successor of `a`. */
  lemma {:induction false} ClosedHoldsProperWalk<T>(g: Graph<T>, s: set<T>, a: T, n: nat)
    requires a in g && (forall y :: y in g[a] ==> y in s) && Closed(g, s)
    ensures Walk(g, a, n + 1) <= s
  {
    if n > 0 {
      ClosedHoldsProperWalk(g, s, a, n - 1);
    }
  }

  /** Inside a closed set of nodes, walks do not depend on the rest of the graph. */
  lemma {:induction false} RestrictWalk<T>(g: Graph<T>, h: Graph<T>, a: T, n: nat)
    requires h.Keys <= g.Keys && (forall x :: x in h ==> h[x] == g[x]) && Closed(g, h.Keys) && a in h
    ensures Walk(h, a, n) == Walk(g, a, n) <= h.Keys
  {
    if n > 0 {
      RestrictWalk(g, h, a, n - 1);
    }
  }

  // ----- Distance from a node by one or more edges -----

  /** `n` is the length of the shortest walk of one or more edges from `a` to `x`. */
  ghost predicate IsDistance<T>(g: Graph<T>, a: T, x: T, n: nat) {
    && n >= 1
    && x in Walk(g, a, n)
    && forall m: nat :: 1 <= m < n ==> x !in Walk(g, a, m)
  }
}
