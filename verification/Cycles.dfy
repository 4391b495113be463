/** Cycles in a finite directed graph through two or more nodes. */
module Cycles {
  import opened Graphs
  import opened Sequences

  /** `c` runs through two or more different nodes and back to the first. */
  ghost predicate IsCycle<T>(g: Graph<T>, c: seq<T>) {
    && |c| >= 2 && Distinct(c)
    && forall i :: 0 <= i < |c| ==> c[i] in g && Following(c, i) in g[c[i]]
  }

  function Following<T>(c: seq<T>, i: nat): T
    requires i < |c|
  {
    if i + 1 == |c| then c[0] else c[i + 1]
  }

  ghost predicate HasCycle<T(!new)>(g: Graph<T>) {
    exists c :: IsCycle(g, c)
  }

  /** A walk that never stays where it is. */
  ghost predicate IsPath<T>(g: Graph<T>, p: seq<T>) {
    |p| >= 1 && forall i :: 0 <= i < |p| - 1 ==> p[i] in g && p[i + 1] in g[p[i]] && p[i] != p[i + 1]
  }

  ghost predicate Leads<T(!new)>(g: Graph<T>, a: T, b: T) {
    exists p :: IsPath(g, p) && |p| >= 2 && p[0] == a && p[|p| - 1] == b
  }

  lemma LeadsOn<T(!new)>(g: Graph<T>, a: T, b: T, c: T)
    requires Leads(g, a, b) && Leads(g, b, c)
    ensures Leads(g, a, c)
  {
    var p :| IsPath(g, p) && |p| >= 2 && p[0] == a && p[|p| - 1] == b;
    var q :| IsPath(g, q) && |q| >= 2 && q[0] == b && q[|q| - 1] == c;
    var pq := p + q[1..];
    forall i | 0 <= i < |pq| - 1 ensures pq[i] in g && pq[i + 1] in g[pq[i]] && pq[i] != pq[i + 1] {
      if i < |p| - 1 {
        assert pq[i] == p[i] && pq[i + 1] == p[i + 1];
      } else {
        assert pq[i] == q[i - (|p| - 1)] && pq[i + 1] == q[i + 1 - (|p| - 1)];
      }
    }
    assert IsPath(g, pq);
  }

  ghost predicate LeadsInto<T(!new)>(g: Graph<T>, a: T, xs: set<T>) {
    exists b :: b in xs && Leads(g, a, b)
  }

  /** The nodes of `xs` that `x` leads to. */
  ghost function Beyond<T(!new)>(g: Graph<T>, x: T, xs: set<T>): set<T> {
    set y | y in xs && Leads(g, x, y)
  }

  /** If every node of a set leads into it, so do those that one of them leads to. */
  lemma BeyondStays<T(!new)>(g: Graph<T>, x: T, xs: set<T>, y: T)
    requires LeadsInto(g, y, xs) && y in Beyond(g, x, xs)
    ensures LeadsInto(g, y, Beyond(g, x, xs))
  {
    hide Leads;
    var z :| z in xs && Leads(g, y, z);
    LeadsOn(g, x, y, z);
    assert z in Beyond(g, x, xs);
  }

  lemma BeyondSmaller<T(!new)>(g: Graph<T>, x: T, xs: set<T>)
    requires x in xs && LeadsInto(g, x, xs) && !Leads(g, x, x)
    ensures Beyond(g, x, xs) != {} && |Beyond(g, x, xs)| < |xs|
  {
    hide Leads;
    var b :| b in xs && Leads(g, x, b);
    assert b in Beyond(g, x, xs);
    assert Beyond(g, x, xs) <= xs - {x};
    SubsetSize(Beyond(g, x, xs), xs - {x});
  }

  /** In a finite set from whose every node a path leads into the set again, some node leads to itself. */
  lemma {:induction false} LoopInside<T(!new)>(g: Graph<T>, xs: set<T>) returns (x: T)
    requires xs != {} && forall a :: a in xs ==> LeadsInto(g, a, xs)
    ensures Leads(g, x, x)
    decreases |xs|
  {
    hide Leads, LeadsInto;
    x :| x in xs;
    if !Leads(g, x, x) {
      BeyondSmaller(g, x, xs);
      forall y | y in Beyond(g, x, xs) ensures LeadsInto(g, y, Beyond(g, x, xs)) {
        BeyondStays(g, x, xs, y);
      }
      x := LoopInside(g, Beyond(g, x, xs));
    }
  }

  lemma SubPath<T>(g: Graph<T>, p: seq<T>, i: nat, j: nat)
    requires IsPath(g, p) && i < j < |p|
    ensures IsPath(g, p[i..j + 1])
  {
  }

  /** A path back to its start contains a cycle. */
  lemma {:induction false} PathHasCycle<T(!new)>(g: Graph<T>, p: seq<T>)
    requires IsPath(g, p) && |p| >= 2 && p[0] == p[|p| - 1]
    ensures HasCycle(g)
    decreases |p|
  {
    var c := p[..|p| - 1];
    assert p[0] in g && p[1] in g[p[0]] && p[0] != p[1];
    if Distinct(c) {
      forall i | 0 <= i < |c| ensures c[i] in g && Following(c, i) in g[c[i]] {
        assert p[i] in g && p[i + 1] in g[p[i]];
      }
      assert IsCycle(g, c);
    } else {
      var i, j :| 0 <= i < j < |c| && c[i] == c[j];
      SubPath(g, p, i, j);
      assert p[i] in g && p[i + 1] in g[p[i]] && p[i] != p[i + 1];
      PathHasCycle(g, p[i..j + 1]);
    }
  }

  lemma LoopHasCycle<T(!new)>(g: Graph<T>, x: T)
    requires Leads(g, x, x)
    ensures HasCycle(g)
  {
    var p :| IsPath(g, p) && |p| >= 2 && p[0] == x && p[|p| - 1] == x;
    PathHasCycle(g, p);
  }
}
