/** How `dlopen` puts new objects on the list of objects with deferred relocations:
    `prepare_lazy` for the opened object and then for each entry of its dependency list. */
module PrepareLazy {
  import opened Graphs
  import opened Sequences
  import opened Dsos
  import BfsDeps

  /** The list head and the `lazy_next` fields. */
  datatype Links<T(==)> = Links(head: Option<T>, next: map<T, Option<T>>)

  /** `prepare_lazy`'s two assignments. */
  function Prepare<T>(s: Links<T>, x: T): Links<T> {
    Links(Some(x), s.next[x := s.head])
  }

  function PrepareAll<T>(s: Links<T>, xs: seq<T>): Links<T> {
    if xs == [] then s else Prepare(PrepareAll(s, xs[..|xs| - 1]), xs[|xs| - 1])
  }

  /** Following the links from `head` visits `l` and ends. */
  ghost predicate IsList<T>(head: Option<T>, next: map<T, Option<T>>, l: seq<T>)
    decreases |l|
  {
    if l == [] then head == None
    else head == Some(l[0]) && l[0] in next && IsList(next[l[0]], next, l[1..])
  }

  /** Links of objects elsewhere do not matter. */
  lemma {:induction false} ListUnchanged<T>(head: Option<T>, next: map<T, Option<T>>, l: seq<T>, x: T, v: Option<T>)
    requires IsList(head, next, l) && x !in l
    ensures IsList(head, next[x := v], l)
    decreases |l|
  {
    if l != [] {
      ListUnchanged(next[l[0]], next, l[1..], x, v);
    }
  }

  /** The links lead from the head into a set that they never leave. */
  ghost predicate Trapped<T>(s: Links<T>, inside: set<T>) {
    && s.head.Some? && s.head.value in inside
    && forall y :: y in inside ==> y in s.next && s.next[y].Some? && s.next[y].value in inside
  }

  /** Following the links from `head` ends after at most `n` of them. */
  ghost predicate Ends<T>(head: Option<T>, next: map<T, Option<T>>, n: nat)
    decreases n
  {
    head == None || (n > 0 && head.value in next && Ends(next[head.value], next, n - 1))
  }

  /** The links from the head form a list. */
  ghost predicate HasList<T>(s: Links<T>) {
    exists n: nat :: Ends(s.head, s.next, n)
  }

  lemma {:induction false} ListEnds<T>(head: Option<T>, next: map<T, Option<T>>, l: seq<T>)
    requires IsList(head, next, l)
    ensures Ends(head, next, |l|)
    decreases |l|
  {
    if l != [] { ListEnds(next[l[0]], next, l[1..]); }
  }

  lemma {:induction false} TrappedHasNoEnd<T>(s: Links<T>, inside: set<T>, n: nat)
    requires Trapped(s, inside)
    ensures !Ends(s.head, s.next, n)
    decreases n
  {
    if n > 0 && s.head.value in s.next {
      TrappedHasNoEnd(Links(s.next[s.head.value], s.next), inside, n - 1);
    }
  }

  lemma TrappedStays<T>(s: Links<T>, inside: set<T>, x: T)
    requires Trapped(s, inside)
    ensures Trapped(Prepare(s, x), inside + {x})
  {
  }

  lemma {:induction false} ListAt<T>(head: Option<T>, next: map<T, Option<T>>, l: seq<T>, k: nat)
    requires IsList(head, next, l) && k < |l|
    ensures head == Some(l[0]) && l[k] in next && (k + 1 < |l| ==> next[l[k]] == Some(l[k + 1]))
    decreases |l|
  {
    if k > 0 {
      ListAt(next[l[0]], next, l[1..], k - 1);
    }
  }

  /** Putting an object on the list a second time closes a loop. */
  lemma SecondTimeTraps<T>(s: Links<T>, l: seq<T>, k: nat)
    requires IsList(s.head, s.next, l) && k < |l| && l[k] !in l[..k]
    ensures Trapped(Prepare(s, l[k]), Members(l[..k + 1]))
  {
    var inside := Members(l[..k + 1]);
    var s' := Prepare(s, l[k]);
    ListAt(s.head, s.next, l, 0);
    assert l[..k + 1][0] == l[0] && l[..k + 1][k] == l[k];
    forall y | y in inside ensures y in s'.next && s'.next[y].Some? && s'.next[y].value in inside {
      if y != l[k] {
        var m :| 0 <= m < k + 1 && l[..k + 1][m] == y;
        ListAt(s.head, s.next, l, m);
        assert l[..k + 1][m + 1] == l[m + 1];
      }
    }
  }

  lemma FirstOccurrence<T>(l: seq<T>, x: T) returns (k: nat)
    requires x in l
    ensures k < |l| && l[k] == x && x !in l[..k]
  {
    k := 0;
    while l[k] != x
      invariant k < |l| && x !in l[..k] && x in l[k..]
      decreases |l| - k
    {
      assert l[k..] == [l[k]] + l[k + 1..];
      assert l[..k + 1] == l[..k] + [l[k]];
      k := k + 1;
    }
  }

  lemma PrepareNew<T>(s: Links<T>, l: seq<T>, x: T)
    requires IsList(s.head, s.next, l) && x !in l
    ensures IsList(Prepare(s, x).head, Prepare(s, x).next, [x] + l)
  {
    ListUnchanged(s.head, s.next, l, x, s.head);
    assert ([x] + l)[1..] == l;
  }

  lemma DistinctLast<T>(rest: seq<T>, x: T)
    ensures Distinct(rest + [x]) <==> Distinct(rest) && x !in rest
  {
    if Distinct(rest + [x]) {
      DistinctSplit(rest, x);
    }
  }

  /** The new list is the new objects, last first, and then the old list, when they are distinct;
      otherwise the links run in a loop, inside `trap`, and the old list is lost. */
  lemma {:induction false} PreparedList<T>(s: Links<T>, before: seq<T>, xs: seq<T>) returns (trap: set<T>)
    requires IsList(s.head, s.next, before) && forall x :: x in xs ==> x !in before
    ensures Distinct(xs) ==> IsList(PrepareAll(s, xs).head, PrepareAll(s, xs).next, Reverse(xs) + before)
    ensures !Distinct(xs) ==> Trapped(PrepareAll(s, xs), trap)
    decreases |xs|
  {
    if xs == [] {
      assert Reverse(xs) + before == before;
      return {};
    }
    var rest, x := xs[..|xs| - 1], xs[|xs| - 1];
    assert xs == rest + [x];
    trap := PreparedList(s, before, rest);
    DistinctLast(rest, x);
    trap := PrepareOne(PrepareAll(s, rest), before, rest, x, trap);
    assert Reverse(xs) + before == [x] + (Reverse(rest) + before);
  }

  lemma PrepareOne<T>(s: Links<T>, before: seq<T>, rest: seq<T>, x: T, trap: set<T>) returns (trap': set<T>)
    requires x !in before
    requires Distinct(rest) ==> IsList(s.head, s.next, Reverse(rest) + before)
    requires !Distinct(rest) ==> Trapped(s, trap)
    ensures Distinct(rest) && x !in rest ==> IsList(Prepare(s, x).head, Prepare(s, x).next, [x] + (Reverse(rest) + before))
    ensures !Distinct(rest) || x in rest ==> Trapped(Prepare(s, x), trap')
  {
    hide IsList, Trapped, Distinct, Prepare;
    ReverseMembers(rest);
    var l := Reverse(rest) + before;
    trap' := {};
    if !Distinct(rest) {
      TrappedStays(s, trap, x);
      trap' := trap + {x};
    } else if x in rest {
      var k := FirstOccurrence(l, x);
      SecondTimeTraps(s, l, k);
      trap' := Members(l[..k + 1]);
    } else {
      PrepareNew(s, l, x);
    }
  }

  /** The list stays a list exactly when no object is prepared twice. */
  lemma ListExactlyWhenDistinct<T>(s: Links<T>, before: seq<T>, xs: seq<T>)
    requires IsList(s.head, s.next, before) && forall x :: x in xs ==> x !in before
    ensures Distinct(xs) <==> HasList(PrepareAll(s, xs))
  {
    hide IsList, Trapped, Ends, PrepareAll, Distinct;
    var trap := PreparedList(s, before, xs);
    var s' := PrepareAll(s, xs);
    if Distinct(xs) {
      ListEnds(s'.head, s'.next, Reverse(xs) + before);
    } else {
      forall n: nat ensures !Ends(s'.head, s'.next, n) {
        TrappedHasNoEnd(s', trap, n);
      }
    }
  }

  // ----- The objects that `dlopen` prepares -----

  function Without<T>(xs: seq<T>, skip: set<T>): seq<T> {
    if xs == [] then []
    else Without(xs[..|xs| - 1], skip) + if xs[|xs| - 1] in skip then [] else [xs[|xs| - 1]]
  }

  /** Nothing if the call does not ask for lazy binding or the opened object has been relocated before;
      otherwise that object and the entries of its dependency list, except relocated ones, which the loop
      skips, and those that ask for immediate binding, from which `prepare_lazy` returns at once. */
  function ToPrepare(isLazy: bool, root: Dso, deps: seq<Dso>, relocated: set<Dso>, bindNow: set<Dso>): seq<Dso> {
    if !isLazy || root in relocated then [] else Without([root] + deps, relocated + bindNow)
  }

  ghost predicate DistinctApart<T>(xs: seq<T>, skip: set<T>) {
    forall i, j :: 0 <= i < j < |xs| && xs[i] !in skip ==> xs[i] != xs[j]
  }

  lemma {:induction false} WithoutMembers<T>(xs: seq<T>, skip: set<T>)
    ensures forall x :: x in Without(xs, skip) <==> x in xs && x !in skip
  {
    if xs != [] {
      WithoutMembers(xs[..|xs| - 1], skip);
      assert xs == xs[..|xs| - 1] + [xs[|xs| - 1]];
    }
  }

  lemma ApartLast<T>(rest: seq<T>, x: T, skip: set<T>)
    ensures DistinctApart(rest + [x], skip) <==> DistinctApart(rest, skip) && (x in skip || x !in rest)
  {
    var xs := rest + [x];
    assert forall i :: 0 <= i < |rest| ==> xs[i] == rest[i];
    if DistinctApart(xs, skip) {
      forall i, j | 0 <= i < j < |rest| && rest[i] !in skip ensures rest[i] != rest[j] {
        assert xs[i] != xs[j];
      }
      forall i | 0 <= i < |rest| ensures x in skip || rest[i] != x {
        assert xs[i] in skip || xs[i] != xs[|rest|];
      }
    }
  }

  /** What is left is distinct when only skipped objects are repeated. */
  lemma {:induction false} WithoutDistinct<T>(xs: seq<T>, skip: set<T>)
    ensures Distinct(Without(xs, skip)) <==> DistinctApart(xs, skip)
  {
    if xs != [] {
      var rest, x := xs[..|xs| - 1], xs[|xs| - 1];
      assert xs == rest + [x];
      WithoutDistinct(rest, skip);
      WithoutMembers(rest, skip);
      ApartLast(rest, x, skip);
      hide Distinct, DistinctApart;
      DistinctLast(Without(rest, skip), x);
      assert Without(rest, skip) + [] == Without(rest, skip);
    }
  }

  lemma ApartFront<T>(x: T, xs: seq<T>, skip: set<T>)
    ensures DistinctApart([x] + xs, skip) <==> DistinctApart(xs, skip) && (x in skip || x !in xs)
  {
    var whole := [x] + xs;
    assert forall i :: 0 <= i < |xs| ==> whole[i + 1] == xs[i];
    if DistinctApart(whole, skip) {
      forall i, j | 0 <= i < j < |xs| && xs[i] !in skip ensures xs[i] != xs[j] {
        assert whole[i + 1] != whole[j + 1];
      }
      forall i | 0 <= i < |xs| ensures x in skip || xs[i] != x {
        assert whole[0] in skip || whole[0] != whole[i + 1];
      }
    }
  }

  /** Nothing that the search appends repeats, so only direct dependencies can. */
  lemma ListedApart(g: Graph<Dso>, root: Dso, deps: seq<Dso>, dist: seq<nat>, skip: set<Dso>)
    requires BfsDeps.BfsList(g, root, deps, dist)
    ensures DistinctApart(deps, skip) <==> DistinctApart(g[root], skip)
  {
    hide ReachesPlus, IsDistance, Walk;
    var direct := g[root];
    assert forall i :: 0 <= i < |direct| ==> direct[i] == deps[i];
    if DistinctApart(deps, skip) {
      forall i, j | 0 <= i < j < |direct| && direct[i] !in skip ensures direct[i] != direct[j] {
        assert deps[i] != deps[j];
      }
    }
    if DistinctApart(direct, skip) {
      forall i, j | 0 <= i < j < |deps| && deps[i] !in skip ensures deps[i] != deps[j] {
        if j < |direct| { assert direct[i] != direct[j]; }
      }
    }
  }

  lemma ListedItself(g: Graph<Dso>, root: Dso, deps: seq<Dso>, dist: seq<nat>)
    requires BfsDeps.BfsList(g, root, deps, dist)
    ensures root in deps <==> ReachesPlus(g, root, root)
  {
  }

  /** Opening `root` prepares no object twice exactly when the call does not ask for lazy binding, the object has
      been relocated before, or no direct dependency to be prepared is listed twice, and the opened object asks
      for immediate binding or does not depend on itself. */
  lemma PreparedTwice(isLazy: bool, g: Graph<Dso>, root: Dso, deps: seq<Dso>, dist: seq<nat>,
                      relocated: set<Dso>, bindNow: set<Dso>)
    requires BfsDeps.BfsList(g, root, deps, dist)
    ensures Distinct(ToPrepare(isLazy, root, deps, relocated, bindNow)) <==>
      || !isLazy || root in relocated
      || (Distinct(Without(g[root], relocated + bindNow)) && (root in bindNow || !ReachesPlus(g, root, root)))
  {
    assert root in g;
    hide BfsDeps.BfsList, ReachesPlus, Distinct, DistinctApart;
    var skip := relocated + bindNow;
    DistinctNone();
    WithoutDistinct([root] + deps, skip);
    WithoutDistinct(g[root], skip);
    ApartFront(root, deps, skip);
    ListedApart(g, root, deps, dist, skip);
    ListedItself(g, root, deps, dist);
  }

  lemma DistinctNone()
    ensures Distinct<Dso>([])
  {
  }

  /** So the list of deferred objects survives the call exactly in those cases; the objects on it have
      been relocated by earlier calls. */
  lemma ListSurvivesExactly(isLazy: bool, g: Graph<Dso>, root: Dso, deps: seq<Dso>, dist: seq<nat>,
                            relocated: set<Dso>, bindNow: set<Dso>, s: Links<Dso>, before: seq<Dso>)
    requires BfsDeps.BfsList(g, root, deps, dist) && root in g
    requires IsList(s.head, s.next, before) && Members(before) <= relocated
    ensures HasList(PrepareAll(s, ToPrepare(isLazy, root, deps, relocated, bindNow))) <==>
      || !isLazy || root in relocated
      || (Distinct(Without(g[root], relocated + bindNow)) && (root in bindNow || !ReachesPlus(g, root, root)))
  {
    hide BfsDeps.BfsList, ReachesPlus, Distinct, IsList, HasList, PrepareAll;
    var xs := ToPrepare(isLazy, root, deps, relocated, bindNow);
    WithoutMembers([root] + deps, relocated + bindNow);
    forall x | x in xs ensures x !in before {
      assert x !in Members(before);
    }
    ListExactlyWhenDistinct(s, before, xs);
    PreparedTwice(isLazy, g, root, deps, dist, relocated, bindNow);
  }

  lemma CycleListed(a: Dso, b: Dso)
    requires a != b
    ensures BfsDeps.BfsList(map[a := [b], b := [a]], a, [b, a], [1, 2])
  {
    var g: Graph<Dso> := map[a := [b], b := [a]];
    OneSuccessor(g, a, b);
    OneSuccessor(g, b, a);
    assert Walk(g, a, 0) == {a};
    assert Walk(g, a, 1) == {b};
    assert Walk(g, a, 2) == {a};
    assert Members([b, a]) == {a, b} by { assert [b, a][0] == b && [b, a][1] == a; }
    forall n: nat | n >= 1 ensures Walk(g, a, n) <= Members([b, a]) {
      ClosedHoldsWalk(g, {a, b}, a, n);
    }
    hide Walk, Members, Successors;
    assert IsDistance(g, a, b, 1) && IsDistance(g, a, a, 2);
    assert ReachesPlus(g, a, b) && ReachesPlus(g, a, a);
    assert BfsDeps.NeededAt(g, [b, a], a, 0, 0) && BfsDeps.HasNeeder(g, [b, a], 1);
    hide IsDistance, ReachesPlus, BfsDeps.NeededAt;
  }

  lemma OneSuccessor(g: Graph<Dso>, x: Dso, y: Dso)
    requires x in g && g[x] == [y]
    ensures Successors(g, {x}) == {y}
  {
    assert y in g[x];
  }

  /** The list that holds just `c`. */
  function Only(c: Dso): Links<Dso> {
    var none: Links<Dso> := Links(None, map[]);
    Prepare(none, c)
  }

  /** Opening `a` lazily, which needs `b`, which needs `a` again: the list that held `c` is lost. */
  lemma CycleLosesList(a: Dso, b: Dso, c: Dso)
    requires a != b && a != c && b != c
    ensures BfsDeps.BfsList(map[a := [b], b := [a]], a, [b, a], [1, 2])
    ensures HasList(Only(c)) && !HasList(PrepareAll(Only(c), ToPrepare(true, a, [b, a], {c}, {})))
  {
    var g: Graph<Dso> := map[a := [b], b := [a]];
    var s := Only(c);
    CycleListed(a, b);
    assert IsList(s.head, s.next, [c]) by { assert [c][1..] == []; }
    ListEnds(s.head, s.next, [c]);
    ListedItself(g, a, [b, a], [1, 2]);
    assert a in [b, a] by { assert [b, a][1] == a; }
    hide BfsDeps.BfsList, ReachesPlus, IsList, Ends, PrepareAll, Distinct, Without;
    ListSurvivesExactly(true, g, a, [b, a], [1, 2], {c}, {}, s, [c]);
  }
}
