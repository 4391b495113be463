/** `extend_bfs_deps`: closes an object's dependency list in place, breadth first,
    while iterating over the list it extends. */
module BfsDeps {
  import opened Graphs
  import opened Sequences
  import opened Dsos

  /** The direct dependencies come first, nothing is appended twice, and entries
      stand in the order of their distances `dist`. */
  ghost predicate Listed(g: Graph<Dso>, p: Dso, list: seq<Dso>, dist: seq<nat>) {
    && p in g && g[p] <= list && |dist| == |list|
    && (forall i, j :: 0 <= i < j < |list| && j >= |g[p]| ==> list[i] != list[j])
    && (forall i :: 0 <= i < |list| ==> IsDistance(g, p, list[i], dist[i]))
    && (forall i, j :: 0 <= i < j < |list| ==> dist[i] <= dist[j])
  }

  /** Entry `k` is the first that needs `y`, and `y` is first its dependency `m`. */
  ghost predicate NeededAt(g: Graph<Dso>, list: seq<Dso>, y: Dso, k: nat, m: nat) {
    && k < |list| && list[k] in g && m < |g[list[k]]| && g[list[k]][m] == y
    && (forall i :: 0 <= i < k && list[i] in g ==> y !in g[list[i]])
    && (forall i :: 0 <= i < m ==> g[list[k]][i] != y)
  }

  /** An earlier entry needs entry `i`. */
  ghost predicate HasNeeder(g: Graph<Dso>, list: seq<Dso>, i: nat)
    requires i < |list|
  {
    exists k: nat, m: nat :: k < i && NeededAt(g, list, list[i], k, m)
  }

  predicate Earlier(k: nat, m: nat, k': nat, m': nat) {
    k < k' || (k == k' && m < m')
  }

  /** `x` is first needed before `y` is: by an earlier entry, or by the same one that names it first. */
  ghost predicate NeededBefore(g: Graph<Dso>, list: seq<Dso>, x: Dso, y: Dso) {
    forall k: nat, m: nat, k': nat, m': nat :: NeededAt(g, list, x, k, m) && NeededAt(g, list, y, k', m') ==> Earlier(k, m, k', m')
  }

  /** What is appended stands in the order in which it is first needed. */
  ghost predicate InOrder(g: Graph<Dso>, p: Dso, list: seq<Dso>)
    requires p in g
  {
    && (forall i :: |g[p]| <= i < |list| ==> HasNeeder(g, list, i))
    && (forall i, j :: |g[p]| <= i < j < |list| ==> NeededBefore(g, list, list[i], list[j]))
  }

  /** A finished list also holds exactly what one or more edges reach, in the order in which it is first needed. */
  ghost predicate BfsList(g: Graph<Dso>, p: Dso, list: seq<Dso>, dist: seq<nat>) {
    && Listed(g, p, list, dist) && InOrder(g, p, list)
    && (forall i :: 0 <= i < |list| ==> ReachesPlus(g, p, list[i]))
    && (forall n: nat :: n >= 1 ==> Walk(g, p, n) <= Members(list))
  }

  // ----- Only one list is in this order -----

  /** Where an entry is first needed depends only on the entries before it. */
  lemma NeededSame(g: Graph<Dso>, list: seq<Dso>, other: seq<Dso>, n: nat, y: Dso, k: nat, m: nat)
    requires n <= |list| && n <= |other| && list[..n] == other[..n] && k < n && NeededAt(g, list, y, k, m)
    ensures NeededAt(g, other, y, k, m)
  {
    assert forall i :: 0 <= i < n ==> list[i] == list[..n][i] && other[i] == other[..n][i];
  }

  /** A node that `list` has next and `other` has not yet is on `other` further on. */
  lemma Later(g: Graph<Dso>, p: Dso, list: seq<Dso>, dist: seq<nat>, other: seq<Dso>, dist': seq<nat>, n: nat) returns (j: nat)
    requires BfsList(g, p, list, dist) && BfsList(g, p, other, dist')
    requires |g[p]| <= n < |list| && n <= |other| && list[..n] == other[..n]
    ensures n <= j < |other| && other[j] == list[n]
  {
    hide IsDistance, InOrder;
    assert ReachesPlus(g, p, list[n]);
    assert list[n] in Members(other);
    assert forall k :: 0 <= k < n ==> other[k] == other[..n][k] == list[k];
    j :| 0 <= j < |other| && other[j] == list[n];
  }

  /** Both lists continue with the same entry. */
  lemma SameNext(g: Graph<Dso>, p: Dso, list: seq<Dso>, dist: seq<nat>, other: seq<Dso>, dist': seq<nat>, n: nat)
    requires BfsList(g, p, list, dist) && BfsList(g, p, other, dist')
    requires |g[p]| <= n < |list| && n < |other| && list[..n] == other[..n]
    ensures list[n] == other[n]
  {
    hide BfsList, NeededAt;
    var j := Later(g, p, list, dist, other, dist', n);
    var i := Later(g, p, other, dist', list, dist, n);
    var k, m := FirstNeed(g, p, list, dist, n);
    var k', m' := FirstNeed(g, p, other, dist', n);
    NeededSame(g, list, other, n, list[n], k, m);
    NeededSame(g, other, list, n, other[n], k', m');
    if i > n && j > n {
      NeedsBefore(g, p, list, dist, n, i, k, m, k', m');
      NeedsBefore(g, p, other, dist', n, j, k', m', k, m);
    }
  }

  lemma FirstNeed(g: Graph<Dso>, p: Dso, list: seq<Dso>, dist: seq<nat>, n: nat) returns (k: nat, m: nat)
    requires BfsList(g, p, list, dist) && |g[p]| <= n < |list|
    ensures k < n && NeededAt(g, list, list[n], k, m)
  {
    hide Listed, NeededAt, NeededBefore, Walk, ReachesPlus;
    assert HasNeeder(g, list, n);
    k, m :| k < n && NeededAt(g, list, list[n], k, m);
  }

  lemma NeedsBefore(g: Graph<Dso>, p: Dso, list: seq<Dso>, dist: seq<nat>, i: nat, j: nat, k: nat, m: nat, k': nat, m': nat)
    requires BfsList(g, p, list, dist) && |g[p]| <= i < j < |list|
    requires NeededAt(g, list, list[i], k, m) && NeededAt(g, list, list[j], k', m')
    ensures Earlier(k, m, k', m')
  {
    hide Listed, NeededAt, HasNeeder, Walk, ReachesPlus;
    assert NeededBefore(g, list, list[i], list[j]);
  }

  lemma RootListed(g: Graph<Dso>, p: Dso, list: seq<Dso>, dist: seq<nat>)
    requires BfsList(g, p, list, dist)
    ensures p in g && g[p] <= list
  {
    hide InOrder, IsDistance, Walk, ReachesPlus;
  }

  /** The list is determined by graph and root. */
  lemma ListUnique(g: Graph<Dso>, p: Dso, list: seq<Dso>, dist: seq<nat>, other: seq<Dso>, dist': seq<nat>)
    requires BfsList(g, p, list, dist) && BfsList(g, p, other, dist')
    ensures list == other
  {
    if |list| <= |other| {
      SamePrefix(g, p, list, dist, other, dist', |list|);
      if |list| < |other| { var i := Later(g, p, other, dist', list, dist, |list|); }
    } else {
      SamePrefix(g, p, list, dist, other, dist', |other|);
      var j := Later(g, p, list, dist, other, dist', |other|);
    }
  }

  lemma {:induction false} SamePrefix(g: Graph<Dso>, p: Dso, list: seq<Dso>, dist: seq<nat>, other: seq<Dso>, dist': seq<nat>, n: nat)
    requires BfsList(g, p, list, dist) && BfsList(g, p, other, dist') && n <= |list| && n <= |other|
    ensures list[..n] == other[..n]
  {
    hide BfsList;
    RootListed(g, p, list, dist);
    RootListed(g, p, other, dist');
    if n > |g[p]| {
      SamePrefix(g, p, list, dist, other, dist', n - 1);
      SameNext(g, p, list, dist, other, dist', n - 1);
      assert list[..n] == list[..n - 1] + [list[n - 1]] && other[..n] == other[..n - 1] + [other[n - 1]];
    } else {
      assert list[..n] == g[p][..n] == other[..n];
    }
  }

  // ----- The search on values -----

  /** Everything nearer than entry `i` precedes it, and nothing listed is more than one edge further. */
  ghost predicate Frontier(g: Graph<Dso>, p: Dso, list: seq<Dso>, dist: seq<nat>, i: nat)
    requires |dist| == |list|
  {
    i < |list| ==>
      && (forall k :: 0 <= k < |list| ==> dist[k] <= dist[i] + 1)
      && (forall n: nat :: 1 <= n < dist[i] ==> Walk(g, p, n) <= Members(list[..i]))
  }

  /** The dependencies of the first `i` entries are listed. */
  ghost predicate Expanded(g: Graph<Dso>, list: seq<Dso>, i: nat) {
    forall k, y :: 0 <= k < i && k < |list| && list[k] in g && y in g[list[k]] ==> y in list
  }

  /** Everything appended is first needed before the search came to dependency `j` of entry `i`. */
  ghost predicate NeededBy(g: Graph<Dso>, p: Dso, list: seq<Dso>, i: nat, j: nat)
    requires p in g
  {
    forall n, k: nat, m: nat :: |g[p]| <= n < |list| && NeededAt(g, list, list[n], k, m) ==> Earlier(k, m, i, j)
  }

  ghost predicate Ordered(g: Graph<Dso>, p: Dso, list: seq<Dso>, i: nat, j: nat) {
    p in g && InOrder(g, p, list) && NeededBy(g, p, list, i, j)
  }

  ghost predicate Search(g: Graph<Dso>, p: Dso, list: seq<Dso>, dist: seq<nat>, i: nat) {
    i <= |list| && Listed(g, p, list, dist) && Frontier(g, p, list, dist, i) && Expanded(g, list, i)
  }

  /** Appending to a list changes where nothing on it is first needed. */
  lemma NeededStays(g: Graph<Dso>, list: seq<Dso>, more: seq<Dso>, y: Dso, k: nat, m: nat)
    requires k < |list|
    ensures NeededAt(g, list + more, y, k, m) <==> NeededAt(g, list, y, k, m)
  {
    assert forall i :: 0 <= i < |list| ==> (list + more)[i] == list[i];
  }

  lemma NeededOnce(g: Graph<Dso>, list: seq<Dso>, y: Dso, k: nat, m: nat, k': nat, m': nat)
    requires NeededAt(g, list, y, k, m) && NeededAt(g, list, y, k', m')
    ensures k == k' && m == m'
  {
    assert g[list[k]][m] in g[list[k]] && g[list[k']][m'] in g[list[k']];
  }

  /** Dependency `j` of entry `i`, not listed yet, is first needed there. */
  lemma NeededHere(g: Graph<Dso>, list: seq<Dso>, i: nat, j: nat)
    requires i < |list| && list[i] in g && j < |g[list[i]]| && Expanded(g, list, i) && g[list[i]][j] !in list
    requires forall k :: 0 <= k < j ==> g[list[i]][k] in list
    ensures NeededAt(g, list, g[list[i]][j], i, j)
  {
  }

  /** An entry of the longer list is first needed at one place, which the shorter list has. */
  lemma StillNeeded(g: Graph<Dso>, p: Dso, list: seq<Dso>, y: Dso, n: nat, k: nat, m: nat)
    requires p in g && InOrder(g, p, list) && |g[p]| <= n < |list| && NeededAt(g, list + [y], list[n], k, m)
    ensures NeededAt(g, list, list[n], k, m)
  {
    hide NeededAt, NeededBefore;
    assert HasNeeder(g, list, n);
    var k0: nat, m0: nat :| k0 < n && NeededAt(g, list, list[n], k0, m0);
    NeededStays(g, list, [y], list[n], k0, m0);
    NeededOnce(g, list + [y], list[n], k0, m0, k, m);
  }

  /** On the longer list everything is first needed up to here, and what was listed before, before here. */
  lemma NeededByThen(g: Graph<Dso>, p: Dso, list: seq<Dso>, i: nat, j: nat, n: nat, k: nat, m: nat)
    requires Ordered(g, p, list, i, j) && i < |list| && list[i] in g && j < |g[list[i]]| && NeededAt(g, list, g[list[i]][j], i, j)
    requires |g[p]| <= n <= |list| && var longer := list + [g[list[i]][j]]; NeededAt(g, longer, longer[n], k, m)
    ensures Earlier(k, m, i, j + 1) && (n < |list| ==> Earlier(k, m, i, j))
  {
    hide NeededAt, InOrder;
    var y := g[list[i]][j];
    if n < |list| {
      StillNeeded(g, p, list, y, n, k, m);
      assert Earlier(k, m, i, j);
    } else {
      NeededStays(g, list, [y], y, i, j);
      NeededOnce(g, list + [y], y, i, j, k, m);
    }
  }

  lemma OrderedAppend(g: Graph<Dso>, p: Dso, list: seq<Dso>, i: nat, j: nat)
    requires Ordered(g, p, list, i, j) && i < |list| && list[i] in g && j < |g[list[i]]|
    requires |g[p]| <= |list| && Expanded(g, list, i) && g[list[i]][j] !in list && forall k :: 0 <= k < j ==> g[list[i]][k] in list
    ensures Ordered(g, p, list + [g[list[i]][j]], i, j + 1)
  {
    var y := g[list[i]][j];
    var longer := list + [y];
    NeededHere(g, list, i, j);
    NeededStays(g, list, [y], y, i, j);
    hide NeededAt, Expanded;
    forall n | |g[p]| <= n < |longer| ensures HasNeeder(g, longer, n) {
      if n < |list| {
        assert HasNeeder(g, list, n);
        var k: nat, m: nat :| k < n && NeededAt(g, list, list[n], k, m);
        NeededStays(g, list, [y], list[n], k, m);
        assert NeededAt(g, longer, longer[n], k, m);
      } else {
        assert longer[n] == y && NeededAt(g, longer, longer[n], i, j);
      }
    }
    forall n, k: nat, m: nat | |g[p]| <= n < |longer| && NeededAt(g, longer, longer[n], k, m) ensures Earlier(k, m, i, j + 1) {
      NeededByThen(g, p, list, i, j, n, k, m);
    }
    forall a, b | |g[p]| <= a < b < |longer| ensures NeededBefore(g, longer, longer[a], longer[b]) {
      forall k: nat, m: nat, k': nat, m': nat | NeededAt(g, longer, longer[a], k, m) && NeededAt(g, longer, longer[b], k', m')
        ensures Earlier(k, m, k', m')
      {
        NeededByThen(g, p, list, i, j, a, k, m);
        StillNeeded(g, p, list, y, a, k, m);
        if b < |list| {
          StillNeeded(g, p, list, y, b, k', m');
          assert NeededBefore(g, list, list[a], list[b]);
        } else {
          NeededOnce(g, longer, y, i, j, k', m');
        }
      }
    }
  }

  lemma OrderedAdvance(g: Graph<Dso>, p: Dso, list: seq<Dso>, i: nat, j: nat, i': nat, j': nat)
    requires Ordered(g, p, list, i, j) && (Earlier(i, j, i', j') || (i == i' && j == j'))
    ensures Ordered(g, p, list, i', j')
  {
    hide InOrder, NeededAt;
    forall n, k: nat, m: nat | |g[p]| <= n < |list| && NeededAt(g, list, list[n], k, m) ensures Earlier(k, m, i', j') {
      assert Earlier(k, m, i, j);
    }
  }

  lemma OrderedStart(g: Graph<Dso>, p: Dso)
    requires p in g
    ensures Ordered(g, p, g[p], 0, 0)
  {
  }

  lemma SearchStart(g: Graph<Dso>, p: Dso) returns (dist: seq<nat>)
    requires p in g
    ensures Search(g, p, g[p], dist, 0)
  {
    dist := seq(|g[p]|, _ => 1);
    forall i | 0 <= i < |g[p]| ensures IsDistance(g, p, g[p][i], dist[i]) {
      assert p in Walk(g, p, 0) && g[p][i] in g[p];
      assert g[p][i] in Walk(g, p, 1);
    }
  }

  /** A node not listed yet whose predecessor is entry `i` is exactly one edge further. */
  lemma NextDistance(g: Graph<Dso>, p: Dso, list: seq<Dso>, dist: seq<nat>, i: nat, y: Dso)
    requires Search(g, p, list, dist, i) && i < |list| && list[i] in g && y in g[list[i]] && y !in list
    ensures IsDistance(g, p, y, dist[i] + 1)
  {
  }

  /** Every node on a walk no longer than entry `i`'s distance is listed. */
  lemma Nearer(g: Graph<Dso>, p: Dso, list: seq<Dso>, dist: seq<nat>, i: nat, y: Dso, m: nat)
    requires Search(g, p, list, dist, i) && i < |list| && 1 <= m <= dist[i] && y in Walk(g, p, m)
    ensures y in list
  {
  }

  lemma SearchAppend(g: Graph<Dso>, p: Dso, list: seq<Dso>, dist: seq<nat>, i: nat, y: Dso)
    requires Search(g, p, list, dist, i) && i < |list| && list[i] in g && y in g[list[i]] && y !in list
    ensures Search(g, p, list + [y], dist + [dist[i] + 1], i)
  {
    NextDistance(g, p, list, dist, i, y);
    hide IsDistance;
    assert (list + [y])[..i] == list[..i];
  }

  lemma SearchAdvance(g: Graph<Dso>, p: Dso, list: seq<Dso>, dist: seq<nat>, i: nat)
    requires Search(g, p, list, dist, i) && i < |list|
    requires list[i] in g ==> forall y :: y in g[list[i]] ==> y in list
    ensures Search(g, p, list, dist, i + 1)
  {
    if i + 1 < |list| {
      forall n: nat | 1 <= n < dist[i + 1] ensures Walk(g, p, n) <= Members(list[..i + 1]) {
        assert n <= dist[i];
        forall x | x in Walk(g, p, n) ensures x in Members(list[..i + 1]) {
          Nearer(g, p, list, dist, i, x, n);
          var k :| 0 <= k < |list| && list[k] == x;
          assert IsDistance(g, p, list[k], dist[k]);
          assert k < i + 1;
        }
      }
    }
  }

  lemma SearchEnd(g: Graph<Dso>, p: Dso, list: seq<Dso>, dist: seq<nat>)
    requires Search(g, p, list, dist, |list|) && Ordered(g, p, list, |list|, 0)
    ensures BfsList(g, p, list, dist)
  {
    hide InOrder, NeededBy;
    assert Closed(g, Members(list)) by {
      forall x, y | x in Members(list) && x in g && y in g[x] ensures y in Members(list) {
        var k :| 0 <= k < |list| && list[k] == x;
      }
    }
    forall n: nat | n >= 1 ensures Walk(g, p, n) <= Members(list) {
      ClosedHoldsProperWalk(g, Members(list), p, n - 1);
    }
    forall i | 0 <= i < |list| ensures ReachesPlus(g, p, list[i]) {
      assert IsDistance(g, p, list[i], dist[i]);
    }
  }

  // ----- The room needed for one entry's dependencies -----

  /** How many entries of `s` are outside `seen`, counting repetitions. */
  ghost function Unseen(s: seq<Dso>, seen: set<Dso>): nat {
    if s == [] then 0 else (if s[0] in seen then 0 else 1) + Unseen(s[1..], seen)
  }

  lemma {:induction false} UnseenShrinks(s: seq<Dso>, seen: set<Dso>, y: Dso)
    ensures Unseen(s, seen + {y}) <= Unseen(s, seen)
  {
    if s != [] {
      UnseenShrinks(s[1..], seen, y);
    }
  }

  // ----- The code -----

  /** Marks say what is listed; the graph is unchanged while the list grows. */
  ghost predicate Marked(g: Graph<Dso>, p: Dso, list: seq<Dso>)
    reads g.Keys`deps, g.Keys`ndepsDirect, g.Keys`mark
  {
    && p in g && p.deps == list
    && (forall d :: d in g.Keys ==> d.ndepsDirect <= |d.deps| && g[d] == d.deps[..d.ndepsDirect])
    && (forall d :: d in g.Keys ==> (d.mark <==> d in list))
    && (forall d :: d in list ==> d in g)
    && Closed(g, g.Keys)
  }

  method MarkDirect(p: Dso, ghost g: Graph<Dso>)
    requires Loaded(g.Keys) && g == Direct(g.Keys) && p in g && |p.deps| == p.ndepsDirect
    requires forall d :: d in g.Keys ==> !d.mark
    modifies g.Keys`mark
    ensures Marked(g, p, g[p])
  {
    assert p.deps[..p.ndepsDirect] == p.deps;
    for i := 0 to |p.deps|
      invariant forall d :: d in g.Keys ==> (d.mark <==> d in p.deps[..i])
    {
      assert p.deps[..i + 1] == p.deps[..i] + [p.deps[i]];
      p.deps[i].mark := true;
    }
    assert p.deps[..|p.deps|] == p.deps;
  }

  method CountUnlisted(dep: Dso, ghost g: Graph<Dso>, ghost p: Dso, ghost list: seq<Dso>) returns (cnt: nat)
    requires Marked(g, p, list) && dep in g
    ensures cnt == Unseen(g[dep], Members(list))
  {
    cnt := 0;
    for j := dep.ndepsDirect downto 0
      invariant cnt == Unseen(g[dep][j..], Members(list))
    {
      assert g[dep][j..][1..] == g[dep][j + 1..];
      if !dep.deps[j].mark { cnt := cnt + 1; }
    }
  }

  method Append(p: Dso, y: Dso, ghost g: Graph<Dso>, ghost list: seq<Dso>)
    requires Marked(g, p, list) && y in g && g[p] <= list
    modifies p`deps, y`mark
    ensures Marked(g, p, list + [y])
  {
    y.mark := true;
    p.deps := p.deps + [y];
    assert p.deps[..p.ndepsDirect] == old(p.deps[..p.ndepsDirect]);
  }

  lemma MarkedAt(g: Graph<Dso>, p: Dso, list: seq<Dso>, d: Dso, j: nat)
    requires Marked(g, p, list) && d in g && j < |g[d]|
    ensures d.ndepsDirect == |g[d]| <= |d.deps| && d.deps[j] == g[d][j] && d.deps[j] in g
    ensures d.deps[j].mark <==> d.deps[j] in list
  {
  }

  lemma SearchAt(g: Graph<Dso>, p: Dso, list: seq<Dso>, dist: seq<nat>, i: nat)
    requires Search(g, p, list, dist, i)
    ensures p in g && g[p] <= list && |dist| == |list|
  {
  }

  lemma SearchExpanded(g: Graph<Dso>, p: Dso, list: seq<Dso>, dist: seq<nat>, i: nat)
    requires Search(g, p, list, dist, i)
    ensures Expanded(g, list, i) && p in g && |g[p]| <= |list|
  {
  }

  /** Appends `dep`'s unlisted dependencies, in their order, within the room counted for them. */
  method Expand(p: Dso, dep: Dso, i: nat, ghost g: Graph<Dso>, ghost list0: seq<Dso>, ghost dist0: seq<nat>)
    returns (ghost list: seq<Dso>, ghost dist: seq<nat>)
    requires Search(g, p, list0, dist0, i) && Ordered(g, p, list0, i, 0) && i < |list0| && list0[i] == dep && dep in g
    requires Marked(g, p, list0) && dep.ndepsDirect == |g[dep]|
    modifies p`deps, g.Keys`mark
    ensures Search(g, p, list, dist, i + 1) && Ordered(g, p, list, i + 1, 0) && Marked(g, p, list)
  {
    hide Search, Marked, Ordered;
    var cnt := CountUnlisted(dep, g, p, list0);
    var room := |list0| + cnt;
    list, dist := list0, dist0;
    for j := 0 to dep.ndepsDirect
      invariant Search(g, p, list, dist, i) && Marked(g, p, list)
      invariant i < |list| && list[i] == dep && Ordered(g, p, list, i, j)
      invariant forall k :: 0 <= k < j ==> g[dep][k] in list
      invariant |list| + Unseen(g[dep][j..], Members(list)) <= room
    {
      MarkedAt(g, p, list, dep, j);
      SearchAt(g, p, list, dist, i);
      assert g[dep][j..][1..] == g[dep][j + 1..];
      var y := dep.deps[j];
      if !y.mark {
        SearchAppend(g, p, list, dist, i, y);
        SearchExpanded(g, p, list, dist, i);
        OrderedAppend(g, p, list, i, j);
        UnseenShrinks(g[dep][j + 1..], Members(list), y);
        assert Members(list + [y]) == Members(list) + {y};
        Append(p, y, g, list);
        list, dist := list + [y], dist + [dist[i] + 1];
        assert |list| <= room;
      } else {
        OrderedAdvance(g, p, list, i, j, i, j + 1);
      }
    }
    SearchAdvance(g, p, list, dist, i);
    OrderedAdvance(g, p, list, i, dep.ndepsDirect, i + 1, 0);
  }

  /** The list stops growing: what is appended is new each time. */
  lemma SearchBound(g: Graph<Dso>, p: Dso, list: seq<Dso>, dist: seq<nat>, i: nat)
    requires Search(g, p, list, dist, i) && forall d :: d in list ==> d in g
    ensures |list| <= |g[p]| + |g.Keys| && i <= |list|
  {
    var tail := list[|g[p]|..];
    assert forall d :: d in tail ==> d in list;
    DistinctSize(tail);
    SubsetSize(Members(tail), g.Keys);
  }

  lemma MarkedList(g: Graph<Dso>, p: Dso, list: seq<Dso>)
    requires Marked(g, p, list)
    ensures p.deps == list && p.ndepsDirect == |g[p]|
    ensures forall d :: d in list ==> d in g && d.ndepsDirect == |g[d]|
  {
  }

  lemma MarkedGraph(g: Graph<Dso>, p: Dso, list: seq<Dso>)
    requires Marked(g, p, list)
    ensures Loaded(g.Keys) && Direct(g.Keys) == g
  {
  }

  method ClearAll(list: seq<Dso>)
    modifies Members(list)`mark
    ensures forall d :: d in Members(list) ==> !d.mark
  {
    for i := 0 to |list|
      invariant forall k :: 0 <= k < i ==> !list[k].mark
    {
      list[i].mark := false;
    }
  }

  /** The walk over the list that it makes longer. */
  method Grow(p: Dso, ghost g: Graph<Dso>) returns (ghost list: seq<Dso>, ghost dist: seq<nat>)
    requires p in g && Marked(g, p, g[p])
    modifies p`deps, g.Keys`mark
    ensures Search(g, p, list, dist, |list|) && Ordered(g, p, list, |list|, 0) && Marked(g, p, list)
  {
    hide Search, Marked, Ordered;
    list := g[p];
    dist := SearchStart(g, p);
    OrderedStart(g, p);
    MarkedList(g, p, list);
    var i := 0;
    while i < |p.deps|
      invariant Search(g, p, list, dist, i) && Ordered(g, p, list, i, 0) && Marked(g, p, list) && p.deps == list
      decreases |g[p]| + |g.Keys| - i
    {
      MarkedList(g, p, list);
      SearchBound(g, p, list, dist, i);
      list, dist := Expand(p, p.deps[i], i, g, list, dist);
      MarkedList(g, p, list);
      i := i + 1;
    }
    MarkedList(g, p, list);
    SearchBound(g, p, list, dist, i);
  }

  lemma PresentIn(p: Dso, dsos: seq<Dso>, g: Graph<Dso>)
    requires p in dsos && g.Keys == Members(dsos)
    ensures p in g
  {
  }

  /** `extend_bfs_deps` on an object whose list is not built yet. */
  method Close(p: Dso, dsos: seq<Dso>, ghost g: Graph<Dso>) returns (ghost dist: seq<nat>)
    requires p in dsos && g.Keys == Members(dsos) && Loaded(g.Keys) && g == Direct(g.Keys)
    requires |p.deps| == p.ndepsDirect
    requires forall d :: d in g.Keys ==> !d.mark
    modifies p`deps, p`bfsBuilt, g.Keys`mark
    ensures p.bfsBuilt && BfsList(g, p, p.deps, dist)
    ensures forall d :: d in g.Keys ==> !d.mark
    ensures Loaded(g.Keys) && Direct(g.Keys) == g
  {
    hide Search, Marked, Ordered, BfsList, Loaded, Direct, Members;
    assert p in g by { PresentIn(p, dsos, g); }
    MarkDirect(p, g);
    ghost var list;
    list, dist := Grow(p, g);
    MarkedList(g, p, list);
    SearchEnd(g, p, list, dist);
    MarkedGraph(g, p, list);
    p.bfsBuilt := true;
    ClearAll(dsos);
  }

  /** `extend_bfs_deps`. A list that is already built is left alone. */
  method ExtendBfsDeps(p: Dso, dsos: seq<Dso>, ghost g: Graph<Dso>) returns (ghost dist: seq<nat>)
    requires p in dsos && g.Keys == Members(dsos) && Loaded(g.Keys) && g == Direct(g.Keys)
    requires if p.bfsBuilt then exists dist :: BfsList(g, p, p.deps, dist) else |p.deps| == p.ndepsDirect
    requires forall d :: d in g.Keys ==> !d.mark
    modifies p`deps, p`bfsBuilt, g.Keys`mark
    ensures p.bfsBuilt && BfsList(g, p, p.deps, dist)
    ensures old(p.bfsBuilt) ==> p.deps == old(p.deps)
    ensures forall d :: d in g.Keys ==> !d.mark
    ensures Loaded(g.Keys) && Direct(g.Keys) == g
  {
    hide BfsList, Loaded, Direct;
    if p.bfsBuilt {
      dist :| BfsList(g, p, p.deps, dist);
      return;
    }
    dist := Close(p, dsos, g);
  }
}
