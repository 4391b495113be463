/** Depth-first search by recursion: a node comes after what it leads to, in the order its edges are listed. */
module PostOrder {
  import opened Graphs
  import opened Sequences

  /** What a search has found, in order, and every node it has seen. */
  datatype Found<T> = Found(order: seq<T>, seen: set<T>)

  /** The edges of `x` from number `i`, and then `x` itself. */
  ghost function Visit<T>(g: Graph<T>, x: T, i: nat, seen: set<T>): (r: Found<T>)
    requires Closed(g, g.Keys) && x in g && seen <= g.Keys
    ensures seen <= r.seen <= g.Keys
    decreases |g.Keys - seen|, if i < |g[x]| then |g[x]| - i else 0
  {
    if i >= |g[x]| then Found([x], seen)
    else
      var y := g[x][i];
      if y in seen then Visit(g, x, i + 1, seen)
      else
        Fewer(g.Keys, seen, seen + {y}, y);
        var inner := Visit(g, y, 0, seen + {y});
        Fewer(g.Keys, seen, inner.seen, y);
        var outer := Visit(g, x, i + 1, inner.seen);
        Found(inner.order + outer.order, outer.seen)
  }

  lemma Fewer<T>(all: set<T>, seen: set<T>, more: set<T>, y: T)
    requires seen <= more && y in more && y !in seen && y in all
    ensures |all - more| < |all - seen|
  {
    SubsetSize(all - more + {y}, all - seen);
  }

  /** The nodes that `root` leads to. */
  ghost function From<T>(g: Graph<T>, root: T): seq<T>
    requires Closed(g, g.Keys) && root in g
  {
    Visit(g, root, 0, {root}).order
  }

  lemma VisitPast<T>(g: Graph<T>, x: T, i: nat, seen: set<T>)
    requires Closed(g, g.Keys) && x in g && seen <= g.Keys && i < |g[x]| && g[x][i] in seen
    ensures Visit(g, x, i, seen) == Visit(g, x, i + 1, seen)
  {
  }

  lemma VisitInto<T>(g: Graph<T>, x: T, i: nat, seen: set<T>)
    requires Closed(g, g.Keys) && x in g && seen <= g.Keys && i < |g[x]| && g[x][i] !in seen && g[x][i] in g
    ensures var inner := Visit(g, g[x][i], 0, seen + {g[x][i]});
            var outer := Visit(g, x, i, inner.seen);
            Visit(g, x, i, seen) == Found(inner.order + outer.order, outer.seen)
  {
    var y := g[x][i];
    var inner := Visit(g, y, 0, seen + {y});
    VisitPast(g, x, i, inner.seen);
  }

  /** Inside a closed part of the graph the search does not depend on the rest. */
  lemma {:induction false} RestrictVisit<T>(g: Graph<T>, h: Graph<T>, x: T, i: nat, seen: set<T>)
    requires h.Keys <= g.Keys && (forall y :: y in h ==> h[y] == g[y]) && Closed(g, g.Keys) && Closed(h, h.Keys)
    requires x in h && seen <= h.Keys
    ensures Visit(g, x, i, seen) == Visit(h, x, i, seen)
    decreases |h.Keys - seen|, if i < |h[x]| then |h[x]| - i else 0
  {
    if i < |h[x]| {
      var y := h[x][i];
      if y in seen {
        RestrictVisit(g, h, x, i + 1, seen);
      } else {
        Fewer(h.Keys, seen, seen + {y}, y);
        RestrictVisit(g, h, y, 0, seen + {y});
        var inner := Visit(h, y, 0, seen + {y});
        Fewer(h.Keys, seen, inner.seen, y);
        RestrictVisit(g, h, x, i + 1, inner.seen);
      }
    }
  }

  lemma RestrictFrom<T>(g: Graph<T>, h: Graph<T>, root: T)
    requires h.Keys <= g.Keys && (forall y :: y in h ==> h[y] == g[y]) && Closed(g, g.Keys) && Closed(h, h.Keys) && root in h
    ensures From(g, root) == From(h, root)
  {
    RestrictVisit(g, h, root, 0, {root});
  }

  // ----- A search in progress -----

  /** What is still to come when the nodes on `path` are unfinished, each at its cursor. */
  ghost function Rest<T>(g: Graph<T>, path: seq<T>, cursor: map<T, nat>, seen: set<T>): seq<T>
    requires Closed(g, g.Keys) && seen <= g.Keys && cursor.Keys == g.Keys && forall x :: x in path ==> x in g
  {
    if path == [] then []
    else
      var x := path[|path| - 1];
      var v := Visit(g, x, cursor[x], seen);
      v.order + Rest(g, path[..|path| - 1], cursor, v.seen)
  }

  lemma RestLast<T>(g: Graph<T>, path: seq<T>, x: T, cursor: map<T, nat>, seen: set<T>)
    requires Closed(g, g.Keys) && seen <= g.Keys && cursor.Keys == g.Keys && x in g && forall y :: y in path ==> y in g
    ensures var v := Visit(g, x, cursor[x], seen);
            Rest(g, path + [x], cursor, seen) == v.order + Rest(g, path, cursor, v.seen)
  {
    assert (path + [x])[..|path|] == path;
  }

  /** Only the cursors of nodes on the path matter. */
  lemma {:induction false} RestSame<T>(g: Graph<T>, path: seq<T>, cursor: map<T, nat>, x: T, n: nat, seen: set<T>)
    requires Closed(g, g.Keys) && seen <= g.Keys && cursor.Keys == g.Keys && x in g && x !in path && forall y :: y in path ==> y in g
    ensures Rest(g, path, cursor[x := n], seen) == Rest(g, path, cursor, seen)
    decreases |path|
  {
    if path != [] {
      var y := path[|path| - 1];
      assert y in path;
      RestSame(g, path[..|path| - 1], cursor, x, n, Visit(g, y, cursor[y], seen).seen);
    }
  }

  lemma RestSkips<T>(g: Graph<T>, path: seq<T>, x: T, cursor: map<T, nat>, seen: set<T>)
    requires Closed(g, g.Keys) && seen <= g.Keys && cursor.Keys == g.Keys && x in g && forall y :: y in path ==> y in g
    requires x !in path && cursor[x] < |g[x]| && g[x][cursor[x]] in seen
    ensures Rest(g, path + [x], cursor[x := cursor[x] + 1], seen) == Rest(g, path + [x], cursor, seen)
  {
    hide Visit, Rest;
    var next := cursor[x := cursor[x] + 1];
    VisitPast(g, x, cursor[x], seen);
    RestLast(g, path, x, cursor, seen);
    RestLast(g, path, x, next, seen);
    RestSame(g, path, cursor, x, cursor[x] + 1, Visit(g, x, cursor[x], seen).seen);
  }

  lemma RestDescends<T>(g: Graph<T>, path: seq<T>, x: T, cursor: map<T, nat>, seen: set<T>)
    requires Closed(g, g.Keys) && seen <= g.Keys && cursor.Keys == g.Keys && x in g && forall y :: y in path ==> y in g
    requires cursor[x] < |g[x]| && var y := g[x][cursor[x]]; y in g && y !in seen && y !in path + [x]
    ensures var y := g[x][cursor[x]];
            Rest(g, path + [x] + [y], cursor[y := 0], seen + {y}) == Rest(g, path + [x], cursor, seen)
  {
    hide Visit, Rest;
    var y := g[x][cursor[x]];
    var next := cursor[y := 0];
    assert x in path + [x];
    VisitInto(g, x, cursor[x], seen);
    var inner := Visit(g, y, 0, seen + {y});
    var outer := Visit(g, x, cursor[x], inner.seen);
    RestLast(g, path + [x], y, next, seen + {y});
    RestLast(g, path, x, next, inner.seen);
    RestSame(g, path, cursor, y, 0, outer.seen);
    RestLast(g, path, x, cursor, seen);
    assert inner.order + (outer.order + Rest(g, path, cursor, outer.seen)) == inner.order + outer.order + Rest(g, path, cursor, outer.seen);
  }

  lemma RestFinishes<T>(g: Graph<T>, path: seq<T>, x: T, cursor: map<T, nat>, seen: set<T>)
    requires Closed(g, g.Keys) && seen <= g.Keys && cursor.Keys == g.Keys && x in g && forall y :: y in path ==> y in g
    requires cursor[x] >= |g[x]|
    ensures Rest(g, path + [x], cursor, seen) == [x] + Rest(g, path, cursor, seen)
  {
    hide Rest;
    RestLast(g, path, x, cursor, seen);
  }
}
