/** The constructor scheduler `queue_ctors`: a depth-first sort whose output
    queue and work stack grow towards each other in one buffer. */
module CtorQueue {
  import opened Graphs
  import opened Sequences
  import opened Dsos
  import PostOrder

  /** What a constructor queue for `root` promises. */
  ghost predicate CtorOrder<T>(g: Graph<T>, root: T, order: seq<T>) {
    && Distinct(order)
    && |order| > 0 && order[|order| - 1] == root
    // exactly the objects reachable by direct dependencies
    && (forall d :: d in order ==> Reaches(g, root, d))
    && (forall n: nat :: Walk(g, root, n) <= Members(order))
    // a dependency is constructed later only if it is part of a cycle
    && forall i, j :: 0 <= i < j < |order| && order[i] in g && order[j] in g[order[i]]
         ==> Reaches(g, order[j], order[i])
  }

  /** The objects the queue for `root` can hold, by which the buffer is sized. */
  ghost function Universe(root: Dso, list: seq<Dso>): set<Dso>
    reads root
  {
    if root.bfsBuilt then Members(root.deps) + {root} else Members(list)
  }

  /** The bound is sound: an object whose breadth-first list is built has all its dependencies in it. */
  ghost predicate UniverseClosed(root: Dso, list: seq<Dso>)
    requires Loaded(Members(list))
    reads Members(list), root
  {
    Universe(root, list) <= Members(list) && Closed(Direct(Members(list)), Universe(root, list))
  }

  lemma UniverseGraph(root: Dso, list: seq<Dso>) returns (g: Graph<Dso>)
    requires root in list && Loaded(Members(list)) && UniverseClosed(root, list)
    ensures g.Keys == Universe(root, list) && Loaded(g.Keys) && g == Direct(g.Keys)
    ensures forall x :: x in g ==> g[x] == Direct(Members(list))[x]
  {
    var u, world := Universe(root, list), Direct(Members(list));
    forall d, k | d in u && 0 <= k < d.ndepsDirect ensures d.deps[k] in u {
      assert d.deps[k] in world[d];
    }
    g := Direct(u);
  }

  /** An order in the part of the graph a queue can hold is one in the whole graph. */
  lemma RestrictOrder(g: Graph<Dso>, h: Graph<Dso>, root: Dso, order: seq<Dso>)
    requires h.Keys <= g.Keys && (forall x :: x in h ==> h[x] == g[x]) && Closed(g, h.Keys) && root in h
    requires CtorOrder(h, root, order)
    ensures CtorOrder(g, root, order)
  {
    RestrictReaches(g, h);
    forall n: nat ensures Walk(g, root, n) <= Members(order) {
      RestrictWalk(g, h, root, n);
    }
    forall d | d in order ensures d in h && Reaches(g, root, d) {
      assert Reaches(h, root, d);
      var n: nat :| d in Walk(h, root, n);
      RestrictWalk(g, h, root, n);
    }
  }

  lemma RestrictReaches(g: Graph<Dso>, h: Graph<Dso>)
    requires h.Keys <= g.Keys && (forall x :: x in h ==> h[x] == g[x]) && Closed(g, h.Keys)
    ensures forall a, b :: a in h.Keys && b in h.Keys && Reaches(h, a, b) ==> Reaches(g, a, b)
  {
    forall a, b | a in h.Keys && b in h.Keys && Reaches(h, a, b) ensures Reaches(g, a, b) {
      var n: nat :| b in Walk(h, a, n);
      RestrictWalk(g, h, a, n);
    }
  }

  // ----- The sort on values: finished objects and the chain of unfinished ones, root first -----

  /** Finished and unfinished objects are distinct and are the marked ones. */
  ghost predicate Partition(g: Graph<Dso>, done: seq<Dso>, path: seq<Dso>, marked: set<Dso>) {
    && Distinct(done) && Distinct(path)
    && (forall d :: d in done ==> d !in path)
    && marked == Members(done) + Members(path)
    && |marked| == |done| + |path|
    && marked <= g.Keys
  }

  /** The chain leads from the root down, and the root is finished last. */
  ghost predicate Chain(g: Graph<Dso>, root: Dso, done: seq<Dso>, path: seq<Dso>) {
    && (forall i, j :: 0 <= i <= j < |path| ==> Reaches(g, path[i], path[j]))
    && (forall d :: d in done ==> Reaches(g, root, d))
    && (path != [] ==> path[0] == root)
    && (path == [] ==> done != [] && done[|done| - 1] == root)
  }

  /** A finished object's dependencies were finished before it or lead back to it. */
  ghost predicate DepsBefore(g: Graph<Dso>, done: seq<Dso>, marked: set<Dso>) {
    forall i, q :: 0 <= i < |done| && done[i] in g && q in g[done[i]] ==>
      q in marked && (q in done[..i + 1] || Reaches(g, q, done[i]))
  }

  ghost predicate SortState(g: Graph<Dso>, root: Dso, done: seq<Dso>, path: seq<Dso>, marked: set<Dso>) {
    Partition(g, done, path, marked) && Chain(g, root, done, path) && DepsBefore(g, done, marked)
  }

  lemma Started(g: Graph<Dso>, root: Dso)
    requires root in g
    ensures SortState(g, root, [], [root], {root})
  {
    ReachesSelf(g, root);
  }

  lemma ChainDescends(g: Graph<Dso>, root: Dso, done: seq<Dso>, path: seq<Dso>, c: Dso)
    requires Chain(g, root, done, path) && path != []
    requires path[|path| - 1] in g && c in g[path[|path| - 1]]
    ensures Chain(g, root, done, path + [c])
  {
    var path' := path + [c];
    forall i, j | 0 <= i <= j < |path'| ensures Reaches(g, path'[i], path'[j]) {
      if j == |path| {
        if i == j { ReachesSelf(g, c); } else { ReachesEdge(g, path[i], path[|path| - 1], c); }
      }
    }
  }

  lemma PartitionDescends(g: Graph<Dso>, done: seq<Dso>, path: seq<Dso>, marked: set<Dso>, c: Dso)
    requires Partition(g, done, path, marked) && c !in marked && c in g
    ensures Partition(g, done, path + [c], marked + {c})
  {
  }

  lemma Descended(g: Graph<Dso>, root: Dso, done: seq<Dso>, path: seq<Dso>, marked: set<Dso>, c: Dso)
    requires SortState(g, root, done, path, marked) && path != []
    requires path[|path| - 1] in g && c in g[path[|path| - 1]] && c !in marked && c in g
    ensures SortState(g, root, done, path + [c], marked + {c})
  {
    hide Partition, Chain;
    PartitionDescends(g, done, path, marked, c);
    ChainDescends(g, root, done, path, c);
  }

  lemma PartitionFinishes(g: Graph<Dso>, done: seq<Dso>, path: seq<Dso>, p: Dso, marked: set<Dso>)
    requires Partition(g, done, path + [p], marked)
    ensures Partition(g, done + [p], path, marked)
  {
    DistinctSplit(path, p);
    hide Distinct;
    MembersAppend(path, p);
    MembersAppend(done, p);
    assert p in path + [p];
    DistinctAppend(done, p);
  }

  lemma ChainFinishes(g: Graph<Dso>, root: Dso, done: seq<Dso>, path: seq<Dso>, p: Dso)
    requires Chain(g, root, done, path + [p])
    ensures Chain(g, root, done + [p], path)
    ensures forall q :: q in path ==> Reaches(g, q, p)
    ensures Reaches(g, p, p)
  {
    var whole := path + [p];
    assert Reaches(g, whole[0], whole[|path|]);
    assert Reaches(g, whole[|path|], whole[|path|]);
    forall q | q in path ensures Reaches(g, q, p) {
      var k :| 0 <= k < |path| && path[k] == q;
      assert Reaches(g, whole[k], whole[|path|]);
    }
    forall i, j | 0 <= i <= j < |path| ensures Reaches(g, path[i], path[j]) {
      assert Reaches(g, whole[i], whole[j]);
    }
    assert path != [] ==> path[0] == whole[0];
  }

  lemma DepsFinish(g: Graph<Dso>, done: seq<Dso>, path: seq<Dso>, p: Dso, marked: set<Dso>)
    requires DepsBefore(g, done, marked) && marked == Members(done) + Members(path + [p])
    requires p in g && forall q :: q in g[p] ==> q in marked
    requires forall q :: q in path + [p] ==> Reaches(g, q, p)
    ensures DepsBefore(g, done + [p], marked)
  {
    var done' := done + [p];
    forall i, q | 0 <= i < |done'| && done'[i] in g && q in g[done'[i]]
      ensures q in marked && (q in done'[..i + 1] || Reaches(g, q, done'[i]))
    {
      if i < |done| {
        assert done'[..i + 1] == done[..i + 1];
      } else {
        assert done'[..i + 1] == done';
      }
    }
  }

  lemma Finished(g: Graph<Dso>, root: Dso, done: seq<Dso>, path: seq<Dso>, p: Dso, marked: set<Dso>)
    requires SortState(g, root, done, path + [p], marked)
    requires p in g && forall q :: q in g[p] ==> q in marked
    ensures SortState(g, root, done + [p], path, marked)
  {
    hide Chain, DepsBefore, Distinct, Reaches;
    PartitionFinishes(g, done, path, p, marked);
    ChainFinishes(g, root, done, path, p);
    DepsFinish(g, done, path, p, marked);
  }

  /** When no object is unfinished, the queue is the promised order. */
  lemma SortComplete(g: Graph<Dso>, root: Dso, done: seq<Dso>, marked: set<Dso>)
    requires SortState(g, root, done, [], marked)
    ensures CtorOrder(g, root, done)
  {
    assert marked == Members(done);
    assert Closed(g, marked) by {
      forall x, y | x in marked && x in g && y in g[x] ensures y in marked {
        var i :| 0 <= i < |done| && done[i] == x;
      }
    }
    forall n: nat ensures Walk(g, root, n) <= Members(done) {
      ClosedHoldsWalk(g, marked, root, n);
    }
  }

  // ----- The representation on values: the buffer's contents and the objects' cursors -----

  /** The buffer holds the output queue from its start and the stack from its end. */
  ghost predicate Buffer(q: seq<Dso?>, cnt: nat, done: seq<Dso>, stack: seq<Dso>) {
    && |done| + |stack| < cnt <= |q|
    && (forall i :: 0 <= i < |done| ==> q[i] == done[i])
    && (forall k :: 0 <= k < |stack| ==> q[cnt - 1 - k] == stack[k])
  }

  /** Everything before an unfinished object's cursor has been visited. */
  ghost predicate Cursors(g: Graph<Dso>, path: seq<Dso>, cursor: map<Dso, nat>, marked: set<Dso>) {
    && cursor.Keys == g.Keys
    && forall d :: d in path && d in g ==>
         cursor[d] <= |g[d]| && forall k :: 0 <= k < cursor[d] ==> g[d][k] in marked
  }

  /** What is finished, and what a recursive search would still find from here, are what it finds from the root. */
  ghost predicate Unwound(g: Graph<Dso>, root: Dso, done: seq<Dso>, path: seq<Dso>, cursor: map<Dso, nat>, marked: set<Dso>) {
    && Closed(g, g.Keys) && root in g && marked <= g.Keys && cursor.Keys == g.Keys && (forall d :: d in path ==> d in g)
    && done + PostOrder.Rest(g, path, cursor, marked) == PostOrder.From(g, root)
  }

  lemma UnwoundStart(g: Graph<Dso>, root: Dso, cursor: map<Dso, nat>)
    requires Closed(g, g.Keys) && root in g && cursor.Keys == g.Keys && cursor[root] == 0
    ensures Unwound(g, root, [], [root], cursor, {root})
  {
    PostOrder.RestLast(g, [], root, cursor, {root});
    assert [] + [root] == [root];
  }

  lemma UnwoundSkip(g: Graph<Dso>, root: Dso, done: seq<Dso>, stack: seq<Dso>, p: Dso, cursor: map<Dso, nat>, marked: set<Dso>)
    requires Unwound(g, root, done, stack + [p], cursor, marked) && p !in stack
    requires p in g && cursor[p] < |g[p]| && g[p][cursor[p]] in marked
    ensures Unwound(g, root, done, stack + [p], cursor[p := cursor[p] + 1], marked)
  {
    assert forall d :: d in stack ==> d in stack + [p];
    PostOrder.RestSkips(g, stack, p, cursor, marked);
  }

  lemma UnwoundPush(g: Graph<Dso>, root: Dso, done: seq<Dso>, stack: seq<Dso>, p: Dso, cursor: map<Dso, nat>, marked: set<Dso>)
    requires Unwound(g, root, done, stack + [p], cursor, marked)
    requires p in g && cursor[p] < |g[p]| && var c := g[p][cursor[p]]; c !in marked && c !in stack + [p] && c in g
    ensures var c := g[p][cursor[p]]; Unwound(g, root, done, stack + [p] + [c], cursor[c := 0], marked + {c})
  {
    assert forall d :: d in stack ==> d in stack + [p];
    PostOrder.RestDescends(g, stack, p, cursor, marked);
  }

  lemma UnwoundFinish(g: Graph<Dso>, root: Dso, done: seq<Dso>, stack: seq<Dso>, p: Dso, cursor: map<Dso, nat>, marked: set<Dso>)
    requires Unwound(g, root, done, stack + [p], cursor, marked) && p in g && cursor[p] == |g[p]|
    ensures Unwound(g, root, done + [p], stack, cursor, marked)
  {
    assert forall d :: d in stack ==> d in stack + [p];
    PostOrder.RestFinishes(g, stack, p, cursor, marked);
    var rest := PostOrder.Rest(g, stack, cursor, marked);
    assert done + ([p] + rest) == done + [p] + rest;
  }

  lemma UnwoundEnd(g: Graph<Dso>, root: Dso, done: seq<Dso>, cursor: map<Dso, nat>, marked: set<Dso>)
    requires Unwound(g, root, done, [], cursor, marked)
    ensures done == PostOrder.From(g, root)
  {
    assert done + [] == done;
  }

  /** Sort, buffer and cursors together, with the stack part of the chain. */
  ghost predicate Inv(g: Graph<Dso>, root: Dso, q: seq<Dso?>, cnt: nat, done: seq<Dso>, stack: seq<Dso>,
                      path: seq<Dso>, cursor: map<Dso, nat>, marked: set<Dso>) {
    && SortState(g, root, done, path, marked) && Cursors(g, path, cursor, marked)
    && Buffer(q, cnt, done, stack) && |g.Keys| < cnt && Closed(g, g.Keys)
    && Unwound(g, root, done, path, cursor, marked)
  }

  lemma InvStart(g: Graph<Dso>, root: Dso, q: seq<Dso?>, cnt: nat, cursor: map<Dso, nat>)
    requires root in g && |g.Keys| < cnt <= |q| && q[cnt - 1] == root
    requires cursor.Keys == g.Keys && cursor[root] == 0 && Closed(g, g.Keys)
    ensures Inv(g, root, q, cnt, [], [root], [root], cursor, {root})
  {
    Started(g, root);
    UnwoundStart(g, root, cursor);
    hide Unwound;
    SubsetSize({root}, g.Keys);
  }

  /** Taking the top of the stack in hand. */
  lemma InvPop(g: Graph<Dso>, root: Dso, q: seq<Dso?>, cnt: nat, done: seq<Dso>, path: seq<Dso>,
               cursor: map<Dso, nat>, marked: set<Dso>)
    requires Inv(g, root, q, cnt, done, path, path, cursor, marked) && path != []
    ensures |path| <= cnt <= |q| && q[cnt - |path|] == path[|path| - 1]
    ensures path[|path| - 1] in g
    ensures Inv(g, root, q, cnt, done, path[..|path| - 1], path[..|path| - 1] + [path[|path| - 1]], cursor, marked)
  {
    hide SortState, Cursors, Buffer, Unwound;
    SortFacts(g, root, done, path, marked);
    BufferPop(q, cnt, done, path);
    assert path[..|path| - 1] + [path[|path| - 1]] == path;
  }

  lemma BufferPop(q: seq<Dso?>, cnt: nat, done: seq<Dso>, stack: seq<Dso>)
    requires Buffer(q, cnt, done, stack) && stack != []
    ensures |stack| <= cnt <= |q| && q[cnt - |stack|] == stack[|stack| - 1]
    ensures Buffer(q, cnt, done, stack[..|stack| - 1])
  {
  }

  /** The object in hand and its next dependency are known objects, and there is room to stack it. */
  lemma InvBounds(g: Graph<Dso>, root: Dso, q: seq<Dso?>, cnt: nat, done: seq<Dso>, stack: seq<Dso>, p: Dso,
                  cursor: map<Dso, nat>, marked: set<Dso>)
    requires Inv(g, root, q, cnt, done, stack, stack + [p], cursor, marked)
    ensures p in g && p in marked && p in cursor && cursor[p] <= |g[p]|
    ensures cursor[p] < |g[p]| ==> g[p][cursor[p]] in g
    ensures |marked| <= |g.Keys| < cnt && |done| + |stack| + 1 == |marked|
  {
    hide Chain, DepsBefore, Unwound;
    assert p in stack + [p];
    SubsetSize(marked, g.Keys);
  }

  lemma InvSkip(g: Graph<Dso>, root: Dso, q: seq<Dso?>, cnt: nat, done: seq<Dso>, stack: seq<Dso>, p: Dso,
                cursor: map<Dso, nat>, marked: set<Dso>)
    requires Inv(g, root, q, cnt, done, stack, stack + [p], cursor, marked)
    requires p in g && cursor[p] < |g[p]| && g[p][cursor[p]] in marked
    ensures Inv(g, root, q, cnt, done, stack, stack + [p], cursor[p := cursor[p] + 1], marked)
  {
    hide SortState, Buffer, Unwound;
    assert p in stack + [p];
    LastOnce(g, root, done, stack, p, marked);
    UnwoundSkip(g, root, done, stack, p, cursor, marked);
  }

  lemma LastOnce(g: Graph<Dso>, root: Dso, done: seq<Dso>, stack: seq<Dso>, p: Dso, marked: set<Dso>)
    requires SortState(g, root, done, stack + [p], marked)
    ensures p !in stack
  {
    DistinctSplit(stack, p);
  }

  lemma InvPush(g: Graph<Dso>, root: Dso, q: seq<Dso?>, cnt: nat, done: seq<Dso>, stack: seq<Dso>, p: Dso, c: Dso,
                cursor: map<Dso, nat>, marked: set<Dso>)
    requires Inv(g, root, q, cnt, done, stack, stack + [p], cursor, marked)
    requires p in g && cursor[p] < |g[p]| && c == g[p][cursor[p]] && c !in marked && c in g
    ensures 0 <= cnt - |stack| - 1 < |q|
    ensures Inv(g, root, q[cnt - |stack| - 1 := p], cnt, done, stack + [p], stack + [p] + [c], cursor[c := 0], marked + {c})
    ensures |marked| < |marked + {c}| <= |g.Keys|
  {
    hide Unwound;
    SortFacts(g, root, done, stack + [p], marked);
    UnwoundPush(g, root, done, stack, p, cursor, marked);
    Descended(g, root, done, stack + [p], marked, c);
    SortFacts(g, root, done, stack + [p] + [c], marked + {c});
    SubsetSize(marked + {c}, g.Keys);
    PushCursors(g, stack + [p], c, cursor, marked);
    hide SortState, Cursors;
    BufferPush(q, cnt, done, stack, p);
  }

  lemma BufferPush(q: seq<Dso?>, cnt: nat, done: seq<Dso>, stack: seq<Dso>, p: Dso)
    requires Buffer(q, cnt, done, stack) && |done| + |stack| + 1 < cnt
    ensures Buffer(q[cnt - |stack| - 1 := p], cnt, done, stack + [p])
  {
  }

  lemma SortFacts(g: Graph<Dso>, root: Dso, done: seq<Dso>, path: seq<Dso>, marked: set<Dso>)
    requires SortState(g, root, done, path, marked)
    ensures |marked| == |done| + |path| && marked <= g.Keys
    ensures forall d :: d in path ==> d in marked
  {
  }

  lemma PushCursors(g: Graph<Dso>, path: seq<Dso>, c: Dso, cursor: map<Dso, nat>, marked: set<Dso>)
    requires Cursors(g, path, cursor, marked) && c in g
    ensures Cursors(g, path + [c], cursor[c := 0], marked + {c})
  {
  }

  lemma InvFinish(g: Graph<Dso>, root: Dso, q: seq<Dso?>, cnt: nat, done: seq<Dso>, stack: seq<Dso>, p: Dso,
                  cursor: map<Dso, nat>, marked: set<Dso>)
    requires Inv(g, root, q, cnt, done, stack, stack + [p], cursor, marked)
    requires p in g && cursor[p] == |g[p]|
    ensures |done| < |q|
    ensures Inv(g, root, q[|done| := p], cnt, done + [p], stack, stack, cursor, marked)
  {
    hide Unwound;
    AllVisited(g, stack, p, cursor, marked);
    SortFacts(g, root, done, stack + [p], marked);
    UnwoundFinish(g, root, done, stack, p, cursor, marked);
    hide SortState, Closed;
    Finished(g, root, done, stack, p, marked);
    SubsetSize(marked, g.Keys);
    BufferFinish(q, cnt, done, stack, p);
  }

  lemma AllVisited(g: Graph<Dso>, stack: seq<Dso>, p: Dso, cursor: map<Dso, nat>, marked: set<Dso>)
    requires Cursors(g, stack + [p], cursor, marked) && p in g && cursor[p] == |g[p]|
    ensures forall x :: x in g[p] ==> x in marked
    ensures Cursors(g, stack, cursor, marked)
  {
  }

  lemma BufferFinish(q: seq<Dso?>, cnt: nat, done: seq<Dso>, stack: seq<Dso>, p: Dso)
    requires Buffer(q, cnt, done, stack) && |done| + |stack| + 1 < cnt
    ensures Buffer(q[|done| := p], cnt, done + [p], stack)
  {
  }

  lemma InvEnd(g: Graph<Dso>, root: Dso, q: seq<Dso?>, cnt: nat, done: seq<Dso>, cursor: map<Dso, nat>, marked: set<Dso>)
    requires Inv(g, root, q, cnt, done, [], [], cursor, marked)
    ensures CtorOrder(g, root, done) && marked == Members(done) <= g.Keys && |done| < cnt <= |q|
    ensures forall i :: 0 <= i < |done| ==> q[i] == done[i]
    ensures root in g && done == PostOrder.From(g, root)
  {
    UnwoundEnd(g, root, done, cursor, marked);
    hide Unwound;
    SortComplete(g, root, done, marked);
  }

  // ----- The code -----

  /** The slots a queue asks for: one for every object it may hold, and one to end it. */
  function Slots(root: Dso, list: seq<Dso>): nat
    reads root
  {
    if root.bfsBuilt then |root.deps| + 2 else |list| + 1
  }

  /** Clears the marks of everything the queue may hold and returns the buffer length. */
  method BoundQueue(root: Dso, list: seq<Dso>) returns (cnt: nat)
    requires root in list
    requires Universe(root, list) <= Members(list)
    modifies Members(list)`mark
    ensures |Universe(root, list)| < cnt == Slots(root, list)
    ensures forall d :: d in Universe(root, list) && d != root ==> !d.mark
    ensures forall d :: d in Members(list) - Universe(root, list) ==> d.mark == old(d.mark)
    ensures |Universe(root, list)| <= |list|
  {
    cnt := 0;
    if root.bfsBuilt {
      while cnt < |root.deps|
        invariant cnt <= |root.deps|
        invariant forall k :: 0 <= k < cnt ==> !root.deps[k].mark
        invariant forall d :: d in list && d !in root.deps ==> d.mark == old(d.mark)
      {
        assert root.deps[cnt] in Universe(root, list);
        root.deps[cnt].mark := false;
        cnt := cnt + 1;
      }
      cnt := cnt + 1; // the root itself
      MembersBound(root.deps);
    } else {
      while cnt < |list|
        invariant cnt <= |list|
        invariant forall k :: 0 <= k < cnt ==> !list[k].mark
      {
        list[cnt].mark := false;
        cnt := cnt + 1;
      }
    }
    MembersBound(list);
    SubsetSize(Universe(root, list), Members(list));
    cnt := cnt + 1; // the termination slot
  }

  /** The objects' fields hold the values of the sort. */
  ghost predicate Linked(g: Graph<Dso>, cursor: map<Dso, nat>, marked: set<Dso>)
    reads g.Keys`deps, g.Keys`ndepsDirect, g.Keys`mark, g.Keys`nextDep
  {
    forall d :: d in g.Keys ==>
      && d.ndepsDirect <= |d.deps| && g[d] == d.deps[..d.ndepsDirect]
      && d.mark == (d in marked)
      && d in cursor && d.nextDep == cursor[d]
  }

  lemma LinkedMarks(g: Graph<Dso>, cursor: map<Dso, nat>, marked: set<Dso>)
    requires Linked(g, cursor, marked)
    ensures forall d :: d in g.Keys ==> (d.mark <==> d in marked)
  {
  }

  lemma LinkedAt(g: Graph<Dso>, cursor: map<Dso, nat>, marked: set<Dso>, d: Dso)
    requires Linked(g, cursor, marked) && d in g
    ensures d.ndepsDirect == |g[d]| <= |d.deps| && d in cursor && d.nextDep == cursor[d]
    ensures d.mark == (d in marked)
    ensures forall k :: 0 <= k < |g[d]| ==> d.deps[k] == g[d][k]
  {
  }

  method Advance(p: Dso, ghost g: Graph<Dso>, ghost cursor: map<Dso, nat>, ghost marked: set<Dso>)
    requires Linked(g, cursor, marked) && p in g
    modifies p`nextDep
    ensures p.nextDep == old(p.nextDep) + 1
    ensures p in cursor && Linked(g, cursor[p := cursor[p] + 1], marked)
  {
    p.nextDep := p.nextDep + 1;
  }

  method Visit(c: Dso, ghost g: Graph<Dso>, ghost cursor: map<Dso, nat>, ghost marked: set<Dso>)
    requires c in g
    requires Linked(g, cursor, marked)
    modifies c`nextDep, c`mark
    ensures Linked(g, cursor[c := 0], marked + {c})
  {
    c.nextDep := 0;
    c.mark := true;
  }

  /** Follows unvisited dependencies down from `start`, stacking what it leaves
      unfinished, until it holds an object whose dependencies are all visited. */
  method Descend(queue: array<Dso?>, cnt: nat, start: Dso, top: nat, ghost root: Dso, ghost g: Graph<Dso>, ghost order: seq<Dso>,
                 ghost stack0: seq<Dso>, ghost cursor0: map<Dso, nat>, ghost marked0: set<Dso>)
    returns (p: Dso, spos: nat, ghost stack: seq<Dso>, ghost cursor: map<Dso, nat>, ghost marked: set<Dso>)
    requires Inv(g, root, queue[..], cnt, order, stack0, stack0 + [start], cursor0, marked0)
    requires Linked(g, cursor0, marked0) && |stack0| == cnt - top
    modifies queue, g.Keys`mark, g.Keys`nextDep
    ensures Inv(g, root, queue[..], cnt, order, stack, stack + [p], cursor, marked)
    ensures Linked(g, cursor, marked) && |stack| == cnt - spos
    ensures p in g && p in cursor && cursor[p] == |g[p]|
  {
    hide Inv, Linked;
    p, spos, stack, cursor, marked := start, top, stack0, cursor0, marked0;
    InvBounds(g, root, queue[..], cnt, order, stack, p, cursor, marked);
    LinkedAt(g, cursor, marked, p);
    while p.nextDep < p.ndepsDirect
      invariant Inv(g, root, queue[..], cnt, order, stack, stack + [p], cursor, marked)
      invariant Linked(g, cursor, marked) && |stack| == cnt - spos
      invariant p in g && p in cursor && p.ndepsDirect == |g[p]| && p.nextDep == cursor[p] <= |g[p]| 
      decreases |g.Keys| - |marked|, p.ndepsDirect - p.nextDep
    {
      InvBounds(g, root, queue[..], cnt, order, stack, p, cursor, marked);
      LinkedAt(g, cursor, marked, p);
      var c := p.deps[p.nextDep];
      LinkedAt(g, cursor, marked, c);
      if c.mark {
        InvSkip(g, root, queue[..], cnt, order, stack, p, cursor, marked);
        Advance(p, g, cursor, marked);
        cursor := cursor[p := cursor[p] + 1];
      } else {
        InvPush(g, root, queue[..], cnt, order, stack, p, c, cursor, marked);
        ghost var q := queue[..];
        spos := spos - 1;
        queue[spos] := p;
        assert queue[..] == q[spos := p];
        stack := stack + [p];
        p := c;
        Visit(p, g, cursor, marked);
        cursor, marked := cursor[c := 0], marked + {c};
        LinkedAt(g, cursor, marked, p);
      }
    }
  }

  method Start(root: Dso, ghost g: Graph<Dso>) returns (ghost cursor: map<Dso, nat>)
    requires root in g && Loaded(g.Keys) && g == Direct(g.Keys)
    requires forall d :: d in g.Keys && d != root ==> !d.mark
    modifies root`nextDep, root`mark
    ensures cursor.Keys == g.Keys && cursor[root] == 0 && Linked(g, cursor, {root})
  {
    root.nextDep := 0;
    root.mark := true;
    cursor := map d | d in g.Keys :: d.nextDep;
  }

  method SortInto(queue: array<Dso?>, cnt: nat, root: Dso, ghost g: Graph<Dso>) returns (qpos: nat, ghost order: seq<Dso>)
    requires root in g && Loaded(g.Keys) && g == Direct(g.Keys) && |g.Keys| < cnt <= queue.Length
    requires forall d :: d in g.Keys && d != root ==> !d.mark
    modifies queue, g.Keys`mark, g.Keys`nextDep
    ensures CtorOrder(g, root, order) && order == PostOrder.From(g, root)
    ensures |order| == qpos < queue.Length && Members(order) <= g.Keys
    ensures queue[..qpos] == order && queue[qpos] == null
    ensures forall d :: d in g.Keys ==> (d.mark <==> d in Members(order))
  {
    hide Inv, CtorOrder, Loaded, Linked, Members, Direct, PostOrder.From;
    var spos := cnt - 1;
    qpos := 0;
    queue[spos] := root;
    ghost var stack, marked := [root], {root};
    ghost var cursor := Start(root, g);
    order := [];
    InvStart(g, root, queue[..], cnt, cursor);
    while spos < cnt
      invariant Inv(g, root, queue[..], cnt, order, stack, stack, cursor, marked)
      invariant Linked(g, cursor, marked)
      invariant |stack| == cnt - spos && |order| == qpos
      decreases cnt - qpos
    {
      InvPop(g, root, queue[..], cnt, order, stack, cursor, marked);
      var p: Dso := queue[spos];
      stack := stack[..|stack| - 1];
      p, spos, stack, cursor, marked := Descend(queue, cnt, p, spos + 1, root, g, order, stack, cursor, marked);
      InvBounds(g, root, queue[..], cnt, order, stack, p, cursor, marked);
      InvFinish(g, root, queue[..], cnt, order, stack, p, cursor, marked);
      ghost var q := queue[..];
      queue[qpos] := p;
      assert queue[..] == q[qpos := p];
      qpos := qpos + 1;
      order := order + [p];
    }
    InvEnd(g, root, queue[..], cnt, order, cursor, marked);
    LinkedMarks(g, cursor, marked);
    queue[qpos] := null;
  }

  method ClearMarks(queue: array<Dso?>, qpos: nat, ghost order: seq<Dso>)
    requires qpos <= queue.Length && queue[..qpos] == order
    modifies Members(order)`mark
    ensures forall d :: d in order ==> !d.mark
  {
    for i := 0 to qpos
      invariant forall k :: 0 <= k < i ==> !order[k].mark
    {
      assert queue[i] == queue[..qpos][i] == order[i];
      assert order[i] in Members(order);
      queue[i].mark := false;
    }
  }

  method AnyForked(queue: array<Dso?>, qpos: nat, ghost order: seq<Dso>) returns (forked: bool)
    requires qpos <= queue.Length && queue[..qpos] == order
    ensures forked <==> exists d :: d in order && d.visitorTid < 0
  {
    for i := 0 to qpos
      invariant forall k :: 0 <= k < i ==> order[k].visitorTid >= 0
    {
      assert queue[i] == queue[..qpos][i] == order[i];
      if queue[i].visitorTid < 0 {
        return true;
      }
    }
    return false;
  }

  method SortAndClear(queue: array<Dso?>, cnt: nat, root: Dso, ghost g: Graph<Dso>) returns (qpos: nat, ghost order: seq<Dso>)
    requires root in g && Loaded(g.Keys) && g == Direct(g.Keys) && |g.Keys| < cnt <= queue.Length
    requires forall d :: d in g.Keys && d != root ==> !d.mark
    modifies queue, g.Keys`mark, g.Keys`nextDep
    ensures CtorOrder(g, root, order) && order == PostOrder.From(g, root)
    ensures |order| == qpos < queue.Length
    ensures queue[..qpos] == order && queue[qpos] == null
    ensures forall d :: d in g.Keys ==> !d.mark
  {
    hide CtorOrder, Loaded, Direct, PostOrder.From;
    qpos, order := SortInto(queue, cnt, root, g);
    ClearMarks(queue, qpos, order);
  }

  /** The static buffer for the application if it has room, and otherwise memory of the queue's own. */
  method Allot(isHead: bool, cnt: nat, builtin: array<Dso?>) returns (buffer: array<Dso?>)
    ensures if isHead && cnt <= builtin.Length then buffer == builtin else fresh(buffer) && buffer.Length == cnt
  {
    buffer := builtin;
    if !isHead || cnt > builtin.Length {
      buffer := new Dso?[cnt];
    }
  }

  /** `queue_ctors`. The static buffer serves the application alone, and only where it suffices. The result is
      null when, at run time, an object's constructors were cut short by a fork (a negative visitor). */
  method QueueCtors(root: Dso, list: seq<Dso>, builtin: array<Dso?>, runtime: bool)
    returns (queue: array?<Dso?>, ghost order: seq<Dso>)
    requires root in list && Loaded(Members(list)) && UniverseClosed(root, list)
    requires builtin.Length == 4
    modifies Members(list)`mark, Members(list)`nextDep, builtin
    ensures CtorOrder(old(Direct(Members(list))), root, order)
    ensures order == PostOrder.From(old(Direct(Members(list))), root)
    ensures queue == null <==> runtime && exists d :: d in order && d.visitorTid < 0
    ensures queue != null ==>
      && (if root == list[0] && old(Slots(root, list)) <= 4 then queue == builtin
          else fresh(queue) && queue.Length == old(Slots(root, list)))
      && |order| < queue.Length && queue[..|order|] == order && queue[|order|] == null
    ensures root != list[0] || old(Slots(root, list)) > 4 ==> builtin[..] == old(builtin[..])
    ensures forall d :: d in old(Universe(root, list)) ==> !d.mark
    ensures forall d :: d in Members(list) - old(Universe(root, list)) ==> d.mark == old(d.mark)
  {
    hide CtorOrder, Loaded, Direct, Closed, PostOrder.From;
    ghost var u := Universe(root, list);
    ghost var g := UniverseGraph(root, list);
    var cnt := BoundQueue(root, list);
    var buffer := Allot(root == list[0], cnt, builtin);
    var qpos;
    qpos, order := SortAndClear(buffer, cnt, root, g);
    var forked := AnyForked(buffer, qpos, order);
    queue := if forked && runtime then null else buffer;
    RestrictOrder(old(Direct(Members(list))), g, root, order);
    PostOrder.RestrictFrom(old(Direct(Members(list))), g, root);
  }
}
