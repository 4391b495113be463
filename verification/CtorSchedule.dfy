/** The two steps by which `dlopen` plans the constructors of an object it opens:
    the breadth-first list bounds the queue that the sort then fills. */
module CtorSchedule {
  import opened Graphs
  import opened Sequences
  import opened Dsos
  import BfsDeps
  import CtorQueue
  import PostOrder

  /** A built breadth-first list is a sound bound for the constructor queue. */
  lemma BuiltListIsClosed(root: Dso, list: seq<Dso>, g: Graph<Dso>, dist: seq<nat>)
    requires root in list && Loaded(Members(list)) && g == Direct(Members(list))
    requires root.bfsBuilt && BfsDeps.BfsList(g, root, root.deps, dist)
    ensures CtorQueue.UniverseClosed(root, list)
  {
    var u := Members(root.deps) + {root};
    forall i | 0 <= i < |root.deps| ensures root.deps[i] in g {
      assert ReachesPlus(g, root, root.deps[i]);
      ClosedHoldsReachable(g, Members(list), root, root.deps[i]);
    }
    forall x, y | x in u && x in g && y in g[x] ensures y in u {
      if x == root {
        assert y in g[root];
      } else {
        var i :| 0 <= i < |root.deps| && root.deps[i] == x;
        assert ReachesPlus(g, root, x) && Reaches(g, root, x);
        ReachesEdge(g, root, x, y);
        var n: nat :| n >= 1 && y in Walk(g, root, n);
        assert Walk(g, root, n) <= Members(root.deps);
      }
    }
  }

  method ExtendAndQueue(root: Dso, list: seq<Dso>, builtin: array<Dso?>)
    returns (queue: array?<Dso?>, ghost order: seq<Dso>)
    requires root in list && Loaded(Members(list)) && builtin.Length == 4
    requires if root.bfsBuilt then exists dist :: BfsDeps.BfsList(Direct(Members(list)), root, root.deps, dist)
             else |root.deps| == root.ndepsDirect
    requires forall d :: d in Members(list) ==> !d.mark
    modifies root`deps, root`bfsBuilt, Members(list)`mark, Members(list)`nextDep, builtin
    ensures CtorQueue.CtorOrder(old(Direct(Members(list))), root, order)
    ensures order == PostOrder.From(old(Direct(Members(list))), root)
    ensures queue == null <==> exists d :: d in order && d.visitorTid < 0
    ensures queue != null ==> |order| < queue.Length && queue[..|order|] == order && queue[|order|] == null
    ensures root != list[0] ==> builtin[..] == old(builtin[..]) && (queue != null ==> fresh(queue))
    ensures forall d :: d in Members(list) ==> !d.mark
  {
    hide CtorQueue.CtorOrder, BfsDeps.BfsList, Loaded, Direct;
    ghost var g := Direct(Members(list));
    DirectKeys(Members(list));
    ghost var dist := BfsDeps.ExtendBfsDeps(root, list, g);
    BuiltListIsClosed(root, list, g, dist);
    queue, order := CtorQueue.QueueCtors(root, list, builtin, true);
  }

  /** A constructor opens another object while its own queue is being walked: that queue, static or allocated, keeps
      its contents, and the new one is an array of its own. */
  method OpenDuring(held: array<Dso?>, root: Dso, list: seq<Dso>, builtin: array<Dso?>)
    returns (queue: array?<Dso?>, ghost order: seq<Dso>)
    requires root in list && root != list[0] && Loaded(Members(list)) && builtin.Length == 4
    requires if root.bfsBuilt then exists dist :: BfsDeps.BfsList(Direct(Members(list)), root, root.deps, dist)
             else |root.deps| == root.ndepsDirect
    requires forall d :: d in Members(list) ==> !d.mark
    modifies root`deps, root`bfsBuilt, Members(list)`mark, Members(list)`nextDep, builtin
    ensures CtorQueue.CtorOrder(old(Direct(Members(list))), root, order)
    ensures order == PostOrder.From(old(Direct(Members(list))), root)
    ensures held[..] == old(held[..]) && builtin[..] == old(builtin[..])
    ensures queue == null <==> exists d :: d in order && d.visitorTid < 0
    ensures queue != null ==> fresh(queue) && |order| < queue.Length && queue[..|order|] == order && queue[|order|] == null
  {
    hide CtorQueue.CtorOrder, BfsDeps.BfsList, Loaded, Direct;
    queue, order := ExtendAndQueue(root, list, builtin);
  }

  /** Start-up queues the application's constructors; one of them opens another object, and the application's
      queue is still what it was. */
  method StartThenOpen(list: seq<Dso>, root: Dso, builtin: array<Dso?>)
    returns (main: array?<Dso?>, ghost mainOrder: seq<Dso>, queue: array?<Dso?>)
    requires root in list && root != list[0] && Loaded(Members(list)) && builtin.Length == 4
    requires !list[0].bfsBuilt && !root.bfsBuilt && |root.deps| == root.ndepsDirect
    modifies root`deps, root`bfsBuilt, Members(list)`mark, Members(list)`nextDep, builtin
    ensures main != null && (main == builtin || fresh(main)) && queue != main
    ensures CtorQueue.CtorOrder(old(Direct(Members(list))), list[0], mainOrder)
    ensures |mainOrder| < main.Length && main[..|mainOrder|] == mainOrder && main[|mainOrder|] == null
  {
    hide CtorQueue.CtorOrder, BfsDeps.BfsList;
    main, mainOrder := CtorQueue.QueueCtors(list[0], list, builtin, false);
    ghost var order;
    queue, order := OpenDuring(main, root, list, builtin);
    assert forall k :: 0 <= k < main.Length ==> main[..][k] == main[k];
  }

  lemma DirectKeys(u: set<Dso>)
    requires Loaded(u)
    ensures Direct(u).Keys == u
  {
  }
}
