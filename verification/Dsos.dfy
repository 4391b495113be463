/** The loader's record of one shared object, with the fields its algorithms update in place. */
module Dsos {
  import opened Graphs

  class Dso {
    var deps: seq<Dso>         // direct dependencies first, then the breadth-first rest
    var ndepsDirect: nat
    var bfsBuilt: bool
    var mark: bool
    var nextDep: nat           // cursor of the constructor sort
    var visitorTid: int        // tid of the thread running the constructors, 0 if none
    var next: Dso?             // list of all objects
    var symsNext: Dso?         // list of the global symbol table
    var tlsNext: Dso?          // list of the modules with thread-local storage
    var base: nat              // load address
    var lazy: array?<nat>      // deferred relocations, three words each
    var lazyCnt: nat
    var lazyNext: Dso?

    constructor (deps: seq<Dso>)
      ensures this.deps == deps && ndepsDirect == |deps|
      ensures !bfsBuilt && !mark && nextDep == 0 && visitorTid == 0
      ensures next == symsNext == tlsNext == lazyNext == null && lazy == null
    {
      this.deps := deps;
      ndepsDirect := |deps|;
      bfsBuilt, mark, nextDep, visitorTid := false, false, 0, 0;
      next, symsNext, tlsNext := null, null, null;
      base, lazy, lazyCnt, lazyNext := 0, null, 0, null;
    }
  }

  /** Every object's direct dependencies are loaded. */
  ghost predicate Loaded(world: set<Dso>)
    reads world`deps, world`ndepsDirect
  {
    forall d :: d in world ==>
      && d.ndepsDirect <= |d.deps|
      && forall k :: 0 <= k < d.ndepsDirect ==> d.deps[k] in world
  }

  /** The graph of direct dependencies. */
  ghost function Direct(world: set<Dso>): (g: Graph<Dso>)
    requires Loaded(world)
    reads world`deps, world`ndepsDirect
    ensures g.Keys == world && Closed(g, world)
  {
    map d | d in world :: d.deps[..d.ndepsDirect]
  }
}
