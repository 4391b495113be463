/** Threads and the exit walk: once the process is exiting, no call passes another entry of its queue, so the walk
    can come to wait for an object whose constructors will never end. */
module ExitHang {
  import opened Sequences
  import opened Graphs
  import opened CtorProtocol
  import opened Deadlock

  // ----- Calls that the exit stops -----

  /** A thread at an entry while the process is exiting. */
  ghost predicate Halted(s: State, t: Tid) {
    && s.shuttingDown && Stack(s, t) != []
    && var f := Top(s, t); (f.pc == Checking || f.pc == Waiting) && f.i < |f.queue|
  }

  /** What a thread can do at an entry while the process is exiting: wait and wake. */
  lemma HaltedActs(s: State, a: Action, t: Tid)
    requires Enabled(s, a) && Halted(s, t) && t == Actor(s, a)
    ensures a.Wait? || a.Wake? || (!a.Call? && !a.Finish? && !ChangesFrame(a))
  {
  }

  lemma ExitStays(s: State, a: Action, w: set<Obj>)
    requires Enabled(s, a) && s.shuttingDown
    ensures Step(s, a, w).shuttingDown && Step(s, a, w).fini == s.fini
    ensures !a.Begin? && !a.Skip?
    ensures Step(s, a, w).constructed == if a.End? then s.constructed + {EntryOf(Top(s, a.t))} else s.constructed
    ensures Step(s, a, w).visitor == if a.End? then s.visitor - {EntryOf(Top(s, a.t))} else s.visitor
  {
  }

  /** It stays there for good. */
  lemma HaltedStep(s: State, a: Action, w: set<Obj>, t: Tid)
    requires Enabled(s, a) && Halted(s, t)
    ensures Halted(Step(s, a, w), t) && SamePlace(s, Step(s, a, w), t)
  {
    ExitStays(s, a, w);
    if t == Actor(s, a) {
      StackStep(s, a, w);
      HaltedActs(s, a, t);
    } else {
      OthersKeepStacks(s, a, w);
    }
    hide Step, Enabled;
  }

  /** A thread in a call that is neither blocked nor halted has a step of its own that brings it forward, unless the
      lock it needs is taken for the moment. */
  lemma UnblockedActs(s: State, w: set<Obj>, u: Tid) returns (a: Action)
    requires Inv(s, w) && Stack(s, u) != [] && !Exiting(s, u) && !Blocked(s, u) && !Halted(s, u)
    requires s.lock == None || Top(s, u).pc == Checking
    ensures Enabled(s, a) && Actor(s, a) == u && !a.Wait? && !a.ExitCall? && !a.Call?
  {
    InsideQueue(s, w, u);
    var f := Top(s, u);
    if f.pc == Checking && f.i < |f.queue| {
      a := EntryStep(s, u);
    } else {
      a := match f.pc
           case Locking => Lock(u)
           case Waiting => Wake(u)
           case Running => CtorsReturn(u)
           case Relocking => End(u)
           case Checking => Finish(u);
      hide Inv, Blocked, Stack;
    }
  }

  /** At an entry that no other thread is constructing. */
  lemma EntryStep(s: State, u: Tid) returns (a: Action)
    requires AtEntry(s, u) && !s.shuttingDown && !Blocked(s, u)
    ensures (a == Skip(u) || a == Begin(u)) && Enabled(s, a)
  {
    var p := Entry(s, u);
    if p in s.visitor { assert !BlockedOn(s, u, s.visitor[p]); }
    a := if p in s.visitor || p in s.constructed then Skip(u) else Begin(u);
  }

  lemma InsideQueue(s: State, w: set<Obj>, u: Tid)
    requires Inv(s, w) && Stack(s, u) != []
    ensures Top(s, u).pc == Relocking ==> Top(s, u).i < |Top(s, u).queue|
  {
    hide Owned, Once, Passed, FiniOrder, Finalized;
    assert WellNested(Stack(s, u));
  }

  // ----- The walk that hangs -----

  /** A call with an entry after the one it is constructing, or at one. */
  predicate Unfinished(f: Frame) {
    (if f.pc == Running || f.pc == Relocking then f.i + 1 else f.i) < |f.queue|
  }

  /** The constructors of `p` have made, directly or not, a call that is not at its end. */
  ghost predicate HeldIn(stack: seq<Frame>, p: Obj, k: nat, m: nat) {
    k < m < |stack| && Visiting(stack[k]) && EntryOf(stack[k]) == p && Unfinished(stack[m])
  }

  ghost predicate HeldBy(stack: seq<Frame>, p: Obj) {
    exists k: nat, m: nat :: HeldIn(stack, p, k, m)
  }

  /** Another thread than the exiting one is constructing `p` and will not end it. */
  ghost predicate Held(s: State, p: Obj) {
    && !s.exit.NoExit? && p in s.visitor && s.visitor[p] != s.exit.t && HeldBy(Stack(s, s.visitor[p]), p)
  }

  predicate InExitWalk(s: State) {
    s.exit.Walking? || s.exit.ExitWaiting?
  }

  /** The walk has such an object before it. */
  ghost predicate Hung(s: State) {
    InExitWalk(s) && exists k :: s.exit.pos <= k < |s.fini| && Held(s, s.fini[k])
  }

  lemma UnfinishedChange(f: Frame, a: Action)
    requires ChangesFrame(a) && StandsAt(f, a) && !a.Skip? && !a.Begin?
    ensures Unfinished(FrameAfter(f, a)) <==> Unfinished(f)
  {
  }

  /** A step of the call's own thread keeps it, as the unfinished call is above the visit. */
  lemma HeldInChange(stack: seq<Frame>, p: Obj, k: nat, m: nat, a: Action)
    requires HeldIn(stack, p, k, m) && ChangesFrame(a) && StandsAt(stack[|stack| - 1], a) && !a.Skip? && !a.Begin?
    ensures HeldIn(stack[|stack| - 1 := FrameAfter(stack[|stack| - 1], a)], p, k, m)
  {
    UnfinishedChange(stack[|stack| - 1], a);
  }

  lemma HeldInPop(stack: seq<Frame>, p: Obj, k: nat, m: nat)
    requires HeldIn(stack, p, k, m) && stack[|stack| - 1].pc == Checking && stack[|stack| - 1].i >= |stack[|stack| - 1].queue|
    ensures HeldIn(stack[..|stack| - 1], p, k, m)
  {
  }

  lemma HeldInPush(stack: seq<Frame>, p: Obj, k: nat, m: nat, f: Frame)
    requires HeldIn(stack, p, k, m)
    ensures HeldIn(stack + [f], p, k, m)
  {
  }

  lemma HeldStack(s: State, a: Action, w: set<Obj>, t: Tid, p: Obj)
    requires Enabled(s, a) && s.shuttingDown && HeldBy(Stack(s, t), p)
    ensures HeldBy(Stack(Step(s, a, w), t), p)
  {
    ExitStays(s, a, w);
    StackStep(s, a, w);
    OthersKeepStacks(s, a, w);
    hide Step, Enabled, HeldIn, FrameAfter;
    var stack := Stack(s, t);
    var k: nat, m: nat :| HeldIn(stack, p, k, m);
    if t == Actor(s, a) {
      if a.Call? {
        HeldInPush(stack, p, k, m, Frame(a.queue, 0, Locking));
      } else if a.Finish? {
        HeldInPop(stack, p, k, m);
      } else if ChangesFrame(a) {
        HeldInChange(stack, p, k, m, a);
      }
    }
  }

  lemma HeldBelow(stack: seq<Frame>, p: Obj)
    requires Distinct(Visits(stack)) && HeldBy(stack, p) && Visiting(stack[|stack| - 1])
    ensures EntryOf(stack[|stack| - 1]) != p
  {
    hide Visits, Distinct;
    var k: nat, m: nat :| HeldIn(stack, p, k, m);
    VisitsApart(stack, k, |stack| - 1);
  }

  /** The object stays visited: only the innermost call of its thread ends constructors. */
  lemma HeldVisitor(s: State, a: Action, w: set<Obj>, p: Obj)
    requires Inv(s, w) && Enabled(s, a) && s.shuttingDown && p in s.visitor && HeldBy(Stack(s, s.visitor[p]), p)
    ensures p in Step(s, a, w).visitor && Step(s, a, w).visitor[p] == s.visitor[p]
  {
    hide Inv, Step, Enabled, Visits, Distinct, HeldBy;
    ExitStays(s, a, w);
    if a.End? {
      OwnedEnds(s, a, w);
      StackStep(s, a, w);
      ThreadFacts(s, w, a.t);
      if s.visitor[p] == a.t { HeldBelow(Stack(s, a.t), p); }
    }
  }

  lemma OwnedEnds(s: State, a: Action, w: set<Obj>)
    requires Inv(s, w) && Enabled(s, a) && a.End?
    ensures EntryOf(Top(s, a.t)) in s.visitor && s.visitor[EntryOf(Top(s, a.t))] == a.t
  {
    OwnedStep(s, a, w);
  }

  /** The walk does not pass an object that another thread is constructing. */
  lemma WalkStops(s: State, a: Action, w: set<Obj>, k: nat)
    requires Enabled(s, a) && InExitWalk(s) && s.exit.pos <= k < |s.fini| && VisitedByOther(s, s.fini[k], s.exit.t)
    ensures InExitWalk(Step(s, a, w)) && Step(s, a, w).exit.t == s.exit.t && Step(s, a, w).exit.pos <= k
  {
  }

  lemma WalkShuts(s: State, w: set<Obj>)
    requires Inv(s, w) && InExitWalk(s)
    ensures s.shuttingDown
  {
    hide Nested, LockHeld, Owned, Once, Passed, FiniOrder, Filter, Settled;
  }

  lemma HungStep(s: State, a: Action, w: set<Obj>)
    requires Inv(s, w) && Enabled(s, a) && Hung(s)
    ensures Hung(Step(s, a, w))
  {
    WalkShuts(s, w);
    hide Inv, Step, Enabled, HeldBy;
    var k :| s.exit.pos <= k < |s.fini| && Held(s, s.fini[k]);
    var p := s.fini[k];
    ExitStays(s, a, w);
    WalkStops(s, a, w, k);
    HeldVisitor(s, a, w, p);
    HeldStack(s, a, w, s.visitor[p], p);
    assert Held(Step(s, a, w), Step(s, a, w).fini[k]);
  }

  /** A walk that hangs never ends, along every run. */
  lemma {:induction false} HungForEver(actions: seq<Action>, more: seq<Action>, w: set<Obj>)
    requires Run(actions, w).Some? && Hung(Run(actions, w).value) && Run(actions + more, w).Some?
    ensures Hung(Run(actions + more, w).value)
    decreases |more|
  {
    hide Hung, Inv, Step, Enabled;
    if more == [] {
      assert actions + more == actions;
    } else {
      var rest, a := more[..|more| - 1], more[|more| - 1];
      assert (actions + more)[..|actions + more| - 1] == actions + rest;
      HungForEver(actions, rest, w);
      InvAlways(actions + rest, w);
      HungStep(Run(actions + rest, w).value, a, w);
    }
  }

  // ----- A walk that does not hang can end -----

  /** The lock belongs to a thread that stands where it is held, or to the walk; a thread waits at an entry. */
  ghost predicate Tidy(s: State) {
    && (forall t :: s.lock == Some(t) ==> At(s, t, Checking) || ((s.exit.Walking? || s.exit.Exited?) && s.exit.t == t))
    && (forall t :: Stack(s, t) != [] && Top(s, t).pc == Waiting ==> Top(s, t).i < |Top(s, t).queue|)
  }

  lemma LockAfter(s: State, a: Action, w: set<Obj>)
    requires Enabled(s, a)
    ensures var s' := Step(s, a, w);
            && (a.Lock? || a.Wake? || a.End? ==> s'.lock == Some(a.t))
            && (a.Wait? || a.Begin? || a.Finish? || a.ExitWait? ==> s'.lock == None)
            && (a.ExitLock? || a.ExitWake? ==> s'.lock == Some(s.exit.t) && s'.exit.Walking?)
            && (a.Call? || a.Skip? || a.CtorsReturn? || a.ExitCall? || a.ExitSkip? || a.ExitRun? || a.ExitDone? ==> s'.lock == s.lock)
            && (a.Call? || a.Finish? || ChangesFrame(a) ==> s'.exit == s.exit && !Exiting(s, a.t))
            && (a.ExitSkip? || a.ExitRun? ==> s.exit.Walking? && s'.exit.Walking? && s'.exit.t == s.exit.t)
            && (a.ExitDone? ==> s.exit.Walking? && s'.exit.Exited? && s'.exit.t == s.exit.t)
            && (a.ExitCall? || a.Call? ==> InApp(s, a.t))
            && (a.ExitCall? ==> s.exit.NoExit? && s'.exit == ExitLocking(a.t))
            && (a.Skip? ==> At(s, a.t, Checking))
            && (a.CtorsReturn? ==> At(s, a.t, Running))
  {
  }

  /** Waiting, the innermost call of a thread is at an entry. */
  lemma WaitsInside(s: State, a: Action, w: set<Obj>, t: Tid)
    requires Tidy(s) && Enabled(s, a) && WellNested(Stack(s, t)) && t == Actor(s, a)
    ensures var s' := Step(s, a, w); Stack(s', t) != [] && Top(s', t).pc == Waiting ==> Top(s', t).i < |Top(s', t).queue|
  {
    StackStep(s, a, w);
    hide Step, Enabled, Stack;
    assert a.Finish? ==> forall k :: 0 <= k < |Stack(s, t)| - 1 ==> Stack(s, t)[k].pc == Running;
  }

  lemma KeepsLock(s: State, a: Action, w: set<Obj>, t: Tid)
    requires LockHeld(s) && Tidy(s) && Enabled(s, a) && Step(s, a, w).lock == Some(t)
    ensures var s' := Step(s, a, w); At(s', t, Checking) || ((s'.exit.Walking? || s'.exit.Exited?) && s'.exit.t == t)
  {
    LockAfter(s, a, w);
    StackStep(s, a, w);
    OthersKeepStacks(s, a, w);
    hide Step, Enabled, Stack;
  }

  lemma TidyStep(s: State, a: Action, w: set<Obj>)
    requires Nested(s) && LockHeld(s) && Tidy(s) && Enabled(s, a)
    ensures Tidy(Step(s, a, w))
  {
    OthersKeepStacks(s, a, w);
    var s', u := Step(s, a, w), Actor(s, a);
    assert WellNested(Stack(s, u));
    WaitsInside(s, a, w, u);
    hide Step, Enabled, Nested, LockHeld, Stack, WellNested;
    forall t | s'.lock == Some(t) ensures At(s', t, Checking) || ((s'.exit.Walking? || s'.exit.Exited?) && s'.exit.t == t) {
      KeepsLock(s, a, w, t);
    }
  }

  lemma {:induction false} TidyAlways(actions: seq<Action>, w: set<Obj>)
    ensures Run(actions, w).Some? ==> Tidy(Run(actions, w).value)
  {
    if actions != [] {
      hide Tidy, Step, Enabled, Inv, Nested, LockHeld;
      TidyAlways(actions[..|actions| - 1], w);
      InvAlways(actions[..|actions| - 1], w);
      if Run(actions, w).Some? {
        InvNested(Run(actions[..|actions| - 1], w).value, w);
        TidyStep(Run(actions[..|actions| - 1], w).value, actions[|actions| - 1], w);
      }
    }
  }

  /** Without new calls nothing becomes held. */
  lemma HeldBefore(stack: seq<Frame>, p: Obj, k: nat, m: nat, a: Action)
    requires stack != [] && (ChangesFrame(a) || a.Finish?) && StandsAt(stack[|stack| - 1], a) && !a.Skip? && !a.Begin?
    requires HeldIn(if a.Finish? then stack[..|stack| - 1] else stack[|stack| - 1 := FrameAfter(stack[|stack| - 1], a)], p, k, m)
    ensures HeldIn(stack, p, k, m)
  {
    if ChangesFrame(a) { UnfinishedChange(stack[|stack| - 1], a); }
  }

  lemma HeldStackBefore(s: State, a: Action, w: set<Obj>, t: Tid, p: Obj)
    requires Enabled(s, a) && s.shuttingDown && !a.Call? && HeldBy(Stack(Step(s, a, w), t), p)
    ensures HeldBy(Stack(s, t), p)
  {
    ExitStays(s, a, w);
    StackStep(s, a, w);
    OthersKeepStacks(s, a, w);
    hide Step, Enabled, HeldIn, FrameAfter, StandsAt;
    var k: nat, m: nat :| HeldIn(Stack(Step(s, a, w), t), p, k, m);
    if t == Actor(s, a) && (a.Finish? || ChangesFrame(a)) {
      HeldBefore(Stack(s, t), p, k, m, a);
    }
  }

  lemma NotHungStep(s: State, a: Action, w: set<Obj>)
    requires Inv(s, w) && Enabled(s, a) && !a.Call? && InExitWalk(s) && !Hung(s)
    ensures !Hung(Step(s, a, w))
  {
    WalkShuts(s, w);
    hide Inv, HeldBy;
    ExitStays(s, a, w);
    WalkOn(s, a, w);
    var s' := Step(s, a, w);
    hide Step, Enabled;
    if InExitWalk(s') {
      forall k | s'.exit.pos <= k < |s'.fini| ensures !Held(s', s'.fini[k]) {
        var p := s.fini[k];
        assert !Held(s, p);
        if Held(s', p) { HeldStackBefore(s, a, w, s'.visitor[p], p); }
      }
    }
  }

  lemma WalkOn(s: State, a: Action, w: set<Obj>)
    requires Enabled(s, a) && InExitWalk(s)
    ensures var s' := Step(s, a, w);
            s'.exit.t == s.exit.t && (s'.exit.Exited? || (InExitWalk(s') && s.exit.pos <= s'.exit.pos <= s.exit.pos + 1))
    ensures !a.ExitWait? && !a.ExitWake? && !a.ExitSkip? && !a.ExitRun? && !a.ExitDone? ==> Step(s, a, w).exit == s.exit
  {
  }

  // ----- How far the walk has to go -----

  /** The entry the walk is at is being constructed by another thread. */
  predicate Awaited(s: State) {
    InExitWalk(s) && s.exit.pos < |s.fini| && VisitedByOther(s, s.fini[s.exit.pos], s.exit.t)
  }

  function FrameWeight(f: Frame): nat {
    match f.pc case Running => 4 case Locking => 3 case Relocking => 3 case Checking => 2 case Waiting => 1
  }

  function Weight(stack: seq<Frame>): nat {
    if stack == [] then 0 else Weight(stack[..|stack| - 1]) + FrameWeight(stack[|stack| - 1])
  }

  function AwaitedWeight(s: State): nat {
    if Awaited(s) then Weight(Stack(s, s.visitor[s.fini[s.exit.pos]])) else 0
  }

  function AheadOf(s: State): nat {
    if InExitWalk(s) && s.exit.pos <= |s.fini| then |s.fini| - s.exit.pos else 0
  }

  function Phase(s: State): nat {
    if s.exit.Walking? then (if Awaited(s) then 3 else 0) else if s.lock.Some? then 2 else 1
  }

  /** The step brings the end of the walk nearer: it ends, or passes an entry, or an entry is no longer awaited, or its
      thread comes nearer to the end of its constructors, or the lock changes hands the right way. */
  predicate Nearer(s: State, s': State) {
    || s'.exit.Exited?
    || AheadOf(s') < AheadOf(s)
    || (AheadOf(s') == AheadOf(s) && Awaited(s) && !Awaited(s'))
    || (AheadOf(s') == AheadOf(s) && (Awaited(s') <==> Awaited(s)) && AwaitedWeight(s') < AwaitedWeight(s))
    || (AheadOf(s') == AheadOf(s) && (Awaited(s') <==> Awaited(s)) && AwaitedWeight(s') == AwaitedWeight(s) && Phase(s') < Phase(s))
  }

  /** What the theorem starts from. */
  ghost predicate Going(s: State, w: set<Obj>) {
    Inv(s, w) && Tidy(s) && InExitWalk(s) && !Hung(s)
  }

  lemma GoingOn(s: State, a: Action, w: set<Obj>)
    requires Going(s, w) && Enabled(s, a) && !a.Call?
    ensures var s' := Step(s, a, w); s'.exit.Exited? || Going(s', w)
  {
    hide Inv, Tidy, Hung, Step, Enabled, Nested, LockHeld;
    InvNested(s, w);
    InvStep(s, a, w);
    TidyStep(s, a, w);
    NotHungStep(s, a, w);
    WalkOn(s, a, w);
  }

  lemma InvNested(s: State, w: set<Obj>)
    requires Inv(s, w)
    ensures Nested(s) && LockHeld(s) && (forall t :: At(s, t, Checking) ==> s.lock == Some(t)) && WalkPos(s) <= |s.fini|
  {
    hide Nested, Owned, Once, Passed, FiniOrder, Filter, Settled;
  }

  /** The walk waits for the entry. */
  lemma WaitNearer(s: State, w: set<Obj>)
    requires s.exit.Walking? && Awaited(s)
    ensures Enabled(s, ExitWait) && Nearer(s, Step(s, ExitWait, w))
  {
    hide Weight;
    var s' := Step(s, ExitWait, w);
    assert Awaited(s') && Stack(s', s.visitor[s.fini[s.exit.pos]]) == Stack(s, s.visitor[s.fini[s.exit.pos]]);
    hide Stack, Step, Enabled;
  }

  /** The walk passes an entry, or ends. */
  lemma PassNearer(s: State, w: set<Obj>) returns (a: Action)
    requires s.exit.Walking? && s.exit.pos <= |s.fini| && !Awaited(s)
    ensures Enabled(s, a) && !a.Call? && Nearer(s, Step(s, a, w))
  {
    hide AwaitedWeight, Phase, Stack;
    if s.exit.pos >= |s.fini| {
      a := ExitDone;
    } else {
      a := if s.fini[s.exit.pos] in s.constructed then ExitRun else ExitSkip;
      assert AheadOf(Step(s, a, w)) < AheadOf(s);
    }
  }

  /** The walk's own steps. */
  lemma WalkStep(s: State, w: set<Obj>) returns (a: Action)
    requires Going(s, w) && s.exit.Walking?
    ensures Enabled(s, a) && !a.Call? && Nearer(s, Step(s, a, w))
  {
    hide Step, Enabled, Nearer, Inv, Tidy, Hung, Awaited;
    InvNested(s, w);
    if Awaited(s) {
      WaitNearer(s, w);
      a := ExitWait;
    } else {
      a := PassNearer(s, w);
    }
  }

  lemma WeightTop(stack: seq<Frame>, f: Frame)
    requires stack != []
    ensures Weight(stack[|stack| - 1 := f]) + FrameWeight(stack[|stack| - 1]) == Weight(stack) + FrameWeight(f)
    ensures Weight(stack[..|stack| - 1]) < Weight(stack)
  {
    assert stack[|stack| - 1 := f][..|stack| - 1] == stack[..|stack| - 1];
  }

  /** A step of a call, seen from the walk. */
  lemma CallStep(s: State, a: Action, w: set<Obj>)
    requires Going(s, w) && Enabled(s, a) && (a.Finish? || a.Wait? || a.Lock? || a.CtorsReturn?)
    ensures var s' := Step(s, a, w);
            && s'.exit == s.exit && s'.fini == s.fini && s'.visitor == s.visitor
            && (Awaited(s') <==> Awaited(s)) && AheadOf(s') == AheadOf(s)
            && (Awaited(s) && s.visitor[s.fini[s.exit.pos]] == a.t ==> AwaitedWeight(s') < AwaitedWeight(s))
            && (Awaited(s) && s.visitor[s.fini[s.exit.pos]] != a.t ==> AwaitedWeight(s') == AwaitedWeight(s))
            && (!Awaited(s) ==> AwaitedWeight(s') == AwaitedWeight(s) == 0)
  {
    hide Inv, Tidy, Hung, Step, Enabled, Weight, FrameWeight, Stack;
    WalkShuts(s, w);
    ExitStays(s, a, w);
    WalkOn(s, a, w);
    OthersKeepStacks(s, a, w);
    CallWeighs(s, a, w);
  }

  lemma CallWeighs(s: State, a: Action, w: set<Obj>)
    requires Enabled(s, a) && (a.Finish? || a.Wait? || a.Lock? || a.CtorsReturn?)
    ensures Weight(Stack(Step(s, a, w), a.t)) < Weight(Stack(s, a.t))
  {
    StackStep(s, a, w);
    hide Step, Enabled, Weight, Stack;
    WeightTop(Stack(s, a.t), FrameAfter(Top(s, a.t), a));
  }

  /** The thread that holds the lock while the walk waits gives it up. */
  lemma ReleaseStep(s: State, w: set<Obj>) returns (a: Action)
    requires Going(s, w) && s.exit.ExitWaiting? && s.lock.Some?
    ensures Enabled(s, a) && !a.Call? && Nearer(s, Step(s, a, w))
  {
    var u := s.lock.value;
    assert At(s, u, Checking);
    WalkShuts(s, w);
    a := if Top(s, u).i < |Top(s, u).queue| then Wait(u) else Finish(u);
    LockAfter(s, a, w);
    hide Going, Step, Stack;
    CallStep(s, a, w);
  }

  /** The visitor of the awaited object has a call that is not held. */
  lemma AwaitedTop(s: State, w: set<Obj>, t: Tid)
    requires Going(s, w) && Awaited(s) && t == s.visitor[s.fini[s.exit.pos]] && s.lock == None
    ensures Stack(s, t) != [] && !Exiting(s, t) && (Top(s, t).pc == Running || Top(s, t).pc == Relocking || Top(s, t).pc == Locking)
    ensures Top(s, t).pc == Relocking ==> Top(s, t).i < |Top(s, t).queue|
  {
    hide Visits, Inv, HeldBy;
    var p := s.fini[s.exit.pos];
    InvNested(s, w);
    VisitorVisits(s, w, t, p);
    var k := VisitsFrame(Stack(s, t), p);
    InsideQueue(s, w, t);
    assert !Held(s, s.fini[s.exit.pos]);
    TopUnheld(Stack(s, t), p, k);
    assert Top(s, t).pc == Checking ==> At(s, t, Checking);
  }

  /** A call that is not held is being constructed by its thread's innermost call, or that call is at its end. */
  lemma TopUnheld(stack: seq<Frame>, p: Obj, k: nat)
    requires k < |stack| && Visiting(stack[k]) && EntryOf(stack[k]) == p && !HeldBy(stack, p)
    ensures Visiting(stack[|stack| - 1]) || !Unfinished(stack[|stack| - 1])
  {
    assert !HeldIn(stack, p, k, |stack| - 1);
  }

  lemma EndStep(s: State, w: set<Obj>, t: Tid)
    requires Going(s, w) && Awaited(s) && t == s.visitor[s.fini[s.exit.pos]] && Enabled(s, End(t))
    ensures Nearer(s, Step(s, End(t), w))
  {
    WalkShuts(s, w);
    ExitStays(s, End(t), w);
    WalkOn(s, End(t), w);
    EndWeighs(s, w, t);
    hide Going, Step, Enabled, Weight, Stack;
  }

  lemma EndWeighs(s: State, w: set<Obj>, t: Tid)
    requires Enabled(s, End(t))
    ensures Weight(Stack(Step(s, End(t), w), t)) < Weight(Stack(s, t))
  {
    StackStep(s, End(t), w);
    hide Step, Enabled, Weight, Stack;
    WeightTop(Stack(s, t), FrameAfter(Top(s, t), End(t)));
  }

  /** With the lock free, the thread that is awaited has a step. */
  lemma AwaitedStep(s: State, w: set<Obj>) returns (a: Action)
    requires Going(s, w) && s.exit.ExitWaiting? && s.lock == None && Awaited(s)
    ensures Enabled(s, a) && !a.Call? && Nearer(s, Step(s, a, w))
  {
    var t := s.visitor[s.fini[s.exit.pos]];
    AwaitedTop(s, w, t);
    hide Going;
    if Top(s, t).pc == Relocking {
      a := End(t);
      EndStep(s, w, t);
    } else {
      a := if Top(s, t).pc == Running then CtorsReturn(t) else Lock(t);
      CallStep(s, a, w);
    }
  }

  lemma WakeStep(s: State, w: set<Obj>)
    requires Going(s, w) && s.exit.ExitWaiting? && s.lock == None && !Awaited(s)
    ensures Enabled(s, ExitWake) && Nearer(s, Step(s, ExitWake, w))
  {
    hide Going, Weight;
  }

  lemma NextStep(s: State, w: set<Obj>) returns (a: Action)
    requires Going(s, w)
    ensures Enabled(s, a) && !a.Call? && Nearer(s, Step(s, a, w))
  {
    hide Step, Enabled, Nearer, Inv, Tidy, Hung;
    if s.exit.Walking? {
      a := WalkStep(s, w);
    } else if s.lock.Some? {
      a := ReleaseStep(s, w);
    } else if Awaited(s) {
      a := AwaitedStep(s, w);
    } else {
      WakeStep(s, w);
      a := ExitWake;
    }
  }

  lemma {:induction false} WalkEnds(actions: seq<Action>, w: set<Obj>, s: State) returns (more: seq<Action>)
    requires Run(actions, w) == Some(s) && Going(s, w)
    ensures Run(actions + more, w).Some? && Run(actions + more, w).value.exit.Exited?
    decreases AheadOf(s), if Awaited(s) then 1 else 0, AwaitedWeight(s), Phase(s)
  {
    hide Run, Step, Enabled, Going, AheadOf, Awaited, AwaitedWeight, Phase;
    var a := NextStep(s, w);
    GoingOn(s, a, w);
    RunMore(actions, a, w);
    var s' := Step(s, a, w);
    if s'.exit.Exited? {
      more := [a];
    } else {
      more := WalkEnds(actions + [a], w, s');
      assert actions + [a] + more == actions + ([a] + more);
      more := [a] + more;
    }
  }

  lemma RunMore(actions: seq<Action>, a: Action, w: set<Obj>)
    requires Run(actions, w).Some? && Enabled(Run(actions, w).value, a)
    ensures Run(actions + [a], w) == Some(Step(Run(actions, w).value, a, w))
  {
    assert (actions + [a])[..|actions|] == actions;
  }

  /** In every state of every run in which the walk is under way: some continuation ends it if and only if no object
      that is still before it is held by another thread. */
  lemma ExitEndsExactly(actions: seq<Action>, w: set<Obj>)
    requires Run(actions, w).Some? && InExitWalk(Run(actions, w).value)
    ensures (exists more :: Run(actions + more, w).Some? && Run(actions + more, w).value.exit.Exited?) <==> !Hung(Run(actions, w).value)
  {
    var s := Run(actions, w).value;
    InvAlways(actions, w);
    TidyAlways(actions, w);
    hide Run, Inv, Tidy, Held;
    if Hung(s) {
      forall more | Run(actions + more, w).Some? ensures !Run(actions + more, w).value.exit.Exited? {
        HungForEver(actions, more, w);
      }
    } else {
      var more := WalkEnds(actions, w, s);
    }
  }

  // ----- Exactly when a walk can hang -----

  /** Thread 2 exits while thread 1 constructs an object whose constructors have opened another. */
  lemma ExitsInside(s: State, stack: seq<Frame>, p: Obj, w: set<Obj>)
    requires s.exit == NoExit && s.lock == None && s.fini == [p] && s.visitor == map[p := 1]
    requires Stack(s, 2) == [] && Stack(s, 1) == stack && HeldIn(stack, p, 0, 1)
    ensures Enabled(s, ExitCall(2))
    ensures var s1 := Step(s, ExitCall(2), w);
            && Enabled(s1, ExitLock)
            && var s2 := Step(s1, ExitLock, w);
            Enabled(s2, ExitWait) && Hung(Step(s2, ExitWait, w))
  {
    hide HeldIn;
    var e := Step(Step(Step(s, ExitCall(2), w), ExitLock, w), ExitWait, w);
    assert Stack(e, 1) == stack;
    assert Held(e, e.fini[0]);
  }

  /** A thread constructs `p`, whose constructors open `q`, and another thread exits: the walk waits for `p` for ever. */
  lemma OpeningHangs(p: Obj, q: Obj, w: set<Obj>, opens: Opens) returns (actions: seq<Action>)
    requires p in w && p in opens && q in opens[p]
    ensures Run(actions, w).Some? && Follows(actions, w, opens) && Hung(Run(actions, w).value)
  {
    assert Arrives([], w, opens, INIT);
    hide Run, Follows, Step, Enabled, Hung;
    var stack := [Frame([p], 0, Running), Frame([q], 0, Locking)];
    var s := Standing(Visited(INIT, 1, p, w), 1, stack, None);
    actions := OpensInside([], w, opens, INIT, 1, p, q);
    StackOf(Visited(INIT, 1, p, w), 1, stack, None);
    ExitsInside(s, stack, p, w);
    var s1 := Step(s, ExitCall(2), w);
    var s2 := Step(s1, ExitLock, w);
    ArrivesOn(actions, w, opens, s, ExitCall(2), s1);
    ArrivesOn(actions + [ExitCall(2)], w, opens, s1, ExitLock, s2);
    ArrivesOn(actions + [ExitCall(2)] + [ExitLock], w, opens, s2, ExitWait, Step(s2, ExitWait, w));
    actions := actions + [ExitCall(2)] + [ExitLock] + [ExitWait];
  }

  /** What is held has constructors that opened something. */
  lemma HeldOpens(stack: seq<Frame>, p: Obj, opens: Opens)
    requires HeldBy(stack, p) && WellNested(stack) && Chained(stack, opens)
    ensures p in opens && opens[p] != []
  {
    var k: nat, m: nat :| HeldIn(stack, p, k, m);
    assert OpenedBy(stack[k], stack[k + 1], opens);
    var inner := stack[k + 1];
    assert inner in stack;
    assert k + 1 < m ==> inner.pc == Running;
    var q := inner.queue[0];
    assert q in inner.queue;
    assert q in opens[EntryOf(stack[k])];
  }

  lemma HangNeedsOpening(actions: seq<Action>, w: set<Obj>, opens: Opens) returns (p: Obj)
    requires Run(actions, w).Some? && Follows(actions, w, opens) && Hung(Run(actions, w).value)
    ensures p in w && p in opens && opens[p] != []
  {
    hide Run, Follows, Inv, WellNested, Chained, HeldBy, Distinct, OwnedBy, Visits;
    InvAlways(actions, w);
    ChainedAlways(actions, w, opens);
    var s := Run(actions, w).value;
    var k :| s.exit.pos <= k < |s.fini| && Held(s, s.fini[k]);
    p := s.fini[k];
    ThreadFacts(s, w, s.visitor[p]);
    HeldOpens(Stack(s, s.visitor[p]), p, opens);
    FiniHave(s, w, p);
  }

  lemma FiniHave(s: State, w: set<Obj>, p: Obj)
    requires Inv(s, w) && p in s.fini
    ensures p in w
  {
    hide Nested, LockHeld, Owned, Once, Passed, Finalized, Filter, Reverse;
    ReverseAt(Filter(s.starts, w));
    FilterMembers(s.starts, w);
  }

  /** No run whose constructors open only what they may comes to a walk that hangs. */
  ghost predicate NeverHangs(w: set<Obj>, opens: Opens) {
    forall actions :: Run(actions, w).Some? && Follows(actions, w, opens) ==> !Hung(Run(actions, w).value)
  }

  /** That is so if and only if no object with finalizers has constructors that may open anything. */
  lemma NeverHangsExactly(w: set<Obj>, opens: Opens)
    ensures NeverHangs(w, opens) <==> forall p :: p in w && p in opens ==> opens[p] == []
  {
    hide Run, Follows, Hung;
    if p :| p in w && p in opens && opens[p] != [] {
      var actions := OpeningHangs(p, opens[p][0], w, opens);
    } else {
      forall actions | Run(actions, w).Some? && Follows(actions, w, opens) ensures !Hung(Run(actions, w).value) {
        if Hung(Run(actions, w).value) { var p := HangNeedsOpening(actions, w, opens); }
      }
    }
  }
}
