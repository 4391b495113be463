/** The constructor and finalizer protocol of `do_init_fini` and `__libc_exit_fini`
    as a state machine: any number of threads, each with a stack of nested calls
    (a constructor may call `dlopen`), interleaved at every lock operation. */
module CtorProtocol {
  import opened Sequences
  import opened Graphs
  import CtorQueue

  type Tid = int
  type Obj = int

  /** Where a call of `do_init_fini` stands: before the first lock, holding the lock
      at the head of the loop, in `pthread_cond_wait`, running the constructors of the
      current entry without the lock, or about to lock again after them. */
  datatype Pc = Locking | Checking | Waiting | Running | Relocking

  datatype Frame = Frame(queue: seq<Obj>, i: nat, pc: Pc)

  /** Progress of the one call of `__libc_exit_fini`. */
  datatype Exit = NoExit | ExitLocking(t: Tid) | Walking(t: Tid, pos: nat) | ExitWaiting(t: Tid, pos: nat) | Exited(t: Tid)

  datatype State = State(
    lock: Option<Tid>,             // init_fini_lock
    visitor: map<Obj, Tid>,        // ctor_visitor, where set
    constructed: set<Obj>,
    fini: seq<Obj>,                // the list at fini_head, head first
    shuttingDown: bool,
    stacks: map<Tid, seq<Frame>>,
    exit: Exit,
    starts: seq<Obj>,              // history: constructor runs in the order they started
    finalized: seq<Obj>)           // history: finalizer runs

  datatype Action =
    | Call(t: Tid, queue: seq<Obj>)
    | Lock(t: Tid)
    | Wait(t: Tid)
    | Wake(t: Tid)
    | Skip(t: Tid)
    | Begin(t: Tid)
    | CtorsReturn(t: Tid)
    | End(t: Tid)
    | Finish(t: Tid)
    | ExitCall(t: Tid)
    | ExitLock
    | ExitWait
    | ExitWake
    | ExitSkip
    | ExitRun
    | ExitDone

  const INIT := State(None, map[], {}, [], false, map[], NoExit, [], [])

  // ----- Steps -----

  function Stack(s: State, t: Tid): seq<Frame> {
    if t in s.stacks then s.stacks[t] else []
  }

  function Top(s: State, t: Tid): Frame
    requires Stack(s, t) != []
  {
    Stack(s, t)[|Stack(s, t)| - 1]
  }

  function SetTop(s: State, t: Tid, f: Frame): State
    requires Stack(s, t) != []
  {
    s.(stacks := s.stacks[t := Stack(s, t)[|Stack(s, t)| - 1 := f]])
  }

  predicate Exiting(s: State, t: Tid) {
    !s.exit.NoExit? && s.exit.t == t
  }

  /** Thread `t` is in a call that stands at `pc`. A thread that called `exit` never returns to it. */
  predicate At(s: State, t: Tid, pc: Pc) {
    !Exiting(s, t) && Stack(s, t) != [] && Top(s, t).pc == pc
  }

  /** Thread `t` is in application code: outside any call, or in a constructor. */
  predicate InApp(s: State, t: Tid) {
    !Exiting(s, t) && (Stack(s, t) != [] ==> Top(s, t).pc == Running)
  }

  predicate VisitedByOther(s: State, p: Obj, t: Tid) {
    p in s.visitor && s.visitor[p] != t
  }

  /** `t` holds the lock with an entry to look at. */
  predicate AtEntry(s: State, t: Tid) {
    At(s, t, Checking) && Top(s, t).i < |Top(s, t).queue|
  }

  function Entry(s: State, t: Tid): Obj
    requires AtEntry(s, t)
  {
    Top(s, t).queue[Top(s, t).i]
  }

  predicate MustWait(s: State, t: Tid)
    requires AtEntry(s, t)
  {
    VisitedByOther(s, Entry(s, t), t) || s.shuttingDown
  }

  predicate InWalk(s: State) {
    s.exit.Walking? && s.exit.pos < |s.fini|
  }

  predicate Enabled(s: State, a: Action) {
    match a
    case Call(t, _) => InApp(s, t)
    case Lock(t) => At(s, t, Locking) && s.lock == None
    case Wait(t) => AtEntry(s, t) && MustWait(s, t)
    case Wake(t) => At(s, t, Waiting) && s.lock == None
    case Skip(t) => AtEntry(s, t) && !MustWait(s, t) && (Entry(s, t) in s.visitor || Entry(s, t) in s.constructed)
    case Begin(t) => AtEntry(s, t) && !MustWait(s, t) && Entry(s, t) !in s.visitor && Entry(s, t) !in s.constructed
    case CtorsReturn(t) => At(s, t, Running)
    case End(t) => At(s, t, Relocking) && Top(s, t).i < |Top(s, t).queue| && s.lock == None
    case Finish(t) => At(s, t, Checking) && Top(s, t).i >= |Top(s, t).queue|
    case ExitCall(t) => s.exit.NoExit? && InApp(s, t)
    case ExitLock => s.exit.ExitLocking? && s.lock == None
    case ExitWait => InWalk(s) && VisitedByOther(s, s.fini[s.exit.pos], s.exit.t)
    case ExitWake => s.exit.ExitWaiting? && s.lock == None
    case ExitSkip => InWalk(s) && !VisitedByOther(s, s.fini[s.exit.pos], s.exit.t) && s.fini[s.exit.pos] !in s.constructed
    case ExitRun => InWalk(s) && !VisitedByOther(s, s.fini[s.exit.pos], s.exit.t) && s.fini[s.exit.pos] in s.constructed
    case ExitDone => s.exit.Walking? && s.exit.pos >= |s.fini|
  }

  /** `withFini` says which objects have finalizers (DT_FINI or DT_FINI_ARRAY). */
  function Step(s: State, a: Action, withFini: set<Obj>): State
    requires Enabled(s, a)
  {
    match a
    case Call(t, queue) => s.(stacks := s.stacks[t := Stack(s, t) + [Frame(queue, 0, Locking)]])
    case Lock(t) => SetTop(s, t, Top(s, t).(pc := Checking)).(lock := Some(t))
    case Wait(t) => SetTop(s, t, Top(s, t).(pc := Waiting)).(lock := None)
    case Wake(t) => SetTop(s, t, Top(s, t).(pc := Checking)).(lock := Some(t))
    case Skip(t) => SetTop(s, t, Top(s, t).(i := Top(s, t).i + 1))
    case Begin(t) =>
      var p := Entry(s, t);
      SetTop(s, t, Top(s, t).(pc := Running)).(
        lock := None, visitor := s.visitor[p := t], starts := s.starts + [p],
        fini := if p in withFini then [p] + s.fini else s.fini)
    case CtorsReturn(t) => SetTop(s, t, Top(s, t).(pc := Relocking))
    case End(t) =>
      var f := Top(s, t);
      var p := f.queue[f.i];
      SetTop(s, t, f.(pc := Checking, i := f.i + 1)).(
        lock := Some(t), visitor := s.visitor - {p}, constructed := s.constructed + {p})
    case Finish(t) => s.(lock := None, stacks := s.stacks[t := Stack(s, t)[..|Stack(s, t)| - 1]])
    case ExitCall(t) => s.(exit := ExitLocking(t))
    case ExitLock => s.(lock := Some(s.exit.t), shuttingDown := true, exit := Walking(s.exit.t, 0))
    case ExitWait => s.(lock := None, exit := ExitWaiting(s.exit.t, s.exit.pos))
    case ExitWake => s.(lock := Some(s.exit.t), exit := Walking(s.exit.t, s.exit.pos))
    case ExitSkip => s.(exit := Walking(s.exit.t, s.exit.pos + 1))
    case ExitRun => s.(finalized := s.finalized + [s.fini[s.exit.pos]], exit := Walking(s.exit.t, s.exit.pos + 1))
    case ExitDone => s.(exit := Exited(s.exit.t))
  }

  /** The state after a run of the machine; none if some action is not enabled. */
  function Run(actions: seq<Action>, withFini: set<Obj>): Option<State> {
    if actions == [] then Some(INIT)
    else
      var r := Run(actions[..|actions| - 1], withFini);
      var a := actions[|actions| - 1];
      if r.Some? && Enabled(r.value, a) then Some(Step(r.value, a, withFini)) else None
  }

  // ----- Invariants -----

  /** A call is between setting itself as visitor of its entry and clearing that. */
  predicate Visiting(f: Frame) {
    f.pc in {Running, Relocking} && f.i < |f.queue|
  }

  /** The entries that the calls on a stack are constructing, outermost first. */
  function Visits(stack: seq<Frame>): seq<Obj> {
    if stack == [] then []
    else
      var f := stack[|stack| - 1];
      Visits(stack[..|stack| - 1]) + if Visiting(f) then [f.queue[f.i]] else []
  }

  /** Calls stay within their queues, and all but the innermost are in a constructor. */
  ghost predicate WellNested(stack: seq<Frame>) {
    && (forall f :: f in stack ==> f.i <= |f.queue| && (f.pc in {Running, Relocking} ==> f.i < |f.queue|))
    && (forall k :: 0 <= k < |stack| - 1 ==> stack[k].pc == Running)
  }

  ghost predicate Nested(s: State) {
    && (forall t :: WellNested(Stack(s, t)))
    && (!s.exit.NoExit? ==> Stack(s, s.exit.t) != [] ==> Top(s, s.exit.t).pc == Running)
  }

  /** The holder of the lock is the one thread that stands where the lock is held. */
  ghost predicate LockHeld(s: State) {
    && (forall t :: At(s, t, Checking) ==> s.lock == Some(t))
    && (s.exit.Walking? || s.exit.Exited? ==> s.lock == Some(s.exit.t))
  }

  /** The visitor fields are exactly what the calls in progress set. */
  ghost predicate Owned(s: State) {
    forall t :: Distinct(Visits(Stack(s, t))) && OwnedBy(s, t, Visits(Stack(s, t)))
  }

  ghost predicate OwnedBy(s: State, t: Tid, visits: seq<Obj>) {
    forall p :: p in visits <==> p in s.visitor && s.visitor[p] == t
  }

  /** Constructors start once; an object that started is visited or constructed, never both. */
  ghost predicate Once(s: State) {
    OnceIn(s.starts, s.visitor.Keys, s.constructed)
  }

  ghost predicate OnceIn(starts: seq<Obj>, visited: set<Obj>, constructed: set<Obj>) {
    && Distinct(starts)
    && (forall p :: p in starts <==> p in visited || p in constructed)
    && visited !! constructed
  }

  /** Thread `t` may rely on `p`: it is constructed, or `t` itself is constructing it further up its stack. */
  predicate Settled(s: State, t: Tid, p: Obj) {
    p in s.constructed || (p in s.visitor && s.visitor[p] == t)
  }

  /** Every entry a call has passed is settled for its thread. */
  ghost predicate PassedBy(s: State, t: Tid, f: Frame) {
    forall m :: 0 <= m < f.i && m < |f.queue| ==> Settled(s, t, f.queue[m])
  }

  ghost predicate Passed(s: State) {
    forall t, f :: f in Stack(s, t) ==> PassedBy(s, t, f)
  }

  function Filter(xs: seq<Obj>, keep: set<Obj>): seq<Obj> {
    if xs == [] then [] else (if xs[0] in keep then [xs[0]] else []) + Filter(xs[1..], keep)
  }

  /** The list to finalize is the reverse of the order in which constructors started. */
  ghost predicate FiniOrder(s: State, withFini: set<Obj>) {
    s.fini == Reverse(Filter(s.starts, withFini))
  }

  /** How many entries of the list the exit walk has dealt with. */
  function WalkPos(s: State): nat {
    match s.exit
    case NoExit => 0
    case ExitLocking(_) => 0
    case Walking(_, pos) => pos
    case ExitWaiting(_, pos) => pos
    case Exited(_) => |s.fini|
  }

  /** The walk finalized exactly the constructed objects it passed, in list order,
      and passed over only what the exiting thread was itself constructing. */
  ghost predicate Finalized(s: State) {
    && WalkPos(s) <= |s.fini|
    && s.finalized == Filter(s.fini[..WalkPos(s)], s.constructed)
    && (s.shuttingDown <==> s.exit.Walking? || s.exit.ExitWaiting? || s.exit.Exited?)
    && (s.shuttingDown ==> forall k :: 0 <= k < WalkPos(s) ==> Settled(s, s.exit.t, s.fini[k]))
  }

  ghost predicate Inv(s: State, withFini: set<Obj>) {
    Nested(s) && LockHeld(s) && Owned(s) && Once(s) && Passed(s) && FiniOrder(s, withFini) && Finalized(s)
  }

  // ----- Every step keeps them -----

  /** The thread whose stack an action changes. */
  function Actor(s: State, a: Action): Tid
    requires Enabled(s, a)
  {
    match a
    case Call(t, _) => t
    case Lock(t) => t
    case Wait(t) => t
    case Wake(t) => t
    case Skip(t) => t
    case Begin(t) => t
    case CtorsReturn(t) => t
    case End(t) => t
    case Finish(t) => t
    case ExitCall(t) => t
    case _ => s.exit.t
  }

  lemma OthersKeepStacks(s: State, a: Action, w: set<Obj>)
    requires Enabled(s, a)
    ensures forall t :: t != Actor(s, a) ==> Stack(Step(s, a, w), t) == Stack(s, t)
  {
  }

  lemma LockStep(s: State, a: Action, w: set<Obj>)
    requires Nested(s) && LockHeld(s) && Enabled(s, a)
    ensures LockHeld(Step(s, a, w))
  {
    var t, s' := Actor(s, a), Step(s, a, w);
    OthersKeepStacks(s, a, w);
    assert WellNested(Stack(s, t));
  }

  lemma VisitsTop(stack: seq<Frame>, f: Frame)
    requires stack != []
    ensures Visits(stack[|stack| - 1 := f]) == Visits(stack[..|stack| - 1]) + if Visiting(f) then [f.queue[f.i]] else []
  {
  }

  /** What a step of its own makes of a call's frame. */
  function FrameAfter(f: Frame, a: Action): Frame {
    match a
    case Lock(_) => f.(pc := Checking)
    case Wait(_) => f.(pc := Waiting)
    case Wake(_) => f.(pc := Checking)
    case Skip(_) => f.(i := f.i + 1)
    case Begin(_) => f.(pc := Running)
    case CtorsReturn(_) => f.(pc := Relocking)
    case End(_) => f.(pc := Checking, i := f.i + 1)
    case _ => f
  }

  predicate ChangesFrame(a: Action) {
    a.Lock? || a.Wait? || a.Wake? || a.Skip? || a.Begin? || a.CtorsReturn? || a.End?
  }

  /** Where the innermost call stands when it takes a step. */
  predicate StandsAt(f: Frame, a: Action) {
    match a
    case Lock(_) => f.pc == Locking
    case Wake(_) => f.pc == Waiting
    case CtorsReturn(_) => f.pc == Running
    case End(_) => f.pc == Relocking && f.i < |f.queue|
    case Finish(_) => f.pc == Checking && f.i >= |f.queue|
    case _ => f.pc == Checking && f.i < |f.queue|
  }

  lemma StackStep(s: State, a: Action, w: set<Obj>)
    requires Enabled(s, a)
    ensures var t := Actor(s, a);
            var before, after := Stack(s, t), Stack(Step(s, a, w), t);
            && (ChangesFrame(a) || a.Finish? ==> before != [] && StandsAt(Top(s, t), a))
            && after == if a.Call? then before + [Frame(a.queue, 0, Locking)]
                        else if a.Finish? then before[..|before| - 1]
                        else if ChangesFrame(a) then before[|before| - 1 := FrameAfter(Top(s, t), a)]
                        else before
  {
  }

  /** A change of the innermost frame keeps the nesting. */
  lemma NestedChange(stack: seq<Frame>, a: Action)
    requires WellNested(stack) && stack != [] && ChangesFrame(a) && StandsAt(stack[|stack| - 1], a)
    ensures WellNested(stack[|stack| - 1 := FrameAfter(stack[|stack| - 1], a)])
  {
    assert stack[|stack| - 1] in stack;
  }

  lemma NestedPop(stack: seq<Frame>)
    requires WellNested(stack) && stack != []
    ensures WellNested(stack[..|stack| - 1])
    ensures |stack| > 1 ==> stack[..|stack| - 1][|stack| - 2].pc == Running
  {
  }

  lemma NestedPush(stack: seq<Frame>, f: Frame)
    requires WellNested(stack) && (stack != [] ==> stack[|stack| - 1].pc == Running) && f.i == 0 && f.pc == Locking
    ensures WellNested(stack + [f])
  {
  }

  /** A thread calls only from application code, and the exiting thread takes no steps of calls. */
  lemma ActsInApp(s: State, a: Action, w: set<Obj>)
    requires Enabled(s, a)
    ensures a.Call? ==> Stack(s, a.t) != [] ==> Top(s, a.t).pc == Running
    ensures a.Call? || a.Finish? || ChangesFrame(a) ==> !Exiting(s, Actor(s, a))
    ensures Step(s, a, w).exit.NoExit? || (!s.exit.NoExit? && Step(s, a, w).exit.t == s.exit.t) || (a.ExitCall? && InApp(s, a.t) && Step(s, a, w).exit.t == a.t)
    ensures s.exit.NoExit? && !a.ExitCall? ==> Step(s, a, w).exit.NoExit?
  {
  }

  lemma NestedStep(s: State, a: Action, w: set<Obj>)
    requires Nested(s) && Enabled(s, a)
    ensures Nested(Step(s, a, w))
  {
    OthersKeepStacks(s, a, w);
    StackStep(s, a, w);
    ActsInApp(s, a, w);
    var t, s' := Actor(s, a), Step(s, a, w);
    var stack := Stack(s, t);
    assert WellNested(stack);
    hide Step, Enabled, WellNested, FrameAfter, StandsAt, Stack;
    if a.Call? {
      NestedPush(stack, Frame(a.queue, 0, Locking));
    } else if a.Finish? {
      NestedPop(stack);
    } else if ChangesFrame(a) {
      NestedChange(stack, a);
    }
    assert WellNested(Stack(s', t));
    forall u ensures WellNested(Stack(s', u)) {
      if u != t { assert WellNested(Stack(s, u)); }
    }
  }

  /** What a change of the innermost frame does to the visits. */
  lemma VisitsChange(stack: seq<Frame>, a: Action)
    requires stack != [] && (ChangesFrame(a) || a.Finish?) && StandsAt(stack[|stack| - 1], a)
    ensures var f := stack[|stack| - 1];
            var after := Visits(stack[|stack| - 1 := FrameAfter(f, a)]);
            if a.Begin? then after == Visits(stack) + [f.queue[f.i]]
            else if a.End? then Visits(stack) == after + [f.queue[f.i]]
            else after == Visits(stack)
    ensures a.Finish? ==> Visits(stack[..|stack| - 1]) == Visits(stack)
  {
    var f := stack[|stack| - 1];
    VisitsTop(stack, f);
    VisitsTop(stack, FrameAfter(f, a));
    hide Visits;
    assert stack[|stack| - 1 := f] == stack;
  }

  lemma VisitsCall(stack: seq<Frame>, queue: seq<Obj>)
    ensures Visits(stack + [Frame(queue, 0, Locking)]) == Visits(stack)
  {
    assert (stack + [Frame(queue, 0, Locking)])[..|stack|] == stack;
  }

  /** Which entry a step adds to or takes from the actor's visits. */
  lemma VisitsStep(s: State, a: Action, w: set<Obj>)
    requires Enabled(s, a)
    ensures var t := Actor(s, a);
            var before, after := Visits(Stack(s, t)), Visits(Stack(Step(s, a, w), t));
            if a.Begin? then after == before + [Entry(s, t)]
            else if a.End? then before == after + [Top(s, t).queue[Top(s, t).i]]
            else after == before
  {
    hide Step, Visits, StandsAt, FrameAfter;
    StackStep(s, a, w);
    if a.Call? {
      VisitsCall(Stack(s, Actor(s, a)), a.queue);
    } else if a.Finish? || ChangesFrame(a) {
      VisitsChange(Stack(s, Actor(s, a)), a);
    }
  }

  lemma OwnedSame(s: State, s': State)
    requires Owned(s) && s'.visitor == s.visitor
    requires forall t :: Visits(Stack(s', t)) == Visits(Stack(s, t))
    ensures Owned(s')
  {
  }

  lemma OwnedBegin(s: State, s': State, t: Tid, p: Obj)
    requires Owned(s) && p !in s.visitor && s'.visitor == s.visitor[p := t]
    requires forall t' :: t' != t ==> Visits(Stack(s', t')) == Visits(Stack(s, t'))
    requires Visits(Stack(s', t)) == Visits(Stack(s, t)) + [p]
    ensures Owned(s')
  {
    hide Visits;
    forall t' ensures Distinct(Visits(Stack(s', t'))) && OwnedBy(s', t', Visits(Stack(s', t'))) {
      assert OwnedBy(s, t', Visits(Stack(s, t')));
    }
  }

  lemma OwnedEnd(s: State, s': State, t: Tid, p: Obj)
    requires Owned(s) && s'.visitor == s.visitor - {p}
    requires forall t' :: t' != t ==> Visits(Stack(s', t')) == Visits(Stack(s, t'))
    requires Visits(Stack(s, t)) == Visits(Stack(s', t)) + [p]
    ensures Owned(s') && p in s.visitor && s.visitor[p] == t
  {
    hide Visits;
    var before, after := Visits(Stack(s, t)), Visits(Stack(s', t));
    assert OwnedBy(s, t, before);
    assert before[|after|] == p && p in before;
    assert forall i :: 0 <= i < |after| ==> after[i] == before[i];
    assert p !in after && Distinct(after);
    assert forall x :: x in after <==> x in before && x != p;
    forall t' ensures Distinct(Visits(Stack(s', t'))) && OwnedBy(s', t', Visits(Stack(s', t'))) {
      assert OwnedBy(s, t', Visits(Stack(s, t')));
    }
  }

  lemma OwnedStep(s: State, a: Action, w: set<Obj>)
    requires Nested(s) && Owned(s) && Enabled(s, a)
    ensures Owned(Step(s, a, w))
    ensures a.End? ==> var p := Top(s, a.t).queue[Top(s, a.t).i]; p in s.visitor && s.visitor[p] == a.t
  {
    hide Nested, Owned, Visits;
    VisitsStep(s, a, w);
    OthersKeepStacks(s, a, w);
    var s' := Step(s, a, w);
    if a.Begin? {
      OwnedBegin(s, s', a.t, Entry(s, a.t));
    } else if a.End? {
      OwnedEnd(s, s', a.t, Top(s, a.t).queue[Top(s, a.t).i]);
    } else {
      OwnedSame(s, s');
    }
  }

  lemma OnceBegin(starts: seq<Obj>, visited: set<Obj>, constructed: set<Obj>, p: Obj)
    requires OnceIn(starts, visited, constructed) && p !in visited && p !in constructed
    ensures OnceIn(starts + [p], visited + {p}, constructed)
  {
  }

  lemma OnceEnd(starts: seq<Obj>, visited: set<Obj>, constructed: set<Obj>, p: Obj)
    requires OnceIn(starts, visited, constructed) && p in visited
    ensures OnceIn(starts, visited - {p}, constructed + {p})
  {
  }

  lemma OnceStep(s: State, a: Action, w: set<Obj>)
    requires Nested(s) && Owned(s) && Once(s) && Enabled(s, a)
    ensures Once(Step(s, a, w))
  {
    OwnedStep(s, a, w);
    hide Nested, Owned, Visits, OnceIn;
    var s' := Step(s, a, w);
    if a.Begin? {
      OnceBegin(s.starts, s.visitor.Keys, s.constructed, Entry(s, a.t));
      assert s'.visitor.Keys == s.visitor.Keys + {Entry(s, a.t)};
    } else if a.End? {
      var p := Top(s, a.t).queue[Top(s, a.t).i];
      OnceEnd(s.starts, s.visitor.Keys, s.constructed, p);
      assert s'.visitor.Keys == s.visitor.Keys - {p};
    }
  }

  lemma SettledStays(s: State, a: Action, w: set<Obj>, t: Tid, p: Obj)
    requires Enabled(s, a) && Settled(s, t, p)
    ensures Settled(Step(s, a, w), t, p)
  {
  }

  /** A frame after a step was there before, or is the actor's new innermost one. */
  lemma FramesAfter(s: State, a: Action, w: set<Obj>, t: Tid, f: Frame)
    requires Enabled(s, a) && f in Stack(Step(s, a, w), t)
    ensures f in Stack(s, t) || (t == Actor(s, a) && f == Top(Step(s, a, w), t))
  {
    OthersKeepStacks(s, a, w);
  }

  /** The entry that a step passes is settled after it. */
  lemma PassedEntrySettled(s: State, a: Action, w: set<Obj>)
    requires Enabled(s, a) && (a.Skip? || a.End?)
    ensures Stack(s, a.t) != [] && Top(s, a.t).i < |Top(s, a.t).queue|
    ensures Settled(Step(s, a, w), a.t, Top(s, a.t).queue[Top(s, a.t).i])
  {
  }

  /** The innermost call passes an entry only when it is settled for its thread. */
  lemma TopPassed(s: State, a: Action, w: set<Obj>)
    requires Nested(s) && Passed(s) && Enabled(s, a)
    requires Stack(Step(s, a, w), Actor(s, a)) != []
    ensures PassedBy(Step(s, a, w), Actor(s, a), Top(Step(s, a, w), Actor(s, a)))
  {
    var t, s' := Actor(s, a), Step(s, a, w);
    var f := Top(s', t);
    StackStep(s, a, w);
    assert Stack(s, t) != [] ==> Top(s, t) in Stack(s, t);
    if a.Skip? || a.End? { PassedEntrySettled(s, a, w); }
    hide Step, Enabled, Nested, Settled;
    forall m | 0 <= m < f.i && m < |f.queue| ensures Settled(s', t, f.queue[m]) {
      if a.Finish? {
        assert f in Stack(s, t);
        assert PassedBy(s, t, f);
        SettledStays(s, a, w, t, f.queue[m]);
      } else if m < Top(s, t).i {
        assert PassedBy(s, t, Top(s, t));
        SettledStays(s, a, w, t, f.queue[m]);
      }
    }
  }

  lemma PassedStep(s: State, a: Action, w: set<Obj>)
    requires Nested(s) && Owned(s) && Passed(s) && Enabled(s, a)
    ensures Passed(Step(s, a, w))
  {
    var s' := Step(s, a, w);
    forall t, f | f in Stack(s', t) ensures PassedBy(s', t, f) {
      FramesAfter(s, a, w, t, f);
      if f in Stack(s, t) {
        assert PassedBy(s, t, f);
        forall m | 0 <= m < f.i && m < |f.queue| ensures Settled(s', t, f.queue[m]) {
          SettledStays(s, a, w, t, f.queue[m]);
        }
      } else {
        TopPassed(s, a, w);
      }
    }
  }

  lemma {:induction false} FilterAppend(xs: seq<Obj>, x: Obj, keep: set<Obj>)
    ensures Filter(xs + [x], keep) == Filter(xs, keep) + if x in keep then [x] else []
  {
    if xs != [] {
      FilterAppend(xs[1..], x, keep);
      assert (xs + [x])[1..] == xs[1..] + [x];
    }
  }

  lemma {:induction false} FilterExtends(xs: seq<Obj>, keep: set<Obj>, x: Obj)
    requires x !in xs
    ensures Filter(xs, keep + {x}) == Filter(xs, keep)
  {
    if xs != [] {
      FilterExtends(xs[1..], keep, x);
    }
  }

  lemma {:induction false} FilterMembers(xs: seq<Obj>, keep: set<Obj>)
    ensures forall x :: x in Filter(xs, keep) <==> x in xs && x in keep
    ensures Distinct(xs) ==> Distinct(Filter(xs, keep))
  {
    if xs != [] {
      FilterMembers(xs[1..], keep);
    }
  }

  lemma ReverseAppend(xs: seq<Obj>, x: Obj)
    ensures Reverse(xs + [x]) == [x] + Reverse(xs)
  {
    assert (xs + [x])[..|xs|] == xs;
  }

  lemma {:induction false} ReverseAt(xs: seq<Obj>)
    ensures |Reverse(xs)| == |xs|
    ensures forall k :: 0 <= k < |xs| ==> Reverse(xs)[k] == xs[|xs| - 1 - k]
  {
    if xs != [] {
      ReverseAt(xs[..|xs| - 1]);
    }
  }

  /** Everything on the list has started. */
  lemma FiniStarted(s: State, w: set<Obj>)
    requires FiniOrder(s, w)
    ensures forall p :: p in s.fini ==> p in s.starts
  {
    ReverseAt(Filter(s.starts, w));
    FilterMembers(s.starts, w);
  }

  lemma FiniStep(s: State, a: Action, w: set<Obj>)
    requires FiniOrder(s, w) && Enabled(s, a)
    ensures FiniOrder(Step(s, a, w), w)
  {
    if a.Begin? {
      FilterAppend(s.starts, Entry(s, a.t), w);
      assert Filter(s.starts, w) + [] == Filter(s.starts, w);
      ReverseAppend(Filter(s.starts, w), Entry(s, a.t));
    }
  }

  /** An object whose constructors end during the walk is one the walk has not passed. */
  lemma FinalizedEnd(s: State, t: Tid, w: set<Obj>)
    requires Once(s) && Finalized(s) && Enabled(s, End(t))
    requires var p := Top(s, t).queue[Top(s, t).i]; p in s.visitor && s.visitor[p] == t
    ensures Finalized(Step(s, End(t), w))
  {
    var p := Top(s, t).queue[Top(s, t).i];
    assert p !in s.fini[..WalkPos(s)];
    FilterExtends(s.fini[..WalkPos(s)], s.constructed, p);
  }

  /** The entry the walk is at belongs to the exiting thread or to nobody. */
  lemma WalkEntry(s: State, a: Action, w: set<Obj>)
    requires Once(s) && FiniOrder(s, w) && Enabled(s, a) && (a.ExitRun? || a.ExitSkip?)
    ensures s.exit.Walking? && s.exit.pos < |s.fini| && Settled(s, s.exit.t, s.fini[s.exit.pos])
    ensures a.ExitRun? <==> s.fini[s.exit.pos] in s.constructed
  {
    FiniStarted(s, w);
    hide FiniOrder, Distinct;
    assert s.fini[s.exit.pos] in s.starts;
  }

  lemma FinalizedWalk(s: State, a: Action, w: set<Obj>)
    requires Once(s) && FiniOrder(s, w) && Finalized(s) && Enabled(s, a) && (a.ExitRun? || a.ExitSkip?)
    ensures Finalized(Step(s, a, w))
  {
    hide Once, FiniOrder, Filter, Settled;
    WalkEntry(s, a, w);
    var p := s.fini[s.exit.pos];
    assert s.fini[..s.exit.pos + 1] == s.fini[..s.exit.pos] + [p];
    FilterAppend(s.fini[..s.exit.pos], p, s.constructed);
    SettledSame(s, Step(s, a, w), s.exit.t);
  }

  lemma SettledSame(s: State, s': State, t: Tid)
    requires s'.constructed == s.constructed && s'.visitor == s.visitor
    ensures forall p :: Settled(s, t, p) <==> Settled(s', t, p)
  {
  }

  /** Steps that have nothing to do with finalization. */
  lemma QuietStep(s: State, a: Action, w: set<Obj>)
    requires Enabled(s, a) && !a.End? && !a.ExitRun? && !a.ExitSkip? && !a.Begin? && !a.ExitDone? && Finalized(s)
    ensures var s' := Step(s, a, w);
            && s'.fini == s.fini && s'.constructed == s.constructed && s'.visitor == s.visitor && s'.finalized == s.finalized
            && WalkPos(s') == WalkPos(s)
            && (s'.shuttingDown <==> s'.exit.Walking? || s'.exit.ExitWaiting? || s'.exit.Exited?)
            && (s'.shuttingDown ==> (s.shuttingDown && s'.exit.t == s.exit.t) || WalkPos(s') == 0)
  {
    hide Filter;
  }

  lemma FinalizedStep(s: State, a: Action, w: set<Obj>)
    requires Nested(s) && Owned(s) && Once(s) && FiniOrder(s, w) && Finalized(s) && Enabled(s, a)
    ensures Finalized(Step(s, a, w))
  {
    hide Nested, Owned, Visits, Once, FiniOrder, Filter, Settled;
    var s' := Step(s, a, w);
    if a.End? {
      OwnedStep(s, a, w);
      FinalizedEnd(s, a.t, w);
    } else if a.ExitRun? || a.ExitSkip? {
      FinalizedWalk(s, a, w);
    } else if a.Begin? {
      BeginFinalized(s, a, w);
    } else if a.ExitDone? {
      assert s.fini[..s.exit.pos] == s.fini[..|s.fini|];
      SettledSame(s, s', s.exit.t);
    } else {
      QuietStep(s, a, w);
      hide Step, Enabled;
      if s.shuttingDown { SettledSame(s, s', s.exit.t); }
    }
  }

  /** Constructors start only before the walk. */
  lemma BeginFinalized(s: State, a: Action, w: set<Obj>)
    requires Finalized(s) && Enabled(s, a) && a.Begin?
    ensures Finalized(Step(s, a, w))
  {
    assert !s.shuttingDown && WalkPos(s) == 0;
  }

  lemma InvStep(s: State, a: Action, w: set<Obj>)
    requires Inv(s, w) && Enabled(s, a)
    ensures Inv(Step(s, a, w), w)
  {
    hide Nested, LockHeld, Owned, Once, Passed, FiniOrder, Finalized;
    NestedStep(s, a, w);
    LockStep(s, a, w);
    OwnedStep(s, a, w);
    OnceStep(s, a, w);
    PassedStep(s, a, w);
    FiniStep(s, a, w);
    FinalizedStep(s, a, w);
  }

  lemma {:induction false} InvAlways(actions: seq<Action>, w: set<Obj>)
    ensures var r := Run(actions, w); r.Some? ==> Inv(r.value, w)
  {
    hide Nested, LockHeld, Owned, Once, Passed, FiniOrder, Finalized;
    if actions == [] {
      InvInit(w);
    } else {
      InvAlways(actions[..|actions| - 1], w);
      var r := Run(actions[..|actions| - 1], w);
      if r.Some? && Enabled(r.value, actions[|actions| - 1]) {
        InvStep(r.value, actions[|actions| - 1], w);
      }
    }
  }

  lemma InvInit(w: set<Obj>)
    ensures Inv(INIT, w)
  {
  }

  // ----- What the protocol promises, over every run -----

  /** Each object's constructors start at most once. */
  lemma ConstructedAtMostOnce(actions: seq<Action>, w: set<Obj>, i: nat, j: nat)
    requires Run(actions, w).Some? && i < j < |Run(actions, w).value.starts|
    ensures Run(actions, w).value.starts[i] != Run(actions, w).value.starts[j]
  {
    InvAlways(actions, w);
  }

  /** No call passes a queue entry before it is constructed, unless its own thread is
      constructing it; in particular a call that returns leaves its whole queue so. */
  lemma EntriesSettled(actions: seq<Action>, w: set<Obj>, t: Tid, k: nat, m: nat)
    requires Run(actions, w).Some? && k < |Stack(Run(actions, w).value, t)|
    requires m < Stack(Run(actions, w).value, t)[k].i
    ensures m < |Stack(Run(actions, w).value, t)[k].queue|
    ensures Settled(Run(actions, w).value, t, Stack(Run(actions, w).value, t)[k].queue[m])
  {
    InvAlways(actions, w);
    var s := Run(actions, w).value;
    var f := Stack(s, t)[k];
    assert WellNested(Stack(s, t));
    assert PassedBy(s, t, f);
  }

  /** A thread waits only for an object that another thread is constructing, or for the process to exit. */
  lemma WaitsForWork(actions: seq<Action>, w: set<Obj>, t: Tid)
    requires Run(actions, w).Some? && Enabled(Run(actions, w).value, Wait(t))
    ensures var s := Run(actions, w).value;
            s.shuttingDown || exists t' :: t' != t && Entry(s, t) in Visits(Stack(s, t'))
  {
    InvAlways(actions, w);
    var s := Run(actions, w).value;
    var p := Entry(s, t);
    if !s.shuttingDown {
      assert OwnedBy(s, s.visitor[p], Visits(Stack(s, s.visitor[p])));
    }
  }

  lemma {:induction false} FilterPrefix(xs: seq<Obj>, k: nat, keep: set<Obj>)
    requires k <= |xs|
    ensures Filter(xs[..k], keep) <= Filter(xs, keep)
  {
    if k > 0 {
      FilterPrefix(xs[1..], k - 1, keep);
      assert xs[..k][1..] == xs[1..][..k - 1];
    }
  }

  /** At every moment the finalizers that ran are a prefix of the constructed objects in the
      reverse of the order in which their constructors started, each once. */
  lemma FinalizedInReverse(actions: seq<Action>, w: set<Obj>)
    requires Run(actions, w).Some?
    ensures var s := Run(actions, w).value;
            s.finalized <= Filter(Reverse(Filter(s.starts, w)), s.constructed) && Distinct(s.finalized)
  {
    InvAlways(actions, w);
    var s := Run(actions, w).value;
    FiniDistinct(s, w);
    FilterPrefix(s.fini, WalkPos(s), s.constructed);
    FilterMembers(s.fini, s.constructed);
  }

  lemma FiniDistinct(s: State, w: set<Obj>)
    requires Once(s) && FiniOrder(s, w)
    ensures Distinct(s.fini) && forall p :: p in s.fini <==> p in s.starts && p in w
  {
    FilterMembers(s.starts, w);
    ReverseAt(Filter(s.starts, w));
    var xs := Filter(s.starts, w);
    forall p | p in xs ensures p in s.fini {
      var k :| 0 <= k < |xs| && xs[k] == p;
      assert s.fini[|xs| - 1 - k] == p;
    }
  }

  /** When the exit walk ends, it has finalized every constructed object, and any other
      object that started is one the exiting thread itself was constructing. */
  lemma FinalizedAll(actions: seq<Action>, w: set<Obj>)
    requires Run(actions, w).Some? && Run(actions, w).value.exit.Exited?
    ensures var s := Run(actions, w).value;
            && s.finalized == Filter(Reverse(Filter(s.starts, w)), s.constructed)
            && forall p :: p in s.starts && p in w && p !in s.finalized ==> p in s.visitor && s.visitor[p] == s.exit.t
  {
    InvAlways(actions, w);
    var s := Run(actions, w).value;
    FiniDistinct(s, w);
    hide Nested, Owned, LockHeld, Passed, Once, Reverse;
    assert s.fini[..|s.fini|] == s.fini;
    FilterMembers(s.fini, s.constructed);
    forall p | p in s.starts && p in w && p !in s.finalized ensures p in s.visitor && s.visitor[p] == s.exit.t {
      var k :| 0 <= k < |s.fini| && s.fini[k] == p;
      assert Settled(s, s.exit.t, s.fini[k]);
    }
  }

  /** With queues as the sort makes them, an object's constructors start only when each of its
      dependencies is constructed, is being constructed further up the same thread's stack, or
      depends on it in turn: in every interleaving, with any nesting. */
  lemma DependenciesFirst(actions: seq<Action>, w: set<Obj>, t: Tid, g: Graph<Obj>, root: Obj, q: Obj)
    requires Run(actions, w).Some? && Enabled(Run(actions, w).value, Begin(t))
    requires CtorQueue.CtorOrder(g, root, Top(Run(actions, w).value, t).queue)
    requires var p := Entry(Run(actions, w).value, t); p in g && q in g[p]
    ensures var s := Run(actions, w).value; Settled(s, t, q) || Reaches(g, q, Entry(s, t))
  {
    InvAlways(actions, w);
    var s := Run(actions, w).value;
    hide Nested, Owned, LockHeld, Once, FiniOrder, Finalized;
    var f := Top(s, t);
    var p := Entry(s, t);
    ReachesEdge(g, root, p, q);
    var n: nat :| q in Walk(g, root, n);
    assert q in Members(f.queue);
    var j :| 0 <= j < |f.queue| && f.queue[j] == q;
    if j < f.i {
      assert PassedBy(s, t, f);
    } else if j == f.i {
      ReachesSelf(g, p);
    }
  }
}
